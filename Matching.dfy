/**
 * What one search computes, stated as functions: the regular expressions a
 * query compiles to, the path match of a directory (MatchPath without its
 * cache), the match of one file (MatchFile), the outcome of visiting one file,
 * and the collection of the yielded results with an optional early stop (the
 * callback of Search, and Find's EndBlockException).
 */
module Matching {
  import opened Results
  import opened Strings
  import opened Patterns
  import opened Scoring
  import opened Paths
  import opened Entries

  /** MatchFileResult without its Name field, which the finder never assigns. */
  datatype MatchFileResult = MatchFileResult(
    path: string,
    abbr: string,
    directory: string,
    highlightedDirectory: string,
    highlightedName: string,
    highlightedPath: string,
    score: real)

  /** The directory parts of a query: its separator-split pieces without the last, which Pop removes. */
  function PathParts(pattern: string, sep: char): (r: seq<string>)
    ensures |r| == |Split(pattern, sep)| - 1
  {
    var parts := Split(pattern, sep);
    parts[..|parts| - 1]
  }

  /** The path regex of a query: only when directory parts remain, built case-insensitively from them. */
  function PathRegexOf(pattern: string, sep: char): Option<Regex>
  {
    var parts := PathParts(pattern, sep);
    if |parts| > 0 then Some(Regex(MakePathPattern(parts, sep).value, true)) else None
  }

  /** The file regex of a query: built from the whole query, directory parts and separators included. */
  function FileRegexOf(pattern: string, sep: char): Regex
  {
    Regex("^(.*?)" + PatternText(pattern, sep) + "(.*)$", true)
  }

  /**
   * The path match of a directory name: the shared prefix is stripped; without
   * a path regex the directory matches with score 1, a regex miss is a missed
   * match with score 1, and a hit is scored over the path segments.
   */
  function PathMatchOf(name: string, prefix: string, sep: char, pathRegex: Option<Regex>,
                       pathSegments: int, matcher: Matcher): Result<MatchResult>
  {
    match MatchableName(name, prefix, sep)
    case Err(e) => Err(e)
    case Ok(matchable) =>
      if pathRegex.None? then Ok(MatchResult(1.0, matchable, false))
      else
        var found := matcher(pathRegex.value, matchable);
        if found.length > 0 then Ok(MatchResultOf(found.captures, pathSegments, sep))
        else Ok(MatchResult(1.0, matchable, true))
  }

  /** Every cached path match is the one PathMatchOf computes for its directory. */
  predicate CacheSound(entries: map<Directory, MatchResult>, prefix: string, sep: char,
                       pathRegex: Option<Regex>, pathSegments: int, matcher: Matcher)
  {
    forall d :: d in entries ==> PathMatchOf(d.name, prefix, sep, pathRegex, pathSegments, matcher) == Ok(entries[d])
  }

  /** Caching a directory's own path match keeps the cache sound. */
  lemma CacheSoundInsert(entries: map<Directory, MatchResult>, d: Directory, m: MatchResult, prefix: string,
                         sep: char, pathRegex: Option<Regex>, pathSegments: int, matcher: Matcher)
    requires CacheSound(entries, prefix, sep, pathRegex, pathSegments, matcher)
    requires PathMatchOf(d.name, prefix, sep, pathRegex, pathSegments, matcher) == Ok(m)
    ensures CacheSound(entries[d := m], prefix, sep, pathRegex, pathSegments, matcher)
  {
  }

  /**
   * MatchFile: when the file name matches, the result joins the directory's
   * highlighted text with the file's, abbreviates the directory, and multiplies
   * the two scores; no match yields nothing.
   */
  function MatchFileOf(file: FileSystemEntry, fileRegex: Regex, pathMatch: MatchResult,
                       sep: char, volumeSep: char, matcher: Matcher): Result<Option<MatchFileResult>>
  {
    var found := matcher(fileRegex, file.name);
    if found.length == 0 then Ok(None)
    else
      match EntryPath(file, sep, volumeSep)
      case Err(e) => Err(e)
      case Ok(path) => Ok(Some(FileMatch(file, path, pathMatch, MatchResultOf(found.captures, 1, sep), sep, volumeSep)))
  }

  /** The MatchFileResult of a file whose name matched, given its path match and its name match. */
  function FileMatch(file: FileSystemEntry, path: string, pathMatch: MatchResult, named: MatchResult,
                     sep: char, volumeSep: char): MatchFileResult
    requires file.parent != null
  {
    var dir := pathMatch.result;
    var highlightedPath := if dir == "" then named.result else Combine(dir, named.result, sep, volumeSep);
    var shortened := Abbreviate(dir);
    var abbr := if shortened == "" then named.result else Combine(shortened, named.result, sep, volumeSep);
    MatchFileResult(path, abbr, file.parent.name, dir, named.result, highlightedPath, pathMatch.score * named.score)
  }

  /**
   * Visiting one file in Search: its parent's path match (a null parent is a
   * null dictionary key), then the file match unless the path match missed.
   */
  function FileOutcome(file: FileSystemEntry, prefix: string, sep: char, volumeSep: char,
                       pathRegex: Option<Regex>, pathSegments: int, fileRegex: Regex,
                       matcher: Matcher): Result<Option<MatchFileResult>>
  {
    if file.parent == null then Err(ArgumentNull)
    else
      match PathMatchOf(file.parent.name, prefix, sep, pathRegex, pathSegments, matcher)
      case Err(e) => Err(e)
      case Ok(pathMatch) =>
        if pathMatch.missed then Ok(None)
        else MatchFileOf(file, fileRegex, pathMatch, sep, volumeSep, matcher)
  }

  /** The outcome of every file, in the order of the file list. */
  function Outcomes(files: seq<FileSystemEntry>, prefix: string, sep: char, volumeSep: char,
                    pathRegex: Option<Regex>, pathSegments: int, fileRegex: Regex,
                    matcher: Matcher): (r: seq<Result<Option<MatchFileResult>>>)
    ensures |r| == |files|
    ensures forall i :: 0 <= i < |r| ==>
              r[i] == FileOutcome(files[i], prefix, sep, volumeSep, pathRegex, pathSegments, fileRegex, matcher)
  {
    if |files| == 0 then []
    else
      [FileOutcome(files[0], prefix, sep, volumeSep, pathRegex, pathSegments, fileRegex, matcher)]
      + Outcomes(files[1..], prefix, sep, volumeSep, pathRegex, pathSegments, fileRegex, matcher)
  }

  /**
   * Hands the outcomes to the callback in order after acc: an error ends the
   * search, a yielded result is collected, and with a limit the collection
   * stops right after the result that brings it to the limit.
   */
  function Collect(outs: seq<Result<Option<MatchFileResult>>>, acc: seq<MatchFileResult>,
                   limit: Option<int>): Result<seq<MatchFileResult>>
    decreases |outs|
  {
    if |outs| == 0 then Ok(acc)
    else
      match outs[0]
      case Err(e) => Err(e)
      case Ok(None) => Collect(outs[1..], acc, limit)
      case Ok(Some(m)) =>
        var more := acc + [m];
        if limit.Some? && |more| >= limit.value then Ok(more)
        else Collect(outs[1..], more, limit)
  }

  /** The yielded results among the outcomes, in order. */
  function Matched(outs: seq<Result<Option<MatchFileResult>>>): seq<MatchFileResult>
  {
    if |outs| == 0 then []
    else (if outs[0].Ok? && outs[0].value.Some? then [outs[0].value.value] else []) + Matched(outs[1..])
  }

  function Max(a: int, b: int): int { if a >= b then a else b }

  function Min(a: int, b: int): int { if a <= b then a else b }

  // ---------------------------------------------------------------------
  // The query's regular expressions
  // ---------------------------------------------------------------------

  /** Pop always leaves the file part, so line 267's comparison with the separator never holds. */
  lemma LastPartNeverSeparator(pattern: string, sep: char)
    ensures Last(Split(pattern, sep)) != [sep]
  {
    var parts := Split(pattern, sep);
    assert sep !in parts[|parts| - 1];
    assert sep in [sep];
  }

  /** A path regex is built exactly when the query holds a separator. */
  lemma PathRegexIff(pattern: string, sep: char)
    ensures PathRegexOf(pattern, sep).Some? <==> sep in pattern
  {
    SplitSingleIff(pattern, sep);
  }

  /**
   * The path regex is the anchored rendering of the directory parts' groups,
   * and those groups read back to the directory parts in order.
   */
  lemma PathRegexSpellsDirectoryParts(pattern: string, sep: char)
    requires sep in pattern
    ensures PathRegexOf(pattern, sep).Some?
    ensures PathRegexOf(pattern, sep).value.pattern == "^" + Render(PathGroups(PathParts(pattern, sep)), sep) + "$"
    ensures PathRegexOf(pattern, sep).value.ignoreCase
    ensures Segments(JoinedGroups(PathParts(pattern, sep))) == PathParts(pattern, sep)
  {
    PathRegexIff(pattern, sep);
    var parts := PathParts(pattern, sep);
    PathPatternRendersGroups(parts, sep);
    PathGroupsSegmentsRoundTrip(parts);
  }

  /** The file regex is the anchored rendering of groups whose literals spell the whole query. */
  lemma FileRegexSpellsWholeQuery(pattern: string, sep: char)
    ensures FileRegexOf(pattern, sep).pattern == "^" + Render(FileGroups(pattern), sep) + "$"
    ensures Literals(FileGroups(pattern)) == pattern
  {
    FilePatternRendersGroups(pattern, sep);
    FilePatternLiterals(pattern);
  }

  /**
   * Read by its 0-based position among the parenthesised groups, a capture is
   * tagged inside exactly when it is one of the groups that hold the query's
   * characters, in the file regex and, when there is one, in the path regex.
   */
  lemma InsideTagMarksQueryGroups(pattern: string, sep: char)
    ensures forall c: Capture :: c.index < |FileGroups(pattern)| ==>
              (IsInside(c) <==> FileGroups(pattern)[c.index].Literal?)
    ensures sep in pattern ==> |PathParts(pattern, sep)| >= 1
    ensures sep in pattern ==> forall c: Capture :: c.index < |PathGroups(PathParts(pattern, sep))| ==>
              (IsInside(c) <==> PathGroups(PathParts(pattern, sep))[c.index].Literal?)
  {
    FileGroupsLiteralsOdd(pattern);
    if sep in pattern {
      PathRegexIff(pattern, sep);
      PathGroupsLiteralsOdd(PathParts(pattern, sep));
    }
  }

  // ---------------------------------------------------------------------
  // Path matches
  // ---------------------------------------------------------------------

  /**
   * Without a path regex every directory matches, with score 1 and its name
   * relative to the shared prefix, except the directory that is the shared
   * prefix itself, which fails.
   */
  lemma NoPathRegexNeverMisses(name: string, prefix: string, sep: char, pathSegments: int, matcher: Matcher)
    ensures var r := PathMatchOf(name, prefix, sep, None, pathSegments, matcher);
            (r.Err? <==> |prefix| > 0 && name == prefix)
            && (r.Ok? && |prefix| > 0 && prefix + [sep] <= name ==> r.value == MatchResult(1.0, name[|prefix| + 1..], false))
            && (r.Ok? && (|prefix| == 0 || !(prefix + [sep] <= name + [sep])) ==> r.value == MatchResult(1.0, name, false))
  {
    MatchableNameFails(name, prefix, sep);
    if |prefix| > 0 && prefix + [sep] <= name {
      MatchableNameBeneath(name, prefix, sep);
    }
    if |prefix| == 0 || !(prefix + [sep] <= name + [sep]) {
      MatchableNameOutside(name, prefix, sep);
    }
  }

  /**
   * A path match misses exactly when there is a path regex and it does not
   * match the stripped name; a missed match has score 1 and the stripped name.
   */
  lemma MissedIff(name: string, prefix: string, sep: char, pathRegex: Option<Regex>,
                  pathSegments: int, matcher: Matcher)
    requires MatchableName(name, prefix, sep).Ok?
    ensures var m := MatchableName(name, prefix, sep).value;
            var r := PathMatchOf(name, prefix, sep, pathRegex, pathSegments, matcher);
            r.Ok?
            && (r.value.missed <==> pathRegex.Some? && matcher(pathRegex.value, m).length == 0)
            && (r.value.missed ==> r.value == MatchResult(1.0, m, true))
  {
    var m := MatchableName(name, prefix, sep).value;
    if pathRegex.Some? && matcher(pathRegex.value, m).length > 0 {
      assert !MatchResultOf(matcher(pathRegex.value, m).captures, pathSegments, sep).missed;
    }
  }

  // ---------------------------------------------------------------------
  // File matches
  // ---------------------------------------------------------------------

  /**
   * A file directly beneath the shared prefix (relative directory text empty)
   * is shown by its highlighted name alone, as its abbreviation and as its path.
   */
  lemma TopLevelFileShownByName(file: FileSystemEntry, fileRegex: Regex, pathMatch: MatchResult,
                                sep: char, volumeSep: char, matcher: Matcher)
    requires pathMatch.result == ""
    requires MatchFileOf(file, fileRegex, pathMatch, sep, volumeSep, matcher).Ok?
    requires MatchFileOf(file, fileRegex, pathMatch, sep, volumeSep, matcher).value.Some?
    ensures var m := MatchFileOf(file, fileRegex, pathMatch, sep, volumeSep, matcher).value.value;
            m.abbr == m.highlightedName && m.highlightedPath == m.highlightedName
  {
    assert Abbreviate("") == "";
  }

  /**
   * Otherwise the abbreviation and the highlighted path both end with the
   * highlighted name after the (abbreviated) directory and a separator, and the
   * abbreviation's '/'-components are the directory's, shortened.
   */
  lemma NestedFileAbbreviated(file: FileSystemEntry, fileRegex: Regex, pathMatch: MatchResult,
                              sep: char, volumeSep: char, matcher: Matcher)
    requires pathMatch.result != ""
    requires MatchFileOf(file, fileRegex, pathMatch, sep, volumeSep, matcher).Ok?
    requires MatchFileOf(file, fileRegex, pathMatch, sep, volumeSep, matcher).value.Some?
    ensures var m := MatchFileOf(file, fileRegex, pathMatch, sep, volumeSep, matcher).value.value;
            m.highlightedDirectory == pathMatch.result
            && m.highlightedPath == Combine(pathMatch.result, m.highlightedName, sep, volumeSep)
            && m.abbr == Combine(Abbreviate(pathMatch.result), m.highlightedName, sep, volumeSep)
            && Split(Abbreviate(m.highlightedDirectory), Slash) == ShortenAll(Split(m.highlightedDirectory, Slash))
  {
    AbbreviateEmptyIff(pathMatch.result);
    AbbreviateSplits(pathMatch.result);
  }

  /**
   * The highlighted name, with its parentheses removed, is the text the file
   * regex matched, and a name match needs a parent.
   */
  lemma HighlightedNameUnwraps(file: FileSystemEntry, fileRegex: Regex, pathMatch: MatchResult,
                               sep: char, volumeSep: char, matcher: Matcher)
    requires forall i :: 0 <= i < |matcher(fileRegex, file.name).captures| ==>
               '(' !in matcher(fileRegex, file.name).captures[i].value
               && ')' !in matcher(fileRegex, file.name).captures[i].value
    requires MatchFileOf(file, fileRegex, pathMatch, sep, volumeSep, matcher).Ok?
    requires MatchFileOf(file, fileRegex, pathMatch, sep, volumeSep, matcher).value.Some?
    ensures file.parent != null
    ensures Without(Without(MatchFileOf(file, fileRegex, pathMatch, sep, volumeSep, matcher).value.value.highlightedName,
                            '('), ')')
            == Values(matcher(fileRegex, file.name).captures)
  {
    MatchFileName(file, fileRegex, pathMatch, sep, volumeSep, matcher);
    UnwrappedText(matcher(fileRegex, file.name).captures, sep);
  }

  /** A yielded file match has a parent and carries the name match's highlighted text. */
  lemma MatchFileName(file: FileSystemEntry, fileRegex: Regex, pathMatch: MatchResult,
                      sep: char, volumeSep: char, matcher: Matcher)
    requires MatchFileOf(file, fileRegex, pathMatch, sep, volumeSep, matcher).Ok?
    requires MatchFileOf(file, fileRegex, pathMatch, sep, volumeSep, matcher).value.Some?
    ensures file.parent != null
    ensures MatchFileOf(file, fileRegex, pathMatch, sep, volumeSep, matcher).value.value.highlightedName
            == MatchResultOf(matcher(fileRegex, file.name).captures, 1, sep).result
  {
    MatchFileFields(file, fileRegex, pathMatch, sep, volumeSep, matcher);
    FileMatchNameScore(file, Combine(file.parent.name, file.name, sep, volumeSep), pathMatch,
                       MatchResultOf(matcher(fileRegex, file.name).captures, 1, sep), sep, volumeSep);
  }

  /** A file match carries the name match's highlighted text and the product of the scores. */
  lemma FileMatchNameScore(file: FileSystemEntry, path: string, pathMatch: MatchResult, named: MatchResult,
                           sep: char, volumeSep: char)
    requires file.parent != null
    ensures FileMatch(file, path, pathMatch, named, sep, volumeSep).highlightedName == named.result
    ensures FileMatch(file, path, pathMatch, named, sep, volumeSep).score == pathMatch.score * named.score
  {
  }

  /**
   * The score of a file match, the product of its directory's and its name's
   * scores, stays in [0, 1] when both do, and exceeds neither of them.
   */
  lemma FileMatchScoreBounds(file: FileSystemEntry, path: string, pathMatch: MatchResult, named: MatchResult,
                             sep: char, volumeSep: char)
    requires file.parent != null
    requires 0.0 <= pathMatch.score <= 1.0 && 0.0 <= named.score <= 1.0
    ensures var score := FileMatch(file, path, pathMatch, named, sep, volumeSep).score;
            0.0 <= score <= 1.0 && score <= pathMatch.score && score <= named.score
  {
    var a, b := pathMatch.score, named.score;
    var score := FileMatch(file, path, pathMatch, named, sep, volumeSep).score;
    assert score == a * b by {
      FileMatchNameScore(file, path, pathMatch, named, sep, volumeSep);
    }
    ProductBounds(a, b);
    assert 0.0 <= score && score <= a && score <= b;
    assert score <= 1.0;
  }

  /** Multiplying two numbers in [0, 1] gives a number in [0, 1] that exceeds neither. */
  lemma ProductBounds(a: real, b: real)
    requires 0.0 <= a <= 1.0 && 0.0 <= b <= 1.0
    ensures 0.0 <= a * b <= a && a * b <= b
  {
    assert a * b <= a * 1.0;
    assert a * b <= 1.0 * b;
  }

  /** The fields of a yielded file match, one by one. */
  lemma MatchFileFields(file: FileSystemEntry, fileRegex: Regex, pathMatch: MatchResult,
                        sep: char, volumeSep: char, matcher: Matcher)
    requires MatchFileOf(file, fileRegex, pathMatch, sep, volumeSep, matcher).Ok?
    requires MatchFileOf(file, fileRegex, pathMatch, sep, volumeSep, matcher).value.Some?
    ensures file.parent != null && matcher(fileRegex, file.name).length > 0
    ensures MatchFileOf(file, fileRegex, pathMatch, sep, volumeSep, matcher).value.value
            == FileMatch(file, Combine(file.parent.name, file.name, sep, volumeSep), pathMatch,
                         MatchResultOf(matcher(fileRegex, file.name).captures, 1, sep), sep, volumeSep)
  {
  }

  /** The highlighted text of a match, without parentheses, is the matched text when no capture holds one. */
  lemma UnwrappedText(cs: seq<Capture>, sep: char)
    requires forall i :: 0 <= i < |cs| ==> '(' !in cs[i].value && ')' !in cs[i].value
    ensures Without(Without(MatchResultOf(cs, 1, sep).result, '('), ')') == Values(cs)
  {
    var runs := TallyOf(cs, sep).runs;
    RunsAvoid(cs, sep, '(');
    RunsAvoid(cs, sep, ')');
    RenderUnwraps(runs);
    TallyTexts(cs, sep);
  }

  /** A character that no capture holds is in no run. */
  lemma {:induction false} RunsAvoid(cs: seq<Capture>, sep: char, ch: char)
    requires forall i :: 0 <= i < |cs| ==> ch !in cs[i].value
    ensures forall i :: 0 <= i < |TallyOf(cs, sep).runs| ==> ch !in TallyOf(cs, sep).runs[i].text
    decreases |cs|
  {
    if |cs| > 0 {
      var init, c := cs[..|cs| - 1], cs[|cs| - 1];
      RunsAvoid(init, sep, ch);
      var before := TallyOf(init, sep).runs;
      assert ch !in c.value;
      if |c.value| > 0 && |before| > 0 && before[|before| - 1].inside == IsInside(c) {
        assert ch !in before[|before| - 1].text + c.value;
      }
    }
  }

  // ---------------------------------------------------------------------
  // Visiting files
  // ---------------------------------------------------------------------

  /** A file with no parent (a path without a separator) makes Search fail. */
  lemma ParentlessFileFails(file: FileSystemEntry, prefix: string, sep: char, volumeSep: char,
                            pathRegex: Option<Regex>, pathSegments: int, fileRegex: Regex, matcher: Matcher)
    requires file.parent == null
    ensures FileOutcome(file, prefix, sep, volumeSep, pathRegex, pathSegments, fileRegex, matcher) == Err(ArgumentNull)
  {
  }

  /** A file whose directory is the (non-empty) shared prefix makes Search fail as well. */
  lemma FileInPrefixDirectoryFails(file: FileSystemEntry, prefix: string, sep: char, volumeSep: char,
                                   pathRegex: Option<Regex>, pathSegments: int, fileRegex: Regex, matcher: Matcher)
    requires file.parent != null && |prefix| > 0 && file.parent.name == prefix
    ensures FileOutcome(file, prefix, sep, volumeSep, pathRegex, pathSegments, fileRegex, matcher)
            == Err(ArgumentOutOfRange)
  {
    MatchableNameFails(file.parent.name, prefix, sep);
  }

  /**
   * A visited file yields nothing exactly when its directory's path match
   * missed or the file regex does not match its name.
   */
  lemma NothingYieldedIff(file: FileSystemEntry, prefix: string, sep: char, volumeSep: char,
                          pathRegex: Option<Regex>, pathSegments: int, fileRegex: Regex, matcher: Matcher)
    requires file.parent != null
    requires PathMatchOf(file.parent.name, prefix, sep, pathRegex, pathSegments, matcher).Ok?
    ensures var pathMatch := PathMatchOf(file.parent.name, prefix, sep, pathRegex, pathSegments, matcher).value;
            FileOutcome(file, prefix, sep, volumeSep, pathRegex, pathSegments, fileRegex, matcher) == Ok(None)
            <==> pathMatch.missed || matcher(fileRegex, file.name).length == 0
  {
  }

  // ---------------------------------------------------------------------
  // Collecting results
  // ---------------------------------------------------------------------

  /** Handing over the outcome at i: an error ends the collection, nothing moves on, a result is collected. */
  lemma CollectStep(outs: seq<Result<Option<MatchFileResult>>>, i: nat, acc: seq<MatchFileResult>, limit: Option<int>)
    requires i < |outs|
    ensures outs[i].Err? ==> Collect(outs[i..], acc, limit) == Err(outs[i].error)
    ensures outs[i] == Ok(None) ==> Collect(outs[i..], acc, limit) == Collect(outs[i + 1..], acc, limit)
    ensures outs[i].Ok? && outs[i].value.Some? ==>
              var more := acc + [outs[i].value.value];
              Collect(outs[i..], acc, limit)
              == if limit.Some? && |more| >= limit.value then Ok(more) else Collect(outs[i + 1..], more, limit)
  {
    assert outs[i..][1..] == outs[i + 1..];
  }

  /**
   * Without a limit, the collection succeeds exactly when no outcome is an
   * error, and then holds every yielded result in order.
   */
  lemma {:induction false} CollectAll(outs: seq<Result<Option<MatchFileResult>>>, acc: seq<MatchFileResult>)
    ensures Collect(outs, acc, None).Ok? <==> forall i :: 0 <= i < |outs| ==> outs[i].Ok?
    ensures Collect(outs, acc, None).Ok? ==> Collect(outs, acc, None).value == acc + Matched(outs)
    decreases |outs|
  {
    if |outs| > 0 {
      var rest := outs[1..];
      CollectAll(rest, if outs[0].Ok? && outs[0].value.Some? then acc + [outs[0].value.value] else acc);
      assert forall i :: 0 < i < |outs| ==> outs[i] == rest[i - 1];
      if outs[0].Ok? && outs[0].value.Some? {
        assert acc + [outs[0].value.value] + Matched(rest) == acc + Matched(outs);
      }
    }
  }

  /**
   * With a limit, a successful collection extends acc by a prefix of the
   * yielded results, stops at max(limit, |acc| + 1) results, and is short of
   * that bound only when it has taken every yielded result.
   */
  lemma {:induction false} CollectLimited(outs: seq<Result<Option<MatchFileResult>>>, acc: seq<MatchFileResult>,
                                          limit: int, rs: seq<MatchFileResult>)
    requires Collect(outs, acc, Some(limit)) == Ok(rs)
    ensures acc <= rs && rs <= acc + Matched(outs)
    ensures |rs| <= Max(limit, |acc| + 1)
    ensures |rs| < Max(limit, |acc| + 1) ==> rs == acc + Matched(outs)
    decreases |outs|
  {
    if |outs| > 0 {
      var rest, head := outs[1..], outs[0];
      assert head.Ok?;
      if head.value.None? {
        assert Matched(outs) == Matched(rest);
        assert Collect(rest, acc, Some(limit)) == Ok(rs);
        CollectLimited(rest, acc, limit, rs);
      } else {
        var more := acc + [head.value.value];
        assert acc + Matched(outs) == more + Matched(rest) by {
          assert Matched(outs) == [head.value.value] + Matched(rest);
        }
        if |more| < limit {
          assert Collect(rest, more, Some(limit)) == Ok(rs);
          CollectLimited(rest, more, limit, rs);
        } else {
          assert rs == more;
        }
      }
    }
  }

  /**
   * Find's results are the first max(max, 1) results of an unlimited search
   * whenever that search succeeds.
   */
  lemma FindIsPrefixOfSearch(outs: seq<Result<Option<MatchFileResult>>>, limit: int, all: seq<MatchFileResult>)
    requires Collect(outs, [], None) == Ok(all)
    ensures Collect(outs, [], Some(limit)) == Ok(all[..Min(|all|, Max(limit, 1))])
  {
    LimitedFromAll(outs, [], limit, all);
  }

  lemma {:induction false} LimitedFromAll(outs: seq<Result<Option<MatchFileResult>>>, acc: seq<MatchFileResult>,
                                          limit: int, all: seq<MatchFileResult>)
    requires Collect(outs, acc, None) == Ok(all)
    requires |acc| < Max(limit, 1)
    ensures acc <= all
    ensures Collect(outs, acc, Some(limit)) == Ok(all[..Min(|all|, Max(limit, |acc| + 1))])
    decreases |outs|
  {
    CollectAll(outs, acc);
    if |outs| > 0 {
      var rest := outs[1..];
      match outs[0]
      case Ok(None) =>
        LimitedFromAll(rest, acc, limit, all);
      case Ok(Some(m)) =>
        var more := acc + [m];
        CollectAll(rest, more);
        if |more| < limit {
          LimitedFromAll(rest, more, limit, all);
        } else {
          assert all[..|more|] == more;
        }
    } else {
      assert all == acc;
    }
  }
}
