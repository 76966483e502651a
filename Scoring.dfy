/**
 * BuildMatchResult: how the captures of one regular-expression match become
 * highlighted character runs and a score.
 *
 * The regular-expression engine is not modelled: a match is the sequence of
 * its captures, each an (index, value) pair, and the loop tags a capture as
 * "inside" when its index is odd. The model reads that sequence as the match's
 * parenthesised groups in order, the index being the group's 0-based position
 * among them (the .NET group number minus one). In both patterns the finder
 * builds, the odd positions are then exactly the groups holding the query's
 * characters and the even ones the text between them
 * (Matching.InsideTagMarksQueryGroups).
 * Runs of consecutive captures with the same tag are merged, and the inside
 * runs are wrapped in parentheses. What the loop gives on the one whole-match
 * capture that Match.Captures holds is WholeMatchCaptureScoresZero.
 */
module Scoring {
  import opened Strings

  datatype Capture = Capture(index: nat, value: string)

  /** The result of one regular-expression match: its length and its captures. */
  datatype RegexMatch = RegexMatch(length: nat, captures: seq<Capture>)

  /** A compiled regular expression: its source text and whether it ignores case. */
  datatype Regex = Regex(pattern: string, ignoreCase: bool)

  /** The regular-expression engine: Regex.Match of a text. */
  type Matcher = (Regex, string) -> RegexMatch

  /** CharacterRun: a stretch of matched text, inside the query or between its characters. */
  datatype CharacterRun = CharacterRun(text: string, inside: bool)

  /** MatchResult: the score, the highlighted text and whether the match missed. */
  datatype MatchResult = MatchResult(score: real, result: string, missed: bool)

  /**
   * The loop's tag: a capture with an odd index counts as inside the query.
   * Read as 0-based group positions, the odd ones are the literal groups that
   * hold the query's characters.
   */
  predicate IsInside(c: Capture)
  {
    c.index % 2 != 0
  }

  /** CharacterRun.ToString: inside runs are wrapped in parentheses. */
  function RunToString(run: CharacterRun): string
  {
    if run.inside then "(" + run.text + ")" else run.text
  }

  /** String.Join("", runs.Select(x => x.ToString())). */
  function RenderRuns(runs: seq<CharacterRun>): string
  {
    if |runs| == 0 then "" else RenderRuns(runs[..|runs| - 1]) + RunToString(runs[|runs| - 1])
  }

  /** The text of the runs, without highlighting. */
  function Texts(runs: seq<CharacterRun>): string
  {
    if |runs| == 0 then "" else Texts(runs[..|runs| - 1]) + runs[|runs| - 1].text
  }

  /** The text of the inside runs. */
  function InsideTexts(runs: seq<CharacterRun>): string
  {
    if |runs| == 0 then ""
    else InsideTexts(runs[..|runs| - 1]) + (if runs[|runs| - 1].inside then runs[|runs| - 1].text else "")
  }

  function InsideRunCount(runs: seq<CharacterRun>): nat
  {
    if |runs| == 0 then 0
    else InsideRunCount(runs[..|runs| - 1]) + (if runs[|runs| - 1].inside then 1 else 0)
  }

  /** The matched text: all capture values in order. */
  function Values(cs: seq<Capture>): string
  {
    if |cs| == 0 then "" else Values(cs[..|cs| - 1]) + cs[|cs| - 1].value
  }

  /** The values of the inside captures in order. */
  function InsideValues(cs: seq<Capture>): string
  {
    if |cs| == 0 then ""
    else InsideValues(cs[..|cs| - 1]) + (if IsInside(cs[|cs| - 1]) then cs[|cs| - 1].value else "")
  }

  /** Neighbouring runs differ in their tag. */
  predicate Alternating(runs: seq<CharacterRun>)
  {
    forall i :: 0 < i < |runs| ==> runs[i - 1].inside != runs[i].inside
  }

  predicate NonEmptyRuns(runs: seq<CharacterRun>)
  {
    forall i :: 0 <= i < |runs| ==> |runs[i].text| > 0
  }

  /** The state of BuildMatchResult's loop: the runs so far and the two character counts. */
  datatype Tally = Tally(runs: seq<CharacterRun>, insideChars: nat, totalChars: nat)

  /** One iteration of BuildMatchResult's loop. */
  function Step(t: Tally, c: Capture, sep: char): Tally
  {
    if |c.value| == 0 then t
    else
      var inside := IsInside(c);
      var total := t.totalChars + |Without(c.value, sep)|;
      var insideChars := if inside then t.insideChars + |c.value| else t.insideChars;
      var runs := t.runs;
      if |runs| > 0 && runs[|runs| - 1].inside == inside then
        Tally(runs[..|runs| - 1] + [CharacterRun(runs[|runs| - 1].text + c.value, inside)], insideChars, total)
      else
        Tally(runs + [CharacterRun(c.value, inside)], insideChars, total)
  }

  /** The loop state after the given captures; its runs alternate and are never empty. */
  function TallyOf(cs: seq<Capture>, sep: char): (t: Tally)
    ensures Alternating(t.runs) && NonEmptyRuns(t.runs)
  {
    if |cs| == 0 then Tally([], 0, 0) else Step(TallyOf(cs[..|cs| - 1], sep), cs[|cs| - 1], sep)
  }

  /** The score: run ratio times character ratio, each 1 when its denominator is 0. */
  function Score(runCount: nat, insideSegments: int, insideChars: nat, totalChars: nat): real
  {
    var runRatio := if runCount == 0 then 1.0 else insideSegments as real / runCount as real;
    var charRatio := if totalChars == 0 then 1.0 else insideChars as real / totalChars as real;
    runRatio * charRatio
  }

  /** What BuildMatchResult returns for the captures of a match. */
  function MatchResultOf(cs: seq<Capture>, insideSegments: int, sep: char): (r: MatchResult)
    ensures !r.missed
  {
    var t := TallyOf(cs, sep);
    MatchResult(Score(|t.runs|, insideSegments, t.insideChars, t.totalChars), RenderRuns(t.runs), false)
  }

  /**
   * Match.Captures of a whole match is one capture, at text offset 0, holding
   * the whole matched text. Read as the loop reads captures, that is a single
   * outside run: nothing is highlighted and the score is 0.
   */
  lemma WholeMatchCaptureScoresZero(s: string, insideSegments: int, sep: char)
    requires |s| > 0 && sep !in s
    ensures MatchResultOf([Capture(0, s)], insideSegments, sep) == MatchResult(0.0, s, false)
  {
    var t := TallyOf([Capture(0, s)], sep);
    assert t == Tally([CharacterRun(s, false)], 0, |s|) by {
      OneOutsideCapture(s, sep);
    }
    assert RenderRuns(t.runs) == s by {
      assert t.runs[..0] == [];
    }
    assert Score(1, insideSegments, 0, |s|) == 0.0 by {
      NoInsideCharsScoresZero(1, insideSegments, |s|);
    }
  }

  /** A single outside capture is one outside run, with no inside characters. */
  lemma OneOutsideCapture(s: string, sep: char)
    requires |s| > 0 && sep !in s
    ensures TallyOf([Capture(0, s)], sep) == Tally([CharacterRun(s, false)], 0, |s|)
  {
    var cs := [Capture(0, s)];
    assert cs[..0] == [];
    assert TallyOf(cs[..0], sep) == Tally([], 0, 0);
    assert !IsInside(cs[0]) && Without(s, sep) == s;
  }

  /** Without inside characters among counted ones, the character ratio, and so the score, is 0. */
  lemma NoInsideCharsScoresZero(runCount: nat, insideSegments: int, totalChars: nat)
    requires totalChars > 0
    ensures Score(runCount, insideSegments, 0, totalChars) == 0.0
  {
    assert 0 as real / totalChars as real == 0.0;
  }

  /**
   * BuildMatchResult: skips empty captures, counts the separator-free characters
   * of every capture and the characters of the inside ones, and appends each
   * capture to the last run when the tags agree or as a new run otherwise.
   */
  method BuildMatchResult(captures: seq<Capture>, insideSegments: int, sep: char) returns (r: MatchResult)
    ensures r == MatchResultOf(captures, insideSegments, sep)
  {
    var runs: seq<CharacterRun> := [];
    var insideChars: nat := 0;
    var totalChars: nat := 0;
    for i := 0 to |captures|
      invariant Tally(runs, insideChars, totalChars) == TallyOf(captures[..i], sep)
    {
      ghost var before := Tally(runs, insideChars, totalChars);
      var capture := captures[i];
      if |capture.value| > 0 {
        var inside := capture.index % 2 != 0;
        totalChars := totalChars + |Without(capture.value, sep)|;
        if inside {
          insideChars := insideChars + |capture.value|;
        }
        if |runs| > 0 && runs[|runs| - 1].inside == inside {
          runs := runs[..|runs| - 1] + [CharacterRun(runs[|runs| - 1].text + capture.value, inside)];
        } else {
          runs := runs + [CharacterRun(capture.value, inside)];
        }
      }
      assert Tally(runs, insideChars, totalChars) == Step(before, capture, sep);
      assert TallyOf(captures[..i + 1], sep) == Step(TallyOf(captures[..i], sep), capture, sep) by {
        assert captures[..i + 1][..i] == captures[..i];
      }
    }
    assert captures[..|captures|] == captures;
    r := MatchResult(Score(|runs|, insideSegments, insideChars, totalChars), RenderRuns(runs), false);
  }

  /** One loop step extends the run text by the capture's value. */
  lemma StepTexts(t: Tally, c: Capture, sep: char)
    ensures Texts(Step(t, c, sep).runs) == Texts(t.runs) + c.value
  {
    var runs, inside := t.runs, IsInside(c);
    if |c.value| == 0 {
      assert c.value == "";
      assert Texts(runs) + c.value == Texts(runs);
    } else if |runs| > 0 && runs[|runs| - 1].inside == inside {
      var prefix, last := runs[..|runs| - 1], runs[|runs| - 1];
      var merged := prefix + [CharacterRun(last.text + c.value, inside)];
      assert Step(t, c, sep).runs == merged;
      assert merged[..|merged| - 1] == prefix;
      assert Texts(runs) == Texts(prefix) + last.text;
      assert Texts(merged) == Texts(prefix) + (last.text + c.value);
    } else {
      var grown := runs + [CharacterRun(c.value, inside)];
      assert Step(t, c, sep).runs == grown;
      assert grown[..|runs|] == runs;
    }
  }

  /** One loop step extends the inside text by the capture's value exactly when the capture is inside. */
  lemma StepInside(t: Tally, c: Capture, sep: char)
    ensures InsideTexts(Step(t, c, sep).runs) == InsideTexts(t.runs) + (if IsInside(c) then c.value else "")
  {
    var runs, inside := t.runs, IsInside(c);
    if |c.value| == 0 {
      assert c.value == "";
      assert InsideTexts(runs) + "" == InsideTexts(runs);
    } else if |runs| > 0 && runs[|runs| - 1].inside == inside {
      var prefix, last := runs[..|runs| - 1], runs[|runs| - 1];
      var merged := prefix + [CharacterRun(last.text + c.value, inside)];
      assert Step(t, c, sep).runs == merged;
      assert merged[..|merged| - 1] == prefix;
      if inside {
        assert InsideTexts(runs) == InsideTexts(prefix) + last.text;
        assert InsideTexts(merged) == InsideTexts(prefix) + (last.text + c.value);
      } else {
        assert InsideTexts(merged) == InsideTexts(prefix) == InsideTexts(runs);
      }
    } else {
      var grown := runs + [CharacterRun(c.value, inside)];
      assert Step(t, c, sep).runs == grown;
      assert grown[..|runs|] == runs;
    }
  }

  /** The runs spell out the matched text in order. */
  lemma {:induction false} TallyTexts(cs: seq<Capture>, sep: char)
    ensures Texts(TallyOf(cs, sep).runs) == Values(cs)
    decreases |cs|
  {
    if |cs| > 0 {
      TallyTexts(cs[..|cs| - 1], sep);
      StepTexts(TallyOf(cs[..|cs| - 1], sep), cs[|cs| - 1], sep);
    }
  }

  /** The inside runs spell out exactly the inside captures. */
  lemma {:induction false} TallyInside(cs: seq<Capture>, sep: char)
    ensures InsideTexts(TallyOf(cs, sep).runs) == InsideValues(cs)
    decreases |cs|
  {
    if |cs| > 0 {
      TallyInside(cs[..|cs| - 1], sep);
      StepInside(TallyOf(cs[..|cs| - 1], sep), cs[|cs| - 1], sep);
    }
  }

  /** insideChars counts the characters of the inside captures. */
  lemma {:induction false} TallyInsideChars(cs: seq<Capture>, sep: char)
    ensures TallyOf(cs, sep).insideChars == |InsideValues(cs)|
    decreases |cs|
  {
    if |cs| > 0 {
      TallyInsideChars(cs[..|cs| - 1], sep);
    }
  }

  /** totalChars counts the matched characters other than the separator. */
  lemma {:induction false} TallyTotal(cs: seq<Capture>, sep: char)
    ensures TallyOf(cs, sep).totalChars == |Without(Values(cs), sep)|
    decreases |cs|
  {
    if |cs| > 0 {
      var init, c := cs[..|cs| - 1], cs[|cs| - 1];
      TallyTotal(init, sep);
      WithoutAppend(Values(init), c.value, sep);
    }
  }

  /** No runs at all exactly when every capture is empty. */
  lemma NoRunsIff(cs: seq<Capture>, sep: char)
    ensures |TallyOf(cs, sep).runs| == 0 <==> Values(cs) == ""
  {
    var runs := TallyOf(cs, sep).runs;
    TallyTexts(cs, sep);
    if |runs| > 0 {
      TextsNonEmpty(runs);
    }
  }

  lemma {:induction false} TextsNonEmpty(runs: seq<CharacterRun>)
    requires |runs| > 0 && NonEmptyRuns(runs)
    ensures |Texts(runs)| >= |runs[|runs| - 1].text| > 0
  {
  }

  /** A match whose captures are all empty scores 1 with nothing highlighted. */
  lemma EmptyMatchScoresOne(cs: seq<Capture>, insideSegments: int, sep: char)
    requires Values(cs) == ""
    ensures MatchResultOf(cs, insideSegments, sep) == MatchResult(1.0, "", false)
  {
    NoRunsIff(cs, sep);
    TallyTotal(cs, sep);
  }

  /** Wrapping inside runs adds exactly two characters per inside run. */
  lemma {:induction false} RenderLength(runs: seq<CharacterRun>)
    ensures |RenderRuns(runs)| == |Texts(runs)| + 2 * InsideRunCount(runs)
    decreases |runs|
  {
    if |runs| > 0 {
      RenderLength(runs[..|runs| - 1]);
    }
  }

  /** Removing the parentheses from the highlighted text gives the plain text back. */
  lemma {:induction false} RenderUnwraps(runs: seq<CharacterRun>)
    requires forall i :: 0 <= i < |runs| ==> '(' !in runs[i].text && ')' !in runs[i].text
    ensures Without(Without(RenderRuns(runs), '('), ')') == Texts(runs)
    decreases |runs|
  {
    if |runs| > 0 {
      var init, last := runs[..|runs| - 1], runs[|runs| - 1];
      RenderUnwraps(init);
      WithoutAppend(RenderRuns(init), RunToString(last), '(');
      WithoutAppend(Without(RenderRuns(init), '('), Without(RunToString(last), '('), ')');
      if last.inside {
        WithoutAppend("(" + last.text, ")", '(');
        WithoutAppend("(", last.text, '(');
        WithoutAppend(last.text, ")", ')');
      }
    }
  }

  /** With no separator inside the query characters, the character ratio is at most 1. */
  lemma {:induction false} InsideAtMostTotal(cs: seq<Capture>, sep: char)
    requires forall i :: 0 <= i < |cs| && IsInside(cs[i]) ==> sep !in cs[i].value
    ensures TallyOf(cs, sep).insideChars <= TallyOf(cs, sep).totalChars
    decreases |cs|
  {
    if |cs| > 0 {
      InsideAtMostTotal(cs[..|cs| - 1], sep);
    }
  }

  /**
   * The score lies between 0 and 1 when there are no more inside segments than
   * runs and no more inside characters than counted characters.
   */
  lemma ScoreBounds(runCount: nat, insideSegments: int, insideChars: nat, totalChars: nat)
    requires 0 <= insideSegments && (runCount == 0 || insideSegments <= runCount)
    requires insideChars <= totalChars
    ensures 0.0 <= Score(runCount, insideSegments, insideChars, totalChars) <= 1.0
  {
    var runRatio := if runCount == 0 then 1.0 else insideSegments as real / runCount as real;
    var charRatio := if totalChars == 0 then 1.0 else insideChars as real / totalChars as real;
    assert 0.0 <= runRatio <= 1.0;
    assert 0.0 <= charRatio <= 1.0;
    NonNegativeProduct(runRatio, charRatio);
    NonNegativeProduct(charRatio, 1.0 - runRatio);
  }

  lemma NonNegativeProduct(a: real, b: real)
    requires 0.0 <= a && 0.0 <= b
    ensures 0.0 <= a * b
  {
  }

  /**
   * A file-name match (one inside segment) whose query characters hold no
   * separator scores between 0 and 1.
   */
  lemma ScoreBetweenZeroAndOne(cs: seq<Capture>, sep: char)
    requires forall i :: 0 <= i < |cs| && IsInside(cs[i]) ==> sep !in cs[i].value
    ensures 0.0 <= MatchResultOf(cs, 1, sep).score <= 1.0
  {
    var t := TallyOf(cs, sep);
    InsideAtMostTotal(cs, sep);
    ScoreBounds(|t.runs|, 1, t.insideChars, t.totalChars);
  }
}
