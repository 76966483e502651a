/**
 * The FuzzyFileFinder object: the directory tree and file list it builds from
 * full file names, the shared prefix of its roots, and the search over its
 * files with a per-search cache of directory matches.
 */
module Finder {
  import opened Results
  import opened Strings
  import opened ListExtensions
  import opened Patterns
  import opened Scoring
  import opened Paths
  import opened SharedPrefix
  import opened Entries
  import opened Matching

  /** The names of the given directories, in order. */
  function Names(ds: seq<Directory>): (r: seq<string>)
    ensures |r| == |ds|
    ensures forall i :: 0 <= i < |r| ==> r[i] == ds[i].name
  {
    if |ds| == 0 then [] else [ds[0].name] + Names(ds[1..])
  }

  /**
   * The file loaded from a full name: named by the name's last segment, and
   * without a parent exactly when the name has no separator.
   */
  predicate LoadedAs(f: FileSystemEntry, fullName: string, sep: char)
  {
    f.name == Last(Split(fullName, sep)) && (f.parent == null <==> sep !in fullName)
  }

  /**
   * The roots after one name's first segment went through MakeDirectoryTree:
   * unchanged when a root's lower-cased name is that segment, otherwise one
   * new root named by the segment appended.
   */
  predicate RootLoaded(before: seq<Directory>, after: seq<Directory>, first: string)
  {
    if FindByLowerName(before, first) >= 0 then after == before
    else |after| == |before| + 1 && after[..|before|] == before
         && after[|before|].name == first && after[|before|].isRoot
  }

  /** Some root is named by the segment, as given or once lower-cased. */
  predicate HasRootFor(ds: seq<Directory>, first: string)
  {
    exists k :: 0 <= k < |ds| && (ds[k].name == first || ToLower(ds[k].name) == first)
  }

  /** Loading a segment keeps the old roots in order and leaves a root for the segment. */
  lemma RootLoadedKeeps(before: seq<Directory>, after: seq<Directory>, first: string)
    requires RootLoaded(before, after, first)
    ensures before <= after && HasRootFor(after, first)
    ensures forall x :: HasRootFor(before, x) ==> HasRootFor(after, x)
  {
    var k := FindByLowerName(before, first);
    if k >= 0 {
      assert ToLower(after[k].name) == first;
    } else {
      assert after[|before|].name == first;
    }
    forall x | HasRootFor(before, x)
      ensures HasRootFor(after, x)
    {
      var j :| 0 <= j < |before| && (before[j].name == x || ToLower(before[j].name) == x);
      assert after[j] == before[j];
    }
  }

  /** Every name with a separator has a root for its first segment. */
  predicate RootsCover(ds: seq<Directory>, names: seq<string>, sep: char)
  {
    forall name :: name in names && sep in name ==> HasRootFor(ds, Split(name, sep)[0])
  }

  /** The directory is named by the first segment of a name with a separator. */
  predicate NamedByFirstSegment(d: Directory, names: seq<string>, sep: char)
  {
    exists name :: name in names && sep in name && d.name == Split(name, sep)[0]
  }

  /** Every root is named by the first segment of a name with a separator. */
  predicate RootsFrom(ds: seq<Directory>, names: seq<string>, sep: char)
  {
    forall k :: 0 <= k < |ds| ==> NamedByFirstSegment(ds[k], names, sep)
  }

  /** Loading one more name keeps the roots covering, and coming from, the names loaded so far. */
  lemma LoadStep(names: seq<string>, name: string, before: seq<Directory>, after: seq<Directory>, sep: char)
    requires RootsCover(before, names, sep) && RootsFrom(before, names, sep)
    requires sep !in name ==> after == before
    requires sep in name ==> RootLoaded(before, after, Split(name, sep)[0])
    ensures RootsCover(after, names + [name], sep) && RootsFrom(after, names + [name], sep)
  {
    if sep in name {
      RootLoadedKeeps(before, after, Split(name, sep)[0]);
    }
    assert before <= after;
    LoadStepCover(names, name, before, after, sep);
    LoadStepFrom(names, name, before, after, sep);
  }

  /** The cover half of LoadStep: old names keep their roots, and the new name has one. */
  lemma LoadStepCover(names: seq<string>, name: string, before: seq<Directory>, after: seq<Directory>, sep: char)
    requires RootsCover(before, names, sep)
    requires forall x :: HasRootFor(before, x) ==> HasRootFor(after, x)
    requires sep in name ==> HasRootFor(after, Split(name, sep)[0])
    ensures RootsCover(after, names + [name], sep)
  {
    forall x | x in names + [name] && sep in x
      ensures HasRootFor(after, Split(x, sep)[0])
    {
      if x != name {
        assert x in names;
        assert HasRootFor(before, Split(x, sep)[0]);
      }
    }
  }

  /** The other half: old roots keep their names, and an appended root is named by the new name. */
  lemma LoadStepFrom(names: seq<string>, name: string, before: seq<Directory>, after: seq<Directory>, sep: char)
    requires RootsFrom(before, names, sep)
    requires before <= after && |after| <= |before| + 1
    requires |after| > |before| ==> sep in name && after[|before|].name == Split(name, sep)[0]
    ensures RootsFrom(after, names + [name], sep)
  {
    forall k | 0 <= k < |after|
      ensures NamedByFirstSegment(after[k], names + [name], sep)
    {
      if k < |before| {
        assert after[k] == before[k];
        assert NamedByFirstSegment(before[k], names, sep);
        var x :| x in names && sep in x && before[k].name == Split(x, sep)[0];
        assert x in names + [name] && sep in x && after[k].name == Split(x, sep)[0];
      } else {
        assert name in names + [name] && sep in name && after[k].name == Split(name, sep)[0];
      }
    }
  }

  /** Both properties depend only on which names there are, not on their order. */
  lemma RootsOfPermutation(names: seq<string>, sorted: seq<string>, ds: seq<Directory>, sep: char)
    requires multiset(sorted) == multiset(names)
    requires RootsCover(ds, sorted, sep) && RootsFrom(ds, sorted, sep)
    ensures RootsCover(ds, names, sep) && RootsFrom(ds, names, sep)
  {
    forall name | name in names && sep in name
      ensures HasRootFor(ds, Split(name, sep)[0])
    {
      assert name in multiset(sorted);
    }
    forall k | 0 <= k < |ds|
      ensures NamedByFirstSegment(ds[k], names, sep)
    {
      assert NamedByFirstSegment(ds[k], sorted, sep);
      var name :| name in sorted && sep in name && ds[k].name == Split(name, sep)[0];
      assert name in multiset(names);
      assert name in names && sep in name && ds[k].name == Split(name, sep)[0];
    }
  }

  /** The Dictionary<Directory, MatchResult> one search fills as it visits directories. */
  class PathMatchCache {
    var entries: map<Directory, MatchResult>

    constructor ()
      ensures entries == map[]
    {
      entries := map[];
    }
  }

  class FuzzyFileFinder {
    /** Path.DirectorySeparatorChar and Path.VolumeSeparatorChar of the platform. */
    const sep: char
    const volumeSep: char

    var roots: seq<Directory>
    var files: seq<FileSystemEntry>
    var sharedPrefix: string

    /** Every directory node reachable from the roots or the files. */
    ghost var dirs: set<Directory>

    /** The roots, their sub-directories and the files' parents are all known nodes. */
    ghost predicate Valid()
      reads this, dirs
    {
      (forall k :: 0 <= k < |roots| ==> roots[k] in dirs)
      && (forall d, k :: d in dirs && 0 <= k < |d.subDirectories| ==> d.subDirectories[k] in dirs)
      && (forall j :: 0 <= j < |files| && files[j].parent != null ==> files[j].parent in dirs)
    }

    /** The roots built from full names are single segments and are marked as roots. */
    ghost predicate RootsAreSegments()
      reads this
    {
      forall k :: 0 <= k < |roots| ==> roots[k].isRoot && sep !in roots[k].name
    }

    /**
     * Builds the finder from a list of full file names: the tree and file list
     * are loaded when the list is not empty, and the shared prefix of the roots
     * is determined; the scan of root directories given by name finds none.
     */
    constructor (fullFileNames: seq<string>, sep: char, volumeSep: char)
      ensures this.sep == sep && this.volumeSep == volumeSep
      ensures Valid() && RootsAreSegments()
      ensures |fullFileNames| == 0 ==> roots == [] && files == [] && sharedPrefix == ""
      ensures |files| == |fullFileNames|
      ensures forall j :: 0 <= j < |files| ==> LoadedAs(files[j], SortOrdinal(fullFileNames)[j], sep)
      ensures SharedPrefixOf(Names(roots), sep) == Ok(sharedPrefix)
      ensures RootsCover(roots, fullFileNames, sep) && RootsFrom(roots, fullFileNames, sep)
    {
      this.sep := sep;
      this.volumeSep := volumeSep;
      roots := [];
      files := [];
      sharedPrefix := "";
      dirs := {};
      new;
      if |fullFileNames| > 0 {
        LoadDirectoryTreeAndFiles(fullFileNames);
      }
      ghost var loadedRoots := roots;
      assert RootsCover(loadedRoots, fullFileNames, sep) && RootsFrom(loadedRoots, fullFileNames, sep);
      var prefix := DetermineSharedPrefix();
      SingleSegmentRootsSucceed(Names(roots), sep);
      sharedPrefix := prefix.value;
      if |fullFileNames| == 0 {
        // ReScan: the file list is cleared and there are no roots to follow.
        files := [];
      }
      assert roots == loadedRoots;
    }

    /**
     * LoadDirectoryTreeAndFiles: resets the tree and the file list, sorts the
     * names, and loads each name in turn.
     */
    method LoadDirectoryTreeAndFiles(fullFileNames: seq<string>)
      modifies this
      ensures Valid() && RootsAreSegments() && fresh(dirs)
      ensures |files| == |fullFileNames|
      ensures forall j :: 0 <= j < |files| ==> LoadedAs(files[j], SortOrdinal(fullFileNames)[j], sep)
      ensures sharedPrefix == old(sharedPrefix)
      ensures RootsCover(roots, fullFileNames, sep) && RootsFrom(roots, fullFileNames, sep)
    {
      roots := [];
      files := [];
      dirs := {};
      var sorted := SortOrdinal(fullFileNames);
      ghost var loaded: seq<string> := [];
      for n := 0 to |sorted|
        invariant Valid() && RootsAreSegments() && fresh(dirs)
        invariant |files| == n
        invariant forall j :: 0 <= j < n ==> LoadedAs(files[j], sorted[j], sep)
        invariant sharedPrefix == old(sharedPrefix)
        invariant loaded == sorted[..n]
        invariant RootsCover(roots, loaded, sep) && RootsFrom(roots, loaded, sep)
      {
        ghost var before := roots;
        LoadFile(sorted[n]);
        LoadStep(loaded, sorted[n], before, roots, sep);
        loaded := loaded + [sorted[n]];
        assert loaded == sorted[..n + 1];
      }
      assert loaded == sorted;
      RootsOfPermutation(fullFileNames, loaded, roots, sep);
    }

    /**
     * One name of LoadDirectoryTreeAndFiles: its directory segments are walked
     * down from the roots through MakeDirectoryTree, and one file named by the
     * last segment is appended under the last directory reached (under none
     * when the name has no separator).
     */
    method LoadFile(fileName: string)
      requires Valid() && RootsAreSegments()
      modifies this, dirs
      ensures Valid() && RootsAreSegments()
      ensures old(dirs) <= dirs && fresh(dirs - old(dirs))
      ensures |files| == |old(files)| + 1 && files[..|old(files)|] == old(files)
      ensures LoadedAs(files[|old(files)|], fileName, sep)
      ensures sharedPrefix == old(sharedPrefix)
      ensures old(roots) <= roots
      ensures sep !in fileName ==> roots == old(roots)
      ensures sep in fileName ==> RootLoaded(old(roots), roots, Split(fileName, sep)[0])
    {
      var segments := Split(fileName, sep);
      SplitSingleIff(fileName, sep);
      var current: Directory? := null;
      for i := 0 to |segments| - 1
        invariant Valid() && RootsAreSegments()
        invariant old(dirs) <= dirs && fresh(dirs - old(dirs))
        invariant current != null ==> current in dirs
        invariant current == null <==> i == 0
        invariant files == old(files) && sharedPrefix == old(sharedPrefix)
        invariant i == 0 ==> roots == old(roots)
        invariant i > 0 ==> RootLoaded(old(roots), roots, segments[0])
      {
        current := MakeDirectoryTree(current, segments[i]);
      }
      if sep in fileName {
        RootLoadedKeeps(old(roots), roots, segments[0]);
      }
      files := files + [FileSystemEntry(current, Last(segments))];
    }

    /**
     * MakeDirectoryTree: the root (without a parent) or the child of parent
     * whose lower-cased name is the sought name, or else a new node with that
     * name appended to the roots or to the parent's sub-directories.
     */
    method MakeDirectoryTree(parent: Directory?, dir: string) returns (d: Directory)
      requires Valid()
      requires parent != null ==> parent in dirs
      requires parent == null ==> sep !in dir
      modifies this, parent
      ensures Valid() && d in dirs
      ensures RootsAreSegments() <== old(RootsAreSegments())
      ensures files == old(files) && sharedPrefix == old(sharedPrefix)
      ensures parent == null && FindByLowerName(old(roots), dir) >= 0 ==>
                d == old(roots)[FindByLowerName(old(roots), dir)] && roots == old(roots) && dirs == old(dirs)
      ensures parent == null && FindByLowerName(old(roots), dir) < 0 ==>
                fresh(d) && d.name == dir && d.isRoot && d.subDirectories == []
                && roots == old(roots) + [d] && dirs == old(dirs) + {d}
      ensures parent != null ==> roots == old(roots)
      ensures parent != null && FindByLowerName(old(parent.subDirectories), ChildName(parent.name, dir, sep, volumeSep)) >= 0 ==>
                d == old(parent.subDirectories)[FindByLowerName(old(parent.subDirectories), ChildName(parent.name, dir, sep, volumeSep))]
                && parent.subDirectories == old(parent.subDirectories) && dirs == old(dirs)
      ensures parent != null && FindByLowerName(old(parent.subDirectories), ChildName(parent.name, dir, sep, volumeSep)) < 0 ==>
                fresh(d) && d.name == ChildName(parent.name, dir, sep, volumeSep) && !d.isRoot && d.subDirectories == []
                && parent.subDirectories == old(parent.subDirectories) + [d] && dirs == old(dirs) + {d}
    {
      if parent == null {
        var k := FindByLowerName(roots, dir);
        if k < 0 {
          d := new Directory(dir, true);
          roots := roots + [d];
          dirs := dirs + {d};
        } else {
          d := roots[k];
        }
        return;
      }
      var fullName := ChildName(parent.name, dir, sep, volumeSep);
      var k := FindByLowerName(parent.subDirectories, fullName);
      if k < 0 {
        d := new Directory(fullName, false);
        parent.subDirectories := parent.subDirectories + [d];
        dirs := dirs + {d};
      } else {
        d := parent.subDirectories[k];
      }
    }

    /**
     * DetermineSharedPrefix: no roots give the empty prefix and one root its
     * own name; otherwise the root names are split, the longest split's length
     * taken, the last split popped as master, and the segments scanned.
     */
    method DetermineSharedPrefix() returns (r: Result<string>)
      ensures r == SharedPrefixOf(Names(roots), sep)
    {
      var names := Names(roots);
      if |roots| == 0 {
        return Ok("");
      }
      if |roots| == 1 {
        return Ok(roots[0].name);
      }
      var splitRoots := new List(SplitAll(names, sep));
      var segments := MaxLength(splitRoots.items);
      var popped := Pop(splitRoots);
      var master := popped.value;
      PoppedSplits(names, sep);
      r := ScanSegments(splitRoots.items, master, segments, roots[0].name);
    }

    /**
     * The loop of DetermineSharedPrefix: the first segment on which some other
     * root disagrees with the master ends it with the master's segments before
     * it; running past every segment yields the first root's name.
     */
    method ScanSegments(others: seq<seq<string>>, master: seq<string>, segments: nat, fallback: string)
      returns (r: Result<string>)
      ensures r == ScanFrom(others, master, 0, segments, fallback, sep)
    {
      for segment := 0 to segments
        invariant ScanFrom(others, master, segment, segments, fallback, sep)
                  == ScanFrom(others, master, 0, segments, fallback, sep)
      {
        var all := AllAgree(others, master, segment);
        if all.Err? {
          return Err(all.error);
        }
        if !all.value {
          return Ok(Join(sep, Take(master, segment)));
        }
      }
      return Ok(fallback);
    }

    /**
     * MatchPath: a cached directory returns its cached match; otherwise the
     * match of its stripped name is computed, cached and returned. A null
     * directory and a name that strips to nothing are errors, and leave the
     * cache as it was.
     */
    method MatchPath(path: Directory?, cache: PathMatchCache, pathRegex: Option<Regex>,
                     pathSegments: int, matcher: Matcher) returns (r: Result<MatchResult>)
      modifies cache
      ensures path == null ==> r == Err(ArgumentNull) && cache.entries == old(cache.entries)
      ensures path != null && path in old(cache.entries) ==>
                r == Ok(old(cache.entries)[path]) && cache.entries == old(cache.entries)
      ensures path != null && path !in old(cache.entries) ==>
                r == PathMatchOf(path.name, sharedPrefix, sep, pathRegex, pathSegments, matcher)
      ensures r.Ok? && path != null ==> cache.entries == old(cache.entries)[path := r.value]
      ensures r.Err? ==> cache.entries == old(cache.entries)
      ensures CacheSound(old(cache.entries), sharedPrefix, sep, pathRegex, pathSegments, matcher) ==>
                CacheSound(cache.entries, sharedPrefix, sep, pathRegex, pathSegments, matcher)
                && (path != null ==> r == PathMatchOf(path.name, sharedPrefix, sep, pathRegex, pathSegments, matcher))
    {
      if path == null {
        return Err(ArgumentNull);
      }
      if path in cache.entries {
        return Ok(cache.entries[path]);
      }
      ghost var expected := PathMatchOf(path.name, sharedPrefix, sep, pathRegex, pathSegments, matcher);
      var matchable := StripSharedPrefix(path.name + [sep], sharedPrefix, sep);
      if |matchable| == 0 {
        return Err(ArgumentOutOfRange);
      }
      matchable := matchable[..|matchable| - 1];
      assert MatchableName(path.name, sharedPrefix, sep) == Ok(matchable);
      var result: MatchResult;
      if pathRegex.Some? {
        var found := matcher(pathRegex.value, matchable);
        if found.length > 0 {
          result := BuildMatchResult(found.captures, pathSegments, sep);
        } else {
          result := MatchResult(1.0, matchable, true);
        }
      } else {
        result := MatchResult(1.0, matchable, false);
      }
      assert expected == Ok(result);
      if CacheSound(cache.entries, sharedPrefix, sep, pathRegex, pathSegments, matcher) {
        CacheSoundInsert(cache.entries, path, result, sharedPrefix, sep, pathRegex, pathSegments, matcher);
      }
      cache.entries := cache.entries[path := result];
      r := Ok(cache.entries[path]);
    }

    /** MatchFile: the result for a file whose name the file regex matches, or nothing. */
    method MatchFile(file: FileSystemEntry, fileRegex: Regex, pathMatch: MatchResult, matcher: Matcher)
      returns (r: Result<Option<MatchFileResult>>)
      ensures r == MatchFileOf(file, fileRegex, pathMatch, sep, volumeSep, matcher)
    {
      var found := matcher(fileRegex, file.name);
      if found.length == 0 {
        return Ok(None);
      }
      var named := BuildMatchResult(found.captures, 1, sep);
      var path := EntryPath(file, sep, volumeSep);
      if path.Err? {
        return Err(path.error);
      }
      r := Ok(Some(FileMatch(file, path.value, pathMatch, named, sep, volumeSep)));
    }

    /**
     * Search: compiles the query, then visits the files in order, skipping
     * files whose directory missed and handing every file match to the
     * callback; with a limit the callback ends the search after the result that
     * reaches it.
     */
    method Search(pattern: string, matcher: Matcher, limit: Option<int>) returns (r: Result<seq<MatchFileResult>>)
      ensures r == Collect(Outcomes(files, sharedPrefix, sep, volumeSep, PathRegexOf(pattern, sep),
                                    |PathParts(pattern, sep)|, FileRegexOf(pattern, sep), matcher), [], limit)
    {
      // pattern.Replace(" ", "") discards its result: spaces stay in the query.
      var pathParts := new List(Split(pattern, sep));
      LastPartNeverSeparator(pattern, sep);  // so the branch adding an empty part never runs
      var fileNamePart := Pop(pathParts);
      assert pathParts.items == PathParts(pattern, sep);  // Split yields a part, so Pop succeeds
      var pathRegex: Option<Regex> := None;
      if |pathParts.items| > 0 {
        var pathRegexRaw := MakePathPattern(pathParts.items, sep);
        pathRegex := Some(Regex(pathRegexRaw.value, true));
      }
      var pathSegments := |pathParts.items|;
      assert pathRegex == PathRegexOf(pattern, sep) && pathSegments == |PathParts(pattern, sep)|;
      var filePattern := MakePattern(pattern, sep);
      var fileRegex := Regex("^(.*?)" + filePattern + "(.*)$", true);
      r := VisitFiles(pathRegex, pathSegments, fileRegex, matcher, limit);
    }

    /**
     * Files.ForEach of Search with a fresh cache: visits the files in order and
     * hands each result to the callback, which may end the search.
     */
    method VisitFiles(pathRegex: Option<Regex>, pathSegments: int, fileRegex: Regex, matcher: Matcher,
                      limit: Option<int>) returns (r: Result<seq<MatchFileResult>>)
      ensures r == Collect(Outcomes(files, sharedPrefix, sep, volumeSep, pathRegex, pathSegments, fileRegex, matcher),
                           [], limit)
    {
      var cache := new PathMatchCache();
      ghost var outs := Outcomes(files, sharedPrefix, sep, volumeSep, pathRegex, pathSegments, fileRegex, matcher);
      var results: seq<MatchFileResult> := [];
      for i := 0 to |files|
        invariant CacheSound(cache.entries, sharedPrefix, sep, pathRegex, pathSegments, matcher)
        invariant Collect(outs[i..], results, limit) == Collect(outs, [], limit)
      {
        var outcome := VisitFile(files[i], cache, pathRegex, pathSegments, fileRegex, matcher);
        assert outcome == outs[i];
        CollectStep(outs, i, results, limit);
        if outcome.Err? {
          return Err(outcome.error);
        }
        if outcome.value.Some? {
          results := results + [outcome.value.value];
          if limit.Some? && |results| >= limit.value {
            return Ok(results);
          }
        }
      }
      assert outs[|files|..] == [];
      return Ok(results);
    }

    /**
     * The body of Search's visit of one file: the path match of its parent
     * (cached), and the file match unless the path match missed.
     */
    method VisitFile(file: FileSystemEntry, cache: PathMatchCache, pathRegex: Option<Regex>, pathSegments: int,
                     fileRegex: Regex, matcher: Matcher) returns (outcome: Result<Option<MatchFileResult>>)
      requires CacheSound(cache.entries, sharedPrefix, sep, pathRegex, pathSegments, matcher)
      modifies cache
      ensures CacheSound(cache.entries, sharedPrefix, sep, pathRegex, pathSegments, matcher)
      ensures outcome == FileOutcome(file, sharedPrefix, sep, volumeSep, pathRegex, pathSegments, fileRegex, matcher)
    {
      var pathMatch := MatchPath(file.parent, cache, pathRegex, pathSegments, matcher);
      if pathMatch.Err? {
        return Err(pathMatch.error);
      }
      if pathMatch.value.missed {
        return Ok(None);
      }
      outcome := MatchFile(file, fileRegex, pathMatch.value, matcher);
    }

    /**
     * Find: the search with a callback that collects the results and ends the
     * search once max of them are collected (after the first one, when max is
     * not positive).
     */
    method Find(pattern: string, max: int, matcher: Matcher) returns (r: Result<seq<MatchFileResult>>)
      ensures r == Collect(Outcomes(files, sharedPrefix, sep, volumeSep, PathRegexOf(pattern, sep),
                                    |PathParts(pattern, sep)|, FileRegexOf(pattern, sep), matcher), [], Some(max))
    {
      r := Search(pattern, matcher, Some(max));
    }
  }
}
