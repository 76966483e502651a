# FuzzyFileFinder in Dafny

A model of the matching core of FuzzyFileFinderNET, a "go to file" fuzzy finder.
The model covers these parts:

- **Tree construction.** A list of full file names is sorted. Each name is split on the
  platform separator. One `Directory` node is kept per directory segment: it is found
  again when it already exists and appended otherwise. One file entry is appended per name.
- **Shared prefix.** The finder computes the prefix shared by its root directories.
- **Query compilation.** A query is compiled into a file-name regular expression and,
  when the query has directory parts, a path regular expression.
- **Scoring.** The captures of a match are merged into highlighted character runs and
  scored.
- **Search and Find.** These visit every file in order. They look up each file's
  directory match in a per-search cache, build the result for every matching file, and
  hand it to a callback; `Find` stops after `max` results.

The finder object is the class `Finder.FuzzyFileFinder`. Its fields are `roots`, `files`
and `sharedPrefix`, and its methods update them in place as the original does:
- `MakeDirectoryTree` grows the roots or a parent's sub-directories.
- `MatchPath` fills a cache object.
- `BuildMatchResult`, `MakePattern`, `DetermineSharedPrefix` and the search loop are
  loops with invariants.

Each method is proved against a specification function, and the properties the finder
promises are proved about those functions as lemmas.

Modules, one file each:

- `Results`: `Option`, `Result`, and the exceptions the finder can raise, as error values.
- `Strings`: these helpers:
  - `String.Split` and `String.Join` on one character;
  - `Take` and `Last`;
  - an ASCII `ToLower`;
  - `LastIndexOf`;
  - an ordinal sort;
  - removal of one character.
- `ListExtensions`: the `Pop` extension on an in-place list.
- `Patterns`:
  - `Regex.Escape`;
  - `MakePattern` and `MakePathPattern`;
  - the group structure the pattern texts render.
- `Scoring`: `CharacterRun`, `MatchResult`, the abstract regular-expression match,
  `BuildMatchResult` and its scoring function.
- `Paths`:
  - `Path.Combine`;
  - the stripping of the shared prefix (`SharedPrefixRegex`);
  - the abbreviation of a highlighted directory.
- `SharedPrefix`: what `DetermineSharedPrefix` computes, as functions, and its properties.
- `Entries`:
  - `Directory` (a class: its sub-directory list grows in place);
  - `FileSystemEntry` and its `Path`;
  - the case-folding lookup and the child naming of `MakeDirectoryTree`.
- `Matching`:
  - what one search computes, as functions: the query's regular expressions, the match
    of a directory and of a file, and the outcome of visiting one file;
  - the collection of results, with or without a limit.
- `Finder`: the `FuzzyFileFinder` class and the per-search cache.

The finder's exceptions are modelled as `Err` values:
- `NullReferenceException`;
- `ArgumentNullException` (a `null` dictionary key);
- `ArgumentOutOfRangeException` (`String.Remove(-1, 1)`, `RemoveAt(-1)`);
- `IndexOutOfRangeException` (indexing past a shorter root);
- `InvalidOperationException` (`Aggregate` of an empty sequence).

Where the finder's documented behaviour and its code differ, the model follows the code,
with one exception: `BuildMatchResult` reads the captures as its comments describe (see
"Left out"). The differences it follows:

- `pattern.Replace(" ", "")` discards its result, so spaces stay in the query.
- The file regular expression is built from the whole query, directory parts and
  separators included, not from the popped file-name part. A file's name is the last
  segment of its full name, so it never contains the separator, while that regular
  expression requires every character of the query, the separator among them. So a query
  containing the separator never yields a result: the path regular expression
  (`Matching.PathRegexSpellsDirectoryParts`) is built but never leads to a match. The
  model cannot show this last step, because the regular-expression engine is a parameter.
- The run ratio divides by the number of all runs, inside and outside, not by the number
  of inside runs.
- `Find` with `max <= 0` still returns one result: the limit is checked after the add.
- A file with no directory (a full name without a separator) makes the search fail. The
  lookup of its `null` parent in the cache throws.
- A directory whose name is the shared prefix itself makes the search fail. The stripped
  name is empty, and `Remove(-1, 1)` throws. With a single root whose name is not empty,
  every file directly in that root is in this case. A single root with the empty name,
  the first segment of every absolute Unix path, gives the empty prefix, and nothing fails.
- Roots that are nested in one another (`/a` and `/a/b`) make `DetermineSharedPrefix`
  index past the end of the shorter one.
- Only the stored name is lower-cased in the directory lookup. A segment with an
  upper-case letter is never found again, so each occurrence adds a new node.
- In the volume-separator branch, the child's own name is dropped. This branch is also
  taken by an empty parent name, as the root of an absolute Unix path is. The child of
  `C:` is named `C:\`, and every child of the empty root is named `/`.
- The abbreviation splits on `/` whatever the platform separator is.

## Model

| member | source | states |
|---|---|---|
| ListExtensions.Pop | src/FuzzyFileFinderNET.Lib/Extensions/ListExtensions.cs:10-15 | on a non-empty list: returns the element that was last, and leaves the original prefix in place, one element shorter; on an empty list: fails with ArgumentOutOfRange and leaves the list as it was |
| Strings.Split | src/FuzzyFileFinderNET.Lib/FuzzyFileFinder.cs:150 | there is always at least one piece, and no piece contains the separator |
| Strings.SortOrdinal | src/FuzzyFileFinderNET.Lib/FuzzyFileFinder.cs:146 | the names are sorted in ordinal order and are a permutation of the input |
| Patterns.EscapeRoundTrip | src/FuzzyFileFinderNET.Lib/FuzzyFileFinder.cs:328-330 | escaping loses nothing: unescaping the escaped text gives back the original characters |
| Patterns.MakePattern | src/FuzzyFileFinderNET.Lib/FuzzyFileFinder.cs:319-333 | the StringBuilder loop produces exactly the rendering of the query's group sequence |
| Patterns.PatternGroupsShape | src/FuzzyFileFinderNET.Lib/FuzzyFileFinder.cs:321-331 | an n-character query (n >= 1) compiles to 2n-1 groups: the literal of character i at position 2i, and a non-separator filler between each pair; the empty query compiles to one empty literal group |
| Patterns.PatternLiteralsRoundTrip | src/FuzzyFileFinderNET.Lib/FuzzyFileFinder.cs:321-331 | the literal groups of a compiled query spell out the query in order |
| Patterns.MakePatternFoo | src/FuzzyFileFinderNET.Tests/FuzzyFileSearcherTests.cs:17-20 | for any separator S, "foo" compiles to (f)([^S']*?)(o)([^S']*?)(o), where S' is S escaped |
| Patterns.MakePatternFooSlash | src/FuzzyFileFinderNET.Lib/FuzzyFileFinder.cs:316-318 | with '/' as the separator, "foo" compiles to (f)([^/]*?)(o)([^/]*?)(o) |
| Patterns.MakePatternEmpty | src/FuzzyFileFinderNET.Lib/FuzzyFileFinder.cs:321-322 | the empty query compiles to "()" |
| Patterns.MakePathPattern | src/FuzzyFileFinderNET.Lib/FuzzyFileFinder.cs:335-338 | fails with InvalidOperation exactly when there are no parts (Aggregate of an empty sequence) |
| Patterns.PathPatternRendersGroups | src/FuzzyFileFinderNET.Lib/FuzzyFileFinder.cs:337 | for one or more parts, the path pattern is "^", a lazy any-group, each part's groups with a separator gap between parts, a lazy any-group, and "$" |
| Patterns.PathGroupsSegmentsRoundTrip | src/FuzzyFileFinderNET.Lib/FuzzyFileFinder.cs:337 | splitting the path groups at their separator gaps and reading the literals gives back the directory parts, in order |
| Patterns.FilePatternRendersGroups | src/FuzzyFileFinderNET.Lib/FuzzyFileFinder.cs:280 | the file pattern is "^", a lazy any-group, the query's groups, a greedy any-group, and "$" |
| Patterns.FilePatternLiterals | src/FuzzyFileFinderNET.Lib/FuzzyFileFinder.cs:280 | the literals of the file pattern spell out the whole query, separators included |
| Patterns.FileGroupsLiteralsOdd | src/FuzzyFileFinderNET.Lib/FuzzyFileFinder.cs:280 | in the file pattern, a group is a literal of the query exactly when its 0-based position among the groups is odd |
| Patterns.PathGroupsLiteralsOdd | src/FuzzyFileFinderNET.Lib/FuzzyFileFinder.cs:337 | in the path pattern, a group is a literal of the query exactly when its 0-based position is odd; the separator gaps and both ends sit at even positions |
| Scoring.MatchResultOf | src/FuzzyFileFinderNET.Lib/FuzzyFileFinder.cs:425-463 | the result BuildMatchResult specifies for a sequence of captures: never missed; its text and score are what TallyTexts, TallyInside, TallyTotal and ScoreBounds state |
| Scoring.TallyOf | src/FuzzyFileFinderNET.Lib/FuzzyFileFinder.cs:431-449 | after any captures, neighbouring runs differ in their inside/outside tag, and no run is empty |
| Scoring.BuildMatchResult | src/FuzzyFileFinderNET.Lib/FuzzyFileFinder.cs:425-463 | the capture loop ends in the specified tally; the result has the specified score, the rendered runs as its text, and is not missed |
| Scoring.TallyTexts | src/FuzzyFileFinderNET.Lib/FuzzyFileFinder.cs:431-449 | the runs, concatenated, are the matched text (all capture values in order) |
| Scoring.TallyInside | src/FuzzyFileFinderNET.Lib/FuzzyFileFinder.cs:438-447 | the inside runs, concatenated, are exactly the values of the odd-indexed captures (the literal groups, by InsideTagMarksQueryGroups) |
| Scoring.TallyInsideChars | src/FuzzyFileFinderNET.Lib/FuzzyFileFinder.cs:441 | insideChars is the length of the inside captures, separators included |
| Scoring.TallyTotal | src/FuzzyFileFinderNET.Lib/FuzzyFileFinder.cs:440 | totalChars is the number of matched characters other than the separator |
| Scoring.NoRunsIff | src/FuzzyFileFinderNET.Lib/FuzzyFileFinder.cs:433-447 | there are no runs exactly when every capture is empty |
| Scoring.WholeMatchCaptureScoresZero | src/FuzzyFileFinderNET.Lib/FuzzyFileFinder.cs:431-462 | the loop run on the single whole-match capture, at offset 0, gives the whole text unhighlighted and the score 0 |
| Scoring.EmptyMatchScoresOne | src/FuzzyFileFinderNET.Lib/FuzzyFileFinder.cs:456-462 | a match whose captures are all empty scores 1, with empty text, not missed |
| Scoring.RenderLength | src/FuzzyFileFinderNET.Lib/FuzzyFileFinder.cs:18-28 | the rendering adds exactly two characters per inside run to the run text |
| Scoring.RenderUnwraps | src/FuzzyFileFinderNET.Lib/FuzzyFileFinder.cs:18-28 | when no run contains parentheses, removing them from the rendering gives the plain run text |
| Scoring.InsideAtMostTotal | src/FuzzyFileFinderNET.Lib/FuzzyFileFinder.cs:440-441 | when no inside capture contains the separator, insideChars <= totalChars |
| Scoring.ScoreBounds | src/FuzzyFileFinderNET.Lib/FuzzyFileFinder.cs:456-460 | if there are no more inside segments than runs and no more inside characters than counted characters, the score is in [0, 1] |
| Scoring.ScoreBetweenZeroAndOne | src/FuzzyFileFinderNET.Lib/FuzzyFileFinder.cs:371 | a file-name match (one inside segment) whose query characters hold no separator scores in [0, 1] |
| Paths.Combine | src/FuzzyFileFinderNET.Lib/FuzzyFileFinder.cs:180 | two plain names are joined with exactly one separator |
| Paths.CombineSplits | src/FuzzyFileFinderNET.Lib/FuzzyFileFinder.cs:180 | splitting the combination of two separator-free names gives back the two names |
| Paths.StripSharedPrefix | src/FuzzyFileFinderNET.Lib/FuzzyFileFinder.cs:129 | removes the leading prefix-plus-separator exactly when the text starts with it, and otherwise leaves the text unchanged |
| Paths.MatchableName | src/FuzzyFileFinderNET.Lib/FuzzyFileFinder.cs:348-350 | the name a directory is matched under: the shared prefix and separator stripped from the name plus a separator, then the last character removed, failing when nothing is left; its cases are the three lemmas below |
| Paths.MatchableNameFails | src/FuzzyFileFinderNET.Lib/FuzzyFileFinder.cs:348-350 | the stripped name fails exactly when the shared prefix is non-empty and the name is the prefix |
| Paths.MatchableNameBeneath | src/FuzzyFileFinderNET.Lib/FuzzyFileFinder.cs:348-350 | beneath the shared prefix, the matched name is the name relative to the prefix |
| Paths.MatchableNameOutside | src/FuzzyFileFinderNET.Lib/FuzzyFileFinder.cs:348-350 | with an empty prefix, or for a name outside it, the matched name is the name itself |
| Paths.Shorten | src/FuzzyFileFinderNET.Lib/FuzzyFileFinder.cs:373 | the shortened component is a prefix of the component, and is empty only when the component is |
| Paths.Abbreviate | src/FuzzyFileFinderNET.Lib/FuzzyFileFinder.cs:373 | the Regex.Replace of the directory text, scanned left to right; what it gives is the split, shorten, join of AbbreviateComponentwise |
| Paths.AbbreviateComponentwise | src/FuzzyFileFinderNET.Lib/FuzzyFileFinder.cs:373 | the left-to-right replacement is split on '/', shorten each component, join again |
| Paths.ReplaceComponentwise | src/FuzzyFileFinderNET.Lib/FuzzyFileFinder.cs:373 | part way through a stretch without '/', the scan gives the component-wise rewrite of the stretch read so far followed by the rest |
| Paths.AbbreviateSplits | src/FuzzyFileFinderNET.Lib/FuzzyFileFinder.cs:373 | the components of the abbreviation are the shortened components of the directory (the separators are kept) |
| Paths.AbbreviateEmptyIff | src/FuzzyFileFinderNET.Lib/FuzzyFileFinder.cs:373-374 | the abbreviation is empty exactly when the directory text is |
| Paths.AbbreviateShorter | src/FuzzyFileFinderNET.Lib/FuzzyFileFinder.cs:373 | the abbreviation is never longer than the directory text |
| Paths.AbbreviateWholeText | src/FuzzyFileFinderNET.Lib/FuzzyFileFinder.cs:373 | a directory text without '/' or a highlight is cut to its first character |
| SharedPrefix.MaxLength | src/FuzzyFileFinderNET.Lib/FuzzyFileFinder.cs:402 | no split is longer, and some split has exactly that length |
| SharedPrefix.AllAgreeTrue | src/FuzzyFileFinderNET.Lib/FuzzyFileFinder.cs:408 | All answers true exactly when every other root has segment k and it equals the master's |
| SharedPrefix.AllAgreeFalse | src/FuzzyFileFinderNET.Lib/FuzzyFileFinder.cs:408 | All answers false only when some other root differs from the master at segment k |
| SharedPrefix.AllAgreeDefined | src/FuzzyFileFinderNET.Lib/FuzzyFileFinder.cs:408 | when every root and the master have a segment k, the comparison does not fail |
| SharedPrefix.ScanFromResult | src/FuzzyFileFinderNET.Lib/FuzzyFileFinder.cs:406-416 | one of two outcomes: the scan stops at the first segment where a root differs, with the join of the master's segments before it; or, having agreed everywhere, it yields the fallback |
| SharedPrefix.FullAgreement | src/FuzzyFileFinderNET.Lib/FuzzyFileFinder.cs:414-416 | agreement on every segment up to the longest length means every split equals the master |
| SharedPrefix.SharedPrefixOf | src/FuzzyFileFinderNET.Lib/FuzzyFileFinder.cs:390-417 | the shared prefix of the root names: "" for none, the name itself for one, otherwise the segment scan; what it gives is stated by SharedPrefixLongest and SharedPrefixIsCommon |
| SharedPrefix.SharedPrefixLongest | src/FuzzyFileFinderNET.Lib/FuzzyFileFinder.cs:390-417 | for two or more roots, the prefix is the join of the last root's first k segments, where every root agrees on those k segments and either some root differs at k or k covers the last root |
| SharedPrefix.SharedPrefixIsCommon | src/FuzzyFileFinderNET.Lib/FuzzyFileFinder.cs:390-417 | the shared prefix, when computed, is a prefix of the name of every root |
| SharedPrefix.SingleSegmentRootsSucceed | src/FuzzyFileFinderNET.Lib/FuzzyFileFinder.cs:390-417 | roots without a separator (the roots built from full names) never make the computation fail |
| SharedPrefix.DistinctSingleSegmentRoots | src/FuzzyFileFinderNET.Lib/FuzzyFileFinder.cs:401-411 | single-segment roots that are not all equal share the empty prefix |
| SharedPrefix.SharedPrefixExample | src/FuzzyFileFinderNET.Lib/FuzzyFileFinder.cs:390-417 | the roots /a/b/x and /a/b/y share /a/b |
| SharedPrefix.NestedRootsFail | src/FuzzyFileFinderNET.Lib/FuzzyFileFinder.cs:408 | the roots /a and /a/b make the scan index past the end of /a |
| Entries.Directory.constructor | src/FuzzyFileFinderNET.Lib/FuzzyFileFinder.cs:58-63 | a new directory has the given name and root flag and no sub-directories |
| Entries.EntryPath | src/FuzzyFileFinderNET.Lib/FuzzyFileFinder.cs:42-48 | fails with NullReference exactly when the entry has no parent |
| Entries.FindByLowerName | src/FuzzyFileFinderNET.Lib/FuzzyFileFinder.cs:165 | the index of the first node whose lower-cased name is the sought name, or -1 when there is none |
| Entries.UpperCaseNameNeverFound | src/FuzzyFileFinderNET.Lib/FuzzyFileFinder.cs:182 | a sought name containing an upper-case letter is never found |
| Entries.ChildName | src/FuzzyFileFinderNET.Lib/FuzzyFileFinder.cs:173-181 | the name of a new child: the volume branch when the last volume separator is at the end (or there is none and the name is empty), Path.Combine otherwise; the three ChildOf lemmas state its cases |
| Entries.ChildOfVolume | src/FuzzyFileFinderNET.Lib/FuzzyFileFinder.cs:174-176 | below a name ending in the volume separator, the child's name is the parent's name and a separator, without the child's own name |
| Entries.ChildOfEmptyName | src/FuzzyFileFinderNET.Lib/FuzzyFileFinder.cs:174-176 | every child of an empty-named directory is named by the separator alone |
| Entries.ChildOfPlainName | src/FuzzyFileFinderNET.Lib/FuzzyFileFinder.cs:178-181 | otherwise (a non-empty parent name not ending in the volume separator or the separator, whatever it holds before its end) the child's name is the parent's name, a separator and the segment |
| Entries.DriveChildExample | src/FuzzyFileFinderNET.Lib/FuzzyFileFinder.cs:174-176 | the child "Users" of "C:" is named "C:\" |
| Entries.DriveSubdirectoryChildExample | src/FuzzyFileFinderNET.Lib/FuzzyFileFinder.cs:178-181 | the child "bob" of "C:\Users" is named "C:\Users\bob": a volume separator before the end takes the Path.Combine branch |
| Matching.LastPartNeverSeparator | src/FuzzyFileFinderNET.Lib/FuzzyFileFinder.cs:267-268 | the last part of a split query never equals the separator, so the branch that adds an empty part cannot run |
| Matching.PathRegexIff | src/FuzzyFileFinderNET.Lib/FuzzyFileFinder.cs:266-278 | a path regex is built exactly when the query contains the separator |
| Matching.PathRegexSpellsDirectoryParts | src/FuzzyFileFinderNET.Lib/FuzzyFileFinder.cs:270-277 | the path regex ignores case and is the anchored rendering of the directory parts' groups; those groups read back to the parts |
| Matching.FileRegexSpellsWholeQuery | src/FuzzyFileFinderNET.Lib/FuzzyFileFinder.cs:280-281 | the file regex is the anchored rendering of groups whose literals spell the whole query |
| Matching.InsideTagMarksQueryGroups | src/FuzzyFileFinderNET.Lib/FuzzyFileFinder.cs:435-438 | a capture read by its 0-based group position is tagged inside exactly when that group is a literal of the query, in the file regex and in the path regex |
| Matching.PathMatchOf | src/FuzzyFileFinderNET.Lib/FuzzyFileFinder.cs:343-362 | the match of a directory: its matchable name, then score 1 and the name without a path regex, otherwise the path regex's result, missed when it does not match |
| Matching.NoPathRegexNeverMisses | src/FuzzyFileFinderNET.Lib/FuzzyFileFinder.cs:357-360 | without a path regex, a directory matches with score 1, not missed, as its name relative to the shared prefix; only the directory that is the prefix fails |
| Matching.MissedIff | src/FuzzyFileFinderNET.Lib/FuzzyFileFinder.cs:352-356 | a path match is missed exactly when there is a path regex and it does not match; a missed match has score 1 and the stripped name |
| Matching.MatchFileOf | src/FuzzyFileFinderNET.Lib/FuzzyFileFinder.cs:366-388 | the result of one file: nothing when the file regex does not match its name, otherwise its file match; stated by MatchFileFields, HighlightedNameUnwraps and the abbreviation lemmas |
| Matching.TopLevelFileShownByName | src/FuzzyFileFinderNET.Lib/FuzzyFileFinder.cs:372-374 | with an empty directory text, the abbreviation and the highlighted path are the highlighted name |
| Matching.NestedFileAbbreviated | src/FuzzyFileFinderNET.Lib/FuzzyFileFinder.cs:372-385 | otherwise the highlighted path combines the directory text with the highlighted name; the abbreviation combines the abbreviated directory with the name, and its components are the directory's, shortened |
| Matching.HighlightedNameUnwraps | src/FuzzyFileFinderNET.Lib/FuzzyFileFinder.cs:368-382 | a yielded file has a parent; its highlighted name, without parentheses, is the text the file regex matched |
| Matching.MatchFileFields | src/FuzzyFileFinderNET.Lib/FuzzyFileFinder.cs:368-384 | a yielded file has a parent and a non-empty name match, and its result is the file match built from its path, its directory's match and its name's match |
| Matching.FileMatchScoreBounds | src/FuzzyFileFinderNET.Lib/FuzzyFileFinder.cs:383 | the score, the product of the directory's and the name's scores, is in [0, 1] when both are, and exceeds neither |
| Matching.FileOutcome | src/FuzzyFileFinderNET.Lib/FuzzyFileFinder.cs:284-291 | the outcome of visiting one file: ArgumentNull without a parent, its directory's failure, nothing when the directory missed, else its file result; stated by the lemmas below |
| Matching.ParentlessFileFails | src/FuzzyFileFinderNET.Lib/FuzzyFileFinder.cs:286 | a file without a parent makes the visit fail with ArgumentNull |
| Matching.FileInPrefixDirectoryFails | src/FuzzyFileFinderNET.Lib/FuzzyFileFinder.cs:348-350 | a file whose directory is the non-empty shared prefix makes the visit fail with ArgumentOutOfRange |
| Matching.NothingYieldedIff | src/FuzzyFileFinderNET.Lib/FuzzyFileFinder.cs:284-291 | a visited file yields nothing exactly when its directory's match missed or the file regex does not match its name |
| Matching.Outcomes | src/FuzzyFileFinderNET.Lib/FuzzyFileFinder.cs:284-291 | there is one outcome per file, in the order of the file list |
| Matching.Collect | src/FuzzyFileFinderNET.Lib/FuzzyFileFinder.cs:284-303 | the results gathered from the outcomes in order: the first failure ends the search, and with a limit it stops once the limit is reached after an add; stated by CollectAll and CollectLimited |
| Matching.CollectAll | src/FuzzyFileFinderNET.Lib/FuzzyFileFinder.cs:284-291 | without a limit, the search succeeds exactly when no visit fails, and then holds every yielded result in visit order |
| Matching.CollectLimited | src/FuzzyFileFinderNET.Lib/FuzzyFileFinder.cs:299-303 | with a limit, the results are a prefix of the yielded results, at most max(limit, 1) of them; fewer than that only when every yielded result was taken |
| Matching.FindIsPrefixOfSearch | src/FuzzyFileFinderNET.Lib/FuzzyFileFinder.cs:294-311 | when the unlimited search succeeds, Find returns its first max(max, 1) results |
| Finder.PathMatchCache.constructor | src/FuzzyFileFinderNET.Lib/FuzzyFileFinder.cs:282 | the cache of a new search is empty |
| Finder.FuzzyFileFinder.constructor | src/FuzzyFileFinderNET.Lib/FuzzyFileFinder.cs:100-138 | one file per full name, in sorted order, each named by its last segment and without a parent exactly when the name has no separator; the roots are single segments; every root is named by the first segment of a full name with a separator, and every such name has a root with that name, as given or lower-cased; the shared prefix is that of the roots; an empty list gives no roots, no files and an empty prefix |
| Finder.FuzzyFileFinder.LoadDirectoryTreeAndFiles | src/FuzzyFileFinderNET.Lib/FuzzyFileFinder.cs:142-159 | resets the tree, then appends exactly one file per name, in sorted order, each as loaded from its name; the roots are exactly the first segments of the names with a separator (a segment is matched to a root as given or lower-cased); the tree stays closed over its nodes |
| Finder.FuzzyFileFinder.LoadFile | src/FuzzyFileFinderNET.Lib/FuzzyFileFinder.cs:148-158 | appends exactly one file, named by the last segment and parentless exactly when the name has no separator; keeps every earlier file, node and root in order; a name without a separator leaves the roots alone; otherwise the first segment reuses the first root whose lower-cased name it is, or else becomes one new root appended at the end |
| Finder.FuzzyFileFinder.MakeDirectoryTree | src/FuzzyFileFinderNET.Lib/FuzzyFileFinder.cs:161-189 | returns the first root or child whose lower-cased name is the sought name, changing nothing; otherwise appends exactly one new node (a root only at the top level) and returns it; no existing node is removed or reordered |
| Finder.FuzzyFileFinder.DetermineSharedPrefix | src/FuzzyFileFinderNET.Lib/FuzzyFileFinder.cs:390-417 | the result is the shared prefix of the root names |
| Finder.FuzzyFileFinder.ScanSegments | src/FuzzyFileFinderNET.Lib/FuzzyFileFinder.cs:406-416 | the loop's early return and its fallback give exactly the scan's result |
| Finder.FuzzyFileFinder.MatchPath | src/FuzzyFileFinderNET.Lib/FuzzyFileFinder.cs:343-362 | a cached directory returns its cached match and leaves the cache alone; otherwise the directory's match is computed and added as one entry; a null directory or a failing name leaves the cache as it was; every cached entry stays the directory's true match |
| Finder.FuzzyFileFinder.MatchFile | src/FuzzyFileFinderNET.Lib/FuzzyFileFinder.cs:366-388 | the result is the specified file match, or nothing when the name does not match |
| Finder.FuzzyFileFinder.Search | src/FuzzyFileFinderNET.Lib/FuzzyFileFinder.cs:263-292 | the results are those collected from the file outcomes, in file order, under the query's path and file regexes |
| Finder.FuzzyFileFinder.VisitFiles | src/FuzzyFileFinderNET.Lib/FuzzyFileFinder.cs:282-291 | the loop over the files with a fresh cache collects exactly the specified results, stopping at the limit |
| Finder.FuzzyFileFinder.VisitFile | src/FuzzyFileFinderNET.Lib/FuzzyFileFinder.cs:285-290 | the outcome of one file is the specified one, and the cache stays sound |
| Finder.FuzzyFileFinder.Find | src/FuzzyFileFinderNET.Lib/FuzzyFileFinder.cs:294-311 | the results are those of the search with max as its limit |

## Left out

- Live scanning of the file system is not modelled, because it is I/O:
  - `ReScan` and `FollowTree`;
  - the ceiling check and `TooManyEntries`;
  - the ignore list.

  The constructor's call of `ReScan` is modelled only where it has an effect: with no full
  names there are no roots to follow, and it clears the file list.
- The constructor's `directories` parameter is not modelled. Its `GetFullPath` and
  `GetAttributes` calls are I/O, and `Roots.Concat` discards its result, so it never
  changes the roots. The default directory `"."` for two `null` lists is left out for the
  same reason.
- A `null` list of full names is not modelled. A Dafny sequence is never `null`, and such
  a list behaves as an empty one.
- `IsIgnored` is not modelled: it is a stub that always answers false, and only the live
  scan calls it.
- The .NET regular-expression engine is not modelled. It is a parameter of type
  `Matcher`, which returns a match length and a sequence of (index, value) captures.
- Scoring.BuildMatchResult: the model reads a match's captures as its parenthesised groups,
  in order, with the index being the group's 0-based position among them (the .NET group
  number minus one). Under that reading the comments beside the loop hold: the odd
  positions are exactly the groups that hold the query's characters
  (`Matching.InsideTagMarksQueryGroups`). Under .NET's own group numbers, where group 0 is
  the whole match, the query's characters sit in the even groups. The code loops over `Match.Captures`, which in .NET holds one capture: the
  whole match, whose index is its text offset (0, because the patterns are anchored). As
  written, nothing is ever highlighted and every non-empty match scores 0;
  `Scoring.WholeMatchCaptureScoresZero` states that outcome.
- .NET strings are sequences of UTF-16 code units, but a Dafny `string` is a sequence of
  Unicode scalar values. The two differ for a character beyond U+FFFF in three places:
  - `ToCharArray` in `MakePattern` makes two literal groups with a filler between them;
  - `Substring(0, 1)` in the abbreviation keeps half of the surrogate pair;
  - the `Length` counts in `BuildMatchResult` count two units.
- `SharedPrefixRegex` is not compiled. Its only use in the core is the replacement, which
  is modelled as `Paths.StripSharedPrefix`.
- Scores are exact reals. Single-precision rounding of the ratios and of the score product
  is not modelled.
- `OrderBy(x => x)` uses the culture-sensitive string comparer, which is not modelled.
  It is replaced by an ordinal sort, whose order can differ from the culture's, for
  example between upper- and lower-case letters.
- `ToLower` folds only the ASCII letters, because Unicode case mapping is not modelled.
- `Path.Combine` is modelled only for the finder's separator and volume separator. The
  alternate directory separator and the invalid-path-character checks are not.
- `MatchFileResult.Name` is left out, because the finder never assigns it.
  `MatchFileResult.ToString` and `FileSystemEntry`'s constructor are left out as
  trivial accessors.
- `CharacterRun` is mutable in the source, and its last run is extended in place. The
  model rebuilds the last run as a value instead. Nothing else holds a reference to a run,
  so this changes nothing observable.
- Search's callback is modelled as the collection of the results in order, with an
  optional limit. `Find`'s `EndBlockException` is that limit's early exit. What an
  arbitrary callback does with a result, or an exception it throws, is not modelled.
- Default argument values are not modelled: `Find`'s `max = Int32.MaxValue` and the
  constructor's `ceiling = 10000` and `ignores = null`. Callers pass `max` explicitly, and
  the ceiling and the ignore list belong to the live scan.
- Finder.FuzzyFileFinder.LoadDirectoryTreeAndFiles: the roots and the files are stated,
  but not which sub-directory each file's parent is. The chain of sub-directories is
  stated one step at a time by `MakeDirectoryTree` and `LoadFile`.
- Finder.FuzzyFileFinder.constructor: the same as for `LoadDirectoryTreeAndFiles`. The
  sub-directories under each root are not stated as one formula over the sorted names.
- Finder.FuzzyFileFinder.LoadFile: the roots are stated, but not which directory the new
  file hangs under. The contract does not follow the chain of `MakeDirectoryTree` calls
  below the root.
- Scoring.ScoreBetweenZeroAndOne: the bound is proved for file-name matches only, which
  have one inside segment. For a directory match it would depend on how the regular
  expression engine places the captures, which is not modelled.
