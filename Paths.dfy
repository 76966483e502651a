/**
 * Path text helpers of the finder: Path.Combine, the removal of the shared
 * prefix from a directory name (SharedPrefixRegex), and the abbreviation of a
 * highlighted directory in which every '/'-free component without a highlight
 * is cut to its first character.
 */
module Paths {
  import opened Results
  import opened Strings

  /**
   * Path.Combine(a, b): b when a is empty or b starts at the root, a when b is
   * empty, otherwise the two joined by one separator unless a already ends in one.
   */
  function Combine(a: string, b: string, sep: char, volumeSep: char): (r: string)
    ensures |b| > 0 && |a| > 0 && b[0] != sep && a[|a| - 1] != sep && a[|a| - 1] != volumeSep
            ==> r == a + [sep] + b
  {
    if |b| == 0 then a
    else if |a| == 0 then b
    else if b[0] == sep then b
    else if a[|a| - 1] == sep || a[|a| - 1] == volumeSep then a + b
    else a + [sep] + b
  }

  /** Combining two separator-free names gives a path whose split is the two names. */
  lemma CombineSplits(a: string, b: string, sep: char, volumeSep: char)
    requires |a| > 0 && |b| > 0 && sep !in a && sep !in b
    requires a[|a| - 1] != volumeSep
    ensures Split(Combine(a, b, sep, volumeSep), sep) == [a, b]
  {
    SplitAppend(a, b, sep);
    SplitWithoutSeparator(a, sep);
    SplitWithoutSeparator(b, sep);
  }

  /** The text SharedPrefixRegex removes: the prefix and a separator, or nothing for an empty prefix. */
  function PrefixLead(prefix: string, sep: char): string
  {
    if |prefix| == 0 then "" else prefix + [sep]
  }

  /** SharedPrefixRegex.Replace(s, ""): the regex is anchored at the start, so at most one leading copy goes. */
  function StripSharedPrefix(s: string, prefix: string, sep: char): (r: string)
    ensures PrefixLead(prefix, sep) <= s ==> s == PrefixLead(prefix, sep) + r
    ensures !(PrefixLead(prefix, sep) <= s) ==> r == s
  {
    var lead := PrefixLead(prefix, sep);
    if lead <= s then s[|lead|..] else s
  }

  /**
   * The name MatchPath matches against: a separator is appended, the shared
   * prefix stripped, and the last character removed again. Removing from an
   * empty string is an ArgumentOutOfRange error.
   */
  function MatchableName(name: string, prefix: string, sep: char): Result<string>
  {
    var stripped := StripSharedPrefix(name + [sep], prefix, sep);
    if |stripped| == 0 then Err(ArgumentOutOfRange) else Ok(stripped[..|stripped| - 1])
  }

  /** MatchableName fails exactly for the directory whose name is the (non-empty) shared prefix. */
  lemma MatchableNameFails(name: string, prefix: string, sep: char)
    ensures MatchableName(name, prefix, sep).Err? <==> |prefix| > 0 && name == prefix
  {
    var lead, padded := PrefixLead(prefix, sep), name + [sep];
    if |prefix| > 0 && lead <= padded && |lead| == |padded| {
      assert prefix == lead[..|prefix|] == padded[..|name|] == name;
    }
  }

  /** Beneath the shared prefix, MatchableName is the name relative to it. */
  lemma MatchableNameBeneath(name: string, prefix: string, sep: char)
    requires |prefix| > 0 && prefix + [sep] <= name
    ensures MatchableName(name, prefix, sep) == Ok(name[|prefix| + 1..])
  {
    assert prefix + [sep] <= name + [sep];
    assert (name + [sep])[|prefix| + 1..] == name[|prefix| + 1..] + [sep];
  }

  /** With an empty shared prefix, or a name outside it, MatchableName is the name itself. */
  lemma MatchableNameOutside(name: string, prefix: string, sep: char)
    requires |prefix| == 0 || !(prefix + [sep] <= name + [sep])
    ensures MatchableName(name, prefix, sep) == Ok(name)
  {
    assert (name + [sep])[..|name|] == name;
  }

  /** The abbreviation splits on '/' whatever the platform separator is. */
  const Slash: char := '/'

  /** The evaluator of the abbreviation: a component holding a highlight stays, any other keeps its first character. */
  function Shorten(component: string): (r: string)
    ensures r <= component
    ensures |r| == 0 <==> |component| == 0
  {
    if '(' in component then component else Take(component, 1)
  }

  /**
   * Regex.Replace(dir, "[^\/]+", evaluator) as a left-to-right scan: the
   * characters of the current '/'-free stretch are gathered in run; at each '/'
   * and at the end the stretch is replaced by Shorten of it, and the '/' is kept.
   */
  function ReplaceComponents(s: string, run: string): string
    decreases |s|
  {
    if |s| == 0 then Shorten(run)
    else if s[0] == Slash then Shorten(run) + [Slash] + ReplaceComponents(s[1..], "")
    else ReplaceComponents(s[1..], run + [s[0]])
  }

  /** The abbreviation of a highlighted directory. */
  function Abbreviate(s: string): string
  {
    ReplaceComponents(s, "")
  }

  /** Shorten applied to every component. */
  function ShortenAll(parts: seq<string>): (r: seq<string>)
    ensures |r| == |parts|
    ensures forall i :: 0 <= i < |r| ==> r[i] == Shorten(parts[i])
  {
    if |parts| == 0 then [] else [Shorten(parts[0])] + ShortenAll(parts[1..])
  }

  /** Shortening and joining a first component and the rest. */
  lemma ShortenJoinCons(head: string, rest: seq<string>)
    requires |rest| >= 1
    ensures Join(Slash, ShortenAll([head] + rest)) == Shorten(head) + [Slash] + Join(Slash, ShortenAll(rest))
  {
    assert ([head] + rest)[1..] == rest;
    assert ShortenAll([head] + rest) == [Shorten(head)] + ShortenAll(rest);
    assert ([Shorten(head)] + ShortenAll(rest))[1..] == ShortenAll(rest);
  }

  /** The scan, part way through a stretch, is the component-wise rewrite of what remains. */
  lemma {:induction false} ReplaceComponentwise(s: string, run: string)
    requires Slash !in run
    ensures ReplaceComponents(s, run) == Join(Slash, ShortenAll(Split(run + s, Slash)))
    decreases |s|
  {
    if |s| == 0 {
      assert run + s == run;
      SplitWithoutSeparator(run, Slash);
    } else if s[0] == Slash {
      var tail := s[1..];
      assert run + s == run + [Slash] + tail;
      SplitCons(run, tail, Slash);
      ShortenJoinCons(run, Split(tail, Slash));
      ReplaceComponentwise(tail, "");
      assert "" + tail == tail;
    } else {
      assert run + s == (run + [s[0]]) + s[1..];
      ReplaceComponentwise(s[1..], run + [s[0]]);
    }
  }

  /** The scan is the component-wise rewrite: split on '/', shorten each component, join again. */
  lemma AbbreviateComponentwise(s: string)
    ensures Abbreviate(s) == Join(Slash, ShortenAll(Split(s, Slash)))
  {
    ReplaceComponentwise(s, "");
    assert "" + s == s;
  }

  /** Splitting the abbreviation gives the shortened components: the separators are kept. */
  lemma AbbreviateSplits(s: string)
    ensures Split(Abbreviate(s), Slash) == ShortenAll(Split(s, Slash))
  {
    AbbreviateComponentwise(s);
    var parts := ShortenAll(Split(s, Slash));
    forall i | 0 <= i < |parts|
      ensures Slash !in parts[i]
    {
      assert parts[i] <= Split(s, Slash)[i];
    }
    SplitJoin(parts, Slash);
  }

  lemma {:induction false} ReplaceEmptyIff(s: string, run: string)
    ensures ReplaceComponents(s, run) == "" <==> s == "" && run == ""
    decreases |s|
  {
    if |s| > 0 && s[0] != Slash {
      ReplaceEmptyIff(s[1..], run + [s[0]]);
    }
  }

  /** The abbreviation is empty exactly when the directory text is. */
  lemma AbbreviateEmptyIff(s: string)
    ensures Abbreviate(s) == "" <==> s == ""
  {
    ReplaceEmptyIff(s, "");
  }

  lemma {:induction false} ReplaceShorter(s: string, run: string)
    ensures |ReplaceComponents(s, run)| <= |run| + |s|
    decreases |s|
  {
    if |s| > 0 {
      if s[0] == Slash {
        ReplaceShorter(s[1..], "");
      } else {
        ReplaceShorter(s[1..], run + [s[0]]);
      }
    }
  }

  /** The abbreviation is never longer than the directory text. */
  lemma AbbreviateShorter(s: string)
    ensures |Abbreviate(s)| <= |s|
  {
    ReplaceShorter(s, "");
  }

  /**
   * On a platform whose separator is not '/', a directory text without '/' is a
   * single component: without a highlight it is cut to its first character.
   */
  lemma AbbreviateWholeText(s: string)
    requires Slash !in s && '(' !in s && |s| > 0
    ensures Abbreviate(s) == s[..1]
  {
    AbbreviateComponentwise(s);
    SplitWithoutSeparator(s, Slash);
  }
}
