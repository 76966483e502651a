/**
 * The shared prefix of the root directories: the longest run of leading
 * separator-split segments on which every root agrees with the last root.
 *
 * This module states what DetermineSharedPrefix computes as functions; the
 * finder's method of that name is proved equal to SharedPrefixOf.
 */
module SharedPrefix {
  import opened Results
  import opened Strings

  /** Each name split on the separator. */
  function SplitAll(names: seq<string>, sep: char): (r: seq<seq<string>>)
    ensures |r| == |names|
    ensures forall i :: 0 <= i < |r| ==> r[i] == Split(names[i], sep)
  {
    if |names| == 0 then [] else [Split(names[0], sep)] + SplitAll(names[1..], sep)
  }

  /** splitRoots.Max(x => x.Length), or 0 for no roots. */
  function MaxLength(xs: seq<seq<string>>): (m: nat)
    ensures forall i :: 0 <= i < |xs| ==> |xs[i]| <= m
    ensures |xs| > 0 ==> exists i :: 0 <= i < |xs| && |xs[i]| == m
  {
    if |xs| == 0 then 0
    else
      var m := MaxLength(xs[1..]);
      if |xs[0]| >= m then |xs[0]|
      else
        var i :| 0 <= i < |xs[1..]| && |xs[1..][i]| == m;
        assert |xs[i + 1]| == m;
        m
  }

  /** The last root, split: the master that DetermineSharedPrefix pops. */
  function Master(names: seq<string>, sep: char): seq<string>
    requires |names| > 0
  {
    Split(names[|names| - 1], sep)
  }

  /** The other roots, split, in their order. */
  function Others(names: seq<string>, sep: char): (r: seq<seq<string>>)
    requires |names| > 0
    ensures |r| == |names| - 1
  {
    SplitAll(names[..|names| - 1], sep)
  }

  /** Popping the last split off the splits of all roots leaves the others and yields the master. */
  lemma PoppedSplits(names: seq<string>, sep: char)
    requires |names| > 0
    ensures SplitAll(names, sep)[..|names| - 1] == Others(names, sep)
    ensures SplitAll(names, sep)[|names| - 1] == Master(names, sep)
  {
  }

  /**
   * splitRoots.All(x => x[k] == master[k]): the roots are visited in order and
   * the first disagreement ends the scan; indexing past the end of a root or of
   * the master is an IndexOutOfRange error.
   */
  function AllAgree(others: seq<seq<string>>, master: seq<string>, k: nat): Result<bool>
  {
    if |others| == 0 then Ok(true)
    else if k >= |others[0]| || k >= |master| then Err(IndexOutOfRange)
    else if others[0][k] != master[k] then Ok(false)
    else AllAgree(others[1..], master, k)
  }

  /** Every other root has a segment k equal to the master's. */
  predicate AgreeAt(others: seq<seq<string>>, master: seq<string>, k: nat)
  {
    k < |master| && forall j :: 0 <= j < |others| ==> k < |others[j]| && others[j][k] == master[k]
  }

  /** Every other root agrees with the master on the segments before k. */
  predicate AgreeBelow(others: seq<seq<string>>, master: seq<string>, k: nat)
  {
    k <= |master| && forall j :: 0 <= j < |others| ==> k <= |others[j]| && others[j][..k] == master[..k]
  }

  /** Some other root has a segment k that differs from the master's. */
  predicate DiffersAt(others: seq<seq<string>>, master: seq<string>, k: nat)
  {
    k < |master| && exists j :: 0 <= j < |others| && k < |others[j]| && others[j][k] != master[k]
  }

  /** AllAgree answers true exactly when every root agrees at segment k. */
  lemma {:induction false} AllAgreeTrue(others: seq<seq<string>>, master: seq<string>, k: nat)
    requires |others| > 0
    ensures AllAgree(others, master, k) == Ok(true) <==> AgreeAt(others, master, k)
    decreases |others|
  {
    if k < |others[0]| && k < |master| && others[0][k] == master[k] {
      var tail := others[1..];
      if |tail| > 0 {
        AllAgreeTrue(tail, master, k);
      }
      assert AgreeAt(others, master, k) <==> (|tail| == 0 || AgreeAt(tail, master, k)) by {
        assert forall j :: 0 < j < |others| ==> others[j] == tail[j - 1];
      }
    }
  }

  /** AllAgree answers false only when some root differs at segment k. */
  lemma {:induction false} AllAgreeFalse(others: seq<seq<string>>, master: seq<string>, k: nat)
    requires AllAgree(others, master, k) == Ok(false)
    ensures DiffersAt(others, master, k)
    decreases |others|
  {
    if others[0][k] == master[k] {
      AllAgreeFalse(others[1..], master, k);
      var j :| 0 <= j < |others[1..]| && k < |others[1..][j]| && others[1..][j][k] != master[k];
      assert others[j + 1] == others[1..][j];
    }
  }

  /** When every root and the master have a segment k, AllAgree does not fail. */
  lemma {:induction false} AllAgreeDefined(others: seq<seq<string>>, master: seq<string>, k: nat)
    requires k < |master| && forall j :: 0 <= j < |others| ==> k < |others[j]|
    ensures AllAgree(others, master, k).Ok?
    decreases |others|
  {
    if |others| > 0 {
      AllAgreeDefined(others[1..], master, k);
    }
  }

  /** The loop of DetermineSharedPrefix from segment k on. */
  function ScanFrom(others: seq<seq<string>>, master: seq<string>, k: nat, segments: nat,
                    fallback: string, sep: char): Result<string>
    decreases segments - k
  {
    if k >= segments then Ok(fallback)
    else
      match AllAgree(others, master, k)
      case Err(e) => Err(e)
      case Ok(agree) =>
        if !agree then Ok(Join(sep, Take(master, k)))
        else ScanFrom(others, master, k + 1, segments, fallback, sep)
  }

  /**
   * DetermineSharedPrefix on the root names: empty without roots, the name of
   * a single root, and otherwise the scan with the last root as master and the
   * first root's name as the fallback.
   */
  function SharedPrefixOf(names: seq<string>, sep: char): Result<string>
  {
    if |names| == 0 then Ok("")
    else if |names| == 1 then Ok(names[0])
    else ScanFrom(Others(names, sep), Master(names, sep), 0, MaxLength(SplitAll(names, sep)), names[0], sep)
  }

  /** Agreement below k and at k is agreement below k + 1. */
  lemma AgreeStep(others: seq<seq<string>>, master: seq<string>, k: nat)
    requires AgreeBelow(others, master, k) && AgreeAt(others, master, k)
    ensures AgreeBelow(others, master, k + 1)
  {
    forall j | 0 <= j < |others|
      ensures others[j][..k + 1] == master[..k + 1]
    {
      assert others[j][..k + 1] == others[j][..k] + [others[j][k]];
      assert master[..k + 1] == master[..k] + [master[k]];
    }
  }

  /**
   * A successful scan ends either at the first segment where some root differs,
   * yielding the join of the master's segments before it, or with the fallback
   * after agreeing on every segment up to the limit.
   */
  lemma {:induction false} ScanFromResult(others: seq<seq<string>>, master: seq<string>, k: nat, segments: nat,
                                          fallback: string, sep: char, p: string)
    requires |others| > 0 && k <= segments && AgreeBelow(others, master, k)
    requires ScanFrom(others, master, k, segments, fallback, sep) == Ok(p)
    ensures (exists e :: k <= e < segments && AgreeBelow(others, master, e) && DiffersAt(others, master, e)
               && p == Join(sep, master[..e]))
            || (p == fallback && AgreeBelow(others, master, segments))
    decreases segments - k
  {
    if k < segments {
      AllAgreeTrue(others, master, k);
      if AllAgree(others, master, k) == Ok(false) {
        AllAgreeFalse(others, master, k);
        assert k <= k < segments && p == Join(sep, master[..k]);
      } else {
        AgreeStep(others, master, k);
        ScanFromResult(others, master, k + 1, segments, fallback, sep, p);
      }
    }
  }

  /** Agreement on every segment up to the longest length makes all splits equal. */
  lemma FullAgreement(others: seq<seq<string>>, master: seq<string>, segments: nat)
    requires AgreeBelow(others, master, segments)
    requires |master| <= segments && forall j :: 0 <= j < |others| ==> |others[j]| <= segments
    ensures |master| == segments && forall j :: 0 <= j < |others| ==> others[j] == master
  {
    forall j | 0 <= j < |others|
      ensures others[j] == master
    {
      assert others[j] == others[j][..segments];
      assert master == master[..segments];
    }
  }

  /** All names are split no longer than the longest one. */
  lemma WithinMaxLength(names: seq<string>, sep: char)
    requires |names| > 0
    ensures var segments := MaxLength(SplitAll(names, sep));
            |Master(names, sep)| <= segments
            && forall j :: 0 <= j < |Others(names, sep)| ==> |Others(names, sep)[j]| <= segments
  {
    var all := SplitAll(names, sep);
    assert all[|names| - 1] == Master(names, sep);
    forall j | 0 <= j < |Others(names, sep)|
      ensures Others(names, sep)[j] == all[j]
    {
    }
  }

  /**
   * The shared prefix of two or more roots is the join of the last root's first
   * k segments, where every other root agrees on those, and either some root
   * differs at segment k or k covers the whole last root.
   */
  lemma SharedPrefixLongest(names: seq<string>, sep: char, p: string)
    requires |names| >= 2 && SharedPrefixOf(names, sep) == Ok(p)
    ensures exists k :: 0 <= k <= |Master(names, sep)| && AgreeBelow(Others(names, sep), Master(names, sep), k)
                        && (DiffersAt(Others(names, sep), Master(names, sep), k) || k == |Master(names, sep)|)
                        && p == Join(sep, Master(names, sep)[..k])
  {
    var others, master := Others(names, sep), Master(names, sep);
    var segments := MaxLength(SplitAll(names, sep));
    ScanFromResult(others, master, 0, segments, names[0], sep, p);
    if !exists e :: 0 <= e < segments && AgreeBelow(others, master, e) && DiffersAt(others, master, e)
                    && p == Join(sep, master[..e]) {
      WithinMaxLength(names, sep);
      FullAgreement(others, master, segments);
      assert p == Join(sep, master[..|master|]) by {
        assert others[0] == Split(names[0], sep);
        SameSplitSameName(names[0], names[|names| - 1], sep);
        JoinSplit(names[|names| - 1], sep);
        assert master[..|master|] == master;
      }
    }
  }

  /** Equal splits come from equal names. */
  lemma SameSplitSameName(a: string, b: string, sep: char)
    requires Split(a, sep) == Split(b, sep)
    ensures a == b
  {
    JoinSplit(a, sep);
    JoinSplit(b, sep);
  }

  /** The join of the first k pieces of a name is a prefix of the name. */
  lemma JoinedPrefixOf(name: string, sep: char, k: nat)
    requires k <= |Split(name, sep)|
    ensures Join(sep, Split(name, sep)[..k]) <= name
  {
    JoinTakeIsPrefix(sep, Split(name, sep), k);
    JoinSplit(name, sep);
  }

  /** Agreement of the other roots with the master is agreement of every root's split with the master. */
  lemma AgreeBelowEveryRoot(names: seq<string>, sep: char, k: nat)
    requires |names| > 0 && AgreeBelow(Others(names, sep), Master(names, sep), k)
    ensures forall i :: 0 <= i < |names| ==> k <= |Split(names[i], sep)| && Split(names[i], sep)[..k] == Master(names, sep)[..k]
  {
    var others := Others(names, sep);
    forall i | 0 <= i < |names| - 1
      ensures Split(names[i], sep) == others[i]
    {
    }
  }

  /** A join of leading segments that a name shares is a prefix of that name. */
  lemma SharedLeadIsPrefix(name: string, sep: char, lead: seq<string>)
    requires |lead| <= |Split(name, sep)| && Split(name, sep)[..|lead|] == lead
    ensures Join(sep, lead) <= name
  {
    JoinedPrefixOf(name, sep, |lead|);
  }

  /** The shared prefix, when there is one, is a prefix of the name of every root. */
  lemma SharedPrefixIsCommon(names: seq<string>, sep: char, p: string)
    requires SharedPrefixOf(names, sep) == Ok(p)
    ensures forall i :: 0 <= i < |names| ==> p <= names[i]
  {
    if |names| >= 2 {
      var others, master := Others(names, sep), Master(names, sep);
      SharedPrefixLongest(names, sep, p);
      var k :| 0 <= k <= |master| && AgreeBelow(others, master, k) && p == Join(sep, master[..k]);
      AgreeBelowEveryRoot(names, sep, k);
      forall i | 0 <= i < |names|
        ensures p <= names[i]
      {
        SharedLeadIsPrefix(names[i], sep, master[..k]);
      }
    }
  }

  /** Roots that are single segments, as the tree built from full paths has, never make the scan fail. */
  lemma SingleSegmentRootsSucceed(names: seq<string>, sep: char)
    requires forall i :: 0 <= i < |names| ==> sep !in names[i]
    ensures SharedPrefixOf(names, sep).Ok?
  {
    if |names| >= 2 {
      var others, master := Others(names, sep), Master(names, sep);
      SingleSegmentSplits(names, sep);
      AllAgreeDefined(others, master, 0);
    }
  }

  /** Distinct single-segment roots share nothing: the shared prefix is empty. */
  lemma DistinctSingleSegmentRoots(names: seq<string>, sep: char)
    requires forall i :: 0 <= i < |names| ==> sep !in names[i]
    requires exists i :: 0 <= i < |names| && names[i] != names[|names| - 1]
    ensures SharedPrefixOf(names, sep) == Ok("")
  {
    var others, master := Others(names, sep), Master(names, sep);
    SingleSegmentSplits(names, sep);
    var i :| 0 <= i < |names| && names[i] != names[|names| - 1];
    assert i != |names| - 1;
    assert i < |names| - 1;
    assert |others| == |names| - 1;
    assert i < |others| && others[i] == [names[i]];
    assert others[i][0] != master[0];
    OneSegmentDisagreement(others, master, i);
    assert Take(master, 0) == [];
  }

  /** Among one-segment roots, one that differs from the master makes AllAgree answer false at 0. */
  lemma OneSegmentDisagreement(others: seq<seq<string>>, master: seq<string>, i: nat)
    requires |master| == 1 && forall j :: 0 <= j < |others| ==> |others[j]| == 1
    requires i < |others| && others[i][0] != master[0]
    ensures AllAgree(others, master, 0) == Ok(false)
  {
    AllAgreeDefined(others, master, 0);
    AllAgreeTrue(others, master, 0);
    assert !AgreeAt(others, master, 0) by {
      assert !(0 < |others[i]| && others[i][0] == master[0]);
    }
    var r := AllAgree(others, master, 0);
    assert r == Ok(r.value) && !r.value;
  }

  /** Without separators every root splits into itself alone. */
  lemma SingleSegmentSplits(names: seq<string>, sep: char)
    requires |names| >= 2 && forall i :: 0 <= i < |names| ==> sep !in names[i]
    ensures Master(names, sep) == [names[|names| - 1]] && |Master(names, sep)| == 1
    ensures forall j :: 0 <= j < |Others(names, sep)| ==> |Others(names, sep)[j]| == 1
    ensures forall j :: 0 <= j < |Others(names, sep)| ==> Others(names, sep)[j] == [names[j]]
    ensures MaxLength(SplitAll(names, sep)) == 1
  {
    var all := SplitAll(names, sep);
    forall i | 0 <= i < |names|
      ensures all[i] == [names[i]]
    {
      SplitWithoutSeparator(names[i], sep);
    }
    var others := Others(names, sep);
    forall j | 0 <= j < |others|
      ensures others[j] == [names[j]]
    {
      SplitWithoutSeparator(names[j], sep);
    }
  }

  /** "/a/b/" followed by a separator-free name splits into "", "a", "b" and that name. */
  lemma SplitUnderAB(last: string)
    requires '/' !in last
    ensures Split("/a/b/" + last, '/') == ["", "a", "b", last]
  {
    var bLast := "b" + ['/'] + last;
    var abLast := "a" + ['/'] + bLast;
    var whole := "" + ['/'] + abLast;
    assert Split(bLast, '/') == ["b", last] by {
      SplitCons("b", last, '/');
      SplitWithoutSeparator(last, '/');
    }
    assert Split(abLast, '/') == ["a", "b", last] by {
      SplitCons("a", bLast, '/');
    }
    assert Split(whole, '/') == ["", "a", "b", last] by {
      SplitCons("", abLast, '/');
    }
    assert "/a/b/" + last == whole by {
      SlashABLayout(last);
    }
  }

  /** "/a/b/" followed by a name, built up from its parts. */
  lemma SlashABLayout(last: string)
    ensures "/a/b/" + last == "" + ['/'] + ("a" + ['/'] + ("b" + ['/'] + last))
  {
    assert "/a/b/" == ['/', 'a', '/', 'b', '/'];
    assert "" + ['/'] + ("a" + ['/'] + ("b" + ['/'] + last)) == ['/', 'a', '/', 'b', '/'] + last;
  }

  /** With two roots, the first is the only other root and the last is the master. */
  lemma TwoRoots(a: string, b: string, sep: char)
    ensures Master([a, b], sep) == Split(b, sep)
    ensures Others([a, b], sep) == [Split(a, sep)]
    ensures MaxLength(SplitAll([a, b], sep)) == if |Split(a, sep)| >= |Split(b, sep)| then |Split(a, sep)| else |Split(b, sep)|
  {
    assert [a, b][..1] == [a];
    var all := SplitAll([a, b], sep);
    assert all == [Split(a, sep), Split(b, sep)];
    assert all[1..][1..] == [];
  }

  /** Two roots /a/b/x and /a/b/y share /a/b. */
  lemma SharedPrefixExample()
    ensures SharedPrefixOf(["/a/b/x", "/a/b/y"], '/') == Ok("/a/b")
  {
    var m := ["", "a", "b", "y"];
    var o := [["", "a", "b", "x"]];
    TwoRoots("/a/b/x", "/a/b/y", '/');
    ExampleSplits();
    ExampleScan(o, m);
  }

  lemma ExampleSplits()
    ensures Split("/a/b/x", '/') == ["", "a", "b", "x"]
    ensures Split("/a/b/y", '/') == ["", "a", "b", "y"]
  {
    assert "/a/b/y" == "/a/b/" + "y" && "/a/b/x" == "/a/b/" + "x";
    SplitUnderAB("y");
    SplitUnderAB("x");
  }

  /** The scan of the example: the roots agree on "", "a" and "b" and differ at the fourth segment. */
  lemma ExampleScan(o: seq<seq<string>>, m: seq<string>)
    requires m == ["", "a", "b", "y"] && o == [["", "a", "b", "x"]]
    ensures ScanFrom(o, m, 0, 4, "/a/b/x", '/') == Ok("/a/b")
  {
    assert ScanFrom(o, m, 0, 4, "/a/b/x", '/') == ScanFrom(o, m, 3, 4, "/a/b/x", '/') by {
      assert AllAgree(o, m, 0) == Ok(true);
      assert AllAgree(o, m, 1) == Ok(true);
      assert AllAgree(o, m, 2) == Ok(true);
    }
    assert ScanFrom(o, m, 3, 4, "/a/b/x", '/') == Ok(Join('/', m[..3])) by {
      assert AllAgree(o, m, 3) == Ok(false);
    }
    assert Join('/', m[..3]) == "/a/b" by {
      assert m[..3] == ["", "a", "b"];
      assert Join('/', ["b"]) == "b";
      assert Join('/', ["a", "b"]) == "a" + "/" + "b" by {
        assert ["a", "b"][1..] == ["b"];
      }
      assert ["", "a", "b"][1..] == ["a", "b"];
    }
  }

  /** A root that is a parent of another (/a and /a/b) makes the scan index past its end. */
  lemma NestedRootsFail()
    ensures SharedPrefixOf(["/a", "/a/b"], '/') == Err(IndexOutOfRange)
  {
    var m := ["", "a", "b"];
    var o := [["", "a"]];
    TwoRoots("/a", "/a/b", '/');
    assert Split("/a/b", '/') == m by {
      assert "/a/b" == "" + ['/'] + ("a" + ['/'] + "b");
      SplitCons("", "a" + ['/'] + "b", '/');
      SplitCons("a", "b", '/');
      SplitWithoutSeparator("b", '/');
    }
    assert Split("/a", '/') == o[0] by {
      assert "/a" == "" + ['/'] + "a";
      SplitCons("", "a", '/');
      SplitWithoutSeparator("a", '/');
    }
    assert SharedPrefixOf(["/a", "/a/b"], '/') == ScanFrom(o, m, 0, 3, "/a", '/');
    assert AllAgree(o, m, 0) == Ok(true);
    assert AllAgree(o, m, 1) == Ok(true);
    assert AllAgree(o, m, 2) == Err(IndexOutOfRange);
  }
}
