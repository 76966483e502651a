/**
 * Pattern compilation: a query becomes a sequence of capture groups, one per
 * query character with a lazy "no separator" filler between consecutive ones;
 * path patterns join per-segment patterns with an "anything, separator,
 * anything" group and anchor the whole.
 *
 * The text a group renders to is the regular-expression source the finder
 * builds; the group sequence is the structure that text stands for.
 */
module Patterns {
  import opened Results
  import opened Strings

  /** The characters Regex.Escape prefixes with a backslash as they are. */
  predicate IsMetaChar(c: char)
  {
    c == '\\' || c == '*' || c == '+' || c == '?' || c == '|' || c == '{' || c == '['
    || c == '(' || c == ')' || c == '^' || c == '$' || c == '.' || c == '#' || c == ' '
  }

  /** Regex.Escape on one character: the metacharacters and white space get a backslash. */
  function EscapeChar(c: char): (r: string)
    ensures 1 <= |r| <= 2
    ensures |r| == 2 ==> r[0] == '\\'
    ensures ('a' <= c <= 'z' || 'A' <= c <= 'Z' || '0' <= c <= '9') ==> r == [c]
  {
    if c == '\t' then "\\t"
    else if c == '\n' then "\\n"
    else if c == '\r' then "\\r"
    else if c == '\U{000C}' then "\\f"
    else if IsMetaChar(c) then ['\\', c]
    else [c]
  }

  /** Regex.Escape. */
  function Escape(s: string): (r: string)
    ensures |s| <= |r| <= 2 * |s|
  {
    if |s| == 0 then "" else EscapeChar(s[0]) + Escape(s[1..])
  }

  /** The character a backslash escape stands for. */
  function UnescapeCode(d: char): char
  {
    if d == 't' then '\t'
    else if d == 'n' then '\n'
    else if d == 'r' then '\r'
    else if d == 'f' then '\U{000C}'
    else d
  }

  /** Reads an escaped literal back into the characters it matches. */
  function Unescape(s: string): string
  {
    if |s| == 0 then ""
    else if s[0] == '\\' && |s| >= 2 then [UnescapeCode(s[1])] + Unescape(s[2..])
    else [s[0]] + Unescape(s[1..])
  }

  /** Escaping loses nothing: the escaped text reads back as the original. */
  lemma {:induction false} EscapeRoundTrip(s: string)
    ensures Unescape(Escape(s)) == s
    decreases |s|
  {
    if |s| > 0 {
      var rest := Escape(s[1..]);
      assert Escape(s) == EscapeChar(s[0]) + rest;
      UnescapeStep(s[0], rest);
      EscapeRoundTrip(s[1..]);
      assert [s[0]] + s[1..] == s;
    }
  }

  /** One escaped character reads back as itself, whatever follows it. */
  lemma UnescapeStep(c: char, rest: string)
    ensures Unescape(EscapeChar(c) + rest) == [c] + Unescape(rest)
  {
    var e := EscapeChar(c);
    if |e| == 2 {
      assert (e + rest)[0] == '\\' && (e + rest)[1] == e[1];
      assert (e + rest)[2..] == rest;
      assert UnescapeCode(e[1]) == c;
    } else {
      assert e == [c] && c != '\\';
      assert (e + rest)[1..] == rest;
    }
  }

  /** One capture group of a compiled pattern. */
  datatype Group =
    | Literal(text: string)  // "(" + Escape(text) + ")"
    | NonSepFiller           // "([^" + Escape(sep) + "]*?)"
    | AnyLazy                // "(.*?)"
    | AnyGreedy              // "(.*)"
    | SeparatorGap           // "(.*?" + Escape(sep) + ".*?)"

  function RenderGroup(g: Group, sep: char): string
  {
    match g
    case Literal(t) => "(" + Escape(t) + ")"
    case NonSepFiller => "([^" + Escape([sep]) + "]*?)"
    case AnyLazy => "(.*?)"
    case AnyGreedy => "(.*)"
    case SeparatorGap => "(.*?" + Escape([sep]) + ".*?)"
  }

  /** The regular-expression text of a group sequence. */
  function Render(gs: seq<Group>, sep: char): string
  {
    if |gs| == 0 then "" else Render(gs[..|gs| - 1], sep) + RenderGroup(gs[|gs| - 1], sep)
  }

  lemma {:induction false} RenderAppend(a: seq<Group>, b: seq<Group>, sep: char)
    ensures Render(a + b, sep) == Render(a, sep) + Render(b, sep)
    decreases |b|
  {
    if |b| > 0 {
      assert (a + b)[..|a + b| - 1] == a + b[..|b| - 1];
      RenderAppend(a, b[..|b| - 1], sep);
    } else {
      assert a + b == a;
    }
  }

  /** The one-character strings of the query, or a single empty string for an empty query. */
  function Pieces(q: string): (ps: seq<string>)
    ensures |ps| == if |q| == 0 then 1 else |q|
  {
    if |q| == 0 then [""] else seq(|q|, i requires 0 <= i < |q| => [q[i]])
  }

  /** A literal group per piece, with a filler between consecutive ones. */
  function PieceGroups(ps: seq<string>): seq<Group>
  {
    if |ps| == 0 then []
    else if |ps| == 1 then [Literal(ps[0])]
    else PieceGroups(ps[..|ps| - 1]) + [NonSepFiller, Literal(ps[|ps| - 1])]
  }

  /** The groups MakePattern compiles a query to. */
  function PatternGroups(q: string): seq<Group>
  {
    PieceGroups(Pieces(q))
  }

  /** The regular-expression text MakePattern returns for a query. */
  function PatternText(q: string, sep: char): string
  {
    Render(PatternGroups(q), sep)
  }

  lemma {:induction false} PieceGroupsShape(ps: seq<string>)
    requires |ps| >= 1
    ensures |PieceGroups(ps)| == 2 * |ps| - 1
    ensures forall i :: 0 <= i < |ps| ==> PieceGroups(ps)[2 * i] == Literal(ps[i])
    ensures forall i :: 0 <= i < |ps| - 1 ==> PieceGroups(ps)[2 * i + 1] == NonSepFiller
    decreases |ps|
  {
    if |ps| > 1 {
      var init := ps[..|ps| - 1];
      PieceGroupsShape(init);
      forall i | 0 <= i < |ps| - 1 ensures PieceGroups(ps)[2 * i] == Literal(ps[i]) {
        assert init[i] == ps[i];
      }
    }
  }

  /**
   * An n-character query (n >= 1) compiles to n literal groups holding its
   * characters in order, separated by n - 1 fillers; the empty query compiles
   * to one empty literal group.
   */
  lemma PatternGroupsShape(q: string)
    ensures |q| == 0 ==> PatternGroups(q) == [Literal("")]
    ensures |q| >= 1 ==> |PatternGroups(q)| == 2 * |q| - 1
    ensures forall i :: 0 <= i < |q| ==> PatternGroups(q)[2 * i] == Literal([q[i]])
    ensures forall i :: 0 <= i < |q| - 1 ==> PatternGroups(q)[2 * i + 1] == NonSepFiller
  {
    if |q| >= 1 {
      PieceGroupsShape(Pieces(q));
    }
  }

  function LiteralText(g: Group): string
  {
    if g.Literal? then g.text else ""
  }

  /** The concatenated text of the literal groups: the characters a pattern requires. */
  function Literals(gs: seq<Group>): string
  {
    if |gs| == 0 then "" else Literals(gs[..|gs| - 1]) + LiteralText(gs[|gs| - 1])
  }

  lemma {:induction false} LiteralsAppend(a: seq<Group>, b: seq<Group>)
    ensures Literals(a + b) == Literals(a) + Literals(b)
    decreases |b|
  {
    if |b| > 0 {
      assert (a + b)[..|a + b| - 1] == a + b[..|b| - 1];
      LiteralsAppend(a, b[..|b| - 1]);
    } else {
      assert a + b == a;
    }
  }

  lemma {:induction false} PieceGroupsLiterals(ps: seq<string>)
    ensures Literals(PieceGroups(ps)) == ConcatPieces(ps)
    decreases |ps|
  {
    if |ps| > 1 {
      var init, last := ps[..|ps| - 1], ps[|ps| - 1];
      var tail := [NonSepFiller, Literal(last)];
      assert Literals(tail) == last by {
        assert tail[..1] == [NonSepFiller] && tail[..1][..0] == [];
        assert Literals(tail[..1]) == "";
      }
      assert Literals(PieceGroups(init)) == ConcatPieces(init) by {
        PieceGroupsLiterals(init);
      }
      assert Literals(PieceGroups(ps)) == Literals(PieceGroups(init)) + Literals(tail) by {
        LiteralsAppend(PieceGroups(init), tail);
      }
    } else if |ps| == 1 {
      assert [Literal(ps[0])][..0] == [];
    }
  }

  function ConcatPieces(ps: seq<string>): string
  {
    if |ps| == 0 then "" else ConcatPieces(ps[..|ps| - 1]) + ps[|ps| - 1]
  }

  lemma {:induction false} ConcatSingletons(q: string)
    ensures ConcatPieces(seq(|q|, i requires 0 <= i < |q| => [q[i]])) == q
    decreases |q|
  {
    if |q| > 0 {
      var ps := seq(|q|, i requires 0 <= i < |q| => [q[i]]);
      var init := q[..|q| - 1];
      ConcatSingletons(init);
      assert ps[..|ps| - 1] == seq(|init|, i requires 0 <= i < |init| => [init[i]]);
      assert init + [q[|q| - 1]] == q;
    }
  }

  /** The literal groups of a compiled query spell out the query: nothing is lost or reordered. */
  lemma PatternLiteralsRoundTrip(q: string)
    ensures Literals(PatternGroups(q)) == q
  {
    PieceGroupsLiterals(Pieces(q));
    if |q| > 0 {
      ConcatSingletons(q);
    } else {
      assert ConcatPieces([""]) == "";
    }
  }

  lemma RenderOne(g: Group, sep: char)
    ensures Render([g], sep) == RenderGroup(g, sep)
  {
    assert [g][..0] == [];
  }

  lemma RenderTwo(g: Group, h: Group, sep: char)
    ensures Render([g, h], sep) == RenderGroup(g, sep) + RenderGroup(h, sep)
  {
    assert [g, h][..1] == [g];
    RenderOne(g, sep);
  }

  /** Adding one more piece renders as the old text, a filler and the new literal. */
  lemma PieceGroupsRenderStep(ps: seq<string>, x: string, sep: char)
    requires |ps| >= 1
    ensures Render(PieceGroups(ps + [x]), sep)
         == Render(PieceGroups(ps), sep) + RenderGroup(NonSepFiller, sep) + RenderGroup(Literal(x), sep)
  {
    assert (ps + [x])[..|ps|] == ps;
    assert PieceGroups(ps + [x]) == PieceGroups(ps) + [NonSepFiller, Literal(x)];
    RenderAppend(PieceGroups(ps), [NonSepFiller, Literal(x)], sep);
    RenderTwo(NonSepFiller, Literal(x), sep);
  }

  /** Taking one more piece renders as before, then a filler unless it is the first, then its literal. */
  lemma PieceGroupsPrefixStep(ps: seq<string>, i: nat, sep: char)
    requires i < |ps|
    ensures Render(PieceGroups(ps[..i + 1]), sep)
         == Render(PieceGroups(ps[..i]), sep) + (if i > 0 then RenderGroup(NonSepFiller, sep) else "")
            + RenderGroup(Literal(ps[i]), sep)
  {
    assert ps[..i + 1] == ps[..i] + [ps[i]];
    if i > 0 {
      PieceGroupsRenderStep(ps[..i], ps[i], sep);
    } else {
      RenderOne(Literal(ps[i]), sep);
    }
  }

  /**
   * MakePattern: appends a literal group per piece to a StringBuilder, preceded
   * by a filler whenever the builder already holds text.
   */
  method MakePattern(pattern: string, sep: char) returns (r: string)
    ensures r == PatternText(pattern, sep)
  {
    var patterns := Pieces(pattern);
    var strBuilder := "";
    for i := 0 to |patterns|
      invariant (|strBuilder| > 0) == (i > 0)
      invariant strBuilder == Render(PieceGroups(patterns[..i]), sep)
    {
      PieceGroupsPrefixStep(patterns, i, sep);
      if |strBuilder| > 0 {
        var filler := "([^" + Escape([sep]) + "]*?)";
        assert filler == RenderGroup(NonSepFiller, sep);
        strBuilder := strBuilder + filler;
      }
      var literal := "(" + Escape(patterns[i]) + ")";
      assert literal == RenderGroup(Literal(patterns[i]), sep);
      strBuilder := strBuilder + literal;
    }
    assert patterns[..|patterns|] == patterns;
    r := strBuilder;
  }

  /** Appending a character to a non-empty query appends a filler and its literal group. */
  lemma PatternTextSnoc(q: string, x: char, sep: char)
    requires |q| >= 1
    ensures PatternText(q + [x], sep)
         == PatternText(q, sep) + RenderGroup(NonSepFiller, sep) + RenderGroup(Literal([x]), sep)
  {
    assert Pieces(q + [x]) == Pieces(q) + [[x]];
    PieceGroupsRenderStep(Pieces(q), [x], sep);
  }

  /** A character Regex.Escape leaves alone. */
  predicate PlainChar(c: char)
  {
    !IsMetaChar(c) && c != '\t' && c != '\n' && c != '\r' && c != '\U{000C}'
  }

  lemma EscapePlain(c: char)
    requires PlainChar(c)
    ensures Escape([c]) == [c]
  {
    assert [c][1..] == [];
  }

  /**
   * The unit-test expectation: "foo" compiles to (f)([^S]*?)(o)([^S]*?)(o),
   * where S is the escaped separator.
   */
  lemma MakePatternFoo(sep: char)
    ensures var gap := "([^" + Escape([sep]) + "]*?)";
            PatternText("foo", sep) == "(f)" + gap + "(o)" + gap + "(o)"
  {
    var f, o := RenderGroup(Literal("f"), sep), RenderGroup(Literal("o"), sep);
    var gap := RenderGroup(NonSepFiller, sep);
    assert f == "(f)" && o == "(o)" by {
      EscapePlain('f');
      EscapePlain('o');
    }
    assert PatternText("foo", sep) == f + gap + o + gap + o by {
      assert PatternText("f", sep) == f by {
        assert Pieces("f") == ["f"];
        RenderOne(Literal("f"), sep);
      }
      assert PatternText("fo", sep) == f + gap + o by {
        assert "fo" == "f" + ['o'];
        PatternTextSnoc("f", 'o', sep);
      }
      assert "foo" == "fo" + ['o'];
      PatternTextSnoc("fo", 'o', sep);
    }
  }

  /** On a platform whose separator is '/', the filler is ([^/]*?). */
  lemma MakePatternFooSlash()
    ensures PatternText("foo", '/') == "(f)" + "([^/]*?)" + "(o)" + "([^/]*?)" + "(o)"
  {
    var gap := "([^" + Escape(['/']) + "]*?)";
    assert gap == "([^/]*?)" by {
      EscapePlain('/');
    }
    MakePatternFoo('/');
    assert PatternText("foo", '/') == "(f)" + gap + "(o)" + gap + "(o)";
  }

  /** The empty query compiles to "()". */
  lemma MakePatternEmpty(sep: char)
    ensures PatternText("", sep) == "()"
  {
    RenderOne(Literal(""), sep);
  }

  /** Enumerable.Aggregate((a, b) => a + gap + b): a left fold. */
  function AggregateWith(xs: seq<string>, gap: string): string
    requires |xs| >= 1
  {
    if |xs| == 1 then xs[0] else AggregateWith(xs[..|xs| - 1], gap) + gap + xs[|xs| - 1]
  }

  /** MakePathPattern: the segment patterns joined by gap groups, anchored at both ends. */
  function MakePathPattern(pathParts: seq<string>, sep: char): (r: Result<string>)
    ensures r.Err? <==> |pathParts| == 0
    ensures r.Err? ==> r.error == InvalidOperation
  {
    if |pathParts| == 0 then Err(InvalidOperation)
    else
      Ok("^(.*?)" + AggregateWith(PatternTexts(pathParts, sep), RenderGroup(SeparatorGap, sep)) + "(.*?)$")
  }

  /** pathParts.Select(part => MakePattern(part)). */
  function PatternTexts(parts: seq<string>, sep: char): (r: seq<string>)
    ensures |r| == |parts|
  {
    if |parts| == 0 then [] else PatternTexts(parts[..|parts| - 1], sep) + [PatternText(parts[|parts| - 1], sep)]
  }

  /** The segment groups joined by separator gaps. */
  function JoinedGroups(parts: seq<string>): seq<Group>
    requires |parts| >= 1
  {
    if |parts| == 1 then PatternGroups(parts[0])
    else JoinedGroups(parts[..|parts| - 1]) + [SeparatorGap] + PatternGroups(parts[|parts| - 1])
  }

  /** The groups of a path pattern: lazy "anything" at both ends around the joined segments. */
  function PathGroups(parts: seq<string>): seq<Group>
    requires |parts| >= 1
  {
    [AnyLazy] + JoinedGroups(parts) + [AnyLazy]
  }

  lemma {:induction false} AggregateRendersJoined(parts: seq<string>, sep: char)
    requires |parts| >= 1
    ensures AggregateWith(PatternTexts(parts, sep), RenderGroup(SeparatorGap, sep))
         == Render(JoinedGroups(parts), sep)
    decreases |parts|
  {
    var patterns := PatternTexts(parts, sep);
    if |parts| > 1 {
      var init := parts[..|parts| - 1];
      AggregateRendersJoined(init, sep);
      assert patterns[..|patterns| - 1] == PatternTexts(init, sep);
      RenderAppend(JoinedGroups(init) + [SeparatorGap], PatternGroups(parts[|parts| - 1]), sep);
      RenderAppend(JoinedGroups(init), [SeparatorGap], sep);
      assert Render([SeparatorGap], sep) == RenderGroup(SeparatorGap, sep) by {
        assert [SeparatorGap][..0] == [];
      }
    }
  }

  /** The anchored ends of the file and path patterns are the "anything" groups. */
  lemma AnchorTexts(sep: char)
    ensures "^(.*?)" == "^" + RenderGroup(AnyLazy, sep)
    ensures "(.*?)$" == RenderGroup(AnyLazy, sep) + "$"
    ensures "(.*)$" == RenderGroup(AnyGreedy, sep) + "$"
  {
  }

  /** A path pattern is the anchored rendering of its group sequence. */
  lemma PathPatternRendersGroups(parts: seq<string>, sep: char)
    requires |parts| >= 1
    ensures MakePathPattern(parts, sep) == Ok("^" + Render(PathGroups(parts), sep) + "$")
  {
    var joined := JoinedGroups(parts);
    var lazy, body := RenderGroup(AnyLazy, sep), Render(joined, sep);
    assert Render(PathGroups(parts), sep) == lazy + body + lazy by {
      RenderAppend([AnyLazy] + joined, [AnyLazy], sep);
      RenderAppend([AnyLazy], joined, sep);
      RenderOne(AnyLazy, sep);
    }
    assert AggregateWith(PatternTexts(parts, sep), RenderGroup(SeparatorGap, sep)) == body by {
      AggregateRendersJoined(parts, sep);
    }
    AnchorTexts(sep);
    Regroup("^", lazy, body, lazy, "$");
  }

  /**
   * Reads a group sequence back into the literal text of each stretch between
   * separator gaps.
   */
  function Segments(gs: seq<Group>): (r: seq<string>)
    ensures |r| >= 1
  {
    if |gs| == 0 then [""]
    else
      var s := Segments(gs[..|gs| - 1]);
      var g := gs[|gs| - 1];
      if g == SeparatorGap then s + [""]
      else s[..|s| - 1] + [s[|s| - 1] + LiteralText(g)]
  }

  predicate NoGap(gs: seq<Group>)
  {
    forall i :: 0 <= i < |gs| ==> gs[i] != SeparatorGap
  }

  lemma {:induction false} PieceGroupsNoGap(ps: seq<string>)
    ensures NoGap(PieceGroups(ps))
    decreases |ps|
  {
    if |ps| > 1 {
      PieceGroupsNoGap(ps[..|ps| - 1]);
    }
  }

  lemma {:induction false} SegmentsAfterGap(x: seq<Group>, p: seq<Group>)
    requires NoGap(p)
    ensures Segments(x + [SeparatorGap] + p) == Segments(x) + [Literals(p)]
    decreases |p|
  {
    if |p| == 0 {
      assert x + [SeparatorGap] + p == x + [SeparatorGap];
      assert (x + [SeparatorGap])[..|x|] == x;
    } else {
      var init, last := p[..|p| - 1], p[|p| - 1];
      var y := x + [SeparatorGap] + p;
      assert y[..|y| - 1] == x + [SeparatorGap] + init;
      assert y[|y| - 1] == last && last != SeparatorGap;
      SegmentsAfterGap(x, init);
      var before := Segments(x) + [Literals(init)];
      assert Segments(y[..|y| - 1]) == before;
      assert Segments(y) == before[..|before| - 1] + [before[|before| - 1] + LiteralText(last)];
      assert before[..|before| - 1] == Segments(x);
      assert Literals(p) == Literals(init) + LiteralText(last);
    }
  }

  lemma {:induction false} SegmentsNoGap(p: seq<Group>)
    requires NoGap(p)
    ensures Segments(p) == [Literals(p)]
    decreases |p|
  {
    if |p| > 0 {
      SegmentsNoGap(p[..|p| - 1]);
    }
  }

  /**
   * The directory parts of a query can be read back from its path pattern:
   * one stretch of literals per part, in order, split at the separator gaps.
   */
  lemma {:induction false} PathGroupsSegmentsRoundTrip(parts: seq<string>)
    requires |parts| >= 1
    ensures Segments(JoinedGroups(parts)) == parts
    decreases |parts|
  {
    var last := parts[|parts| - 1];
    var lastGroups := PatternGroups(last);
    assert Literals(lastGroups) == last by {
      PatternLiteralsRoundTrip(last);
    }
    if |parts| == 1 {
      assert Segments(lastGroups) == [Literals(lastGroups)] by {
        PieceGroupsNoGap(Pieces(last));
        SegmentsNoGap(lastGroups);
      }
    } else {
      var init := parts[..|parts| - 1];
      assert Segments(JoinedGroups(init)) == init by {
        PathGroupsSegmentsRoundTrip(init);
      }
      assert Segments(JoinedGroups(parts)) == Segments(JoinedGroups(init)) + [Literals(lastGroups)] by {
        PieceGroupsNoGap(Pieces(last));
        SegmentsAfterGap(JoinedGroups(init), lastGroups);
      }
      InitLast(parts);
    }
  }

  /** The groups of the file pattern: lazy "anything", the whole query's groups, greedy "anything". */
  function FileGroups(q: string): seq<Group>
  {
    [AnyLazy] + PatternGroups(q) + [AnyGreedy]
  }

  /** The file pattern's text is the anchored rendering of its groups. */
  lemma FilePatternRendersGroups(q: string, sep: char)
    ensures "^(.*?)" + PatternText(q, sep) + "(.*)$" == "^" + Render(FileGroups(q), sep) + "$"
  {
    var lazy, greedy, p := RenderGroup(AnyLazy, sep), RenderGroup(AnyGreedy, sep), PatternText(q, sep);
    assert Render(FileGroups(q), sep) == lazy + p + greedy by {
      RenderAppend([AnyLazy] + PatternGroups(q), [AnyGreedy], sep);
      RenderAppend([AnyLazy], PatternGroups(q), sep);
      RenderOne(AnyLazy, sep);
      RenderOne(AnyGreedy, sep);
    }
    AnchorTexts(sep);
    Regroup("^", lazy, p, greedy, "$");
  }

  /** The literals of the file pattern spell out the whole query, separators included. */
  lemma FilePatternLiterals(q: string)
    ensures Literals(FileGroups(q)) == q
  {
    var gs := PatternGroups(q);
    assert Literals([AnyLazy]) == "" && Literals([AnyGreedy]) == "" by {
      assert [AnyLazy][..0] == [] && [AnyGreedy][..0] == [];
    }
    LiteralsAppend([AnyLazy], gs);
    LiteralsAppend([AnyLazy] + gs, [AnyGreedy]);
    PatternLiteralsRoundTrip(q);
  }
  /** Literal groups sit at the even positions of a group sequence of odd length. */
  predicate LiteralsAtEven(gs: seq<Group>)
  {
    |gs| % 2 == 1 && forall i :: 0 <= i < |gs| ==> (gs[i].Literal? <==> i % 2 == 0)
  }

  /** Two such sequences joined by a group that is not a literal are again one. */
  lemma LiteralsAtEvenJoin(a: seq<Group>, g: Group, b: seq<Group>)
    requires LiteralsAtEven(a) && LiteralsAtEven(b) && !g.Literal?
    ensures LiteralsAtEven(a + [g] + b)
  {
    var gs := a + [g] + b;
    forall i | 0 <= i < |gs| ensures gs[i].Literal? <==> i % 2 == 0 {
      if i < |a| {
        assert gs[i] == a[i];
      } else if i > |a| {
        assert gs[i] == b[i - |a| - 1];
      }
    }
  }

  lemma {:induction false} PieceGroupsParity(ps: seq<string>)
    requires |ps| >= 1
    ensures LiteralsAtEven(PieceGroups(ps))
    decreases |ps|
  {
    if |ps| > 1 {
      var init, last := PieceGroups(ps[..|ps| - 1]), [Literal(ps[|ps| - 1])];
      PieceGroupsParity(ps[..|ps| - 1]);
      assert PieceGroups(ps) == init + [NonSepFiller] + last;
      LiteralsAtEvenJoin(init, NonSepFiller, last);
    }
  }

  lemma PatternGroupsParity(q: string)
    ensures LiteralsAtEven(PatternGroups(q))
  {
    PieceGroupsParity(Pieces(q));
  }

  lemma {:induction false} JoinedGroupsParity(parts: seq<string>)
    requires |parts| >= 1
    ensures LiteralsAtEven(JoinedGroups(parts))
    decreases |parts|
  {
    PatternGroupsParity(parts[|parts| - 1]);
    if |parts| > 1 {
      JoinedGroupsParity(parts[..|parts| - 1]);
      LiteralsAtEvenJoin(JoinedGroups(parts[..|parts| - 1]), SeparatorGap, PatternGroups(parts[|parts| - 1]));
    }
  }

  /**
   * In the file pattern the literal groups, which hold the query's characters,
   * are exactly the odd 0-based positions among its parenthesised groups.
   */
  lemma FileGroupsLiteralsOdd(q: string)
    ensures forall i :: 0 <= i < |FileGroups(q)| ==> (FileGroups(q)[i].Literal? <==> i % 2 == 1)
  {
    var gs, inner := FileGroups(q), PatternGroups(q);
    PatternGroupsParity(q);
    forall i | 0 <= i < |gs| ensures gs[i].Literal? <==> i % 2 == 1 {
      if 0 < i < |gs| - 1 {
        assert gs[i] == inner[i - 1];
      }
    }
  }

  /**
   * In the path pattern, too, the literal groups are exactly the odd 0-based
   * positions: the separator gaps and the two ends sit at even ones.
   */
  lemma PathGroupsLiteralsOdd(parts: seq<string>)
    requires |parts| >= 1
    ensures forall i :: 0 <= i < |PathGroups(parts)| ==> (PathGroups(parts)[i].Literal? <==> i % 2 == 1)
  {
    var gs, inner := PathGroups(parts), JoinedGroups(parts);
    JoinedGroupsParity(parts);
    forall i | 0 <= i < |gs| ensures gs[i].Literal? <==> i % 2 == 1 {
      if 0 < i < |gs| - 1 {
        assert gs[i] == inner[i - 1];
      }
    }
  }
}
