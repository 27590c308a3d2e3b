/**
 * Validation failure trees and their rendering as text
 * (typing_validation/validation_failure.py).
 *
 * A failure records the value and the type involved, the failures that caused
 * it, which kind of failure it is and the alias table in force when it was
 * built. Rendering is parameterised by a `Printer`, since `repr` and `str` of
 * Python values and types are not modelled.
 */
module ValidationFailure {
  import opened Types
  import opened Aliases

  /**
   * Which constructor built the failure. `UnionOf` is the only kind whose
   * rendering differs; the others record what the matcher knew when it failed.
   */
  datatype Kind =
    | Plain                                  // ValidationFailure
    | UnionOf                                // UnionValidationFailure (is_union set)
    | AtIdx(idx: nat, ordered: bool)         // ValidationFailureAtIdx
    | AtKey(key: Val)                        // ValidationFailureAtKey
    | MissingKeys(keys: seq<string>)         // MissingKeysValidationFailure
    | TypeVarBound                           // TypeVarBoundValidationFailure
    | Subtype                                // SubtypeValidationFailure

  datatype Failure = Failure(val: Val, t: Ty, causes: seq<Failure>, kind: Kind, aliases: Table)

  /**
   * The test of the assertion in `ValidationFailure.__new__` for a union
   * failure about `v`: `cause.val == val` for every cause, with `eq` for
   * Python's `==`.
   */
  predicate CausesEqual(eq: (Val, Val) -> bool, v: Val, causes: seq<Failure>)
  {
    forall i :: 0 <= i < |causes| ==> eq(causes[i].val, v)
  }

  /**
   * A union node passes the assertion of `ValidationFailure.__new__`, and its
   * causes are about the very value of the node.
   */
  predicate UnionCoherent(eq: (Val, Val) -> bool, f: Failure)
  {
    f.kind.UnionOf? ==> CausesEqual(eq, f.val, f.causes) && forall i :: 0 <= i < |f.causes| ==> f.causes[i].val == f.val
  }

  /** Every failure of `fs` is about `v`. */
  predicate SameValue(fs: seq<Failure>, v: Val)
  {
    forall k :: 0 <= k < |fs| ==> fs[k].val == v
  }

  /**
   * For causes all about `v`, the assertion of `__new__` holds exactly when
   * there are none or `v` is `==` to itself.
   */
  lemma SameValueEqual(eq: (Val, Val) -> bool, v: Val, fs: seq<Failure>)
    requires SameValue(fs, v)
    ensures CausesEqual(eq, v, fs) <==> fs == [] || eq(v, v)
  {
    if fs != [] && CausesEqual(eq, v, fs) {
      assert eq(fs[0].val, v);
    }
  }

  /** Every node of the tree passes the assertion of `__new__`. */
  predicate WellFormed(eq: (Val, Val) -> bool, f: Failure)
  {
    UnionCoherent(eq, f) && forall i :: 0 <= i < |f.causes| ==> WellFormed(eq, f.causes[i])
  }

  /** Number of nodes of the tree. */
  function Size(f: Failure): nat
    decreases f, 1, 0
  {
    1 + SizeFrom(f, 0)
  }

  function SizeFrom(f: Failure, i: nat): nat
    requires i <= |f.causes|
    decreases f, 0, |f.causes| - i
  {
    if i == |f.causes| then 0 else Size(f.causes[i]) + SizeFrom(f, i + 1)
  }

  // ---------------------------------------------------------------------------
  // visit
  // ---------------------------------------------------------------------------

  /**
   * `visit(fun, acc)`: the calls `fun(val, t, acc)` made, in the order they are
   * made. The causes of a node all receive the accumulator returned for it.
   */
  function Visit<A>(f: Failure, fun: (Val, Ty, A) -> A, acc: A): seq<(Val, Ty, A)>
    decreases f, 1, 0
  {
    [(f.val, f.t, acc)] + VisitFrom(f, fun, fun(f.val, f.t, acc), 0)
  }

  function VisitFrom<A>(f: Failure, fun: (Val, Ty, A) -> A, acc: A, i: nat): seq<(Val, Ty, A)>
    requires i <= |f.causes|
    decreases f, 0, |f.causes| - i
  {
    if i == |f.causes| then [] else Visit(f.causes[i], fun, acc) + VisitFrom(f, fun, acc, i + 1)
  }

  /** The nodes of the tree in pre-order: a node, then the nodes below each cause in turn. */
  function Preorder(f: Failure): seq<(Val, Ty)>
    decreases f, 1, 0
  {
    [(f.val, f.t)] + PreorderFrom(f, 0)
  }

  function PreorderFrom(f: Failure, i: nat): seq<(Val, Ty)>
    requires i <= |f.causes|
    decreases f, 0, |f.causes| - i
  {
    if i == |f.causes| then [] else Preorder(f.causes[i]) + PreorderFrom(f, i + 1)
  }

  function Nodes<A>(calls: seq<(Val, Ty, A)>): seq<(Val, Ty)>
  {
    seq(|calls|, k requires 0 <= k < |calls| => (calls[k].0, calls[k].1))
  }

  lemma NodesAppend<A>(a: seq<(Val, Ty, A)>, b: seq<(Val, Ty, A)>)
    ensures Nodes(a + b) == Nodes(a) + Nodes(b)
  {
  }

  /**
   * Whatever `fun` and `acc` are, `visit` calls `fun` once per node, on the
   * nodes in pre-order, and first on the root with the initial accumulator.
   */
  lemma {:induction false} VisitIsPreorder<A>(f: Failure, fun: (Val, Ty, A) -> A, acc: A)
    ensures Nodes(Visit(f, fun, acc)) == Preorder(f)
    ensures |Visit(f, fun, acc)| == Size(f)
    ensures Visit(f, fun, acc)[0] == (f.val, f.t, acc)
    decreases f, 1, 0
  {
    VisitFromIsPreorder(f, fun, fun(f.val, f.t, acc), 0);
    NodesAppend([(f.val, f.t, acc)], VisitFrom(f, fun, fun(f.val, f.t, acc), 0));
  }

  lemma {:induction false} VisitFromIsPreorder<A>(f: Failure, fun: (Val, Ty, A) -> A, acc: A, i: nat)
    requires i <= |f.causes|
    ensures Nodes(VisitFrom(f, fun, acc, i)) == PreorderFrom(f, i)
    ensures |VisitFrom(f, fun, acc, i)| == SizeFrom(f, i)
    decreases f, 0, |f.causes| - i
  {
    if i < |f.causes| {
      VisitIsPreorder(f.causes[i], fun, acc);
      VisitFromIsPreorder(f, fun, acc, i + 1);
      NodesAppend(Visit(f.causes[i], fun, acc), VisitFrom(f, fun, acc, i + 1));
    }
  }

  // ---------------------------------------------------------------------------
  // Text utilities: _indent, str.split("\n") and str.join.
  // ---------------------------------------------------------------------------

  /** Every newline of `s` followed by two spaces. */
  function IndentRest(s: string): string
  {
    if s == [] then []
    else (if s[0] == '\n' then "\n  " else [s[0]]) + IndentRest(s[1..])
  }

  /** `_indent`: a block of text shifted right by two spaces, line by line. */
  function Indent(s: string): string
  {
    "  " + IndentRest(s)
  }

  /** `s.split("\n")`: the lines of a text; never empty. */
  function Split(s: string): (r: seq<string>)
    ensures |r| >= 1
  {
    if s == [] then [""]
    else
      var r := Split(s[1..]);
      if s[0] == '\n' then [""] + r else [[s[0]] + r[0]] + r[1..]
  }

  /** `sep.join(xs)`. */
  function Join(sep: string, xs: seq<string>): string
  {
    if |xs| == 0 then ""
    else if |xs| == 1 then xs[0]
    else xs[0] + sep + Join(sep, xs[1..])
  }

  function Prefixed(q: string, xs: seq<string>): seq<string>
  {
    seq(|xs|, i requires 0 <= i < |xs| => q + xs[i])
  }

  /** The lines of each text of `xs`, one after the other. */
  function SplitAll(xs: seq<string>): seq<string>
  {
    if xs == [] then [] else Split(xs[0]) + SplitAll(xs[1..])
  }

  lemma {:induction false} SplitSingle(s: string)
    requires '\n' !in s
    ensures Split(s) == [s]
  {
    if s != [] {
      assert '\n' !in s[1..] by {
        forall k | 0 <= k < |s[1..]| ensures s[1..][k] != '\n' { assert s[1..][k] == s[k + 1]; }
      }
      SplitSingle(s[1..]);
      assert s[0] != '\n';
      assert [s[0]] + s[1..] == s;
    }
  }

  lemma {:induction false} SplitNewline(a: string, b: string)
    ensures Split(a + "\n" + b) == Split(a) + Split(b)
  {
    if a == [] {
      assert a + "\n" + b == "\n" + b;
      assert ("\n" + b)[1..] == b;
    } else {
      var a' := a[1..];
      assert (a + "\n" + b)[0] == a[0];
      assert (a + "\n" + b)[1..] == a' + "\n" + b;
      SplitNewline(a', b);
    }
  }

  lemma {:induction false} SplitIndentRest(s: string, p: string)
    requires '\n' !in p
    ensures Split(p + IndentRest(s)) == [p + Split(s)[0]] + Prefixed("  ", Split(s)[1..])
    decreases |s|, 1
  {
    if s == [] {
      assert p + IndentRest(s) == p;
      SplitSingle(p);
    } else if s[0] == '\n' {
      SplitIndentRestNewline(s, p);
    } else {
      SplitIndentRestChar(s, p);
    }
  }

  lemma {:induction false} SplitIndentRestNewline(s: string, p: string)
    requires '\n' !in p && s != [] && s[0] == '\n'
    ensures Split(p + IndentRest(s)) == [p + Split(s)[0]] + Prefixed("  ", Split(s)[1..])
    decreases |s|, 0
  {
    var s' := s[1..];
    assert p + IndentRest(s) == p + "\n" + ("  " + IndentRest(s'));
    SplitNewline(p, "  " + IndentRest(s'));
    SplitSingle(p);
    SplitIndentRest(s', "  ");
    var r := Split(s');
    assert Split(s) == [""] + r;
    assert Split(s)[0] == "" && Split(s)[1..] == r;
    assert p + "" == p;
    assert Prefixed("  ", r) == ["  " + r[0]] + Prefixed("  ", r[1..]);
  }

  lemma {:induction false} SplitIndentRestChar(s: string, p: string)
    requires '\n' !in p && s != [] && s[0] != '\n'
    ensures Split(p + IndentRest(s)) == [p + Split(s)[0]] + Prefixed("  ", Split(s)[1..])
    decreases |s|, 0
  {
    var s' := s[1..];
    assert p + IndentRest(s) == (p + [s[0]]) + IndentRest(s');
    SplitIndentRest(s', p + [s[0]]);
    var r := Split(s');
    assert Split(s) == [[s[0]] + r[0]] + r[1..];
    assert Split(s)[0] == [s[0]] + r[0] && Split(s)[1..] == r[1..];
    assert (p + [s[0]]) + r[0] == p + ([s[0]] + r[0]);
  }

  /** Indenting a text indents each of its lines and keeps their number. */
  lemma {:induction false} IndentLines(s: string)
    ensures Split(Indent(s)) == Prefixed("  ", Split(s))
  {
    SplitIndentRest(s, "  ");
    var r := Split(s);
    assert Prefixed("  ", r) == ["  " + r[0]] + Prefixed("  ", r[1..]);
  }

  /** The lines of a joined text are the lines of its parts. */
  lemma {:induction false} SplitJoin(xs: seq<string>)
    requires |xs| >= 1
    ensures Split(Join("\n", xs)) == SplitAll(xs)
  {
    if |xs| == 1 {
      assert SplitAll(xs) == Split(xs[0]) + SplitAll([]);
    } else {
      SplitNewline(xs[0], Join("\n", xs[1..]));
      SplitJoin(xs[1..]);
    }
  }

  lemma {:induction false} SplitAllAppend(a: seq<string>, b: seq<string>)
    ensures SplitAll(a + b) == SplitAll(a) + SplitAll(b)
  {
    if a != [] {
      assert a + b != [];
      assert (a + b)[0] == a[0];
      assert (a + b)[1..] == a[1..] + b;
      SplitAllAppend(a[1..], b);
      assert SplitAll(a + b) == Split(a[0]) + SplitAll(a[1..] + b);
    } else {
      assert a + b == b;
    }
  }

  // ---------------------------------------------------------------------------
  // _str
  // ---------------------------------------------------------------------------

  const Header: string := "Runtime validation error raised by validate(val, t), details below."

  /** "type" or "type alias" (the type is an alias name), prefixed by "union " for a union. */
  function TypeDescr(f: Failure): string
  {
    (if f.kind.UnionOf? then "union " else "") + (if f.t.Alias? then "type alias" else "type")
  }

  /** The line that describes the node itself. */
  function Summary(p: Printer, f: Failure): string
  {
    "For " + TypeDescr(f) + " " + p.reprTy(f.t) + ", invalid value: " + p.reprVal(f.val)
  }

  function AliasLine(p: Printer, name: string, ty: Ty): string
  {
    "    '" + name + "': " + p.reprTy(ty)
  }

  /** One line per alias binding, from the `i`-th on, in table order. */
  function AliasLinesFrom(p: Printer, table: Table, i: nat): (r: seq<string>)
    requires i <= |table|
    ensures |r| == |table| - i
    decreases |table| - i
  {
    if i == |table| then [] else [AliasLine(p, table[i].0, table[i].1)] + AliasLinesFrom(p, table, i + 1)
  }

  /** The lines that only a top-level rendering starts with. */
  function TopLines(p: Printer, f: Failure, topLevel: bool): seq<string>
  {
    (if topLevel then [Header] else [])
    + (if topLevel && |f.aliases| > 0
       then ["Validation type aliases:", "{"] + AliasLinesFrom(p, f.aliases, 0) + ["}"]
       else [])
  }

  /** The causes without causes of their own, in order (`leaf_causes`). */
  function Leaves(cs: seq<Failure>): seq<Failure>
  {
    if cs == [] then []
    else Leaves(cs[..|cs| - 1]) + (if |cs[|cs| - 1].causes| == 0 then [cs[|cs| - 1]] else [])
  }

  /** The causes with causes of their own, in order (`causes_to_expand`). */
  function Expandable(cs: seq<Failure>): seq<Failure>
  {
    if cs == [] then []
    else Expandable(cs[..|cs| - 1]) + (if |cs[|cs| - 1].causes| > 0 then [cs[|cs| - 1]] else [])
  }

  function TypeStrs(p: Printer, cs: seq<Failure>): seq<string>
  {
    seq(|cs|, k requires 0 <= k < |cs| => p.typeStr(cs[k].t))
  }

  /** The line naming the member types whose failures have no details. */
  function LeafLine(p: Printer, f: Failure): seq<string>
  {
    var leaves := Leaves(f.causes);
    var expand := Expandable(f.causes);
    if |leaves| > 0 && |expand| > 0 then
      [Indent("Not of the following member types: " + Join(", ", TypeStrs(p, leaves)) + ".")]
    else if |leaves| > 0 then
      [Indent("Not of any member type: " + Join(", ", TypeStrs(p, leaves)) + ".")]
    else if |expand| > 0 then []
    else ["Type union is empty."]
  }

  function ExpandHeader(p: Printer, c: Failure): string
  {
    Indent("Not of member type " + p.reprTy(c.t) + ", details below:")
  }

  /** The lines of the whole rendering. */
  function Lines(p: Printer, f: Failure, topLevel: bool): seq<string>
    decreases f, 2, 0
  {
    TopLines(p, f, topLevel) + [Summary(p, f)]
    + (if f.kind.UnionOf? then LeafLine(p, f) + ExpandLines(p, f, |f.causes|) else CauseLines(p, f, 0))
  }

  /** `_str(top_level=...)`. */
  function Text(p: Printer, f: Failure, topLevel: bool): string
    decreases f, 3, 0
  {
    Join("\n", Lines(p, f, topLevel))
  }

  /** For a non-union node: each cause from the `i`-th on, rendered and indented. */
  function CauseLines(p: Printer, f: Failure, i: nat): seq<string>
    requires i <= |f.causes|
    decreases f, 0, |f.causes| - i
  {
    if i == |f.causes| then [] else [Indent(Text(p, f.causes[i], false))] + CauseLines(p, f, i + 1)
  }

  /** For a union node: the details of the first `n` causes that have causes of their own. */
  function ExpandLines(p: Printer, f: Failure, n: nat): seq<string>
    requires n <= |f.causes|
    decreases f, 0, n
  {
    if n == 0 then []
    else
      ExpandLines(p, f, n - 1)
      + (if |f.causes[n - 1].causes| > 0 then ExpandBlock(p, f.causes[n - 1]) else [])
  }

  /** A member failure with details: its header, then its causes twice indented. */
  function ExpandBlock(p: Printer, c: Failure): seq<string>
    decreases c, 1, 0
  {
    [ExpandHeader(p, c)] + SubLines(p, c, 0)
  }

  function SubLines(p: Printer, c: Failure, j: nat): seq<string>
    requires j <= |c.causes|
    decreases c, 0, |c.causes| - j
  {
    if j == |c.causes| then [] else [Indent(Indent(Text(p, c.causes[j], false)))] + SubLines(p, c, j + 1)
  }

  /** The details of a list of expandable failures, as the rendering loop emits them. */
  function ExpandSeq(p: Printer, es: seq<Failure>): seq<string>
  {
    if es == [] then [] else ExpandSeq(p, es[..|es| - 1]) + ExpandBlock(p, es[|es| - 1])
  }

  /** Partitioning the causes first, then expanding, yields the same lines. */
  lemma {:induction false} ExpandSeqLines(p: Printer, f: Failure, n: nat)
    requires n <= |f.causes|
    ensures ExpandSeq(p, Expandable(f.causes[..n])) == ExpandLines(p, f, n)
  {
    if n > 0 {
      var cs := f.causes[..n];
      var c := f.causes[n - 1];
      assert cs[..|cs| - 1] == f.causes[..n - 1];
      assert cs[|cs| - 1] == c;
      var e := Expandable(f.causes[..n - 1]);
      ExpandSeqLines(p, f, n - 1);
      if |c.causes| > 0 {
        assert Expandable(cs) == e + [c];
        var e' := e + [c];
        assert e'[..|e'| - 1] == e;
        assert e'[|e'| - 1] == c;
        assert ExpandSeq(p, e') == ExpandSeq(p, e) + ExpandBlock(p, c);
      } else {
        assert Expandable(cs) == e + [];
        assert e + [] == e;
        assert ExpandLines(p, f, n) == ExpandLines(p, f, n - 1) + [];
      }
    }
  }

  /** `str(failure)`. */
  function ToString(p: Printer, f: Failure): string
  {
    Text(p, f, true)
  }

  /**
   * A top-level rendering opens with the header line; the alias block follows
   * exactly when aliases were set at validation time.
   */
  lemma TopLevelOpening(p: Printer, f: Failure)
    ensures Lines(p, f, true)[0] == Header
    ensures Lines(p, f, true)[1] == "Validation type aliases:" <==> |f.aliases| > 0
    ensures |f.aliases| > 0 ==> Lines(p, f, true)[3 + |f.aliases|] == "}"
    ensures |f.aliases| == 0 ==> Lines(p, f, true)[1] == Summary(p, f)
  {
    var ls := Lines(p, f, true);
    var top := TopLines(p, f, true);
    if |f.aliases| > 0 {
      assert ls[3 + |f.aliases|] == top[3 + |f.aliases|];
    } else {
      assert ls[1] == Summary(p, f);
      assert Summary(p, f)[0] == 'F';
    }
  }

  // ---------------------------------------------------------------------------
  // The nested rendering is a pre-order layout.
  // ---------------------------------------------------------------------------

  /** Printers whose `repr` of values and types fits on one line. */
  ghost predicate SingleLine(p: Printer)
  {
    (forall v :: '\n' !in p.reprVal(v)) && (forall t :: '\n' !in p.reprTy(t))
  }

  /** A tree without union nodes. */
  predicate UnionFree(f: Failure)
  {
    !f.kind.UnionOf? && forall i :: 0 <= i < |f.causes| ==> UnionFree(f.causes[i])
  }

  /** One summary line per node, in pre-order, indented by two spaces per level below the root. */
  function Layout(p: Printer, f: Failure, pre: string): seq<string>
    decreases f, 1, 0
  {
    [pre + Summary(p, f)] + LayoutFrom(p, f, 0, pre + "  ")
  }

  function LayoutFrom(p: Printer, f: Failure, i: nat, pre: string): seq<string>
    requires i <= |f.causes|
    decreases f, 0, |f.causes| - i
  {
    if i == |f.causes| then [] else Layout(p, f.causes[i], pre) + LayoutFrom(p, f, i + 1, pre)
  }

  lemma PrefixedAppend(q: string, a: seq<string>, b: seq<string>)
    ensures Prefixed(q, a + b) == Prefixed(q, a) + Prefixed(q, b)
  {
  }

  lemma {:induction false} LayoutShift(p: Printer, f: Failure, pre: string, q: string)
    ensures Prefixed(q, Layout(p, f, pre)) == Layout(p, f, q + pre)
    decreases f, 1, 0
  {
    LayoutFromShift(p, f, 0, pre + "  ", q);
    PrefixedAppend(q, [pre + Summary(p, f)], LayoutFrom(p, f, 0, pre + "  "));
    assert q + (pre + "  ") == (q + pre) + "  ";
    assert q + (pre + Summary(p, f)) == (q + pre) + Summary(p, f);
  }

  lemma {:induction false} LayoutFromShift(p: Printer, f: Failure, i: nat, pre: string, q: string)
    requires i <= |f.causes|
    ensures Prefixed(q, LayoutFrom(p, f, i, pre)) == LayoutFrom(p, f, i, q + pre)
    decreases f, 0, |f.causes| - i
  {
    if i < |f.causes| {
      LayoutShift(p, f.causes[i], pre, q);
      LayoutFromShift(p, f, i + 1, pre, q);
      PrefixedAppend(q, Layout(p, f.causes[i], pre), LayoutFrom(p, f, i + 1, pre));
    }
  }

  lemma SummarySingleLine(p: Printer, f: Failure)
    requires SingleLine(p)
    ensures '\n' !in Summary(p, f)
  {
    assert '\n' !in p.reprTy(f.t) && '\n' !in p.reprVal(f.val);
    assert '\n' !in TypeDescr(f);
  }

  /**
   * For a tree without unions and printers whose output fits on one line, the
   * nested rendering has exactly one line per node: its summary, in pre-order,
   * indented two spaces per level.
   */
  lemma {:induction false} NestedRenderingIsLayout(p: Printer, f: Failure)
    requires SingleLine(p) && UnionFree(f)
    ensures Split(Text(p, f, false)) == Layout(p, f, "")
    decreases f, 1, 0
  {
    var s := Summary(p, f);
    var rest := CauseLines(p, f, 0);
    assert Lines(p, f, false) == [s] + rest;
    SplitJoin([s] + rest);
    assert ([s] + rest)[1..] == rest;
    SummarySingleLine(p, f);
    SplitSingle(s);
    CauseLinesLayout(p, f, 0);
    assert "" + s == s;
  }

  lemma {:induction false} CauseLinesLayout(p: Printer, f: Failure, i: nat)
    requires SingleLine(p) && UnionFree(f) && i <= |f.causes|
    ensures SplitAll(CauseLines(p, f, i)) == LayoutFrom(p, f, i, "" + "  ")
    decreases f, 0, |f.causes| - i
  {
    if i < |f.causes| {
      var c := f.causes[i];
      var x := Indent(Text(p, c, false));
      assert CauseLines(p, f, i) == [x] + CauseLines(p, f, i + 1);
      assert ([x] + CauseLines(p, f, i + 1))[1..] == CauseLines(p, f, i + 1);
      NestedRenderingIsLayout(p, c);
      IndentLines(Text(p, c, false));
      LayoutShift(p, c, "", "  ");
      assert "  " + "" == "" + "  ";
      CauseLinesLayout(p, f, i + 1);
    }
  }

  /** A union whose member failures have no details renders them on one line. */
  lemma UnionOfLeaves(p: Printer, f: Failure, topLevel: bool)
    requires f.kind.UnionOf? && |f.causes| > 0
    requires forall i :: 0 <= i < |f.causes| ==> f.causes[i].causes == []
    ensures Lines(p, f, topLevel) ==
            TopLines(p, f, topLevel) + [Summary(p, f), Indent("Not of any member type: " + Join(", ", TypeStrs(p, f.causes)) + ".")]
  {
    LeavesAll(f.causes);
    ExpandLinesNone(p, f, |f.causes|);
  }

  /**
   * A union whose member failures all have details: the summary, then one
   * block per member failure, with no line for leaf member types.
   */
  lemma UnionOfExpanded(p: Printer, f: Failure, topLevel: bool)
    requires f.kind.UnionOf? && Leaves(f.causes) == [] && |Expandable(f.causes)| > 0
    ensures Lines(p, f, topLevel) == TopLines(p, f, topLevel) + [Summary(p, f)] + ExpandSeq(p, Expandable(f.causes))
  {
    assert LeafLine(p, f) == [];
    assert ExpandSeq(p, Expandable(f.causes)) == ExpandLines(p, f, |f.causes|) by {
      assert f.causes[..|f.causes|] == f.causes;
      ExpandSeqLines(p, f, |f.causes|);
    }
    assert LeafLine(p, f) + ExpandLines(p, f, |f.causes|) == ExpandLines(p, f, |f.causes|);
  }

  /**
   * A union with member failures of both kinds: the summary, the line naming
   * the member types whose failures have no details, then one block per
   * member failure with details, in the order of the causes.
   */
  lemma UnionOfMixed(p: Printer, f: Failure, topLevel: bool)
    requires f.kind.UnionOf? && |Leaves(f.causes)| > 0 && |Expandable(f.causes)| > 0
    ensures Lines(p, f, topLevel) ==
            TopLines(p, f, topLevel) + [Summary(p, f)]
            + [Indent("Not of the following member types: " + Join(", ", TypeStrs(p, Leaves(f.causes))) + ".")]
            + ExpandSeq(p, Expandable(f.causes))
  {
    assert ExpandSeq(p, Expandable(f.causes)) == ExpandLines(p, f, |f.causes|) by {
      assert f.causes[..|f.causes|] == f.causes;
      ExpandSeqLines(p, f, |f.causes|);
    }
  }

  /** A union without member failures says so, unindented, after its summary. */
  lemma UnionOfNothing(p: Printer, f: Failure, topLevel: bool)
    requires f.kind.UnionOf? && f.causes == []
    ensures Lines(p, f, topLevel) == TopLines(p, f, topLevel) + [Summary(p, f), "Type union is empty."]
  {
    assert ExpandLines(p, f, 0) == [];
  }

  /** The details are one block per expandable failure, in order, each opening with its header line. */
  lemma {:induction false} ExpandSeqCons(p: Printer, c: Failure, es: seq<Failure>)
    ensures ExpandSeq(p, [c] + es) == [ExpandHeader(p, c)] + SubLines(p, c, 0) + ExpandSeq(p, es)
    decreases |es|
  {
    var ce := [c] + es;
    if es == [] {
      assert ce[..|ce| - 1] == [] && ce[|ce| - 1] == c;
      assert ExpandSeq(p, ce) == ExpandSeq(p, []) + ExpandBlock(p, c);
    } else {
      var init, last := es[..|es| - 1], es[|es| - 1];
      assert ce[..|ce| - 1] == [c] + init && ce[|ce| - 1] == last;
      ExpandSeqCons(p, c, init);
      assert ExpandSeq(p, es) == ExpandSeq(p, init) + ExpandBlock(p, last);
    }
  }

  /**
   * Every cause goes to exactly one side of the split: the leaves have no
   * causes, the causes to expand have some, and together they are the causes.
   */
  lemma {:induction false} PartitionSplits(cs: seq<Failure>)
    ensures forall c :: c in Leaves(cs) ==> c.causes == []
    ensures forall c :: c in Expandable(cs) ==> |c.causes| > 0
    ensures multiset(Leaves(cs)) + multiset(Expandable(cs)) == multiset(cs)
  {
    if cs != [] {
      var init, last := cs[..|cs| - 1], cs[|cs| - 1];
      PartitionSplits(init);
      assert cs == init + [last];
    }
  }

  lemma {:induction false} LeavesAll(cs: seq<Failure>)
    requires forall i :: 0 <= i < |cs| ==> cs[i].causes == []
    ensures Leaves(cs) == cs && Expandable(cs) == []
  {
    if cs != [] {
      LeavesAll(cs[..|cs| - 1]);
      assert cs[..|cs| - 1] + [cs[|cs| - 1]] == cs;
    }
  }

  lemma {:induction false} ExpandLinesNone(p: Printer, f: Failure, n: nat)
    requires n <= |f.causes|
    requires forall i :: 0 <= i < |f.causes| ==> f.causes[i].causes == []
    ensures ExpandLines(p, f, n) == []
  {
    if n > 0 { ExpandLinesNone(p, f, n - 1); }
  }

  // ---------------------------------------------------------------------------
  // The rendering loop of `_str`.
  // ---------------------------------------------------------------------------

  /** `_str(top_level=topLevel)`, as the source builds it: a list of lines, then a join. */
  method Render(p: Printer, f: Failure, topLevel: bool) returns (s: string)
    ensures s == Text(p, f, topLevel)
    decreases f, 3
  {
    var lines := RenderTop(p, f, topLevel);
    lines := lines + [Summary(p, f)];
    var body: seq<string>;
    if f.kind.UnionOf? {
      body := RenderUnion(p, f);
    } else {
      body := RenderCauses(p, f);
    }
    lines := lines + body;
    s := Join("\n", lines);
  }

  /** The header and, at top level, the alias block. */
  method RenderTop(p: Printer, f: Failure, topLevel: bool) returns (lines: seq<string>)
    ensures lines == TopLines(p, f, topLevel)
  {
    lines := if topLevel then [Header] else [];
    if topLevel && |f.aliases| > 0 {
      lines := lines + ["Validation type aliases:", "{"];
      ghost var before := lines;
      for i := 0 to |f.aliases|
        invariant lines + AliasLinesFrom(p, f.aliases, i) == before + AliasLinesFrom(p, f.aliases, 0)
      {
        lines := lines + [AliasLine(p, f.aliases[i].0, f.aliases[i].1)];
      }
      assert AliasLinesFrom(p, f.aliases, |f.aliases|) == [];
      assert lines == [Header] + ["Validation type aliases:", "{"] + AliasLinesFrom(p, f.aliases, 0);
      lines := lines + ["}"];
    }
  }

  /** A non-union node: each cause rendered nested and indented. */
  method RenderCauses(p: Printer, f: Failure) returns (lines: seq<string>)
    ensures lines == CauseLines(p, f, 0)
    decreases f, 2
  {
    lines := [];
    for i := 0 to |f.causes|
      invariant lines + CauseLines(p, f, i) == CauseLines(p, f, 0)
    {
      var sub := Render(p, f.causes[i], false);
      lines := lines + [Indent(sub)];
    }
  }

  /** The split of the causes of a union into leaves and causes to expand. */
  method Partition(cs: seq<Failure>) returns (leafCauses: seq<Failure>, causesToExpand: seq<Failure>)
    ensures leafCauses == Leaves(cs) && causesToExpand == Expandable(cs)
  {
    leafCauses, causesToExpand := [], [];
    for i := 0 to |cs|
      invariant leafCauses == Leaves(cs[..i])
      invariant causesToExpand == Expandable(cs[..i])
    {
      assert cs[..i + 1][..i] == cs[..i];
      if |cs[i].causes| > 0 {
        causesToExpand := causesToExpand + [cs[i]];
      } else {
        leafCauses := leafCauses + [cs[i]];
      }
    }
    assert cs[..|cs|] == cs;
  }

  /** A union node: the leaf member types on one line, then each expandable member in detail. */
  method RenderUnion(p: Printer, f: Failure) returns (lines: seq<string>)
    requires f.kind.UnionOf?
    ensures lines == LeafLine(p, f) + ExpandLines(p, f, |f.causes|)
    decreases f, 2
  {
    var leafCauses, causesToExpand := Partition(f.causes);
    if |leafCauses| > 0 && |causesToExpand| > 0 {
      lines := [Indent("Not of the following member types: " + Join(", ", TypeStrs(p, leafCauses)) + ".")];
    } else if |leafCauses| > 0 {
      lines := [Indent("Not of any member type: " + Join(", ", TypeStrs(p, leafCauses)) + ".")];
    } else if |causesToExpand| > 0 {
      lines := [];
    } else {
      lines := ["Type union is empty."];
    }
    assert lines == LeafLine(p, f);
    var details := RenderExpandAll(p, f, causesToExpand);
    lines := lines + details;
    assert f.causes[..|f.causes|] == f.causes;
    ExpandSeqLines(p, f, |f.causes|);
  }

  /** The loop over `causes_to_expand`. */
  method RenderExpandAll(p: Printer, ghost f: Failure, causesToExpand: seq<Failure>) returns (lines: seq<string>)
    requires causesToExpand == Expandable(f.causes)
    ensures lines == ExpandSeq(p, causesToExpand)
    decreases f, 1
  {
    ExpandableMembers(f.causes);
    lines := [];
    for i := 0 to |causesToExpand|
      invariant lines == ExpandSeq(p, causesToExpand[..i])
    {
      var cause := causesToExpand[i];
      assert causesToExpand[..i + 1][..i] == causesToExpand[..i];
      assert causesToExpand[..i + 1][i] == cause;
      assert cause in causesToExpand;
      ghost var idx :| 0 <= idx < |f.causes| && f.causes[idx] == cause;
      var block := RenderExpanded(p, f, idx, cause);
      lines := lines + block;
    }
    assert causesToExpand[..|causesToExpand|] == causesToExpand;
  }

  /** One member failure with details: its header, then its causes twice indented. */
  method RenderExpanded(p: Printer, ghost f: Failure, ghost idx: nat, cause: Failure) returns (lines: seq<string>)
    requires idx < |f.causes| && f.causes[idx] == cause
    ensures lines == ExpandBlock(p, cause)
    decreases f, 0
  {
    lines := [ExpandHeader(p, cause)];
    for j := 0 to |cause.causes|
      invariant lines + SubLines(p, cause, j) == ExpandBlock(p, cause)
    {
      var sub := Render(p, cause.causes[j], false);
      lines := lines + [Indent(Indent(sub))];
    }
  }

  lemma {:induction false} ExpandableMembers(cs: seq<Failure>)
    ensures forall e :: e in Expandable(cs) ==> e in cs
  {
    if cs != [] {
      ExpandableMembers(cs[..|cs| - 1]);
      forall e | e in cs[..|cs| - 1] ensures e in cs {
        var k :| 0 <= k < |cs| - 1 && cs[..|cs| - 1][k] == e;
        assert cs[k] == e;
      }
    }
  }

  // ---------------------------------------------------------------------------
  // get_validation_failure
  // ---------------------------------------------------------------------------

  /** What a raised error carries under the attribute `validation_failure`. */
  datatype Attr = NoAttr | FailureAttr(failure: Failure) | OtherAttr

  /** A raised error: whether it is a `TypeError`, and its `validation_failure` attribute. */
  datatype ErrorObj = ErrorObj(isTypeError: bool, attr: Attr)

  datatype Extracted = Found(failure: Failure) | RaisesTypeError | RaisesValueError

  /**
   * `get_validation_failure(err)`: the failure tree attached to a `TypeError`;
   * a `TypeError` for any other error, a `ValueError` when the attribute is
   * missing or is not a failure.
   */
  function GetValidationFailure(e: ErrorObj): (r: Extracted)
    ensures r.Found? <==> e.isTypeError && e.attr.FailureAttr?
    ensures r.Found? ==> r.failure == e.attr.failure
    ensures r.RaisesTypeError? <==> !e.isTypeError
  {
    if !e.isTypeError then RaisesTypeError
    else match e.attr
      case NoAttr => RaisesValueError
      case OtherAttr => RaisesValueError
      case FailureAttr(f) => Found(f)
  }
}
