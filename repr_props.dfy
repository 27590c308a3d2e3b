/**
 * Properties of the inspector's printer `_repr`: what `mark_unsupported`
 * changes, and the guard on unions.
 * The printer as written drops `mark_unsupported` in its nested calls; with
 * the flag forwarded, the marked and the unmarked printing are the same
 * lines except at the unsupported records, each of which is the one line
 * `str(t)` unmarked and the three lines `UnsupportedType[`, `    str(t)`, `]`
 * marked.
 */
module ReprProperties {
  import opened Types
  import opened Inspector
  import opened InspectorProperties
  import ValidationFailure

  // ---------------------------------------------------------------------------
  // A printing, abstracted over `mark_unsupported`
  // ---------------------------------------------------------------------------

  /**
   * One line of a printing, before `mark_unsupported` is chosen: a line of
   * text printed alike either way, or the place of an unsupported type `u`,
   * printed as `pre + str(u) + post` unmarked and as the three lines
   * `pre + "UnsupportedType["`, `ind + "    " + str(u)`, `ind + "]" + post`
   * marked. `pre` is the indentation, or the key of a TypedDict annotation;
   * `post` is the separator a union or a tuple adds after an item.
   */
  datatype Line =
    | Text(s: string)
    | Wrapped(pre: string, ind: string, u: Ty, post: string)

  function LineLines(p: Printer, l: Line, mark: bool): seq<string>
  {
    match l
    case Text(s) => [s]
    case Wrapped(pre, ind, u, post) =>
      if mark then [pre + "UnsupportedType[", ind + "    " + p.strTy(u), ind + "]" + post]
      else [pre + p.strTy(u) + post]
  }

  /** The lines printed for `ls`, marked or not. */
  function Render(p: Printer, ls: seq<Line>, mark: bool): seq<string>
  {
    if ls == [] then [] else LineLines(p, ls[0], mark) + Render(p, ls[1..], mark)
  }

  /** The unsupported types whose places `ls` holds, in order. */
  function WrappedTypes(ls: seq<Line>): seq<Ty>
  {
    if ls == [] then [] else (if ls[0].Wrapped? then [ls[0].u] else []) + WrappedTypes(ls[1..])
  }

  function Texts(xs: seq<string>): seq<Line>
  {
    if xs == [] then [] else [Text(xs[0])] + Texts(xs[1..])
  }

  /** A first line that is a place holds at least the indentation of `level`. */
  predicate Indented(ls: seq<Line>, level: nat)
  {
    |ls| > 0 && ls[0].Wrapped? ==> |ls[0].pre| >= 2 * level
  }

  /**
   * `ls` prints as `marked` and as `unmarked`, and holds the places of the
   * unsupported records among `tr[start..last + 1]`, in order.
   */
  predicate Abstracts(p: Printer, ls: seq<Line>, marked: seq<string>, unmarked: seq<string>, tr: seq<Entry>, start: nat, last: nat, level: nat)
  {
    Render(p, ls, true) == marked && Render(p, ls, false) == unmarked && Indented(ls, level) &&
    start <= last + 1 <= |tr| && WrappedTypes(ls) == UnsupportedIn(tr[start..last + 1])
  }

  /**
   * `marked` and `unmarked` are two printings at `level` of the records from
   * `start` on: whenever the unmarked one succeeds, the marked one succeeds
   * too, stops at the same record, and both print one abstract printing
   * whose places are the unsupported records consumed, in trace order.
   */
  ghost predicate MarkRel(p: Printer, marked: Option<(seq<string>, nat)>, unmarked: Option<(seq<string>, nat)>, tr: seq<Entry>, start: nat, level: nat)
  {
    unmarked.Some? ==>
      marked.Some? && marked.value.1 == unmarked.value.1 && start <= unmarked.value.1 + 1 <= |tr| &&
      exists ls :: Abstracts(p, ls, marked.value.0, unmarked.value.0, tr, start, unmarked.value.1, level)
  }

  lemma {:induction false} RenderAppend(p: Printer, a: seq<Line>, b: seq<Line>, mark: bool)
    ensures Render(p, a + b, mark) == Render(p, a, mark) + Render(p, b, mark)
    ensures WrappedTypes(a + b) == WrappedTypes(a) + WrappedTypes(b)
    decreases |a|
  {
    if a == [] {
      assert a + b == b;
    } else {
      assert (a + b)[0] == a[0];
      assert (a + b)[1..] == a[1..] + b;
      RenderAppend(p, a[1..], b, mark);
      var h := LineLines(p, a[0], mark);
      assert h + (Render(p, a[1..], mark) + Render(p, b, mark)) == (h + Render(p, a[1..], mark)) + Render(p, b, mark);
      var w := if a[0].Wrapped? then [a[0].u] else [];
      assert w + (WrappedTypes(a[1..]) + WrappedTypes(b)) == (w + WrappedTypes(a[1..])) + WrappedTypes(b);
    }
  }

  /** The unmarked printing has one line per abstract line, the marked one two more per place. */
  lemma {:induction false} RenderSizes(p: Printer, ls: seq<Line>)
    ensures |Render(p, ls, false)| == |ls|
    ensures |Render(p, ls, true)| == |ls| + 2 * |WrappedTypes(ls)|
    decreases |ls|
  {
    if ls != [] {
      RenderSizes(p, ls[1..]);
    }
  }

  /** With no place, the marked and the unmarked printing coincide. */
  lemma {:induction false} RenderUnwrapped(p: Printer, ls: seq<Line>)
    requires WrappedTypes(ls) == []
    ensures Render(p, ls, true) == Render(p, ls, false)
    decreases |ls|
  {
    if ls != [] {
      RenderUnwrapped(p, ls[1..]);
    }
  }

  lemma {:induction false} RenderTexts(p: Printer, xs: seq<string>, mark: bool)
    ensures Render(p, Texts(xs), mark) == xs && WrappedTypes(Texts(xs)) == []
    decreases |xs|
  {
    if xs != [] {
      var t := Texts(xs);
      assert t[0] == Text(xs[0]) && t[1..] == Texts(xs[1..]);
      RenderTexts(p, xs[1..], mark);
      assert [xs[0]] + xs[1..] == xs;
    }
  }

  /** A record's own lines around the lines of its parts. */
  lemma Framed(p: Printer, open: string, ls: seq<Line>, tail: seq<string>, level: nat)
    ensures var f := [Text(open)] + ls + Texts(tail);
            Render(p, f, true) == [open] + Render(p, ls, true) + tail &&
            Render(p, f, false) == [open] + Render(p, ls, false) + tail &&
            WrappedTypes(f) == WrappedTypes(ls) && Indented(f, level)
  {
    var f := [Text(open)] + ls + Texts(tail);
    assert f[0] == Text(open);
    assert [Text(open)][1..] == [];
    assert Render(p, [Text(open)], true) == LineLines(p, Text(open), true) + Render(p, [], true);
    assert Render(p, [Text(open)], false) == LineLines(p, Text(open), false) + Render(p, [], false);
    RenderAppend(p, [Text(open)], ls, true);
    RenderAppend(p, [Text(open)], ls, false);
    RenderAppend(p, [Text(open)] + ls, Texts(tail), true);
    RenderAppend(p, [Text(open)] + ls, Texts(tail), false);
    RenderTexts(p, tail, true);
    RenderTexts(p, tail, false);
    assert WrappedTypes([Text(open)]) == [];
    assert WrappedTypes(ls) + [] == WrappedTypes(ls);
  }

  /** The separator added to the last line. */
  function AddPost(l: Line, suffix: string): Line
  {
    match l
    case Text(s) => Text(s + suffix)
    case Wrapped(pre, ind, u, post) => Wrapped(pre, ind, u, post + suffix)
  }

  function Suffixed(ls: seq<Line>, suffix: string): seq<Line>
    requires |ls| > 0
  {
    ls[..|ls| - 1] + [AddPost(ls[|ls| - 1], suffix)]
  }

  lemma WithLastAppend(a: seq<string>, b: seq<string>, suffix: string)
    requires |b| > 0
    ensures WithLast(a + b, suffix) == a + WithLast(b, suffix)
  {
    var ab := a + b;
    assert ab[..|ab| - 1] == a + b[..|b| - 1];
    assert ab[|ab| - 1] == b[|b| - 1];
  }

  lemma ReprAddPost(p: Printer, l: Line, suffix: string, mark: bool)
    ensures WithLast(LineLines(p, l, mark), suffix) == LineLines(p, AddPost(l, suffix), mark)
  {
    match l
    case Text(s) =>
    case Wrapped(pre, ind, u, post) =>
      assert ind + "]" + post + suffix == ind + "]" + (post + suffix);
      assert pre + p.strTy(u) + post + suffix == pre + p.strTy(u) + (post + suffix);
  }

  /** `lines[-1] += suffix` on a printing is the suffix added to its last abstract line. */
  lemma RenderSuffixed(p: Printer, ls: seq<Line>, suffix: string, level: nat)
    requires |ls| > 0
    ensures Render(p, Suffixed(ls, suffix), true) == WithLast(Render(p, ls, true), suffix)
    ensures Render(p, Suffixed(ls, suffix), false) == WithLast(Render(p, ls, false), suffix)
    ensures WrappedTypes(Suffixed(ls, suffix)) == WrappedTypes(ls)
    ensures Indented(ls, level) ==> Indented(Suffixed(ls, suffix), level)
  {
    var n := |ls| - 1;
    var l := ls[n];
    assert ls == ls[..n] + [l];
    RenderSuffixedIn(p, ls, suffix, true);
    RenderSuffixedIn(p, ls, suffix, false);
    RenderAppend(p, ls[..n], [l], true);
    RenderAppend(p, ls[..n], [AddPost(l, suffix)], true);
    assert WrappedTypes([l]) == WrappedTypes([AddPost(l, suffix)]);
  }

  lemma RenderSuffixedIn(p: Printer, ls: seq<Line>, suffix: string, mark: bool)
    requires |ls| > 0
    ensures Render(p, Suffixed(ls, suffix), mark) == WithLast(Render(p, ls, mark), suffix)
  {
    var n := |ls| - 1;
    var l, init := ls[n], ls[..n];
    var a := Render(p, init, mark);
    assert Render(p, ls, mark) == a + LineLines(p, l, mark) by {
      assert ls == init + [l];
      RenderAppend(p, init, [l], mark);
      assert Render(p, [l], mark) == LineLines(p, l, mark) + [];
    }
    assert Render(p, Suffixed(ls, suffix), mark) == a + LineLines(p, AddPost(l, suffix), mark) by {
      RenderAppend(p, init, [AddPost(l, suffix)], mark);
      assert Render(p, [AddPost(l, suffix)], mark) == LineLines(p, AddPost(l, suffix), mark) + [];
    }
    WithLastAppend(a, LineLines(p, l, mark), suffix);
    ReprAddPost(p, l, suffix, mark);
  }

  function KeyPrefix(level: nat, f: Field): string
  {
    Spaces(level) + (if f.required then "  " else " ?") + f.key + ": "
  }

  /** An annotation's key put in place of the indentation of its value's first line. */
  function KeyLine(level: nat, f: Field, l: Line): Line
  {
    match l
    case Text(s) => Text(KeyPrefix(level, f) + DropPrefix(s, 2 * (level + 1)))
    case Wrapped(pre, ind, u, post) => Wrapped(KeyPrefix(level, f) + DropPrefix(pre, 2 * (level + 1)), ind, u, post)
  }

  function Keyed(level: nat, f: Field, ls: seq<Line>): seq<Line>
    requires |ls| > 0
  {
    [KeyLine(level, f, ls[0])] + ls[1..]
  }

  lemma DropPrefixAppend(s: string, x: string, n: nat)
    requires n <= |s|
    ensures DropPrefix(s + x, n) == DropPrefix(s, n) + x
  {
    if n < |s| + |x| {
      assert (s + x)[n..] == s[n..] + x;
    }
  }

  /** The key line of an annotation, on a printing, is the key put on its first abstract line. */
  lemma RenderKeyed(p: Printer, level: nat, f: Field, ls: seq<Line>, mark: bool)
    requires |ls| > 0 && Indented(ls, level + 1)
    ensures |Render(p, ls, mark)| > 0
    ensures Render(p, Keyed(level, f, ls), mark) == KeyLines(level, f, Render(p, ls, mark))
    ensures WrappedTypes(Keyed(level, f, ls)) == WrappedTypes(ls)
    ensures Indented(Keyed(level, f, ls), level)
  {
    var k := Keyed(level, f, ls);
    assert k[0] == KeyLine(level, f, ls[0]) && k[1..] == ls[1..];
    var rest := Render(p, ls[1..], mark);
    assert Render(p, ls, mark) == LineLines(p, ls[0], mark) + rest;
    assert Render(p, k, mark) == LineLines(p, k[0], mark) + rest;
    KeyLineLines(p, level, f, ls[0], rest, mark);
  }

  lemma KeyLineLines(p: Printer, level: nat, f: Field, l: Line, rest: seq<string>, mark: bool)
    requires l.Wrapped? ==> |l.pre| >= 2 * (level + 1)
    ensures LineLines(p, KeyLine(level, f, l), mark) + rest == KeyLines(level, f, LineLines(p, l, mark) + rest)
  {
    var n := 2 * (level + 1);
    var key := KeyPrefix(level, f);
    var lines := LineLines(p, l, mark) + rest;
    match l
    case Text(s) =>
      assert lines[0] == s && lines[1..] == rest;
    case Wrapped(pre, ind, u, post) =>
      if mark {
        var a := pre + "UnsupportedType[";
        assert lines[0] == a && lines[1..] == [ind + "    " + p.strTy(u), ind + "]" + post] + rest;
        DropPrefixAppend(pre, "UnsupportedType[", n);
        assert key + (DropPrefix(pre, n) + "UnsupportedType[") == key + DropPrefix(pre, n) + "UnsupportedType[";
      } else {
        var a := pre + p.strTy(u) + post;
        assert lines[0] == a && lines[1..] == rest;
        assert a == pre + (p.strTy(u) + post);
        DropPrefixAppend(pre, p.strTy(u) + post, n);
        assert key + (DropPrefix(pre, n) + (p.strTy(u) + post)) == key + DropPrefix(pre, n) + p.strTy(u) + post;
      }
  }

  // ---------------------------------------------------------------------------
  // Slices of a trace and the unsupported records in them
  // ---------------------------------------------------------------------------

  lemma SliceSplit(tr: seq<Entry>, a: nat, b: nat, c: nat)
    requires a <= b <= c <= |tr|
    ensures UnsupportedIn(tr[a..c]) == UnsupportedIn(tr[a..b]) + UnsupportedIn(tr[b..c])
  {
    assert tr[a..c] == tr[a..b] + tr[b..c];
    UnsupportedInAppend(tr[a..b], tr[b..c]);
  }

  lemma SliceHead(tr: seq<Entry>, a: nat, c: nat)
    requires a < c <= |tr|
    ensures UnsupportedIn(tr[a..c]) == (if tr[a].EUnsupported? then [tr[a].unsupported] else []) + UnsupportedIn(tr[a + 1..c])
  {
    assert tr[a..c][0] == tr[a] && tr[a..c][1..] == tr[a + 1..c];
  }

  lemma Regroup<T>(a: seq<T>, b: seq<T>, c: seq<T>, d: seq<T>)
    ensures a + b + c + d == a + (b + c) + d
  {
  }

  /** Two abstract printings of consecutive runs of records, one after the other. */
  lemma ConcatAbstracts(p: Printer, tr: seq<Entry>, lh: seq<Line>, mh: seq<string>, uh: seq<string>, lr: seq<Line>, mr: seq<string>, ur: seq<string>, a: nat, b: nat, c: nat, level: nat)
    requires |lh| > 0
    requires Abstracts(p, lh, mh, uh, tr, a, b, level) && Abstracts(p, lr, mr, ur, tr, b + 1, c, level)
    ensures Abstracts(p, lh + lr, mh + mr, uh + ur, tr, a, c, level)
  {
    RenderAppend(p, lh, lr, true);
    RenderAppend(p, lh, lr, false);
    SliceSplit(tr, a, b + 1, c + 1);
    assert (lh + lr)[0] == lh[0];
  }

  /** A record that is not unsupported, around the abstract printing `ls` of its parts. */
  lemma {:induction false} FramedMark(p: Printer, tr: seq<Entry>, idx: nat, e: nat, level: nat, ls: seq<Line>, lm: seq<string>, lu: seq<string>, inner: nat,
                                      open: string, tail: seq<string>, m: seq<string>, u: seq<string>)
    requires idx <= e < |tr| && !tr[idx].EUnsupported?
    requires Abstracts(p, ls, lm, lu, tr, idx + 1, e, inner)
    requires m == [open] + lm + tail && u == [open] + lu + tail
    ensures exists ls' :: Abstracts(p, ls', m, u, tr, idx, e, level)
  {
    Framed(p, open, ls, tail, level);
    SliceHead(tr, idx, e + 1);
    assert Abstracts(p, [Text(open)] + ls + Texts(tail), m, u, tr, idx, e, level);
  }

  /** A record printed as its sub-records' lines, with nothing around them. */
  lemma {:induction false} UnframedMark(p: Printer, tr: seq<Entry>, idx: nat, e: nat, level: nat, ls: seq<Line>, m: seq<string>, u: seq<string>)
    requires idx <= e < |tr| && !tr[idx].EUnsupported?
    requires Abstracts(p, ls, m, u, tr, idx + 1, e, level + 1)
    ensures Abstracts(p, ls, m, u, tr, idx, e, level)
  {
    SliceHead(tr, idx, e + 1);
  }

  /** A record that prints the same one line either way. */
  lemma {:induction false} OneLineMark(p: Printer, tr: seq<Entry>, idx: nat, level: nat, line: string)
    requires idx < |tr| && !tr[idx].EUnsupported?
    ensures Abstracts(p, [Text(line)], [line], [line], tr, idx, idx, level)
  {
    SliceHead(tr, idx, idx + 1);
    assert tr[idx + 1..idx + 1] == [];
  }

  // ---------------------------------------------------------------------------
  // The corrected printer: `mark_unsupported` forwarded to the nested calls
  // ---------------------------------------------------------------------------

  /**
   * With `mark_unsupported` forwarded, `_repr(idx, level)` and
   * `_repr(idx, level, mark_unsupported=False)` consume the same records and
   * print the same lines, except that each unsupported record consumed, in
   * trace order, is its one unmarked line there and its three wrapper lines
   * here.
   */
  lemma {:induction false} ReprMark(p: Printer, tr: seq<Entry>, idx: nat, level: nat)
    ensures MarkRel(p, Repr(p, tr, idx, level, true, true), Repr(p, tr, idx, level, false, true), tr, idx, level)
    decreases |tr| - idx, 1, 1
  {
    if idx < |tr| {
      var ind := Spaces(level);
      match tr[idx]
      case EUnsupported(u) =>
        SliceHead(tr, idx, idx + 1);
        assert tr[idx + 1..idx + 1] == [];
        var l := Wrapped(ind, ind, u, "");
        assert ind + "]" + "" == ind + "]" && ind + p.strTy(u) + "" == ind + p.strTy(u);
        assert Abstracts(p, [l], Repr(p, tr, idx, level, true, true).value.0, Repr(p, tr, idx, level, false, true).value.0, tr, idx, idx, level);
      case ENone => OneLineMark(p, tr, idx, level, ind + "NoneType");
      case EAny => OneLineMark(p, tr, idx, level, ind + "Any");
      case EAlias(name) => OneLineMark(p, tr, idx, level, ind + p.reprStr(name));
      case ELiteral(vs) => OneLineMark(p, tr, idx, level, ind + "Literal[" + ValidationFailure.Join(", ", Reprs(p, vs)) + "]");
      case EType(c) => OneLineMark(p, tr, idx, level, ind + p.typeStr(c));
      case ETypeVar(tv) => ReprTypeVarMark(p, tr, idx, level);
      case EUnion(n, pep604) => ReprUnionMark(p, tr, idx, level);
      case ETypedDict(td) => ReprTypedDictMark(p, tr, idx, level);
      case EGeneric(o, tag) => ReprGenericMark(p, tr, idx, level, Some(o), tag);
      case ETag(tag) => ReprGenericMark(p, tr, idx, level, None, tag);
    }
  }

  lemma {:induction false} ReprTypeVarMark(p: Printer, tr: seq<Entry>, idx: nat, level: nat)
    requires idx < |tr| && tr[idx].ETypeVar?
    ensures MarkRel(p, Repr(p, tr, idx, level, true, true), Repr(p, tr, idx, level, false, true), tr, idx, level)
    decreases |tr| - idx, 1, 0
  {
    var tv := tr[idx].tv;
    var ind := Spaces(level);
    if tv.TypeVar? && tv.bound.None? {
      OneLineMark(p, tr, idx, level, ind + "TypeVar(" + p.reprStr(tv.var_name) + ")");
    } else if tv.TypeVar? {
      ReprItemsMark(p, tr, idx, 1, level + 1, "");
      var bm, bu := ReprItems(p, tr, idx, 1, level + 1, true, true, ""), ReprItems(p, tr, idx, 1, level + 1, false, true, "");
      if bu.Some? {
        var ls :| Abstracts(p, ls, bm.value.0, bu.value.0, tr, idx + 1, bu.value.1, level + 1);
        FramedMark(p, tr, idx, bu.value.1, level, ls, bm.value.0, bu.value.0, level + 1, ind + "TypeVar(" + p.reprStr(tv.var_name) + ", bound=", [ind + ")"],
          Repr(p, tr, idx, level, true, true).value.0, Repr(p, tr, idx, level, false, true).value.0);
      }
    }
  }

  lemma {:induction false} ReprUnionMark(p: Printer, tr: seq<Entry>, idx: nat, level: nat)
    requires idx < |tr| && tr[idx].EUnion?
    ensures MarkRel(p, Repr(p, tr, idx, level, true, true), Repr(p, tr, idx, level, false, true), tr, idx, level)
    decreases |tr| - idx, 1, 0
  {
    var n, pep604 := tr[idx].members, tr[idx].pep604;
    var ind := Spaces(level);
    var sep := if pep604 then "|" else ",";
    ReprItemsMark(p, tr, idx, n, level + 1, sep);
    var mm, mu := ReprItems(p, tr, idx, n, level + 1, true, true, sep), ReprItems(p, tr, idx, n, level + 1, false, true, sep);
    var u := Repr(p, tr, idx, level, false, true);
    if u.Some? {
      var ls :| Abstracts(p, ls, mm.value.0, mu.value.0, tr, idx + 1, mu.value.1, level + 1);
      RenderSizes(p, ls);
      var m := Repr(p, tr, idx, level, true, true);
      if pep604 {
        assert m.value.0 == mm.value.0 && u.value.0 == mu.value.0 by {
          assert [] + mm.value.0 + [] == mm.value.0 && [] + mu.value.0 + [] == mu.value.0;
        }
        UnframedMark(p, tr, idx, mu.value.1, level, ls, mm.value.0, mu.value.0);
      } else {
        FramedMark(p, tr, idx, mu.value.1, level, ls, mm.value.0, mu.value.0, level + 1, ind + "Union[", [ind + "]"], m.value.0, u.value.0);
      }
    }
  }

  lemma {:induction false} ReprTypedDictMark(p: Printer, tr: seq<Entry>, idx: nat, level: nat)
    requires idx < |tr| && tr[idx].ETypedDict?
    ensures MarkRel(p, Repr(p, tr, idx, level, true, true), Repr(p, tr, idx, level, false, true), tr, idx, level)
    decreases |tr| - idx, 1, 0
  {
    var td := tr[idx].td;
    var ind := Spaces(level);
    if td.TypedDict? {
      ReprFieldsMark(p, tr, idx, td.fields, 0, level);
      var fm, fu := ReprFields(p, tr, idx, td.fields, 0, level, true, true), ReprFields(p, tr, idx, td.fields, 0, level, false, true);
      if fu.Some? {
        var ls :| Abstracts(p, ls, fm.value.0, fu.value.0, tr, idx + 1, fu.value.1, level);
        FramedMark(p, tr, idx, fu.value.1, level, ls, fm.value.0, fu.value.0, level, ind + p.typeStr(td) + " {", [ind + "}"],
          Repr(p, tr, idx, level, true, true).value.0, Repr(p, tr, idx, level, false, true).value.0);
      }
    }
  }

  /** A constructor record: its items printed with and without marks relate as the items do. */
  lemma {:induction false} ReprGenericMark(p: Printer, tr: seq<Entry>, idx: nat, level: nat, o: Option<Origin>, tag: Tag)
    requires idx < |tr| && !tr[idx].EUnsupported?
    ensures MarkRel(p, ReprGeneric(p, tr, idx, level, o, tag, true, true), ReprGeneric(p, tr, idx, level, o, tag, false, true), tr, idx, level)
    decreases |tr| - idx, 1, 0
  {
    match tag
    case TCollection => ReprCollectionMark(p, tr, idx, level, o);
    case TMapping => ReprMappingMark(p, tr, idx, level, o);
    case TTuple(count) => ReprTupleMark(p, tr, idx, level, o, count);
    case TUserClass(n) => ReprUserClassMark(p, tr, idx, level, o, n);
  }

  lemma {:induction false} ReprCollectionMark(p: Printer, tr: seq<Entry>, idx: nat, level: nat, o: Option<Origin>)
    requires idx < |tr| && !tr[idx].EUnsupported?
    ensures MarkRel(p, ReprGeneric(p, tr, idx, level, o, TCollection, true, true), ReprGeneric(p, tr, idx, level, o, TCollection, false, true), tr, idx, level)
    decreases |tr| - idx, 0, 3
  {
    var ind := Spaces(level);
    ReprItemsMark(p, tr, idx, 1, level + 1, "");
    var im, iu := ReprItems(p, tr, idx, 1, level + 1, true, true, ""), ReprItems(p, tr, idx, 1, level + 1, false, true, "");
    if iu.Some? {
      var ls :| Abstracts(p, ls, im.value.0, iu.value.0, tr, idx + 1, iu.value.1, level + 1);
      FramedMark(p, tr, idx, iu.value.1, level, ls, im.value.0, iu.value.0, level + 1, ind + Opening(p, o, "Collection["), [ind + "]"],
        ReprGeneric(p, tr, idx, level, o, TCollection, true, true).value.0, ReprGeneric(p, tr, idx, level, o, TCollection, false, true).value.0);
    }
  }

  lemma {:induction false} ReprTupleMark(p: Printer, tr: seq<Entry>, idx: nat, level: nat, o: Option<Origin>, count: Option<nat>)
    requires idx < |tr| && !tr[idx].EUnsupported?
    ensures MarkRel(p, ReprGeneric(p, tr, idx, level, o, TTuple(count), true, true), ReprGeneric(p, tr, idx, level, o, TTuple(count), false, true), tr, idx, level)
    decreases |tr| - idx, 0, (if count.None? then 1 else count.value) + 2
  {
    if count.None? {
      ReprVariadicMark(p, tr, idx, level, o);
    } else {
      ReprFixedMark(p, tr, idx, level, o, count.value);
    }
  }

  lemma {:induction false} ReprVariadicMark(p: Printer, tr: seq<Entry>, idx: nat, level: nat, o: Option<Origin>)
    requires idx < |tr| && !tr[idx].EUnsupported?
    ensures MarkRel(p, ReprGeneric(p, tr, idx, level, o, TTuple(None), true, true), ReprGeneric(p, tr, idx, level, o, TTuple(None), false, true), tr, idx, level)
    decreases |tr| - idx, 0, 2
  {
    var ind := Spaces(level);
    ReprItemsMark(p, tr, idx, 1, level + 1, ",");
    var im, iu := ReprItems(p, tr, idx, 1, level + 1, true, true, ","), ReprItems(p, tr, idx, 1, level + 1, false, true, ",");
    if iu.Some? {
      var ls :| Abstracts(p, ls, im.value.0, iu.value.0, tr, idx + 1, iu.value.1, level + 1);
      var open := if o.Some? then ind + Opening(p, o, "") else ind + "Tuple[";
      var tail := if o.Some? then [Spaces(level + 1) + "...", ind + "]"] else [ind + "]"];
      var m, u := [open] + im.value.0 + tail, [open] + iu.value.0 + tail;
      assert ReprGeneric(p, tr, idx, level, o, TTuple(None), true, true) == Some((m, iu.value.1));
      assert ReprGeneric(p, tr, idx, level, o, TTuple(None), false, true) == Some((u, iu.value.1));
      FramedMark(p, tr, idx, iu.value.1, level, ls, im.value.0, iu.value.0, level + 1, open, tail, m, u);
    }
  }

  lemma {:induction false} ReprFixedMark(p: Printer, tr: seq<Entry>, idx: nat, level: nat, o: Option<Origin>, n: nat)
    requires idx < |tr| && !tr[idx].EUnsupported?
    ensures MarkRel(p, ReprGeneric(p, tr, idx, level, o, TTuple(Some(n)), true, true), ReprGeneric(p, tr, idx, level, o, TTuple(Some(n)), false, true), tr, idx, level)
    decreases |tr| - idx, 0, n + 1
  {
    var ind := Spaces(level);
    ReprItemsMark(p, tr, idx, n, level + 1, ",");
    var im, iu := ReprItems(p, tr, idx, n, level + 1, true, true, ","), ReprItems(p, tr, idx, n, level + 1, false, true, ",");
    if iu.Some? {
      var ls :| Abstracts(p, ls, im.value.0, iu.value.0, tr, idx + 1, iu.value.1, level + 1);
      var open := ind + Opening(p, o, "Tuple[");
      var x := if iu.value.0 == [] then ["tuple()"] else [];
      var tail := x + [ind + "]"];
      assert (im.value.0 == []) == (iu.value.0 == []) by {
        RenderSizes(p, ls);
      }
      var m, u := [open] + im.value.0 + tail, [open] + iu.value.0 + tail;
      assert ReprGeneric(p, tr, idx, level, o, TTuple(Some(n)), true, true) == Some((m, iu.value.1)) by {
        assert [open] + im.value.0 + x + [ind + "]"] == m;
      }
      assert ReprGeneric(p, tr, idx, level, o, TTuple(Some(n)), false, true) == Some((u, iu.value.1)) by {
        assert [open] + iu.value.0 + x + [ind + "]"] == u;
      }
      FramedMark(p, tr, idx, iu.value.1, level, ls, im.value.0, iu.value.0, level + 1, open, tail, m, u);
    }
  }

  lemma {:induction false} ReprUserClassMark(p: Printer, tr: seq<Entry>, idx: nat, level: nat, o: Option<Origin>, n: nat)
    requires idx < |tr| && !tr[idx].EUnsupported?
    ensures MarkRel(p, ReprGeneric(p, tr, idx, level, o, TUserClass(n), true, true), ReprGeneric(p, tr, idx, level, o, TUserClass(n), false, true), tr, idx, level)
    decreases |tr| - idx, 0, n + 2
  {
    var ind := Spaces(level);
    if o.Some? {
      ReprItemsMark(p, tr, idx, n, level + 1, ",");
      var im, iu := ReprItems(p, tr, idx, n, level + 1, true, true, ","), ReprItems(p, tr, idx, n, level + 1, false, true, ",");
      if iu.Some? {
        var ls :| Abstracts(p, ls, im.value.0, iu.value.0, tr, idx + 1, iu.value.1, level + 1);
        RenderSizes(p, ls);
        var m, u := ReprGeneric(p, tr, idx, level, o, TUserClass(n), true, true), ReprGeneric(p, tr, idx, level, o, TUserClass(n), false, true);
        var tail := (if iu.value.0 == [] then ["tuple()"] else []) + [ind + "]"];
        assert (im.value.0 == []) == (iu.value.0 == []);
        assert m.value.0 == [ind + Opening(p, o, "")] + im.value.0 + tail;
        assert u.value.0 == [ind + Opening(p, o, "")] + iu.value.0 + tail;
        FramedMark(p, tr, idx, iu.value.1, level, ls, im.value.0, iu.value.0, level + 1, ind + Opening(p, o, ""), tail, m.value.0, u.value.0);
      }
    }
  }

  lemma {:induction false} ReprMappingMark(p: Printer, tr: seq<Entry>, idx: nat, level: nat, o: Option<Origin>)
    requires idx < |tr| && !tr[idx].EUnsupported?
    ensures MarkRel(p, ReprGeneric(p, tr, idx, level, o, TMapping, true, true), ReprGeneric(p, tr, idx, level, o, TMapping, false, true), tr, idx, level)
    decreases |tr| - idx, 0, 3
  {
    ReprItemsMark(p, tr, idx, 1, level + 1, ",");
    var km, ku := ReprItems(p, tr, idx, 1, level + 1, true, true, ","), ReprItems(p, tr, idx, 1, level + 1, false, true, ",");
    if ku.Some? {
      var e := ku.value.1;
      ReprItemsMark(p, tr, e, 1, level + 1, "");
      var vm, vu := ReprItems(p, tr, e, 1, level + 1, true, true, ""), ReprItems(p, tr, e, 1, level + 1, false, true, "");
      ChainMark(p, km, ku, vm, vu, tr, idx + 1, level + 1);
      var ind := Spaces(level);
      var open, close := ind + Opening(p, o, "Mapping["), ind + "]";
      FramedOptionMark(p, tr, idx, level, open, close, Prepend(km.value.0, vm), Prepend(ku.value.0, vu));
      if vu.Some? {
        Regroup([open], km.value.0, vm.value.0, [close]);
        Regroup([open], ku.value.0, vu.value.0, [close]);
      }
    }
  }

  /** Both printings of a record's parts, each between the same opening and closing lines. */
  function Enclosed(open: string, r: Option<(seq<string>, nat)>, close: string): Option<(seq<string>, nat)>
  {
    if r.None? then None else Some(([open] + r.value.0 + [close], r.value.1))
  }

  /** A record that is not unsupported, printed as its related parts between two fixed lines. */
  lemma FramedOptionMark(p: Printer, tr: seq<Entry>, idx: nat, level: nat, open: string, close: string, rm: Option<(seq<string>, nat)>, ru: Option<(seq<string>, nat)>)
    requires idx < |tr| && !tr[idx].EUnsupported?
    requires MarkRel(p, rm, ru, tr, idx + 1, level + 1)
    ensures MarkRel(p, Enclosed(open, rm, close), Enclosed(open, ru, close), tr, idx, level)
  {
    if ru.Some? {
      var ls :| Abstracts(p, ls, rm.value.0, ru.value.0, tr, idx + 1, ru.value.1, level + 1);
      FramedMark(p, tr, idx, ru.value.1, level, ls, rm.value.0, ru.value.0, level + 1, open, [close], [open] + rm.value.0 + [close], [open] + ru.value.0 + [close]);
    }
  }

  /** The loop over `n` arguments, read after record `last`. */
  lemma {:induction false} ReprItemsMark(p: Printer, tr: seq<Entry>, last: nat, n: nat, level: nat, suffix: string)
    requires last < |tr|
    ensures MarkRel(p, ReprItems(p, tr, last, n, level, true, true, suffix), ReprItems(p, tr, last, n, level, false, true, suffix), tr, last + 1, level)
    decreases |tr| - last, 0, n
  {
    if n == 0 {
      assert tr[last + 1..last + 1] == [];
      assert Abstracts(p, [], [], [], tr, last + 1, last, level);
    } else {
      ItemReprMark(p, tr, last, level, suffix);
      var hu := ItemRepr(p, tr, last, level, false, true, suffix);
      if hu.Some? {
        ReprItemsMark(p, tr, hu.value.1, n - 1, level, suffix);
      }
      ItemsMarkCons(p, tr, last, n, level, suffix);
    }
  }

  /** The loop over arguments takes one argument, then goes on after it, in both printings. */
  lemma ItemsMarkCons(p: Printer, tr: seq<Entry>, last: nat, n: nat, level: nat, suffix: string)
    requires last < |tr| && n > 0
    requires MarkRel(p, ItemRepr(p, tr, last, level, true, true, suffix), ItemRepr(p, tr, last, level, false, true, suffix), tr, last + 1, level)
    requires var hu := ItemRepr(p, tr, last, level, false, true, suffix);
             hu.Some? ==> MarkRel(p, ReprItems(p, tr, hu.value.1, n - 1, level, true, true, suffix),
                                  ReprItems(p, tr, hu.value.1, n - 1, level, false, true, suffix), tr, hu.value.1 + 1, level)
    ensures MarkRel(p, ReprItems(p, tr, last, n, level, true, true, suffix), ReprItems(p, tr, last, n, level, false, true, suffix), tr, last + 1, level)
  {
    var hm, hu := ItemRepr(p, tr, last, level, true, true, suffix), ItemRepr(p, tr, last, level, false, true, suffix);
    if hu.Some? {
      var e := hu.value.1;
      ChainMark(p, hm, hu, ReprItems(p, tr, e, n - 1, level, true, true, suffix), ReprItems(p, tr, e, n - 1, level, false, true, suffix), tr, last + 1, level);
    }
  }

  /**
   * Two related printings of one part, each followed by its printing of what
   * comes after the part, are two related printings of the whole.
   */
  lemma ChainMark(p: Printer, hm: Option<(seq<string>, nat)>, hu: Option<(seq<string>, nat)>, rm: Option<(seq<string>, nat)>, ru: Option<(seq<string>, nat)>,
                  tr: seq<Entry>, start: nat, level: nat)
    requires MarkRel(p, hm, hu, tr, start, level)
    requires hu.Some? ==> |hu.value.0| > 0 && MarkRel(p, rm, ru, tr, hu.value.1 + 1, level)
    ensures MarkRel(p, if hm.None? then None else Prepend(hm.value.0, rm), if hu.None? then None else Prepend(hu.value.0, ru), tr, start, level)
  {
    if hu.Some? {
      var lh :| Abstracts(p, lh, hm.value.0, hu.value.0, tr, start, hu.value.1, level);
      if ru.Some? {
        var lr :| Abstracts(p, lr, rm.value.0, ru.value.0, tr, hu.value.1 + 1, ru.value.1, level);
        RenderSizes(p, lh);
        ConcatAbstracts(p, tr, lh, hm.value.0, hu.value.0, lr, rm.value.0, ru.value.0, start, hu.value.1, ru.value.1, level);
      }
    }
  }

  lemma {:induction false} ItemReprMark(p: Printer, tr: seq<Entry>, cur: nat, level: nat, suffix: string)
    requires cur < |tr|
    ensures MarkRel(p, ItemRepr(p, tr, cur, level, true, true, suffix), ItemRepr(p, tr, cur, level, false, true, suffix), tr, cur + 1, level)
    decreases |tr| - cur, 0, 0
  {
    ReprMark(p, tr, cur + 1, level);
    var hm, hu := Repr(p, tr, cur + 1, level, true, true), Repr(p, tr, cur + 1, level, false, true);
    if hu.Some? {
      var ls :| Abstracts(p, ls, hm.value.0, hu.value.0, tr, cur + 1, hu.value.1, level);
      RenderSizes(p, ls);
      RenderSuffixed(p, ls, suffix, level);
      assert Abstracts(p, Suffixed(ls, suffix), WithLast(hm.value.0, suffix), WithLast(hu.value.0, suffix), tr, cur + 1, hu.value.1, level);
    }
  }

  /** The loop over the annotations of a TypedDict from the `i`-th on, read after record `last`. */
  lemma {:induction false} ReprFieldsMark(p: Printer, tr: seq<Entry>, last: nat, fields: seq<Field>, i: nat, level: nat)
    requires last < |tr| && i <= |fields|
    ensures MarkRel(p, ReprFields(p, tr, last, fields, i, level, true, true), ReprFields(p, tr, last, fields, i, level, false, true), tr, last + 1, level)
    decreases |tr| - last, 0, |fields| - i
  {
    if i == |fields| {
      assert tr[last + 1..last + 1] == [];
      assert Abstracts(p, [], [], [], tr, last + 1, last, level);
    } else {
      FieldReprMark(p, tr, last, fields[i], level);
      var hm, hu := FieldRepr(p, tr, last, fields[i], level, true, true), FieldRepr(p, tr, last, fields[i], level, false, true);
      if hu.Some? {
        var lh :| Abstracts(p, lh, hm.value.0, hu.value.0, tr, last + 1, hu.value.1, level);
        var e := hu.value.1;
        ReprFieldsMark(p, tr, e, fields, i + 1, level);
        var rm, ru := ReprFields(p, tr, e, fields, i + 1, level, true, true), ReprFields(p, tr, e, fields, i + 1, level, false, true);
        if ru.Some? {
          var lr :| Abstracts(p, lr, rm.value.0, ru.value.0, tr, e + 1, ru.value.1, level);
          RenderSizes(p, lh);
          ConcatAbstracts(p, tr, lh, hm.value.0, hu.value.0, lr, rm.value.0, ru.value.0, last + 1, e, ru.value.1, level);
        }
      }
    }
  }

  lemma {:induction false} FieldReprMark(p: Printer, tr: seq<Entry>, cur: nat, f: Field, level: nat)
    requires cur < |tr|
    ensures MarkRel(p, FieldRepr(p, tr, cur, f, level, true, true), FieldRepr(p, tr, cur, f, level, false, true), tr, cur + 1, level)
    decreases |tr| - cur, 0, 0
  {
    ReprMark(p, tr, cur + 1, level + 1);
    var hm, hu := Repr(p, tr, cur + 1, level + 1, true, true), Repr(p, tr, cur + 1, level + 1, false, true);
    if hu.Some? {
      var ls :| Abstracts(p, ls, hm.value.0, hu.value.0, tr, cur + 1, hu.value.1, level + 1);
      RenderSizes(p, ls);
      RenderKeyed(p, level, f, ls, true);
      RenderKeyed(p, level, f, ls, false);
      assert Abstracts(p, Keyed(level, f, ls), KeyLines(level, f, hm.value.0), KeyLines(level, f, hu.value.0), tr, cur + 1, hu.value.1, level);
    }
  }

  /**
   * For a trace with no unsupported record, the corrected `type_structure`
   * and `type_annotation` are printed from the very same lines.
   */
  lemma AnnotationLinesWithoutUnsupported(p: Printer, tr: seq<Entry>)
    requires UnsupportedIn(tr) == []
    ensures var marked, unmarked := Repr(p, tr, 0, 0, true, true), Repr(p, tr, 0, 0, false, true);
            unmarked.Some? ==> marked == unmarked
  {
    ReprMark(p, tr, 0, 0);
    var marked, unmarked := Repr(p, tr, 0, 0, true, true), Repr(p, tr, 0, 0, false, true);
    if unmarked.Some? {
      var e := unmarked.value.1 + 1;
      var ls :| Abstracts(p, ls, marked.value.0, unmarked.value.0, tr, 0, unmarked.value.1, 0);
      SliceSplit(tr, 0, e, |tr|);
      assert tr[0..|tr|] == tr;
      RenderUnwrapped(p, ls);
    }
  }

  // ---------------------------------------------------------------------------
  // The printer as written
  // ---------------------------------------------------------------------------

  /** The trace of `list[T]` for an unsupported `T`. */
  function ListOfUnsupported(u: Ty): seq<Entry>
  {
    [EGeneric(OColl(List), TCollection), EUnsupported(u)]
  }

  /**
   * As written, `_repr(mark_unsupported=False)` still wraps a nested
   * unsupported record in `UnsupportedType[...]`: the unmarked printing of
   * `list[T]` has five lines, while with the flag forwarded it has the three
   * lines the flag is meant to give.
   */
  lemma NestedUnsupportedMarked(p: Printer, u: Ty)
    ensures var r := Repr(p, ListOfUnsupported(u), 0, 0, false, false);
            r.Some? && |r.value.0| == 5 && r.value.0[1] == "  UnsupportedType[" && r.value.0[2] == "      " + p.strTy(u)
    ensures var r := Repr(p, ListOfUnsupported(u), 0, 0, false, true);
            r.Some? && |r.value.0| == 3 && r.value.0[1] == "  " + p.strTy(u)
  {
    var tr := ListOfUnsupported(u);
    var ind := Spaces(1);
    assert ind == "  ";
    var m := Repr(p, tr, 1, 1, true, false);
    assert m == Some(([ind + "UnsupportedType[", ind + "    " + p.strTy(u), ind + "]"], 1));
    assert ind + "UnsupportedType[" == "  UnsupportedType[";
    assert ind + "    " + p.strTy(u) == "      " + p.strTy(u);
    WithLastEmpty(m.value.0);
    assert ReprItems(p, tr, 1, 0, 1, true, false, "") == Some(([], 1));
    assert ReprItems(p, tr, 0, 1, 1, true, false, "") == Some((m.value.0 + [], 1));
    assert m.value.0 + [] == m.value.0;
    var c := Repr(p, tr, 1, 1, false, true);
    assert c == Some(([ind + p.strTy(u)], 1));
    WithLastEmpty(c.value.0);
    assert ReprItems(p, tr, 1, 0, 1, false, true, "") == Some(([], 1));
    assert ReprItems(p, tr, 0, 1, 1, false, true, "") == Some((c.value.0 + [], 1));
    assert c.value.0 + [] == c.value.0;
  }

  lemma WithLastEmpty(lines: seq<string>)
    requires |lines| > 0
    ensures WithLast(lines, "") == lines
  {
    var n := |lines| - 1;
    assert lines[n] + "" == lines[n];
    assert lines[..n] + [lines[n]] == lines;
  }

  // ---------------------------------------------------------------------------
  // Unions
  // ---------------------------------------------------------------------------

  /**
   * `_repr` asserts that a union prints at least one member line besides its
   * opening: a union record with no member never prints, and one with two
   * members, or a `typing.Union` with one, prints exactly when its members do.
   */
  lemma ReprUnion(p: Printer, tr: seq<Entry>, idx: nat, level: nat, mark: bool, forwardMark: bool, n: nat, pep604: bool)
    requires idx < |tr| && tr[idx] == EUnion(n, pep604)
    ensures n == 0 ==> Repr(p, tr, idx, level, mark, forwardMark) == None
    ensures n >= 2 || (n == 1 && !pep604) ==>
              (Repr(p, tr, idx, level, mark, forwardMark).Some? <==>
               ReprItems(p, tr, idx, n, level + 1, if forwardMark then mark else true, forwardMark, if pep604 then "|" else ",").Some?)
  {
  }
}
