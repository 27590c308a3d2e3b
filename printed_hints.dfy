/**
 * The printer over the trace of a whole hint: `_repr` from the first record
 * of the dry run's trace consumes exactly that trace, and the corrected
 * `type_structure` and `type_annotation` print one abstract printing whose
 * places are the unsupported parts of the hint.
 */
module PrintedHints {
  import opened Types
  import opened Aliases
  import opened Inspector
  import opened InspectorProperties
  import opened ReprProperties
  import ValidationFailure

  // ---------------------------------------------------------------------------
  // The records one printing consumes
  // ---------------------------------------------------------------------------

  /** Every union visited prints: a `typing.Union` with a member, a PEP 604 union with two. */
  predicate UnionsPrintable(t: Ty)
    decreases t
  {
    (t.Union? ==> |t.members| >= if t.pep604 then 2 else 1)
    && forall i :: 0 <= i < Arity(t) ==> UnionsPrintable(Kid(t, i))
  }

  /** `_repr` from record `i` succeeds and stops at record `last`. */
  predicate PrintsThrough(p: Printer, tr: seq<Entry>, i: nat, level: nat, mark: bool, forwardMark: bool, last: nat)
  {
    var r := Repr(p, tr, i, level, mark, forwardMark);
    r.Some? && r.value.1 == last
  }

  /**
   * Wherever the records of a hint sit in a trace, `_repr` from their first
   * index succeeds and stops at their last index, at every level, marked or
   * not, as written or corrected, when every union visited prints.
   */
  lemma {:induction false} ReprEncodedAt(p: Printer, ctx: Table, t: Ty, tr: seq<Entry>, i: nat, level: nat, mark: bool, forwardMark: bool)
    requires At(tr, i, Encode(ctx, t)) && UnionsPrintable(t)
    ensures PrintsThrough(p, tr, i, level, mark, forwardMark, i + |Encode(ctx, t)| - 1)
    decreases t, 1
  {
    EncodeSplit(ctx, t, tr, i);
    match t
    case TypeVar(_, bound) =>
      if bound.Some? {
        TypeVarEncoded(p, ctx, t, tr, i, level, mark, forwardMark);
      } else {
        LeafEncoded(p, ctx, t, tr, i, level, mark, forwardMark);
      }
    case Union(_, _) => UnionEncoded(p, ctx, t, tr, i, level, mark, forwardMark);
    case TypedDict(_, _) => TypedDictEncoded(p, ctx, t, tr, i, level, mark, forwardMark);
    case Collection(_, _) => OneArgEncoded(p, ctx, t, tr, i, level, mark, forwardMark);
    case IteratorOf(_, _) => OneArgEncoded(p, ctx, t, tr, i, level, mark, forwardMark);
    case VariadicTuple(_) => OneArgEncoded(p, ctx, t, tr, i, level, mark, forwardMark);
    case Mapping(_, _, _) => MappingEncoded(p, ctx, t, tr, i, level, mark, forwardMark);
    case FixedTuple(_) => ArgsEncoded(p, ctx, t, tr, i, level, mark, forwardMark);
    case UserGeneric(_, _) => ArgsEncoded(p, ctx, t, tr, i, level, mark, forwardMark);
    case SubclassOf(args) =>
      if SubclassRecordable(args) {
        OneArgEncoded(p, ctx, t, tr, i, level, mark, forwardMark);
      } else {
        LeafEncoded(p, ctx, t, tr, i, level, mark, forwardMark);
      }
    case AnyTy => LeafEncoded(p, ctx, t, tr, i, level, mark, forwardMark);
    case NoneTy => LeafEncoded(p, ctx, t, tr, i, level, mark, forwardMark);
    case Class(_) => LeafEncoded(p, ctx, t, tr, i, level, mark, forwardMark);
    case Literal(_) => LeafEncoded(p, ctx, t, tr, i, level, mark, forwardMark);
    case ContainerOf(_) => LeafEncoded(p, ctx, t, tr, i, level, mark, forwardMark);
    case Alias(_) => LeafEncoded(p, ctx, t, tr, i, level, mark, forwardMark);
    case Opaque(_, _) => LeafEncoded(p, ctx, t, tr, i, level, mark, forwardMark);
    case Marked(_) => LeafEncoded(p, ctx, t, tr, i, level, mark, forwardMark);
  }

  /** A hint without sub-hints that is neither a union, a TypedDict nor a generic prints in its one record. */
  lemma LeafEncoded(p: Printer, ctx: Table, t: Ty, tr: seq<Entry>, i: nat, level: nat, mark: bool, forwardMark: bool)
    requires At(tr, i, Encode(ctx, t)) && Arity(t) == 0
    requires !t.Union? && !t.TypedDict? && !Head(ctx, t).EGeneric?
    ensures PrintsThrough(p, tr, i, level, mark, forwardMark, i + |Encode(ctx, t)| - 1)
  {
    EncodeLeaf(ctx, t);
    assert tr[i] == Head(ctx, t);
  }

  /** A TypeVar with a bound prints the bound one level deeper. */
  lemma TypeVarEncoded(p: Printer, ctx: Table, t: Ty, tr: seq<Entry>, i: nat, level: nat, mark: bool, forwardMark: bool)
    requires t.TypeVar? && t.bound.Some? && UnionsPrintable(t)
    requires i < |tr| && tr[i] == ETypeVar(t) && At(tr, i + 1, EncodeFrom(ctx, t, 0))
    ensures PrintsThrough(p, tr, i, level, mark, forwardMark, i + |EncodeFrom(ctx, t, 0)|)
    decreases t, 0, Arity(t) + 2
  {
    var inner := if forwardMark then mark else true;
    assert Arity(t) == 1 && EncodeFrom(ctx, t, 1) == [];
    ItemsEncoded(p, ctx, t, tr, i, 0, 1, 1, level + 1, inner, forwardMark, "");
  }

  /** A union prints its members one level deeper with `|` or `,` between them. */
  lemma UnionEncoded(p: Printer, ctx: Table, t: Ty, tr: seq<Entry>, i: nat, level: nat, mark: bool, forwardMark: bool)
    requires t.Union? && UnionsPrintable(t)
    requires i < |tr| && tr[i] == EUnion(|t.members|, t.pep604) && At(tr, i + 1, EncodeFrom(ctx, t, 0))
    ensures PrintsThrough(p, tr, i, level, mark, forwardMark, i + |EncodeFrom(ctx, t, 0)|)
    decreases t, 0, Arity(t) + 2
  {
    var inner := if forwardMark then mark else true;
    var n := Arity(t);
    assert EncodeFrom(ctx, t, n) == [];
    ItemsEncoded(p, ctx, t, tr, i, 0, n, n, level + 1, inner, forwardMark, if t.pep604 then "|" else ",");
  }

  /** A TypedDict prints its annotations one level deeper. */
  lemma TypedDictEncoded(p: Printer, ctx: Table, t: Ty, tr: seq<Entry>, i: nat, level: nat, mark: bool, forwardMark: bool)
    requires t.TypedDict? && UnionsPrintable(t)
    requires i < |tr| && tr[i] == ETypedDict(t) && At(tr, i + 1, EncodeFrom(ctx, t, 0))
    ensures PrintsThrough(p, tr, i, level, mark, forwardMark, i + |EncodeFrom(ctx, t, 0)|)
    decreases t, 0, Arity(t) + 2
  {
    var inner := if forwardMark then mark else true;
    FieldsEncoded(p, ctx, t, tr, i, 0, level, inner, forwardMark);
  }

  /** A collection, an iterator, a variadic tuple or a recorded `Type[...]` prints its one argument. */
  lemma OneArgEncoded(p: Printer, ctx: Table, t: Ty, tr: seq<Entry>, i: nat, level: nat, mark: bool, forwardMark: bool)
    requires Head(ctx, t).EGeneric? && Arity(t) == 1 && !t.Mapping? && UnionsPrintable(t)
    requires i < |tr| && tr[i] == Head(ctx, t) && At(tr, i + 1, EncodeFrom(ctx, t, 0))
    ensures PrintsThrough(p, tr, i, level, mark, forwardMark, i + |EncodeFrom(ctx, t, 0)|)
    decreases t, 0, Arity(t) + 2
  {
    var inner := if forwardMark then mark else true;
    var sep := if t.Collection? || t.IteratorOf? then "" else ",";
    assert EncodeFrom(ctx, t, 1) == [];
    ItemsEncoded(p, ctx, t, tr, i, 0, 1, 1, level + 1, inner, forwardMark, sep);
    GenericPrints(p, tr, i, level, mark, forwardMark, Head(ctx, t).origin, Head(ctx, t).tag, 1, sep);
  }

  /** A fixed tuple or a user generic prints its arguments with `,` after each. */
  lemma ArgsEncoded(p: Printer, ctx: Table, t: Ty, tr: seq<Entry>, i: nat, level: nat, mark: bool, forwardMark: bool)
    requires (t.FixedTuple? || t.UserGeneric?) && UnionsPrintable(t)
    requires i < |tr| && tr[i] == Head(ctx, t) && At(tr, i + 1, EncodeFrom(ctx, t, 0))
    ensures PrintsThrough(p, tr, i, level, mark, forwardMark, i + |EncodeFrom(ctx, t, 0)|)
    decreases t, 0, Arity(t) + 2
  {
    var inner := if forwardMark then mark else true;
    var n := Arity(t);
    assert EncodeFrom(ctx, t, n) == [];
    ItemsEncoded(p, ctx, t, tr, i, 0, n, n, level + 1, inner, forwardMark, ",");
    GenericPrints(p, tr, i, level, mark, forwardMark, Head(ctx, t).origin, Head(ctx, t).tag, n, ",");
  }

  /** A constructor record other than a mapping's prints its `n` items and stops where they stop. */
  lemma GenericPrints(p: Printer, tr: seq<Entry>, i: nat, level: nat, mark: bool, forwardMark: bool, o: Origin, tag: Tag, n: nat, sep: string)
    requires i < |tr| && tr[i] == EGeneric(o, tag)
    requires (tag == TCollection && n == 1 && sep == "") || (tag == TTuple(None) && n == 1 && sep == ",")
             || (tag == TTuple(Some(n)) && sep == ",") || (tag == TUserClass(n) && sep == ",")
    requires ReprItems(p, tr, i, n, level + 1, if forwardMark then mark else true, forwardMark, sep).Some?
    ensures PrintsThrough(p, tr, i, level, mark, forwardMark,
                          ReprItems(p, tr, i, n, level + 1, if forwardMark then mark else true, forwardMark, sep).value.1)
  {
  }

  /** A mapping prints its key type with `,` added, then its value type. */
  lemma MappingEncoded(p: Printer, ctx: Table, t: Ty, tr: seq<Entry>, i: nat, level: nat, mark: bool, forwardMark: bool)
    requires t.Mapping? && UnionsPrintable(t)
    requires i < |tr| && tr[i] == Head(ctx, t) && At(tr, i + 1, EncodeFrom(ctx, t, 0))
    ensures PrintsThrough(p, tr, i, level, mark, forwardMark, i + |EncodeFrom(ctx, t, 0)|)
    decreases t, 0, Arity(t) + 2
  {
    var inner := if forwardMark then mark else true;
    assert Arity(t) == 2 && EncodeFrom(ctx, t, 2) == [];
    ItemsEncoded(p, ctx, t, tr, i, 0, 1, 1, level + 1, inner, forwardMark, ",");
    var k := ReprItems(p, tr, i, 1, level + 1, inner, forwardMark, ",");
    assert EncodeFrom(ctx, t, 0) == Encode(ctx, t.key) + EncodeFrom(ctx, t, 1);
    AtAppend(tr, i + 1, Encode(ctx, t.key), EncodeFrom(ctx, t, 1));
    ItemsEncoded(p, ctx, t, tr, k.value.1, 1, 1, 2, level + 1, inner, forwardMark, "");
    MappingPrints(p, tr, i, level, mark, forwardMark, Head(ctx, t).origin);
  }

  /** A mapping's constructor record prints its key type with `,` added, then its value type, and stops after the value. */
  lemma MappingPrints(p: Printer, tr: seq<Entry>, i: nat, level: nat, mark: bool, forwardMark: bool, o: Origin)
    requires i < |tr| && tr[i] == EGeneric(o, TMapping)
    requires var k := ReprItems(p, tr, i, 1, level + 1, if forwardMark then mark else true, forwardMark, ",");
             k.Some? && ReprItems(p, tr, k.value.1, 1, level + 1, if forwardMark then mark else true, forwardMark, "").Some?
    ensures var k := ReprItems(p, tr, i, 1, level + 1, if forwardMark then mark else true, forwardMark, ",");
            PrintsThrough(p, tr, i, level, mark, forwardMark,
                          ReprItems(p, tr, k.value.1, 1, level + 1, if forwardMark then mark else true, forwardMark, "").value.1)
  {
  }

  /** The loop over the sub-hints of `t` from the `j`-th to before the `k`-th, whose records sit after record `s`. */
  lemma ItemsEncoded(p: Printer, ctx: Table, t: Ty, tr: seq<Entry>, s: nat, j: nat, n: nat, k: nat, level: nat, mark: bool, forwardMark: bool, suffix: string)
    requires s < |tr| && j + n == k <= Arity(t) && At(tr, s + 1, EncodeFrom(ctx, t, j))
    requires forall i :: 0 <= i < Arity(t) ==> UnionsPrintable(Kid(t, i))
    ensures var r := ReprItems(p, tr, s, n, level, mark, forwardMark, suffix);
            r.Some? && r.value.1 + |EncodeFrom(ctx, t, k)| == s + |EncodeFrom(ctx, t, j)|
    decreases t, 0, 1
  {
    EncodeFromCodes(ctx, t, j);
    EncodeFromCodes(ctx, t, k);
    KidsPrint(p, ctx, t, tr, level, mark, forwardMark);
    ItemsSeq(p, tr, s, KidCodes(ctx, t), j, n, k, level, mark, forwardMark, suffix);
  }

  /** Each sub-hint of `t` prints through its last record, wherever its records sit. */
  lemma KidsPrint(p: Printer, ctx: Table, t: Ty, tr: seq<Entry>, level: nat, mark: bool, forwardMark: bool)
    requires forall i :: 0 <= i < Arity(t) ==> UnionsPrintable(Kid(t, i))
    ensures var codes := KidCodes(ctx, t);
            forall k, q: nat {:trigger At(tr, q, codes[k])} :: 0 <= k < |codes| && At(tr, q, codes[k]) ==>
              |codes[k]| > 0 && PrintsThrough(p, tr, q, level, mark, forwardMark, q + |codes[k]| - 1)
    decreases t, 0, 0
  {
    var codes := KidCodes(ctx, t);
    forall k, q: nat {:trigger At(tr, q, codes[k])} | 0 <= k < |codes| && At(tr, q, codes[k])
      ensures |codes[k]| > 0 && PrintsThrough(p, tr, q, level, mark, forwardMark, q + |codes[k]| - 1)
    {
      KidBelow(t, k);
      ReprEncodedAt(p, ctx, Kid(t, k), tr, q, level, mark, forwardMark);
    }
  }

  lemma KidBelow(t: Ty, j: nat)
    requires j < Arity(t)
    ensures Kid(t, j) < t
  {
  }

  /**
   * The loop over items: when each block of `codes`, wherever it sits, prints
   * through its last record, the blocks from the `j`-th to before the `k`-th,
   * laid end to end after record `s`, print as `n` items.
   */
  lemma {:induction false} ItemsSeq(p: Printer, tr: seq<Entry>, s: nat, codes: seq<seq<Entry>>, j: nat, n: nat, k: nat, level: nat, mark: bool, forwardMark: bool, suffix: string)
    requires s < |tr| && j + n == k <= |codes| && At(tr, s + 1, Flatten(codes, j))
    requires forall k, q: nat {:trigger At(tr, q, codes[k])} :: 0 <= k < |codes| && At(tr, q, codes[k]) ==>
               |codes[k]| > 0 && PrintsThrough(p, tr, q, level, mark, forwardMark, q + |codes[k]| - 1)
    ensures var r := ReprItems(p, tr, s, n, level, mark, forwardMark, suffix);
            r.Some? && r.value.1 + |Flatten(codes, k)| == s + |Flatten(codes, j)|
    decreases n
  {
    if n > 0 {
      AtAppend(tr, s + 1, codes[j], Flatten(codes, j + 1));
      var e := s + |codes[j]|;
      ItemsSeq(p, tr, e, codes, j + 1, n - 1, k, level, mark, forwardMark, suffix);
      ItemsCons(p, tr, s, n, n - 1, level, mark, forwardMark, suffix, e);
    }
  }

  /** The loop over items takes one item, then goes on after it. */
  lemma ItemsCons(p: Printer, tr: seq<Entry>, s: nat, n: nat, m: nat, level: nat, mark: bool, forwardMark: bool, suffix: string, e: nat)
    requires s < |tr| && n == m + 1 && PrintsThrough(p, tr, s + 1, level, mark, forwardMark, e)
    ensures e < |tr|
    ensures var r := ReprItems(p, tr, s, n, level, mark, forwardMark, suffix);
            var rest := ReprItems(p, tr, e, m, level, mark, forwardMark, suffix);
            rest.Some? ==> r.Some? && r.value.1 == rest.value.1
  {
    var h := Repr(p, tr, s + 1, level, mark, forwardMark);
    assert ItemRepr(p, tr, s, level, mark, forwardMark, suffix) == Some((WithLast(h.value.0, suffix), e));
  }

  /** The loop over the annotations of a TypedDict `t` from the `j`-th on, whose records sit after record `s`. */
  lemma FieldsEncoded(p: Printer, ctx: Table, t: Ty, tr: seq<Entry>, s: nat, j: nat, level: nat, mark: bool, forwardMark: bool)
    requires t.TypedDict? && s < |tr| && j <= |t.fields| && At(tr, s + 1, EncodeFrom(ctx, t, j))
    requires forall k :: 0 <= k < Arity(t) ==> UnionsPrintable(Kid(t, k))
    ensures var r := ReprFields(p, tr, s, t.fields, j, level, mark, forwardMark);
            r.Some? && r.value.1 == s + |EncodeFrom(ctx, t, j)|
    decreases t, 0, 1
  {
    EncodeFromCodes(ctx, t, j);
    KidsPrint(p, ctx, t, tr, level + 1, mark, forwardMark);
    FieldsSeq(p, tr, s, KidCodes(ctx, t), t.fields, j, level, mark, forwardMark);
  }

  /**
   * The loop over annotations: when each block of `codes`, wherever it sits,
   * prints one level deeper through its last record, the blocks from the
   * `j`-th on, laid end to end after record `s`, print as the annotations.
   */
  lemma {:induction false} FieldsSeq(p: Printer, tr: seq<Entry>, s: nat, codes: seq<seq<Entry>>, fields: seq<Field>, j: nat, level: nat, mark: bool, forwardMark: bool)
    requires s < |tr| && |codes| == |fields| && j <= |fields| && At(tr, s + 1, Flatten(codes, j))
    requires forall k, q: nat {:trigger At(tr, q, codes[k])} :: 0 <= k < |codes| && At(tr, q, codes[k]) ==>
               |codes[k]| > 0 && PrintsThrough(p, tr, q, level + 1, mark, forwardMark, q + |codes[k]| - 1)
    ensures var r := ReprFields(p, tr, s, fields, j, level, mark, forwardMark);
            r.Some? && r.value.1 == s + |Flatten(codes, j)|
    decreases |fields| - j
  {
    if j < |fields| {
      AtAppend(tr, s + 1, codes[j], Flatten(codes, j + 1));
      var e := s + |codes[j]|;
      FieldsSeq(p, tr, e, codes, fields, j + 1, level, mark, forwardMark);
      FieldsCons(p, tr, s, fields, j, level, mark, forwardMark, e);
    }
  }

  /** The loop over annotations takes one annotation, then goes on after it. */
  lemma FieldsCons(p: Printer, tr: seq<Entry>, s: nat, fields: seq<Field>, j: nat, level: nat, mark: bool, forwardMark: bool, e: nat)
    requires s < |tr| && j < |fields| && PrintsThrough(p, tr, s + 1, level + 1, mark, forwardMark, e)
    ensures e < |tr|
    ensures var r := ReprFields(p, tr, s, fields, j, level, mark, forwardMark);
            var rest := ReprFields(p, tr, e, fields, j + 1, level, mark, forwardMark);
            rest.Some? ==> r.Some? && r.value.1 == rest.value.1
  {
    var h := Repr(p, tr, s + 1, level + 1, mark, forwardMark);
    assert FieldRepr(p, tr, s, fields[j], level, mark, forwardMark) == Some((KeyLines(level, fields[j], h.value.0), e));
  }

  /**
   * `_repr` from the first record of the dry run's trace over `t` consumes the
   * whole trace, in both flavours and with or without the flag forwarded.
   */
  lemma ReprEncoded(p: Printer, ctx: Table, t: Ty, level: nat, mark: bool, forwardMark: bool)
    requires UnionsPrintable(t)
    ensures var r := Repr(p, Encode(ctx, t), 0, level, mark, forwardMark);
            r.Some? && r.value.1 == |Encode(ctx, t)| - 1
  {
    var tr := Encode(ctx, t);
    assert tr[0..|tr|] == tr;
    ReprEncodedAt(p, ctx, t, tr, 0, level, mark, forwardMark);
  }

  /**
   * The corrected `type_structure` and `type_annotation` of the dry run's trace
   * over `t` both succeed and print one abstract printing, whose places are
   * the unsupported parts of `t` in the order the dry run met them.
   */
  lemma PrintedHint(p: Printer, ctx: Table, t: Ty)
    requires UnionsPrintable(t)
    ensures TypeStructure(p, Encode(ctx, t), true).Some? && TypeAnnotation(p, Encode(ctx, t), true).Some?
    ensures exists ls :: WrappedTypes(ls) == UnsupportedIn(Encode(ctx, t)) &&
              TypeStructure(p, Encode(ctx, t), true) == Some(ValidationFailure.Join("\n", Render(p, ls, true))) &&
              TypeAnnotation(p, Encode(ctx, t), true) == Some(ConcatStripped(Render(p, ls, false)))
  {
    var tr := Encode(ctx, t);
    ReprEncoded(p, ctx, t, 0, true, true);
    ReprEncoded(p, ctx, t, 0, false, true);
    ReprMark(p, tr, 0, 0);
    var m, u := Repr(p, tr, 0, 0, true, true), Repr(p, tr, 0, 0, false, true);
    var ls :| Abstracts(p, ls, m.value.0, u.value.0, tr, 0, u.value.1, 0);
    assert tr[0..u.value.1 + 1] == tr;
  }

  /**
   * A hint the dry run records as unsupported as a whole: `type_structure`
   * prints its three wrapper lines, `type_annotation` only `str(t)`.
   */
  lemma UnsupportedHintPrinted(p: Printer, ctx: Table, t: Ty, forwardMark: bool)
    requires Head(ctx, t).EUnsupported?
    ensures TypeStructure(p, Encode(ctx, t), forwardMark) == Some("UnsupportedType[\n    " + p.strTy(t) + "\n]")
    ensures TypeAnnotation(p, Encode(ctx, t), forwardMark) == Some(Strip(p.strTy(t)))
  {
    var tr := Encode(ctx, t);
    var str := p.strTy(t);
    assert Arity(t) == 0;
    EncodeLeaf(ctx, t);
    assert tr == [EUnsupported(t)];
    assert Spaces(0) == "";
    assert "" + "UnsupportedType[" == "UnsupportedType[" && "" + "    " + str == "    " + str && "" + "]" == "]";
    var lines := ["UnsupportedType[", "    " + str, "]"];
    assert Repr(p, tr, 0, 0, true, forwardMark) == Some((lines, 0));
    assert lines[1..] == ["    " + str, "]"] && lines[1..][1..] == ["]"];
    assert ValidationFailure.Join("\n", ["]"]) == "]";
    assert ValidationFailure.Join("\n", lines[1..]) == "    " + str + "\n" + "]";
    assert ValidationFailure.Join("\n", lines) == "UnsupportedType[" + "\n" + ("    " + str + "\n" + "]");
    assert "UnsupportedType[" + "\n" + ("    " + str + "\n" + "]") == "UnsupportedType[\n    " + str + "\n]";
    assert "" + str == str;
    assert Repr(p, tr, 0, 0, false, forwardMark) == Some(([str], 0));
    assert ConcatStripped([str]) == Strip(str) + ConcatStripped([]);
    assert Strip(str) + "" == Strip(str);
  }
}
