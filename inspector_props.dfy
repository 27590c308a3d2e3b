/**
 * Properties of the type inspector's dry run: reading its trace back gives
 * the hint again (unsupported parts wrapped), and a hint the inspector
 * accepts is one the matcher can decide. What the printer makes of a trace
 * is stated in ReprProperties and PrintedHints.
 */
module InspectorProperties {
  import opened Types
  import opened Aliases
  import opened Validation
  import opened ValidationProperties
  import opened Inspector

  // ---------------------------------------------------------------------------
  // The hint that `recorded_type` rebuilds
  // ---------------------------------------------------------------------------

  /**
   * The type the inspector reports for `t`, defined on the hint itself: an
   * unsupported part comes back as `UnsupportedType[part]`, a one-member union
   * as its member, a fixed tuple or user class with no arguments is applied to
   * the empty tuple, and everything else is rebuilt from its rebuilt parts.
   */
  function Recorded(ctx: Table, t: Ty): Ty
    decreases t, 1
  {
    Rebuild(ctx, t, RecordedKids(ctx, t))
  }

  /** `t` with its sub-hints replaced by `kids`, as the reader builds it. */
  function Rebuild(ctx: Table, t: Ty, kids: seq<Ty>): Ty
    requires |kids| == Arity(t)
  {
    if Head(ctx, t).EUnsupported? then Marked(t)
    else
      match t
      case Union(_, pep604) => if |kids| == 1 then kids[0] else Union(kids, pep604)
      case Collection(o, _) => Collection(o, kids[0])
      case Mapping(o, _, _) => Mapping(o, kids[0], kids[1])
      case VariadicTuple(_) => VariadicTuple(kids[0])
      case FixedTuple(_) => FixedTuple(Args(kids))
      case IteratorOf(o, _) => IteratorOf(o, kids[0])
      case UserGeneric(c, _) => UserGeneric(c, Args(kids))
      case SubclassOf(_) => SubclassOf(kids)
      case _ => t
  }

  function RecordedKids(ctx: Table, t: Ty): (r: seq<Ty>)
    ensures |r| == Arity(t)
    decreases t, 0
  {
    seq(Arity(t), k requires 0 <= k < Arity(t) => Recorded(ctx, Kid(t, k)))
  }

  /**
   * The hints whose trace can be read back: every union visited has a member,
   * and a TypeVar is visited only when the reader has a branch for it.
   */
  predicate Decodable(t: Ty, decodeTypeVars: bool)
    decreases t
  {
    (t.Union? ==> |t.members| > 0)
    && (t.TypeVar? ==> decodeTypeVars)
    && forall i :: 0 <= i < Arity(t) ==> Decodable(Kid(t, i), decodeTypeVars)
  }

  /** No unsupported record is appended for `t`: `bool(inspector)` after the dry run. */
  predicate Supported(ctx: Table, t: Ty)
    decreases t
  {
    !Head(ctx, t).EUnsupported?
    && forall i :: 0 <= i < Arity(t) ==> Supported(ctx, Kid(t, i))
  }

  /** No alias is visited. */
  predicate AliasFree(t: Ty)
    decreases t
  {
    !t.Alias? && forall i :: 0 <= i < Arity(t) ==> AliasFree(Kid(t, i))
  }

  // ---------------------------------------------------------------------------
  // Slices of a trace
  // ---------------------------------------------------------------------------

  /** The entries `e` sit in the trace `tr` from index `i` on. */
  predicate At(tr: seq<Entry>, i: nat, e: seq<Entry>)
  {
    i + |e| <= |tr| && tr[i..i + |e|] == e
  }

  lemma AtAppend(tr: seq<Entry>, i: nat, a: seq<Entry>, b: seq<Entry>)
    requires At(tr, i, a + b)
    ensures At(tr, i, a) && At(tr, i + |a|, b)
  {
    var ab := tr[i..i + |a| + |b|];
    assert tr[i..i + |a|] == ab[..|a|];
    assert tr[i + |a|..i + |a| + |b|] == ab[|a|..];
  }

  lemma EncodeSplit(ctx: Table, t: Ty, tr: seq<Entry>, i: nat)
    requires At(tr, i, Encode(ctx, t))
    ensures tr[i] == Head(ctx, t)
    ensures At(tr, i + 1, EncodeFrom(ctx, t, 0))
    ensures |Encode(ctx, t)| == 1 + |EncodeFrom(ctx, t, 0)|
  {
    var rest := EncodeFrom(ctx, t, 0);
    assert Encode(ctx, t) == [Head(ctx, t)] + rest;
    AtAppend(tr, i, [Head(ctx, t)], rest);
  }

  /** The records of each sub-hint of `t`, in order. */
  function KidCodes(ctx: Table, t: Ty): (r: seq<seq<Entry>>)
    ensures |r| == Arity(t)
    ensures forall k :: 0 <= k < |r| ==> r[k] == Encode(ctx, Kid(t, k))
  {
    seq(Arity(t), k requires 0 <= k < Arity(t) => Encode(ctx, Kid(t, k)))
  }

  /** The blocks of `codes` from the `j`-th on, laid end to end. */
  function Flatten(codes: seq<seq<Entry>>, j: nat): seq<Entry>
    requires j <= |codes|
    decreases |codes| - j
  {
    if j == |codes| then [] else codes[j] + Flatten(codes, j + 1)
  }

  /** The records of the sub-hints of `t` are their blocks laid end to end. */
  lemma {:induction false} EncodeFromCodes(ctx: Table, t: Ty, j: nat)
    requires j <= Arity(t)
    ensures EncodeFrom(ctx, t, j) == Flatten(KidCodes(ctx, t), j)
    decreases Arity(t) - j
  {
    if j < Arity(t) {
      EncodeFromCodes(ctx, t, j + 1);
    }
  }

  /** A hint with no sub-hints is recorded as one entry. */
  lemma EncodeLeaf(ctx: Table, t: Ty)
    requires Arity(t) == 0
    ensures Encode(ctx, t) == [Head(ctx, t)]
  {
    assert EncodeFrom(ctx, t, 0) == [];
  }

  // ---------------------------------------------------------------------------
  // Reading a trace back (`_recorded_type`)
  // ---------------------------------------------------------------------------

  /** Every sub-hint of `t` from the `j`-th on is decodable. */
  predicate AllFrom(oks: seq<bool>, j: nat)
  {
    forall k :: j <= k < |oks| ==> oks[k]
  }

  /** Whether the reader gets past the record of `t` itself. */
  predicate HeadDecodable(t: Ty, decodeTypeVars: bool)
  {
    (t.Union? ==> |t.members| > 0) && (t.TypeVar? ==> decodeTypeVars)
  }

  /** Which sub-hints of `t` are decodable. */
  function KidOks(t: Ty, decodeTypeVars: bool): (r: seq<bool>)
    ensures |r| == Arity(t)
    ensures forall k :: 0 <= k < |r| ==> r[k] == Decodable(Kid(t, k), decodeTypeVars)
  {
    seq(Arity(t), k requires 0 <= k < Arity(t) => Decodable(Kid(t, k), decodeTypeVars))
  }

  /**
   * Wherever the records of a hint sit in a trace, one read from their first
   * index returns the rebuilt hint and stops at their last index when the hint
   * is decodable, and fails otherwise.
   */
  lemma {:induction false} DecodeEncoded(ctx: Table, t: Ty, tr: seq<Entry>, i: nat, decodeTypeVars: bool)
    requires At(tr, i, Encode(ctx, t))
    ensures Decode(tr, i, decodeTypeVars) ==
            if Decodable(t, decodeTypeVars) then Some((Recorded(ctx, t), i + |Encode(ctx, t)| - 1)) else None
    decreases t, 1
  {
    EncodeSplit(ctx, t, tr, i);
    var last := i + |EncodeFrom(ctx, t, 0)|;
    KidsDecodeMany(ctx, t, tr, i, decodeTypeVars);
    DecodeStep(ctx, t, tr, i, decodeTypeVars, AllFrom(KidOks(t, decodeTypeVars), 0), last);
    DecodableSplit(t, decodeTypeVars);
  }

  /** The records of the sub-hints of `t`, after index `i`, read back as the rebuilt sub-hints. */
  lemma {:induction false} KidsDecodeMany(ctx: Table, t: Ty, tr: seq<Entry>, i: nat, decodeTypeVars: bool)
    requires At(tr, i + 1, EncodeFrom(ctx, t, 0))
    ensures DecodeMany(tr, i, Arity(t), decodeTypeVars) ==
            if AllFrom(KidOks(t, decodeTypeVars), 0) then Some((RecordedKids(ctx, t), i + |EncodeFrom(ctx, t, 0)|)) else None
    decreases t, 0, 2
  {
    EncodeFromCodes(ctx, t, 0);
    KidsDecode(ctx, t, tr, decodeTypeVars);
    var xs, oks := RecordedKids(ctx, t), KidOks(t, decodeTypeVars);
    DecodeSeq(tr, i, KidCodes(ctx, t), xs, oks, 0, decodeTypeVars);
    assert xs[0..] == xs;
  }

  /** Each sub-hint of `t` reads back wherever its records sit, or fails when it is not decodable. */
  lemma {:induction false} KidsDecode(ctx: Table, t: Ty, tr: seq<Entry>, decodeTypeVars: bool)
    ensures var codes, xs, oks := KidCodes(ctx, t), RecordedKids(ctx, t), KidOks(t, decodeTypeVars);
            forall k, p: nat {:trigger At(tr, p, codes[k])} :: 0 <= k < |codes| && At(tr, p, codes[k]) ==>
              |codes[k]| > 0 && Decode(tr, p, decodeTypeVars) == if oks[k] then Some((xs[k], p + |codes[k]| - 1)) else None
    decreases t, 0, 1
  {
    var codes, xs, oks := KidCodes(ctx, t), RecordedKids(ctx, t), KidOks(t, decodeTypeVars);
    forall k, p: nat {:trigger At(tr, p, codes[k])} | 0 <= k < |codes| && At(tr, p, codes[k])
      ensures |codes[k]| > 0 && Decode(tr, p, decodeTypeVars) == if oks[k] then Some((xs[k], p + |codes[k]| - 1)) else None
    {
      KidDecodes(ctx, t, k, tr, p, decodeTypeVars);
    }
  }

  lemma {:induction false} KidDecodes(ctx: Table, t: Ty, k: nat, tr: seq<Entry>, p: nat, decodeTypeVars: bool)
    requires k < Arity(t) && At(tr, p, KidCodes(ctx, t)[k])
    ensures var codes, xs, oks := KidCodes(ctx, t), RecordedKids(ctx, t), KidOks(t, decodeTypeVars);
            |codes[k]| > 0 && Decode(tr, p, decodeTypeVars) == if oks[k] then Some((xs[k], p + |codes[k]| - 1)) else None
    decreases t, 0, 0
  {
    var kid := Kid(t, k);
    KidEntries(ctx, t, k, decodeTypeVars);
    DecodeEncoded(ctx, kid, tr, p, decodeTypeVars);
  }

  lemma KidEntries(ctx: Table, t: Ty, k: nat, decodeTypeVars: bool)
    requires k < Arity(t)
    ensures Kid(t, k) < t
    ensures KidCodes(ctx, t)[k] == Encode(ctx, Kid(t, k))
    ensures RecordedKids(ctx, t)[k] == Recorded(ctx, Kid(t, k))
    ensures KidOks(t, decodeTypeVars)[k] == Decodable(Kid(t, k), decodeTypeVars)
  {
  }

  lemma DecodableSplit(t: Ty, decodeTypeVars: bool)
    ensures Decodable(t, decodeTypeVars) == (HeadDecodable(t, decodeTypeVars) && AllFrom(KidOks(t, decodeTypeVars), 0))
  {
  }

  /**
   * The loop of a constructor record: when each block of `codes`, wherever it
   * sits, reads back as the matching value of `xs` if `oks` says so and fails
   * otherwise, the blocks from the `j`-th on, laid end to end after index `s`,
   * read back as the rest of `xs`, or fail if one of them fails.
   */
  lemma {:induction false} DecodeSeq(tr: seq<Entry>, s: nat, codes: seq<seq<Entry>>, xs: seq<Ty>, oks: seq<bool>, j: nat, decodeTypeVars: bool)
    requires |codes| == |xs| == |oks| && j <= |xs|
    requires At(tr, s + 1, Flatten(codes, j))
    requires forall k, p: nat {:trigger At(tr, p, codes[k])} :: 0 <= k < |codes| && At(tr, p, codes[k]) ==>
               |codes[k]| > 0 && Decode(tr, p, decodeTypeVars) == if oks[k] then Some((xs[k], p + |codes[k]| - 1)) else None
    ensures DecodeMany(tr, s, |xs| - j, decodeTypeVars) ==
            if AllFrom(oks, j) then Some((xs[j..], s + |Flatten(codes, j)|)) else None
    decreases |xs| - j
  {
    if j < |xs| {
      AtAppend(tr, s + 1, codes[j], Flatten(codes, j + 1));
      var m := s + |codes[j]|;
      if oks[j] {
        assert Decode(tr, s + 1, decodeTypeVars) == Some((xs[j], m));
        DecodeSeq(tr, m, codes, xs, oks, j + 1, decodeTypeVars);
        DecodeSeqStep(tr, s, xs, oks, j, m, m + |Flatten(codes, j + 1)|, decodeTypeVars);
        assert s + |Flatten(codes, j)| == m + |Flatten(codes, j + 1)|;
      } else {
        assert Decode(tr, s + 1, decodeTypeVars) == None;
        DecodeManyStops(tr, s, |xs| - j, decodeTypeVars);
        assert !AllFrom(oks, j);
      }
    } else {
      assert xs[j..] == [] && Flatten(codes, j) == [];
    }
  }

  /** A loop step whose first read succeeds: the rest of the loop decides. */
  lemma DecodeSeqStep(tr: seq<Entry>, s: nat, xs: seq<Ty>, oks: seq<bool>, j: nat, m: nat, last: nat, decodeTypeVars: bool)
    requires |oks| == |xs| && j < |xs| && oks[j] && s < |tr|
    requires Decode(tr, s + 1, decodeTypeVars) == Some((xs[j], m))
    requires DecodeMany(tr, m, |xs| - (j + 1), decodeTypeVars) == if AllFrom(oks, j + 1) then Some((xs[j + 1..], last)) else None
    ensures DecodeMany(tr, s, |xs| - j, decodeTypeVars) == if AllFrom(oks, j) then Some((xs[j..], last)) else None
  {
    DecodeManyStep(tr, s, |xs| - j, decodeTypeVars, xs[j], m);
    assert AllFrom(oks, j) == AllFrom(oks, j + 1);
    assert [xs[j]] + xs[j + 1..] == xs[j..];
  }

  /** One read at the record of `t`, given the read of its sub-records. */
  lemma DecodeStep(ctx: Table, t: Ty, tr: seq<Entry>, i: nat, decodeTypeVars: bool, ok: bool, last: nat)
    requires i < |tr| && tr[i] == Head(ctx, t)
    requires DecodeMany(tr, i, Arity(t), decodeTypeVars) == if ok then Some((RecordedKids(ctx, t), last)) else None
    ensures Decode(tr, i, decodeTypeVars) ==
            if HeadDecodable(t, decodeTypeVars) && ok then Some((Recorded(ctx, t), last)) else None
  {
    assert Recorded(ctx, t) == Rebuild(ctx, t, RecordedKids(ctx, t));
    if Head(ctx, t).EGeneric? {
      DecodeStepGeneric(ctx, t, tr, i, decodeTypeVars, ok, last);
    } else {
      DecodeStepOther(ctx, t, tr, i, decodeTypeVars, ok, last);
    }
  }

  lemma DecodeStepGeneric(ctx: Table, t: Ty, tr: seq<Entry>, i: nat, decodeTypeVars: bool, ok: bool, last: nat)
    requires i < |tr| && tr[i] == Head(ctx, t) && Head(ctx, t).EGeneric?
    requires DecodeMany(tr, i, Arity(t), decodeTypeVars) == if ok then Some((RecordedKids(ctx, t), last)) else None
    ensures Decode(tr, i, decodeTypeVars) ==
            if ok then Some((Rebuild(ctx, t, RecordedKids(ctx, t)), last)) else None
  {
    var kids := RecordedKids(ctx, t);
    match t
    case SubclassOf(args) =>
      if ok {
        assert Args(kids) == kids;
      }
    case _ =>
  }

  lemma DecodeStepOther(ctx: Table, t: Ty, tr: seq<Entry>, i: nat, decodeTypeVars: bool, ok: bool, last: nat)
    requires i < |tr| && tr[i] == Head(ctx, t) && !Head(ctx, t).EGeneric?
    requires DecodeMany(tr, i, Arity(t), decodeTypeVars) == if ok then Some((RecordedKids(ctx, t), last)) else None
    ensures Decode(tr, i, decodeTypeVars) ==
            if HeadDecodable(t, decodeTypeVars) && ok then Some((Rebuild(ctx, t, RecordedKids(ctx, t)), last)) else None
  {
  }

  /** One step of `DecodeMany`: the first sub-record read, then the rest. */
  lemma DecodeManyStep(tr: seq<Entry>, s: nat, n: nat, decodeTypeVars: bool, x: Ty, m: nat)
    requires s < |tr| && n > 0 && Decode(tr, s + 1, decodeTypeVars) == Some((x, m))
    ensures DecodeMany(tr, s, n, decodeTypeVars) == Prepend([x], DecodeMany(tr, m, n - 1, decodeTypeVars))
  {
  }

  /** A failed read of the first sub-record fails the whole loop. */
  lemma DecodeManyStops(tr: seq<Entry>, s: nat, n: nat, decodeTypeVars: bool)
    requires s < |tr| && n > 0 && Decode(tr, s + 1, decodeTypeVars) == None
    ensures DecodeMany(tr, s, n, decodeTypeVars) == None
  {
  }

  /**
   * `recorded_type` after the dry run over `t` succeeds exactly when `t` is
   * decodable, and then it is the rebuilt hint. With the TypeVar branch, the
   * `recorded_type` of the corrected reader.
   */
  lemma RoundTrip(ctx: Table, t: Ty, decodeTypeVars: bool)
    ensures RecordedType(Encode(ctx, t), decodeTypeVars) ==
            if Decodable(t, decodeTypeVars) then Some(Recorded(ctx, t)) else None
  {
    var tr := Encode(ctx, t);
    assert tr[0..|tr|] == tr;
    DecodeEncoded(ctx, t, tr, 0, decodeTypeVars);
  }

  /**
   * The reader as written has no branch for `"typevar"` records: the recorded
   * type of any hint that visits a TypeVar is lost, while the corrected reader
   * gives the hint back.
   */
  lemma TypeVarNotRecorded(ctx: Table, name: string)
    ensures RecordedType(Encode(ctx, Collection(List, TypeVar(name, None))), false) == None
    ensures RecordedType(Encode(ctx, Collection(List, TypeVar(name, None))), true) == Some(Collection(List, TypeVar(name, None)))
  {
    var t := Collection(List, TypeVar(name, None));
    RoundTrip(ctx, t, false);
    RoundTrip(ctx, t, true);
    assert Kid(t, 0) == TypeVar(name, None);
    assert !Decodable(t, false);
    assert Decodable(t, true);
    RecordedSupported(ctx, t);
  }

  /** `Recorded` wraps exactly the unsupported parts: when there is none, the rebuilt hint is `t` again. */
  lemma {:induction false} RecordedSupported(ctx: Table, t: Ty)
    requires Supported(ctx, t) && UnionsAtLeast(t, 2) && ArgsNonEmpty(t)
    ensures Recorded(ctx, t) == t
    decreases t
  {
    var kids := RecordedKids(ctx, t);
    forall k | 0 <= k < Arity(t) ensures kids[k] == Kid(t, k) {
      var kid := Kid(t, k);
      assert Supported(ctx, kid) && UnionsAtLeast(kid, 2) && ArgsNonEmpty(kid);
      RecordedSupported(ctx, kid);
    }
    match t
    case Union(ms, _) => assert kids == ms;
    case FixedTuple(items) => assert kids == items;
    case UserGeneric(_, args) => assert kids == args;
    case SubclassOf(args) => assert kids == args;
    case _ =>
  }

  /**
   * Round trip for a supported hint: when the dry run records nothing
   * unsupported, every union visited has two members (a one-member union is
   * the member itself) and every argument list is non-empty, `recorded_type`
   * is the hint itself.
   */
  lemma SupportedRoundTrip(ctx: Table, t: Ty)
    requires Supported(ctx, t) && UnionsAtLeast(t, 2) && ArgsNonEmpty(t)
    ensures RecordedType(Encode(ctx, t), true) == Some(t)
  {
    DecodableFromUnions(t);
    RoundTrip(ctx, t, true);
    RecordedSupported(ctx, t);
  }

  /**
   * The same round trip for the reader as written, which has no branch for
   * TypeVar records: on a hint that visits no TypeVar it already gives the
   * hint back.
   */
  lemma SupportedRoundTripAsWritten(ctx: Table, t: Ty)
    requires TypeVarFree(t) && Supported(ctx, t) && UnionsAtLeast(t, 2) && ArgsNonEmpty(t)
    ensures RecordedType(Encode(ctx, t), false) == Some(t)
  {
    DecodableWithoutTypeVars(t);
    RoundTrip(ctx, t, false);
    RecordedSupported(ctx, t);
  }

  lemma {:induction false} DecodableWithoutTypeVars(t: Ty)
    requires UnionsAtLeast(t, 2) && TypeVarFree(t)
    ensures Decodable(t, false)
    decreases t
  {
    forall i | 0 <= i < Arity(t) ensures Decodable(Kid(t, i), false) {
      DecodableWithoutTypeVars(Kid(t, i));
    }
  }

  lemma {:induction false} DecodableFromUnions(t: Ty)
    requires UnionsAtLeast(t, 2)
    ensures Decodable(t, true)
    decreases t
  {
    forall i | 0 <= i < Arity(t) ensures Decodable(Kid(t, i), true) {
      DecodableFromUnions(Kid(t, i));
    }
  }

  /** A fixed tuple or user class with no arguments is read back applied to the empty tuple. */
  lemma EmptyArgsRecorded(ctx: Table, c: ClassName, decodeTypeVars: bool)
    ensures RecordedType(Encode(ctx, FixedTuple([])), decodeTypeVars) == Some(FixedTuple([EmptyTupleArg]))
    ensures RecordedType(Encode(ctx, UserGeneric(c, [])), decodeTypeVars) == Some(UserGeneric(c, [EmptyTupleArg]))
  {
    RoundTrip(ctx, FixedTuple([]), decodeTypeVars);
    RoundTrip(ctx, UserGeneric(c, []), decodeTypeVars);
  }

  // ---------------------------------------------------------------------------
  // `bool(inspector)` and `can_validate`
  // ---------------------------------------------------------------------------

  /** The inspector is truthy after the dry run over `t` exactly when `t` has no unsupported part. */
  lemma {:induction false} SupportedIff(ctx: Table, t: Ty)
    ensures Supported(ctx, t) <==> UnsupportedIn(Encode(ctx, t)) == []
    decreases t, 1
  {
    var h := Head(ctx, t);
    var codes := KidCodes(ctx, t);
    EncodeFromCodes(ctx, t, 0);
    HeadUnsupported(h, Flatten(codes, 0));
    KidsSupportedIff(ctx, t);
    NoneUnsupported(codes, 0);
  }

  lemma HeadUnsupported(h: Entry, rest: seq<Entry>)
    ensures UnsupportedIn([h] + rest) == [] <==> !h.EUnsupported? && UnsupportedIn(rest) == []
  {
    UnsupportedInAppend([h], rest);
    assert UnsupportedIn([h]) == (if h.EUnsupported? then [h.unsupported] else []) + UnsupportedIn([]);
  }

  lemma {:induction false} KidsSupportedIff(ctx: Table, t: Ty)
    ensures forall k :: 0 <= k < Arity(t) ==> (Supported(ctx, Kid(t, k)) <==> UnsupportedIn(KidCodes(ctx, t)[k]) == [])
    decreases t, 0
  {
    forall k | 0 <= k < Arity(t) ensures Supported(ctx, Kid(t, k)) <==> UnsupportedIn(KidCodes(ctx, t)[k]) == [] {
      SupportedIff(ctx, Kid(t, k));
    }
  }

  /** Blocks laid end to end hold no unsupported record exactly when none of them does. */
  lemma {:induction false} NoneUnsupported(codes: seq<seq<Entry>>, j: nat)
    requires j <= |codes|
    ensures UnsupportedIn(Flatten(codes, j)) == [] <==> forall k :: j <= k < |codes| ==> UnsupportedIn(codes[k]) == []
    decreases |codes| - j
  {
    if j < |codes| {
      NoneUnsupported(codes, j + 1);
      UnsupportedInAppend(codes[j], Flatten(codes, j + 1));
    }
  }

  /** A supported hint without aliases has no part the matcher gives up on. */
  lemma {:induction false} SupportedDecidable(ctx: Table, t: Ty)
    requires Supported(ctx, t) && AliasFree(t)
    ensures Decidable(t, false)
    decreases t
  {
    forall i | 0 <= i < Arity(t) ensures Decidable(Kid(t, i), false) {
      assert Supported(ctx, Kid(t, i)) && AliasFree(Kid(t, i));
      SupportedDecidable(ctx, Kid(t, i));
    }
    match t
    case TypeVar(_, bound) =>
      if bound.Some? { assert Kid(t, 0) == bound.value; }
    case Union(ms, _) => assert forall i :: 0 <= i < |ms| ==> Kid(t, i) == ms[i];
    case Collection(_, item) => assert Kid(t, 0) == item;
    case VariadicTuple(item) => assert Kid(t, 0) == item;
    case Mapping(_, key, value) => assert Kid(t, 0) == key && Kid(t, 1) == value;
    case FixedTuple(items) => assert forall i :: 0 <= i < |items| ==> Kid(t, i) == items[i];
    case TypedDict(_, fields) => assert forall i :: 0 <= i < |fields| ==> Kid(t, i) == fields[i].ty;
    case SubclassOf(args) => assert SubclassRecordable(args);
    case _ =>
  }

  /**
   * `can_validate(t)` is sound: on a hint without aliases on which the dry
   * run records nothing unsupported, `validate` never raises
   * `UnsupportedTypeError` or another `ValueError` and never recurses
   * forever, for every value, alias table and recursion depth.
   */
  lemma CanValidateSound(cl: Classes, ctx: Table, fuel: nat, v: Val, t: Ty)
    requires UnsupportedIn(Encode(ctx, t)) == [] && AliasFree(t)
    ensures Answered(Check(cl, ctx, fuel, v, t))
  {
    SupportedIff(ctx, t);
    SupportedDecidable(ctx, t);
    DecidableDecided(cl, ctx, fuel, v, t, false);
  }

  /**
   * `Type[TD]` for a TypedDict class `TD` is supported as far as the dry run
   * is concerned, which records it as `type` applied to `TD`; `validate` of a
   * class against it raises the `TypeError` of `issubclass`, which carries no
   * failure, so that `is_valid` fails on reading the failure.
   */
  lemma SubclassOfTypedDict(cl: Classes, ctx: Table, fuel: nat, v: Val, name: ClassName, fields: seq<Field>)
    requires cl.isInstance(v, TypeClass)
    ensures Head(ctx, SubclassOf([TypedDict(name, fields)])) == EGeneric(OType, TUserClass(1))
    ensures Encode(ctx, SubclassOf([TypedDict(name, fields)])) == [EGeneric(OType, TUserClass(1))] + Encode(ctx, TypedDict(name, fields))
    ensures Check(cl, ctx, fuel, v, SubclassOf([TypedDict(name, fields)])) == SubclassCheckRaised(TypedDict(name, fields))
    ensures IsValid(cl, ctx, fuel, v, SubclassOf([TypedDict(name, fields)])) == NoFailureAttr
  {
    var td := TypedDict(name, fields);
    var u := SubclassOf([td]);
    assert [td][1..] == [];
    assert [] + [td] == [td];
    assert Walk([td], []) == Walk([], [] + [td]) == Some([td]);
    assert MemberTypes(td) == Some([td]);
    assert CanValidateSubtypeOf(td);
    assert Arity(u) == 1 && Kid(u, 0) == td;
    assert EncodeFrom(ctx, u, 0) == Encode(ctx, td) + EncodeFrom(ctx, u, 1);
  }
}
