/**
 * Properties of the earlier matcher: the shape of its failure trees, what
 * each loop reports, its agreement with the current matcher on the hints
 * both understand, and the lines of its messages.
 */
module LegacyProperties {
  import opened Types
  import opened Aliases
  import opened ValidationFailure
  import opened Validation
  import opened LegacyMatcher
  import opened ValidationProperties

  // ---------------------------------------------------------------------------
  // The shape of the failure trees
  // ---------------------------------------------------------------------------

  /** A tree the old matcher can build: no alias table, plain or union nodes, no alias hint. */
  predicate OldShaped(f: Failure)
  {
    f.aliases == [] && (f.kind.Plain? || f.kind.UnionOf?) && !f.t.Alias? &&
    forall i :: 0 <= i < |f.causes| ==> OldShaped(f.causes[i])
  }

  /**
   * A failure about the value `v` that the old matcher can build and that
   * passes the assertion of `__new__` under Python's `==` of `cl`.
   */
  predicate GoodFailure(cl: Classes, f: Failure, v: Val)
  {
    f.val == v && WellFormed(cl.equals, f) && OldShaped(f)
  }

  /**
   * Every failure `validate(val, t)` raises concerns `val`, and the assertion
   * of `ValidationFailure.__new__` (the value of a union failure is `==` to
   * the value of each of its causes) holds at every node: a union whose
   * assertion fails raises `AssertionError` instead.
   */
  lemma {:induction false} LegacyFailureShape(cl: Classes, v: Val, t: Ty)
    ensures var r := Legacy(cl, v, t); r.LFail? ==> GoodFailure(cl, r.failure, v)
    decreases t, 1
  {
    match t
    case Union(ms, pep604) =>
      if !pep604 && ms != [] { UnionShape(cl, v, t, 0, []); }
    case Collection(_, _) => ItemsShape(cl, v, t, Iter(v), 0);
    case Mapping(_, _, _) => PairsShape(cl, v, t, Pairs(v), 0);
    case VariadicTuple(_) => ItemsShape(cl, v, t, Iter(v), 0);
    case FixedTuple(items) =>
      if |Iter(v)| == |items| { FixedShape(cl, v, t, Iter(v), 0); }
    case IteratorOf(_, _) => ItemsShape(cl, v, t, Iter(v), 0);
    case ContainerOf(_) => ItemsShape(cl, v, t, Iter(v), 0);
    case _ =>
  }

  lemma {:induction false} ItemsShape(cl: Classes, v: Val, t: Ty, xs: seq<Val>, i: nat)
    requires LegacyItemHint(t) && i <= |xs|
    ensures var r := LegacyItems(cl, v, t, xs, i); r.LFail? ==> GoodFailure(cl, r.failure, v)
    decreases t, 0, |xs| - i
  {
    if i < |xs| {
      LegacyFailureShape(cl, xs[i], t.item);
      ItemsShape(cl, v, t, xs, i + 1);
    }
  }

  lemma {:induction false} PairsShape(cl: Classes, v: Val, t: Ty, ps: seq<(Val, Val)>, i: nat)
    requires t.Mapping? && i <= |ps|
    ensures var r := LegacyPairs(cl, v, t, ps, i); r.LFail? ==> GoodFailure(cl, r.failure, v)
    decreases t, 0, |ps| - i
  {
    if i < |ps| {
      LegacyFailureShape(cl, ps[i].0, t.key);
      LegacyFailureShape(cl, ps[i].1, t.value);
      PairsShape(cl, v, t, ps, i + 1);
    }
  }

  lemma {:induction false} FixedShape(cl: Classes, v: Val, t: Ty, xs: seq<Val>, i: nat)
    requires t.FixedTuple? && |xs| == |t.items| && i <= |xs|
    ensures var r := LegacyFixed(cl, v, t, xs, i); r.LFail? ==> GoodFailure(cl, r.failure, v)
    decreases t, 0, |xs| - i
  {
    if i < |xs| {
      LegacyFailureShape(cl, xs[i], t.items[i]);
      FixedShape(cl, v, t, xs, i + 1);
    }
  }

  lemma {:induction false} UnionShape(cl: Classes, v: Val, t: Ty, i: nat, errs: seq<Failure>)
    requires t.Union? && i <= |t.members|
    requires forall k :: 0 <= k < |errs| ==> GoodFailure(cl, errs[k], v)
    ensures var r := LegacyUnion(cl, v, t, i, errs); r.LFail? ==> GoodFailure(cl, r.failure, v)
    decreases t, 0, |t.members| - i
  {
    if i < |t.members| {
      var r := Legacy(cl, v, t.members[i]);
      LegacyFailureShape(cl, v, t.members[i]);
      UnionShape(cl, v, t, i + 1, errs + Attached(r));
    }
  }

  // ---------------------------------------------------------------------------
  // What the loops report
  // ---------------------------------------------------------------------------

  /** The index of the first outcome from `i` on that is not a success, or `|os|`. */
  function FirstStop(os: seq<OldOutcome>, i: nat): (k: nat)
    requires i <= |os|
    ensures i <= k <= |os| && (forall j :: i <= j < k ==> os[j].LOk?) && (k < |os| ==> !os[k].LOk?)
    decreases |os| - i
  {
    if i == |os| || !os[i].LOk? then i else FirstStop(os, i + 1)
  }

  /** The index of the first outcome from `i` on that is not a `TypeError`, or `|os|`. */
  function FirstAccept(os: seq<OldOutcome>, i: nat): (k: nat)
    requires i <= |os|
    ensures i <= k <= |os| && (forall j :: i <= j < k ==> IsTypeError(os[j])) && (k < |os| ==> !IsTypeError(os[k]))
    decreases |os| - i
  {
    if i == |os| || !IsTypeError(os[i]) then i else FirstAccept(os, i + 1)
  }

  /** How an item loop ends on the outcome `o` of its first unsuccessful item. */
  function Report(v: Val, t: Ty, o: OldOutcome): OldOutcome
  {
    if IsTypeError(o) then LFail(OldErr(v, t, Attached(o))) else o
  }

  /** The failure trees carried by the `TypeError`s among `os`, in order. */
  function AllAttached(os: seq<OldOutcome>): seq<Failure>
  {
    if os == [] then [] else AllAttached(os[..|os| - 1]) + Attached(os[|os| - 1])
  }

  function ItemOutcomes(cl: Classes, xs: seq<Val>, item: Ty): (os: seq<OldOutcome>)
    ensures |os| == |xs|
  {
    seq(|xs|, k requires 0 <= k < |xs| => Legacy(cl, xs[k], item))
  }

  function PairOutcomes(cl: Classes, t: Ty, ps: seq<(Val, Val)>): (os: seq<OldOutcome>)
    requires t.Mapping?
    ensures |os| == |ps|
  {
    seq(|ps|, k requires 0 <= k < |ps| => PairOutcome(cl, t, ps[k]))
  }

  function FixedOutcomes(cl: Classes, xs: seq<Val>, items: seq<Ty>): (os: seq<OldOutcome>)
    requires |xs| == |items|
    ensures |os| == |xs|
  {
    seq(|xs|, k requires 0 <= k < |xs| => Legacy(cl, xs[k], items[k]))
  }

  function MemberOutcomes(cl: Classes, v: Val, ms: seq<Ty>): (os: seq<OldOutcome>)
    ensures |os| == |ms|
  {
    seq(|ms|, k requires 0 <= k < |ms| => Legacy(cl, v, ms[k]))
  }

  /**
   * The items of a collection or variadic tuple are validated in iteration
   * order up to the first one that does not pass: the loop succeeds when all
   * pass, a `TypeError` of that item becomes the sole cause (if it carries a
   * failure tree) of a plain failure without index, and a `ValueError` passes
   * through.
   */
  lemma {:induction false} ItemsFirstFailure(cl: Classes, v: Val, t: Ty, xs: seq<Val>, i: nat)
    requires LegacyItemHint(t) && i <= |xs|
    ensures var os := ItemOutcomes(cl, xs, t.item); var k := FirstStop(os, i);
            LegacyItems(cl, v, t, xs, i) == if k == |xs| then LOk else Report(v, t, os[k])
    decreases |xs| - i
  {
    if i < |xs| && Legacy(cl, xs[i], t.item).LOk? {
      ItemsFirstFailure(cl, v, t, xs, i + 1);
    }
  }

  /**
   * The pairs of a mapping are validated key first, then value, up to the
   * first pair where either does not pass; which of the two failed is not
   * recorded.
   */
  lemma {:induction false} PairsFirstFailure(cl: Classes, v: Val, t: Ty, ps: seq<(Val, Val)>, i: nat)
    requires t.Mapping? && i <= |ps|
    ensures var os := PairOutcomes(cl, t, ps); var k := FirstStop(os, i);
            LegacyPairs(cl, v, t, ps, i) == if k == |ps| then LOk else Report(v, t, os[k])
    decreases |ps| - i
  {
    if i < |ps| && PairOutcome(cl, t, ps[i]).LOk? {
      PairsFirstFailure(cl, v, t, ps, i + 1);
    }
  }

  /** A failing pair gives the same failure whether its key or its value failed. */
  lemma PairSideForgotten(cl: Classes, v: Val, t: Ty, kv: (Val, Val), g: Failure)
    requires t.Mapping?
    requires Legacy(cl, kv.0, t.key) == LFail(g) ||
             (Legacy(cl, kv.0, t.key).LOk? && Legacy(cl, kv.1, t.value) == LFail(g))
    ensures LegacyPairs(cl, v, t, [kv], 0) == LFail(Failure(v, t, [g], Plain, []))
  {
    assert PairOutcome(cl, t, [kv][0]) == LFail(g);
  }

  /** The positions of a fixed-length tuple of the right length, up to the first that does not pass. */
  lemma {:induction false} FixedFirstFailure(cl: Classes, v: Val, t: Ty, xs: seq<Val>, i: nat)
    requires t.FixedTuple? && |xs| == |t.items| && i <= |xs|
    ensures var os := FixedOutcomes(cl, xs, t.items); var k := FirstStop(os, i);
            LegacyFixed(cl, v, t, xs, i) == if k == |xs| then LOk else Report(v, t, os[k])
    decreases |xs| - i
  {
    if i < |xs| && Legacy(cl, xs[i], t.items[i]).LOk? {
      FixedFirstFailure(cl, v, t, xs, i + 1);
    }
  }

  /** A tuple of the wrong length fails without causes, before any item is looked at. */
  lemma FixedWrongLength(cl: Classes, v: Val, t: Ty)
    requires t.FixedTuple? && cl.isInstance(v, TupleClass) && |Iter(v)| != |t.items|
    ensures Legacy(cl, v, t) == LFail(Failure(v, t, [], Plain, []))
  {
  }

  /**
   * `Any` accepts every value, `None` only `None`, and the hints the old
   * matcher does not know end in `ValueError` (which, by the contract of
   * `LegacyValidator.Validate`, leaves the slot empty).
   */
  lemma LegacyLeaves(cl: Classes, v: Val, t: Ty)
    ensures Legacy(cl, v, AnyTy) == LOk
    ensures Legacy(cl, v, NoneTy).LOk? <==> v == NoneVal
    ensures v != NoneVal ==> Legacy(cl, v, NoneTy) == LFail(Failure(v, NoneTy, [], Plain, []))
    ensures (t.TypeVar? || t.UserGeneric? || t.SubclassOf? || t.Alias? || (t.Union? && t.pep604) ||
             (t.Opaque? && t.why.Unrecognised?)) ==> Legacy(cl, v, t) == LValueError
  {
  }

  lemma AllAttachedStep(os: seq<OldOutcome>, i: nat)
    requires i < |os|
    ensures AllAttached(os[..i + 1]) == AllAttached(os[..i]) + Attached(os[i])
  {
    assert os[..i + 1][..i] == os[..i];
  }

  /**
   * A `typing.Union` tries its members in order: the first that does not
   * raise `TypeError` decides (success, or a `ValueError` or `AssertionError`
   * passed through). When every member raises `TypeError`, the union failure
   * holds the failure trees of all of them, in order, provided the value is
   * `==` to the value of each tree; otherwise the assertion of
   * `ValidationFailure.__new__` raises, with the slot as the last member left it.
   */
  lemma {:induction false} UnionFirstAccept(cl: Classes, v: Val, t: Ty, i: nat, errs: seq<Failure>)
    requires t.Union? && i <= |t.members|
    requires errs == AllAttached(MemberOutcomes(cl, v, t.members)[..i])
    ensures var os := MemberOutcomes(cl, v, t.members); var k := FirstAccept(os, i);
            LegacyUnion(cl, v, t, i, errs) ==
              if k < |os| then os[k]
              else if CausesEqual(cl.equals, v, AllAttached(os)) then LFail(Failure(v, t, AllAttached(os), UnionOf, []))
              else LAssertionError(if os == [] then None else SlotAfter(os[|os| - 1]))
    decreases |t.members| - i
  {
    var os := MemberOutcomes(cl, v, t.members);
    if i == |os| {
      assert os[..i] == os;
    } else if IsTypeError(os[i]) {
      AllAttachedStep(os, i);
      UnionFirstAccept(cl, v, t, i + 1, errs + Attached(os[i]));
    }
  }

  /** When every member fails with a failure tree, the union failure has one cause per member, in order. */
  lemma {:induction false} AllAttachedFailures(os: seq<OldOutcome>)
    requires forall k :: 0 <= k < |os| ==> os[k].LFail?
    ensures |AllAttached(os)| == |os| && forall k :: 0 <= k < |os| ==> AllAttached(os)[k] == os[k].failure
    decreases |os|
  {
    if os != [] {
      var init := os[..|os| - 1];
      assert forall k :: 0 <= k < |init| ==> init[k] == os[k];
      AllAttachedFailures(init);
    }
  }

  /** The failure trees kept from outcomes about `v` are about `v`. */
  lemma {:induction false} AllAttachedAbout(os: seq<OldOutcome>, v: Val)
    requires forall k :: 0 <= k < |os| && os[k].LFail? ==> os[k].failure.val == v
    ensures SameValue(AllAttached(os), v)
    decreases |os|
  {
    if os != [] {
      var init := os[..|os| - 1];
      assert forall k :: 0 <= k < |init| ==> init[k] == os[k];
      AllAttachedAbout(init, v);
    }
  }

  /**
   * When every member of a `typing.Union` raises `TypeError`, the union
   * raises its own `TypeError` exactly when no member left a failure tree or
   * the value is `==` to itself, and `AssertionError` otherwise.
   */
  lemma UnionAssertion(cl: Classes, v: Val, t: Ty)
    requires t.Union? && !t.pep604 && t.members != []
    requires forall j :: 0 <= j < |t.members| ==> IsTypeError(Legacy(cl, v, t.members[j]))
    ensures var fs := AllAttached(MemberOutcomes(cl, v, t.members));
            Legacy(cl, v, t) ==
              if fs == [] || cl.equals(v, v) then LFail(OldUnionErr(v, t, fs))
              else LAssertionError(SlotAfter(Legacy(cl, v, t.members[|t.members| - 1])))
  {
    var os := MemberOutcomes(cl, v, t.members);
    assert os[..0] == [];
    UnionFirstAccept(cl, v, t, 0, []);
    forall k | 0 <= k < |os| && os[k].LFail?
      ensures os[k].failure.val == v
    {
      LegacyFailureShape(cl, v, t.members[k]);
    }
    AllAttachedAbout(os, v);
    SameValueEqual(cl.equals, v, AllAttached(os));
  }

  // ---------------------------------------------------------------------------
  // Agreement with the current matcher
  // ---------------------------------------------------------------------------

  /** The hints both matchers understand the same way. */
  predicate Common(t: Ty)
  {
    match t
    case AnyTy => true
    case NoneTy => true
    case Class(_) => true
    case Marked(_) => true
    case Literal(_) => true
    case Union(ms, pep604) => !pep604 && forall i :: 0 <= i < |ms| ==> Common(ms[i])
    case Collection(_, item) => Common(item)
    case Mapping(_, k, w) => Common(k) && Common(w)
    case VariadicTuple(item) => Common(item)
    case FixedTuple(items) => forall i :: 0 <= i < |items| ==> Common(items[i])
    case ContainerOf(item) => Common(item)
    case _ => false
  }

  /** The old outcome and the new result say the same: success, `TypeError`, unsupported, or `AssertionError`. */
  predicate Corresponds(a: OldOutcome, b: Result)
  {
    (a.LOk? <==> b.Ok?) && (a.LFail? <==> b.Fail?) && (a.LValueError? <==> b.Unsupported?) &&
    (a.LAssertionError? <==> b.AssertFailed?) && !a.LBareTypeError?
  }

  /**
   * On the hints both understand, the old matcher accepts exactly the values
   * the current one accepts, and each raises `TypeError`, or the
   * `AssertionError` of a union value not `==` to itself, exactly when the
   * other does, whatever alias table is in force.
   */
  lemma {:induction false} LegacyAgreesWithCheck(cl: Classes, ctx: Table, fuel: nat, v: Val, t: Ty)
    requires Common(t)
    ensures Corresponds(Legacy(cl, v, t), Check(cl, ctx, fuel, v, t))
    decreases t, 2
  {
    match t
    case Union(_, _) => AgreeUnionHint(cl, ctx, fuel, v, t);
    case Collection(_, _) => AgreeCollectionHint(cl, ctx, fuel, v, t);
    case Mapping(_, _, _) => AgreeMappingHint(cl, ctx, fuel, v, t);
    case VariadicTuple(_) => AgreeVariadicHint(cl, ctx, fuel, v, t);
    case FixedTuple(_) => AgreeFixedHint(cl, ctx, fuel, v, t);
    case ContainerOf(_) => AgreeContainerHint(cl, ctx, fuel, v, t);
    case _ =>
  }

  lemma {:induction false} AgreeUnionHint(cl: Classes, ctx: Table, fuel: nat, v: Val, t: Ty)
    requires t.Union? && Common(t)
    ensures Corresponds(Legacy(cl, v, t), Check(cl, ctx, fuel, v, t))
    decreases t, 1
  {
    if t.members != [] { AgreeUnion(cl, ctx, fuel, v, t, 0, [], []); }
  }

  lemma {:induction false} AgreeCollectionHint(cl: Classes, ctx: Table, fuel: nat, v: Val, t: Ty)
    requires t.Collection? && Common(t)
    ensures Corresponds(Legacy(cl, v, t), Check(cl, ctx, fuel, v, t))
    decreases t, 1
  {
    AgreeItems(cl, ctx, fuel, v, t, Iter(v), 0);
  }

  lemma {:induction false} AgreeMappingHint(cl: Classes, ctx: Table, fuel: nat, v: Val, t: Ty)
    requires t.Mapping? && Common(t)
    ensures Corresponds(Legacy(cl, v, t), Check(cl, ctx, fuel, v, t))
    decreases t, 1
  {
    AgreePairs(cl, ctx, fuel, v, t, Pairs(v), 0);
  }

  lemma {:induction false} AgreeVariadicHint(cl: Classes, ctx: Table, fuel: nat, v: Val, t: Ty)
    requires t.VariadicTuple? && Common(t)
    ensures Corresponds(Legacy(cl, v, t), Check(cl, ctx, fuel, v, t))
    decreases t, 1
  {
    AgreeItems(cl, ctx, fuel, v, t, Iter(v), 0);
  }

  lemma {:induction false} AgreeFixedHint(cl: Classes, ctx: Table, fuel: nat, v: Val, t: Ty)
    requires t.FixedTuple? && Common(t)
    ensures Corresponds(Legacy(cl, v, t), Check(cl, ctx, fuel, v, t))
    decreases t, 1
  {
    if |Iter(v)| == |t.items| { AgreeFixed(cl, ctx, fuel, v, t, Iter(v), 0); }
  }

  lemma {:induction false} AgreeContainerHint(cl: Classes, ctx: Table, fuel: nat, v: Val, t: Ty)
    requires t.ContainerOf? && Common(t)
    ensures Corresponds(Legacy(cl, v, t), Check(cl, ctx, fuel, v, t))
    decreases t, 1
  {
    AgreeItems(cl, ctx, fuel, v, t, Iter(v), 0);
  }

  lemma {:induction false} AgreeItems(cl: Classes, ctx: Table, fuel: nat, v: Val, t: Ty, xs: seq<Val>, i: nat)
    requires ItemHint(t) && Common(t) && i <= |xs|
    ensures Corresponds(LegacyItems(cl, v, t, xs, i), CheckItems(cl, ctx, fuel, v, t, xs, i))
    decreases t, 0, |xs| - i
  {
    if i < |xs| {
      LegacyAgreesWithCheck(cl, ctx, fuel, xs[i], t.item);
      AgreeItems(cl, ctx, fuel, v, t, xs, i + 1);
    }
  }

  lemma {:induction false} AgreePairs(cl: Classes, ctx: Table, fuel: nat, v: Val, t: Ty, ps: seq<(Val, Val)>, i: nat)
    requires t.Mapping? && Common(t) && i <= |ps|
    ensures Corresponds(LegacyPairs(cl, v, t, ps, i), CheckPairs(cl, ctx, fuel, v, t, ps, i))
    decreases t, 0, |ps| - i
  {
    if i < |ps| {
      LegacyAgreesWithCheck(cl, ctx, fuel, ps[i].0, t.key);
      LegacyAgreesWithCheck(cl, ctx, fuel, ps[i].1, t.value);
      AgreePairs(cl, ctx, fuel, v, t, ps, i + 1);
    }
  }

  lemma {:induction false} AgreeFixed(cl: Classes, ctx: Table, fuel: nat, v: Val, t: Ty, xs: seq<Val>, i: nat)
    requires t.FixedTuple? && Common(t) && |xs| == |t.items| && i <= |xs|
    ensures Corresponds(LegacyFixed(cl, v, t, xs, i), CheckFixed(cl, ctx, fuel, v, t, xs, i))
    decreases t, 0, |xs| - i
  {
    if i < |xs| {
      LegacyAgreesWithCheck(cl, ctx, fuel, xs[i], t.items[i]);
      AgreeFixed(cl, ctx, fuel, v, t, xs, i + 1);
    }
  }

  lemma {:induction false} AgreeUnion(cl: Classes, ctx: Table, fuel: nat, v: Val, t: Ty, i: nat, errs: seq<Failure>, errs': seq<Failure>)
    requires t.Union? && Common(t) && i <= |t.members|
    requires |errs| == |errs'| && SameValue(errs, v) && SameValue(errs', v)
    ensures Corresponds(LegacyUnion(cl, v, t, i, errs), CheckUnion(cl, ctx, fuel, v, t, i, errs'))
    decreases t, 0, |t.members| - i
  {
    if i < |t.members| {
      var a := Legacy(cl, v, t.members[i]);
      var b := Check(cl, ctx, fuel, v, t.members[i]);
      LegacyAgreesWithCheck(cl, ctx, fuel, v, t.members[i]);
      if a.LFail? {
        LegacyFailureShape(cl, v, t.members[i]);
        FailureWellFormed(cl, ctx, fuel, v, t.members[i]);
        AgreeUnion(cl, ctx, fuel, v, t, i + 1, errs + Attached(a), errs' + [b.failure]);
      }
    } else {
      SameValueEqual(cl.equals, v, errs);
      SameValueEqual(cl.equals, v, errs');
    }
  }


  /**
   * `validate(float('nan'), Optional[int])`, for any class `C` in place of
   * `int` and any value neither `None`, nor an instance of `C`, nor `==` to
   * itself: both members fail, the union failure would hold their two
   * trees, and its assertion raises `AssertionError` in both matchers; the
   * old slot keeps the failure of the `None` member.
   */
  lemma OptionalNotSelfEqual(cl: Classes, ctx: Table, fuel: nat, v: Val, c: ClassName)
    requires !cl.isInstance(v, c) && v != NoneVal && !cl.equals(v, v)
    ensures Legacy(cl, v, Union([Class(c), NoneTy], false)) == LAssertionError(Some(Failure(v, NoneTy, [], Plain, [])))
    ensures Check(cl, ctx, fuel, v, Union([Class(c), NoneTy], false)) == AssertFailed
  {
    var t := Union([Class(c), NoneTy], false);
    var e0, e1 := Failure(v, Class(c), [], Plain, []), Failure(v, NoneTy, [], Plain, []);
    assert Legacy(cl, v, t.members[0]) == LFail(e0);
    assert Legacy(cl, v, t.members[1]) == LFail(e1);
    assert [] + Attached(LFail(e0)) == [e0] && [e0] + Attached(LFail(e1)) == [e0, e1];
    assert LegacyUnion(cl, v, t, 0, []) == LegacyUnion(cl, v, t, 1, [e0]) == LegacyUnion(cl, v, t, 2, [e0, e1]);
    assert !CausesEqual(cl.equals, v, [e0, e1]) by { assert !cl.equals([e0, e1][0].val, v); }
    assert OldUnionEnd(cl, v, t, [e0, e1]) == LAssertionError(SlotAfter(LFail(e1)));
    assert Legacy(cl, v, t) == LegacyUnion(cl, v, t, 0, []);
    var f0, f1 := Failure(v, Class(c), [], Plain, ctx), Failure(v, NoneTy, [], Plain, ctx);
    assert Check(cl, ctx, fuel, v, t.members[0]) == Fail(f0);
    assert Check(cl, ctx, fuel, v, t.members[1]) == Fail(f1);
    assert [] + [f0] == [f0] && [f0] + [f1] == [f0, f1];
    assert CheckUnion(cl, ctx, fuel, v, t, 0, []) == CheckUnion(cl, ctx, fuel, v, t, 1, [f0]) == CheckUnion(cl, ctx, fuel, v, t, 2, [f0, f1]);
    assert !cl.equals([f0, f1][0].val, v);
    assert Check(cl, ctx, fuel, v, t) == CheckUnion(cl, ctx, fuel, v, t, 0, []);
  }

  // ---------------------------------------------------------------------------
  // The old message
  // ---------------------------------------------------------------------------

  /**
   * For a failure without unions and printers whose output fits on one line,
   * the old message has one line per node, its summary, in pre-order and
   * indented two spaces per level.
   */
  lemma {:induction false} OldRenderingIsLayout(p: Printer, f: Failure)
    requires SingleLine(p) && UnionFree(f) && OldShaped(f)
    ensures Split(OldText(p, f)) == Layout(p, f, "")
    decreases f, 1, 0
  {
    var h := OldHeader(p, f);
    assert Summary(p, f) == h;
    SummarySingleLine(p, f);
    OldCauseTailLines(p, f, 0, h);
    SplitSingle(h);
    assert "" + h == h && "" + "  " == "  ";
  }

  lemma {:induction false} OldCauseTailLines(p: Printer, f: Failure, i: nat, a: string)
    requires SingleLine(p) && UnionFree(f) && OldShaped(f) && i <= |f.causes|
    ensures Split(a + OldCauseTail(p, f, i)) == Split(a) + LayoutFrom(p, f, i, "  ")
    decreases f, 0, |f.causes| - i
  {
    if i == |f.causes| {
      assert a + "" == a;
    } else {
      var c := f.causes[i];
      var x := Indent(OldText(p, c));
      var rest := OldCauseTail(p, f, i + 1);
      assert a + OldCauseTail(p, f, i) == a + "\n" + (x + rest);
      SplitNewline(a, x + rest);
      OldCauseTailLines(p, f, i + 1, x);
      IndentLines(OldText(p, c));
      OldRenderingIsLayout(p, c);
      LayoutShift(p, c, "", "  ");
      assert "  " + "" == "  ";
    }
  }

  /**
   * The old message and the current nested rendering of a failure without
   * unions have the same lines.
   */
  lemma OldAndNestedRenderingAgree(p: Printer, f: Failure)
    requires SingleLine(p) && UnionFree(f) && OldShaped(f)
    ensures Split(OldText(p, f)) == Split(Text(p, f, false))
  {
    OldRenderingIsLayout(p, f);
    NestedRenderingIsLayout(p, f);
  }

  /** The old union message expands only member failures with causes of their own. */
  lemma {:induction false} OldUnionOfLeaves(p: Printer, f: Failure, i: nat)
    requires f.kind.UnionOf? && i <= |f.causes|
    requires forall k :: i <= k < |f.causes| ==> f.causes[k].causes == []
    ensures OldUnionTail(p, f, i) == ""
    decreases |f.causes| - i
  {
    if i < |f.causes| {
      OldUnionOfLeaves(p, f, i + 1);
    }
  }
}
