/**
 * Properties of the matcher `Check`: what each kind of hint accepts and how
 * its failures are shaped, that failure trees always pass the assertion of
 * `ValidationFailure.__new__`, that the recursion depth only matters for
 * aliases, and how alias scopes and `Type[...]` behave.
 */
module ValidationProperties {
  import opened Types
  import opened Aliases
  import opened ValidationFailure
  import opened Validation

  /** `validate` returned or raised a `TypeError`: it neither gave up nor recursed forever. */
  predicate Decided(r: Result)
  {
    r.Ok? || r.Fail?
  }

  /**
   * `validate` returned, or raised a `TypeError` or the `AssertionError` of an
   * error builder: it did not raise `UnsupportedTypeError` or another
   * `ValueError`, and did not recurse forever.
   */
  predicate Answered(r: Result)
  {
    r.Ok? || r.Fail? || r.SubclassCheckRaised? || r.AssertFailed?
  }

  /** `validate` raised a `TypeError`, with or without a failure attached. */
  predicate Rejected(r: Result)
  {
    r.Fail? || r.SubclassCheckRaised?
  }

  // ---------------------------------------------------------------------------
  // Recursion depth
  // ---------------------------------------------------------------------------

  /**
   * A reached outcome does not depend on the recursion depth: with more fuel
   * the matcher gives the same answer.
   */
  lemma {:induction false} FuelMonotone(cl: Classes, ctx: Table, fuel: nat, fuel': nat, v: Val, t: Ty)
    requires fuel <= fuel' && !Check(cl, ctx, fuel, v, t).Diverged?
    ensures Check(cl, ctx, fuel', v, t) == Check(cl, ctx, fuel, v, t)
    decreases fuel, t, 1, 0
  {
    match t
    case TypeVar(_, bound) =>
      if bound.Some? { FuelMonotone(cl, ctx, fuel, fuel', v, bound.value); }
    case Union(ms, _) =>
      if ms != [] { UnionFuel(cl, ctx, fuel, fuel', v, t, 0, []); }
    case Collection(o, _) =>
      if cl.isInstance(v, CollOriginClass(o)) { ItemsFuel(cl, ctx, fuel, fuel', v, t, Iter(v), 0); }
    case VariadicTuple(_) =>
      if cl.isInstance(v, TupleClass) { ItemsFuel(cl, ctx, fuel, fuel', v, t, Iter(v), 0); }
    case ContainerOf(_) =>
      if cl.isInstance(v, ContainerClass) && cl.isInstance(v, CollectionClass) {
        ItemsFuel(cl, ctx, fuel, fuel', v, t, Iter(v), 0);
      }
    case Mapping(o, _, _) =>
      if cl.isInstance(v, MapOriginClass(o)) { PairsFuel(cl, ctx, fuel, fuel', v, t, Pairs(v), 0); }
    case FixedTuple(items) =>
      if cl.isInstance(v, TupleClass) && |Iter(v)| == |items| { FixedFuel(cl, ctx, fuel, fuel', v, t, Iter(v), 0); }
    case TypedDict(_, fields) =>
      if !CheckStrMapping(cl, ctx, v).Fail? && |MissingKeysOf(fields, v)| == 0 {
        FieldsFuel(cl, ctx, fuel, fuel', v, t, 0);
      }
    case Alias(name) =>
      var found := Find(ctx, name);
      if found.Some? && fuel > 0 { FuelMonotone(cl, ctx, fuel - 1, fuel' - 1, v, found.value); }
    case _ =>
  }

  lemma {:induction false} ItemsFuel(cl: Classes, ctx: Table, fuel: nat, fuel': nat, v: Val, t: Ty, xs: seq<Val>, i: nat)
    requires ItemHint(t) && i <= |xs| && fuel <= fuel'
    requires !CheckItems(cl, ctx, fuel, v, t, xs, i).Diverged?
    ensures CheckItems(cl, ctx, fuel', v, t, xs, i) == CheckItems(cl, ctx, fuel, v, t, xs, i)
    decreases fuel, t, 0, |xs| - i
  {
    if i < |xs| {
      FuelMonotone(cl, ctx, fuel, fuel', xs[i], t.item);
      if Check(cl, ctx, fuel, xs[i], t.item).Ok? { ItemsFuel(cl, ctx, fuel, fuel', v, t, xs, i + 1); }
    }
  }

  lemma {:induction false} PairsFuel(cl: Classes, ctx: Table, fuel: nat, fuel': nat, v: Val, t: Ty, ps: seq<(Val, Val)>, i: nat)
    requires t.Mapping? && i <= |ps| && fuel <= fuel'
    requires !CheckPairs(cl, ctx, fuel, v, t, ps, i).Diverged?
    ensures CheckPairs(cl, ctx, fuel', v, t, ps, i) == CheckPairs(cl, ctx, fuel, v, t, ps, i)
    decreases fuel, t, 0, |ps| - i
  {
    if i < |ps| {
      FuelMonotone(cl, ctx, fuel, fuel', ps[i].0, t.key);
      if Check(cl, ctx, fuel, ps[i].0, t.key).Ok? {
        FuelMonotone(cl, ctx, fuel, fuel', ps[i].1, t.value);
        if Check(cl, ctx, fuel, ps[i].1, t.value).Ok? { PairsFuel(cl, ctx, fuel, fuel', v, t, ps, i + 1); }
      }
    }
  }

  lemma {:induction false} FixedFuel(cl: Classes, ctx: Table, fuel: nat, fuel': nat, v: Val, t: Ty, xs: seq<Val>, i: nat)
    requires t.FixedTuple? && |xs| == |t.items| && i <= |xs| && fuel <= fuel'
    requires !CheckFixed(cl, ctx, fuel, v, t, xs, i).Diverged?
    ensures CheckFixed(cl, ctx, fuel', v, t, xs, i) == CheckFixed(cl, ctx, fuel, v, t, xs, i)
    decreases fuel, t, 0, |xs| - i
  {
    if i < |xs| {
      FuelMonotone(cl, ctx, fuel, fuel', xs[i], t.items[i]);
      if Check(cl, ctx, fuel, xs[i], t.items[i]).Ok? { FixedFuel(cl, ctx, fuel, fuel', v, t, xs, i + 1); }
    }
  }

  lemma {:induction false} UnionFuel(cl: Classes, ctx: Table, fuel: nat, fuel': nat, v: Val, t: Ty, i: nat, errs: seq<Failure>)
    requires t.Union? && i <= |t.members| && fuel <= fuel'
    requires !CheckUnion(cl, ctx, fuel, v, t, i, errs).Diverged?
    ensures CheckUnion(cl, ctx, fuel', v, t, i, errs) == CheckUnion(cl, ctx, fuel, v, t, i, errs)
    decreases fuel, t, 0, |t.members| - i
  {
    if i < |t.members| {
      var r := Check(cl, ctx, fuel, v, t.members[i]);
      FuelMonotone(cl, ctx, fuel, fuel', v, t.members[i]);
      if r.Fail? { UnionFuel(cl, ctx, fuel, fuel', v, t, i + 1, errs + [r.failure]); }
      else if r.SubclassCheckRaised? { UnionFuel(cl, ctx, fuel, fuel', v, t, i + 1, errs); }
    }
  }

  lemma {:induction false} FieldsFuel(cl: Classes, ctx: Table, fuel: nat, fuel': nat, v: Val, t: Ty, i: nat)
    requires t.TypedDict? && i <= |t.fields| && fuel <= fuel'
    requires !CheckFields(cl, ctx, fuel, v, t, i).Diverged?
    ensures CheckFields(cl, ctx, fuel', v, t, i) == CheckFields(cl, ctx, fuel, v, t, i)
    decreases fuel, t, 0, |t.fields| - i
  {
    if i < |t.fields| {
      if HasKey(v, t.fields[i].key) {
        var x := Lookup(v, t.fields[i].key).value;
        FuelMonotone(cl, ctx, fuel, fuel', x, t.fields[i].ty);
        if Check(cl, ctx, fuel, x, t.fields[i].ty).Ok? { FieldsFuel(cl, ctx, fuel, fuel', v, t, i + 1); }
      } else {
        FieldsFuel(cl, ctx, fuel, fuel', v, t, i + 1);
      }
    }
  }

  // ---------------------------------------------------------------------------
  // Failure trees
  // ---------------------------------------------------------------------------

  /**
   * A failure raised by `validate(val, t)` is about `val`, and every union
   * failure in its tree has causes about that same value, to which it is
   * `==` in Python's sense: the assertion of `ValidationFailure.__new__`
   * passed at every node (where it fails, `validate` raises `AssertionError`
   * instead of a failure).
   */
  lemma {:induction false} FailureWellFormed(cl: Classes, ctx: Table, fuel: nat, v: Val, t: Ty)
    ensures Check(cl, ctx, fuel, v, t).Fail? ==>
      Check(cl, ctx, fuel, v, t).failure.val == v && WellFormed(cl.equals, Check(cl, ctx, fuel, v, t).failure)
    decreases fuel, t, 1, 0
  {
    match t
    case TypeVar(_, bound) =>
      if bound.Some? { FailureWellFormed(cl, ctx, fuel, v, bound.value); }
    case Union(ms, _) =>
      if ms != [] { UnionWellFormed(cl, ctx, fuel, v, t, 0, []); }
    case Collection(o, _) =>
      if cl.isInstance(v, CollOriginClass(o)) { ItemsWellFormed(cl, ctx, fuel, v, t, Iter(v), 0); }
    case VariadicTuple(_) =>
      if cl.isInstance(v, TupleClass) { ItemsWellFormed(cl, ctx, fuel, v, t, Iter(v), 0); }
    case ContainerOf(_) =>
      if cl.isInstance(v, ContainerClass) && cl.isInstance(v, CollectionClass) {
        ItemsWellFormed(cl, ctx, fuel, v, t, Iter(v), 0);
      }
    case Mapping(o, _, _) =>
      if cl.isInstance(v, MapOriginClass(o)) { PairsWellFormed(cl, ctx, fuel, v, t, Pairs(v), 0); }
    case FixedTuple(items) =>
      if cl.isInstance(v, TupleClass) && |Iter(v)| == |items| { FixedWellFormed(cl, ctx, fuel, v, t, Iter(v), 0); }
    case TypedDict(_, fields) =>
      StrMappingWellFormed(cl, ctx, v);
      if !CheckStrMapping(cl, ctx, v).Fail? && |MissingKeysOf(fields, v)| == 0 {
        FieldsWellFormed(cl, ctx, fuel, v, t, 0);
      }
    case Alias(name) =>
      var found := Find(ctx, name);
      if found.Some? && fuel > 0 {
        FailureWellFormed(cl, ctx, fuel - 1, v, found.value);
        var r := Check(cl, ctx, fuel - 1, v, found.value);
        if r.Fail? { assert AliasErr(name, r.failure).causes == r.failure.causes; }
      }
    case SubclassOf(args) =>
      if cl.isInstance(v, TypeClass) && |args| == 1 && MemberTypes(args[0]).Some? {
        SubclassCheckOrder(cl, v, args[0], MemberTypes(args[0]).value, 0);
      }
    case _ =>
  }

  lemma {:induction false} ItemsWellFormed(cl: Classes, ctx: Table, fuel: nat, v: Val, t: Ty, xs: seq<Val>, i: nat)
    requires ItemHint(t) && i <= |xs|
    ensures CheckItems(cl, ctx, fuel, v, t, xs, i).Fail? ==>
      CheckItems(cl, ctx, fuel, v, t, xs, i).failure.val == v && WellFormed(cl.equals, CheckItems(cl, ctx, fuel, v, t, xs, i).failure)
    decreases fuel, t, 0, |xs| - i
  {
    if i < |xs| {
      FailureWellFormed(cl, ctx, fuel, xs[i], t.item);
      if Check(cl, ctx, fuel, xs[i], t.item).Ok? { ItemsWellFormed(cl, ctx, fuel, v, t, xs, i + 1); }
    }
  }

  lemma {:induction false} PairsWellFormed(cl: Classes, ctx: Table, fuel: nat, v: Val, t: Ty, ps: seq<(Val, Val)>, i: nat)
    requires t.Mapping? && i <= |ps|
    ensures CheckPairs(cl, ctx, fuel, v, t, ps, i).Fail? ==>
      CheckPairs(cl, ctx, fuel, v, t, ps, i).failure.val == v && WellFormed(cl.equals, CheckPairs(cl, ctx, fuel, v, t, ps, i).failure)
    decreases fuel, t, 0, |ps| - i
  {
    if i < |ps| {
      FailureWellFormed(cl, ctx, fuel, ps[i].0, t.key);
      FailureWellFormed(cl, ctx, fuel, ps[i].1, t.value);
      PairsWellFormed(cl, ctx, fuel, v, t, ps, i + 1);
    }
  }

  lemma {:induction false} FixedWellFormed(cl: Classes, ctx: Table, fuel: nat, v: Val, t: Ty, xs: seq<Val>, i: nat)
    requires t.FixedTuple? && |xs| == |t.items| && i <= |xs|
    ensures CheckFixed(cl, ctx, fuel, v, t, xs, i).Fail? ==>
      CheckFixed(cl, ctx, fuel, v, t, xs, i).failure.val == v && WellFormed(cl.equals, CheckFixed(cl, ctx, fuel, v, t, xs, i).failure)
    decreases fuel, t, 0, |xs| - i
  {
    if i < |xs| {
      FailureWellFormed(cl, ctx, fuel, xs[i], t.items[i]);
      if Check(cl, ctx, fuel, xs[i], t.items[i]).Ok? { FixedWellFormed(cl, ctx, fuel, v, t, xs, i + 1); }
    }
  }

  lemma {:induction false} UnionWellFormed(cl: Classes, ctx: Table, fuel: nat, v: Val, t: Ty, i: nat, errs: seq<Failure>)
    requires t.Union? && i <= |t.members|
    requires forall k :: 0 <= k < |errs| ==> errs[k].val == v && WellFormed(cl.equals, errs[k])
    ensures CheckUnion(cl, ctx, fuel, v, t, i, errs).Fail? ==>
      CheckUnion(cl, ctx, fuel, v, t, i, errs).failure.val == v && WellFormed(cl.equals, CheckUnion(cl, ctx, fuel, v, t, i, errs).failure)
    decreases fuel, t, 0, |t.members| - i
  {
    if i < |t.members| {
      var r := Check(cl, ctx, fuel, v, t.members[i]);
      FailureWellFormed(cl, ctx, fuel, v, t.members[i]);
      if r.Fail? { UnionWellFormed(cl, ctx, fuel, v, t, i + 1, errs + [r.failure]); }
      else if r.SubclassCheckRaised? { UnionWellFormed(cl, ctx, fuel, v, t, i + 1, errs); }
    }
  }

  lemma {:induction false} FieldsWellFormed(cl: Classes, ctx: Table, fuel: nat, v: Val, t: Ty, i: nat)
    requires t.TypedDict? && i <= |t.fields|
    ensures CheckFields(cl, ctx, fuel, v, t, i).Fail? ==>
      CheckFields(cl, ctx, fuel, v, t, i).failure.val == v && WellFormed(cl.equals, CheckFields(cl, ctx, fuel, v, t, i).failure)
    decreases fuel, t, 0, |t.fields| - i
  {
    if i < |t.fields| {
      if HasKey(v, t.fields[i].key) {
        FailureWellFormed(cl, ctx, fuel, Lookup(v, t.fields[i].key).value, t.fields[i].ty);
      }
      FieldsWellFormed(cl, ctx, fuel, v, t, i + 1);
    }
  }

  lemma {:induction false} StrMappingWellFormed(cl: Classes, ctx: Table, v: Val)
    ensures CheckStrMapping(cl, ctx, v).Fail? ==>
      CheckStrMapping(cl, ctx, v).failure.val == v && WellFormed(cl.equals, CheckStrMapping(cl, ctx, v).failure)
  {
    if cl.isInstance(v, MappingClass) { StrKeysWellFormed(cl, ctx, v, Pairs(v), 0); }
  }

  lemma {:induction false} StrKeysWellFormed(cl: Classes, ctx: Table, v: Val, ps: seq<(Val, Val)>, i: nat)
    requires i <= |ps|
    ensures CheckStrKeys(cl, ctx, v, ps, i).Fail? ==>
      CheckStrKeys(cl, ctx, v, ps, i).failure.val == v && WellFormed(cl.equals, CheckStrKeys(cl, ctx, v, ps, i).failure)
    decreases |ps| - i
  {
    if i < |ps| { StrKeysWellFormed(cl, ctx, v, ps, i + 1); }
  }

  // ---------------------------------------------------------------------------
  // What each kind of hint accepts
  // ---------------------------------------------------------------------------

  /**
   * Items are checked in iteration order and the first item that is not
   * accepted decides: its failure is reported at its position, a `TypeError`
   * without a failure trips the assertion of `_idx_type_error`, and any other
   * error propagates.
   */
  lemma {:induction false} ItemsOutcome(cl: Classes, ctx: Table, fuel: nat, v: Val, t: Ty, xs: seq<Val>, i: nat)
    requires ItemHint(t) && i <= |xs|
    ensures (forall k :: i <= k < |xs| ==> Check(cl, ctx, fuel, xs[k], t.item).Ok?) ==>
      CheckItems(cl, ctx, fuel, v, t, xs, i) == Ok
    ensures forall k :: i <= k < |xs| && (forall j :: i <= j < k ==> Check(cl, ctx, fuel, xs[j], t.item).Ok?)
                        && !Check(cl, ctx, fuel, xs[k], t.item).Ok? ==>
      CheckItems(cl, ctx, fuel, v, t, xs, i) ==
        if Check(cl, ctx, fuel, xs[k], t.item).Fail?
        then Fail(IdxErr(v, t, Check(cl, ctx, fuel, xs[k], t.item).failure, k, OrderedHint(t)))
        else if Check(cl, ctx, fuel, xs[k], t.item).SubclassCheckRaised? then AssertFailed
        else Check(cl, ctx, fuel, xs[k], t.item)
  {
    if forall k :: i <= k < |xs| ==> Check(cl, ctx, fuel, xs[k], t.item).Ok? {
      ItemsUpTo(cl, ctx, fuel, v, t, xs, i, |xs|);
    }
    forall k | i <= k < |xs| && (forall j :: i <= j < k ==> Check(cl, ctx, fuel, xs[j], t.item).Ok?)
               && !Check(cl, ctx, fuel, xs[k], t.item).Ok?
      ensures CheckItems(cl, ctx, fuel, v, t, xs, i) == CheckItems(cl, ctx, fuel, v, t, xs, k)
    {
      ItemsUpTo(cl, ctx, fuel, v, t, xs, i, k);
    }
  }

  /** Accepted items let the check go on past them. */
  lemma {:induction false} ItemsUpTo(cl: Classes, ctx: Table, fuel: nat, v: Val, t: Ty, xs: seq<Val>, i: nat, k: nat)
    requires ItemHint(t) && i <= k <= |xs|
    requires forall j :: i <= j < k ==> Check(cl, ctx, fuel, xs[j], t.item).Ok?
    ensures CheckItems(cl, ctx, fuel, v, t, xs, i) == CheckItems(cl, ctx, fuel, v, t, xs, k)
    decreases k - i
  {
    if i < k {
      assert Check(cl, ctx, fuel, xs[i], t.item).Ok?;
      ItemsUpTo(cl, ctx, fuel, v, t, xs, i + 1, k);
    }
  }

  /**
   * `list[T]`, `Sequence[T]`, `set[T]`, ...: a value that is not an instance
   * of the origin fails on the origin before any item is looked at; otherwise
   * the first item that fails is reported at its index, the index being
   * meaningful exactly for the ordered origins.
   */
  lemma CollectionOutcome(cl: Classes, ctx: Table, fuel: nat, v: Val, o: CollOrigin, item: Ty)
    ensures !cl.isInstance(v, CollOriginClass(o)) ==>
      Check(cl, ctx, fuel, v, Collection(o, item)) == Fail(TypeErr(ctx, v, Class(CollOriginClass(o)), []))
    ensures cl.isInstance(v, CollOriginClass(o)) && (forall k :: 0 <= k < |Iter(v)| ==> Check(cl, ctx, fuel, Iter(v)[k], item).Ok?) ==>
      Check(cl, ctx, fuel, v, Collection(o, item)) == Ok
    ensures forall k :: cl.isInstance(v, CollOriginClass(o)) && 0 <= k < |Iter(v)|
                        && (forall j :: 0 <= j < k ==> Check(cl, ctx, fuel, Iter(v)[j], item).Ok?)
                        && Check(cl, ctx, fuel, Iter(v)[k], item).Fail? ==>
      Check(cl, ctx, fuel, v, Collection(o, item)) ==
        Fail(IdxErr(v, Collection(o, item), Check(cl, ctx, fuel, Iter(v)[k], item).failure, k, Ordered(o)))
  {
    if cl.isInstance(v, CollOriginClass(o)) {
      assert Check(cl, ctx, fuel, v, Collection(o, item)) == CheckItems(cl, ctx, fuel, v, Collection(o, item), Iter(v), 0);
      ItemsOutcome(cl, ctx, fuel, v, Collection(o, item), Iter(v), 0);
    }
  }

  /** `tuple[T, ...]`: as a collection whose origin is `tuple`, always ordered. */
  lemma VariadicTupleOutcome(cl: Classes, ctx: Table, fuel: nat, v: Val, item: Ty)
    ensures !cl.isInstance(v, TupleClass) ==>
      Check(cl, ctx, fuel, v, VariadicTuple(item)) == Fail(TypeErr(ctx, v, Class(TupleClass), []))
    ensures cl.isInstance(v, TupleClass) && (forall k :: 0 <= k < |Iter(v)| ==> Check(cl, ctx, fuel, Iter(v)[k], item).Ok?) ==>
      Check(cl, ctx, fuel, v, VariadicTuple(item)) == Ok
    ensures forall k :: cl.isInstance(v, TupleClass) && 0 <= k < |Iter(v)|
                        && (forall j :: 0 <= j < k ==> Check(cl, ctx, fuel, Iter(v)[j], item).Ok?)
                        && Check(cl, ctx, fuel, Iter(v)[k], item).Fail? ==>
      Check(cl, ctx, fuel, v, VariadicTuple(item)) ==
        Fail(IdxErr(v, VariadicTuple(item), Check(cl, ctx, fuel, Iter(v)[k], item).failure, k, true))
  {
    if cl.isInstance(v, TupleClass) {
      assert Check(cl, ctx, fuel, v, VariadicTuple(item)) == CheckItems(cl, ctx, fuel, v, VariadicTuple(item), Iter(v), 0);
      ItemsOutcome(cl, ctx, fuel, v, VariadicTuple(item), Iter(v), 0);
    }
  }

  /**
   * `Container[T]`: a container that is also a collection is checked item by
   * item, unordered; any other container cannot be validated.
   */
  lemma ContainerOutcome(cl: Classes, ctx: Table, fuel: nat, v: Val, item: Ty)
    ensures !cl.isInstance(v, ContainerClass) ==>
      Check(cl, ctx, fuel, v, ContainerOf(item)) == Fail(TypeErr(ctx, v, Class(ContainerClass), []))
    ensures cl.isInstance(v, ContainerClass) && !cl.isInstance(v, CollectionClass) ==>
      Check(cl, ctx, fuel, v, ContainerOf(item)).Unsupported?
    ensures cl.isInstance(v, ContainerClass) && cl.isInstance(v, CollectionClass)
            && (forall k :: 0 <= k < |Iter(v)| ==> Check(cl, ctx, fuel, Iter(v)[k], item).Ok?) ==>
      Check(cl, ctx, fuel, v, ContainerOf(item)) == Ok
    ensures forall k :: cl.isInstance(v, ContainerClass) && cl.isInstance(v, CollectionClass) && 0 <= k < |Iter(v)|
                        && (forall j :: 0 <= j < k ==> Check(cl, ctx, fuel, Iter(v)[j], item).Ok?)
                        && Check(cl, ctx, fuel, Iter(v)[k], item).Fail? ==>
      Check(cl, ctx, fuel, v, ContainerOf(item)) ==
        Fail(IdxErr(v, ContainerOf(item), Check(cl, ctx, fuel, Iter(v)[k], item).failure, k, false))
  {
    if cl.isInstance(v, ContainerClass) && cl.isInstance(v, CollectionClass) {
      assert Check(cl, ctx, fuel, v, ContainerOf(item)) == CheckItems(cl, ctx, fuel, v, ContainerOf(item), Iter(v), 0);
      ItemsOutcome(cl, ctx, fuel, v, ContainerOf(item), Iter(v), 0);
    }
  }

  lemma {:induction false} FixedOutcome(cl: Classes, ctx: Table, fuel: nat, v: Val, t: Ty, xs: seq<Val>, i: nat)
    requires t.FixedTuple? && |xs| == |t.items| && i <= |xs|
    ensures (forall k :: i <= k < |xs| ==> Check(cl, ctx, fuel, xs[k], t.items[k]).Ok?) ==>
      CheckFixed(cl, ctx, fuel, v, t, xs, i) == Ok
    ensures forall k :: i <= k < |xs| && (forall j :: i <= j < k ==> Check(cl, ctx, fuel, xs[j], t.items[j]).Ok?)
                        && Check(cl, ctx, fuel, xs[k], t.items[k]).Fail? ==>
      CheckFixed(cl, ctx, fuel, v, t, xs, i) == Fail(IdxErr(v, t, Check(cl, ctx, fuel, xs[k], t.items[k]).failure, k, true))
    decreases |xs| - i
  {
    if i < |xs| { FixedOutcome(cl, ctx, fuel, v, t, xs, i + 1); }
  }

  /**
   * `tuple[T1, ..., Tn]`: a tuple of the wrong length gives a plain failure
   * with no causes; otherwise item `k` is checked against `Tk` and the first
   * failing item is reported at its index.
   */
  lemma FixedTupleOutcome(cl: Classes, ctx: Table, fuel: nat, v: Val, items: seq<Ty>)
    ensures !cl.isInstance(v, TupleClass) ==>
      Check(cl, ctx, fuel, v, FixedTuple(items)) == Fail(TypeErr(ctx, v, Class(TupleClass), []))
    ensures cl.isInstance(v, TupleClass) && |Iter(v)| != |items| ==>
      Check(cl, ctx, fuel, v, FixedTuple(items)) == Fail(Failure(v, FixedTuple(items), [], Plain, ctx))
    ensures cl.isInstance(v, TupleClass) && |Iter(v)| == |items|
            && (forall k :: 0 <= k < |items| ==> Check(cl, ctx, fuel, Iter(v)[k], items[k]).Ok?) ==>
      Check(cl, ctx, fuel, v, FixedTuple(items)) == Ok
    ensures forall k :: cl.isInstance(v, TupleClass) && |Iter(v)| == |items| && 0 <= k < |items|
                        && (forall j :: 0 <= j < k ==> Check(cl, ctx, fuel, Iter(v)[j], items[j]).Ok?)
                        && Check(cl, ctx, fuel, Iter(v)[k], items[k]).Fail? ==>
      Check(cl, ctx, fuel, v, FixedTuple(items)) ==
        Fail(IdxErr(v, FixedTuple(items), Check(cl, ctx, fuel, Iter(v)[k], items[k]).failure, k, true))
  {
    if |Iter(v)| == |items| { FixedOutcome(cl, ctx, fuel, v, FixedTuple(items), Iter(v), 0); }
  }

  /** Both halves of a pair are accepted. */
  predicate PairOk(cl: Classes, ctx: Table, fuel: nat, t: Ty, p: (Val, Val))
    requires t.Mapping?
  {
    Check(cl, ctx, fuel, p.0, t.key).Ok? && Check(cl, ctx, fuel, p.1, t.value).Ok?
  }

  lemma {:induction false} PairsOutcome(cl: Classes, ctx: Table, fuel: nat, v: Val, t: Ty, ps: seq<(Val, Val)>, i: nat)
    requires t.Mapping? && i <= |ps|
    ensures (forall k :: i <= k < |ps| ==> PairOk(cl, ctx, fuel, t, ps[k])) ==> CheckPairs(cl, ctx, fuel, v, t, ps, i) == Ok
    ensures forall k :: i <= k < |ps| && (forall j :: i <= j < k ==> PairOk(cl, ctx, fuel, t, ps[j]))
                        && Check(cl, ctx, fuel, ps[k].0, t.key).Fail? ==>
      CheckPairs(cl, ctx, fuel, v, t, ps, i) == Fail(TypeErr(ctx, v, t, [Check(cl, ctx, fuel, ps[k].0, t.key).failure]))
    ensures forall k :: i <= k < |ps| && (forall j :: i <= j < k ==> PairOk(cl, ctx, fuel, t, ps[j]))
                        && Check(cl, ctx, fuel, ps[k].0, t.key).SubclassCheckRaised? ==>
      CheckPairs(cl, ctx, fuel, v, t, ps, i) == Fail(TypeErr(ctx, v, t, []))
    ensures forall k :: i <= k < |ps| && (forall j :: i <= j < k ==> PairOk(cl, ctx, fuel, t, ps[j]))
                        && Check(cl, ctx, fuel, ps[k].0, t.key).Ok? && Check(cl, ctx, fuel, ps[k].1, t.value).Fail? ==>
      CheckPairs(cl, ctx, fuel, v, t, ps, i) == Fail(KeyErr(v, t, Check(cl, ctx, fuel, ps[k].1, t.value).failure, ps[k].0))
  {
    if forall k :: i <= k < |ps| ==> PairOk(cl, ctx, fuel, t, ps[k]) {
      PairsUpTo(cl, ctx, fuel, v, t, ps, i, |ps|);
    }
    forall k | i <= k < |ps| && (forall j :: i <= j < k ==> PairOk(cl, ctx, fuel, t, ps[j])) && !PairOk(cl, ctx, fuel, t, ps[k])
      ensures CheckPairs(cl, ctx, fuel, v, t, ps, i) == CheckPairs(cl, ctx, fuel, v, t, ps, k)
      ensures PairDecides(cl, ctx, fuel, v, t, ps, k)
    {
      PairsUpTo(cl, ctx, fuel, v, t, ps, i, k);
      PairsAt(cl, ctx, fuel, v, t, ps, k);
    }
  }

  /** What the check of the pairs from `k` on gives when pair `k` is not accepted. */
  predicate PairDecides(cl: Classes, ctx: Table, fuel: nat, v: Val, t: Ty, ps: seq<(Val, Val)>, k: nat)
    requires t.Mapping? && k < |ps|
  {
    var rk, rv := Check(cl, ctx, fuel, ps[k].0, t.key), Check(cl, ctx, fuel, ps[k].1, t.value);
    (rk.Fail? ==> CheckPairs(cl, ctx, fuel, v, t, ps, k) == Fail(TypeErr(ctx, v, t, [rk.failure])))
    && (rk.SubclassCheckRaised? ==> CheckPairs(cl, ctx, fuel, v, t, ps, k) == Fail(TypeErr(ctx, v, t, [])))
    && (rk.Ok? && rv.Fail? ==> CheckPairs(cl, ctx, fuel, v, t, ps, k) == Fail(KeyErr(v, t, rv.failure, ps[k].0)))
  }

  lemma PairsAt(cl: Classes, ctx: Table, fuel: nat, v: Val, t: Ty, ps: seq<(Val, Val)>, k: nat)
    requires t.Mapping? && k < |ps|
    ensures PairDecides(cl, ctx, fuel, v, t, ps, k)
  {
  }

  /** Pairs whose two halves are accepted let the check go on past them. */
  lemma {:induction false} PairsUpTo(cl: Classes, ctx: Table, fuel: nat, v: Val, t: Ty, ps: seq<(Val, Val)>, i: nat, k: nat)
    requires t.Mapping? && i <= k <= |ps|
    requires forall j :: i <= j < k ==> PairOk(cl, ctx, fuel, t, ps[j])
    ensures CheckPairs(cl, ctx, fuel, v, t, ps, i) == CheckPairs(cl, ctx, fuel, v, t, ps, k)
    decreases k - i
  {
    if i < k {
      assert PairOk(cl, ctx, fuel, t, ps[i]);
      PairsUpTo(cl, ctx, fuel, v, t, ps, i + 1, k);
    }
  }

  /**
   * Mappings: pairs are checked in iteration order, key before value, up to
   * the first failing pair. A key failure is a plain failure of the mapping
   * with the key failure as its only cause, or with no cause when the key's
   * `TypeError` carries no failure; a value failure is reported at its key.
   */
  lemma MappingOutcome(cl: Classes, ctx: Table, fuel: nat, v: Val, t: Ty)
    requires t.Mapping?
    ensures !cl.isInstance(v, MapOriginClass(t.morigin)) ==>
      Check(cl, ctx, fuel, v, t) == Fail(TypeErr(ctx, v, Class(MapOriginClass(t.morigin)), []))
    ensures cl.isInstance(v, MapOriginClass(t.morigin)) ==>
      ((forall k :: 0 <= k < |Pairs(v)| ==> PairOk(cl, ctx, fuel, t, Pairs(v)[k])) ==> Check(cl, ctx, fuel, v, t) == Ok) &&
      (forall k :: 0 <= k < |Pairs(v)| && (forall j :: 0 <= j < k ==> PairOk(cl, ctx, fuel, t, Pairs(v)[j]))
                   && Check(cl, ctx, fuel, Pairs(v)[k].0, t.key).Fail? ==>
         Check(cl, ctx, fuel, v, t) == Fail(Failure(v, t, [Check(cl, ctx, fuel, Pairs(v)[k].0, t.key).failure], Plain, ctx))) &&
      (forall k :: 0 <= k < |Pairs(v)| && (forall j :: 0 <= j < k ==> PairOk(cl, ctx, fuel, t, Pairs(v)[j]))
                   && Check(cl, ctx, fuel, Pairs(v)[k].0, t.key).SubclassCheckRaised? ==>
         Check(cl, ctx, fuel, v, t) == Fail(Failure(v, t, [], Plain, ctx))) &&
      (forall k :: 0 <= k < |Pairs(v)| && (forall j :: 0 <= j < k ==> PairOk(cl, ctx, fuel, t, Pairs(v)[j]))
                   && Check(cl, ctx, fuel, Pairs(v)[k].0, t.key).Ok? && Check(cl, ctx, fuel, Pairs(v)[k].1, t.value).Fail? ==>
         Check(cl, ctx, fuel, v, t) == Fail(Failure(v, t, [Check(cl, ctx, fuel, Pairs(v)[k].1, t.value).failure], AtKey(Pairs(v)[k].0), [])))
  {
    if cl.isInstance(v, MapOriginClass(t.morigin)) {
      assert Check(cl, ctx, fuel, v, t) == CheckPairs(cl, ctx, fuel, v, t, Pairs(v), 0);
      PairsOutcome(cl, ctx, fuel, v, t, Pairs(v), 0);
    }
  }

  /**
   * The failures of the members of `ms` that reject `v` with a failure, in
   * member order: a `TypeError` without a failure leaves no cause.
   */
  function MemberFailures(cl: Classes, ctx: Table, fuel: nat, v: Val, ms: seq<Ty>): seq<Failure>
  {
    if ms == [] then []
    else
      var r := Check(cl, ctx, fuel, v, ms[|ms| - 1]);
      MemberFailures(cl, ctx, fuel, v, ms[..|ms| - 1]) + (if r.Fail? then [r.failure] else [])
  }

  /** When every member fails with a failure, the causes are all of them, in member order. */
  lemma {:induction false} MemberFailuresAllFail(cl: Classes, ctx: Table, fuel: nat, v: Val, ms: seq<Ty>)
    requires forall j :: 0 <= j < |ms| ==> Check(cl, ctx, fuel, v, ms[j]).Fail?
    ensures |MemberFailures(cl, ctx, fuel, v, ms)| == |ms|
    ensures forall j :: 0 <= j < |ms| ==> MemberFailures(cl, ctx, fuel, v, ms)[j] == Check(cl, ctx, fuel, v, ms[j]).failure
  {
    if ms != [] {
      var init := ms[..|ms| - 1];
      assert forall j :: 0 <= j < |init| ==> init[j] == ms[j];
      MemberFailuresAllFail(cl, ctx, fuel, v, init);
    }
  }

  lemma MemberFailuresSnoc(cl: Classes, ctx: Table, fuel: nat, v: Val, ms: seq<Ty>, i: nat)
    requires i < |ms|
    ensures MemberFailures(cl, ctx, fuel, v, ms[..i + 1]) == MemberFailures(cl, ctx, fuel, v, ms[..i]) +
      (if Check(cl, ctx, fuel, v, ms[i]).Fail? then [Check(cl, ctx, fuel, v, ms[i]).failure] else [])
  {
    var next := ms[..i + 1];
    assert next[..|next| - 1] == ms[..i] && next[|next| - 1] == ms[i];
  }

  lemma {:induction false} UnionTailFirst(cl: Classes, ctx: Table, fuel: nat, v: Val, t: Ty, i: nat, errs: seq<Failure>)
    requires t.Union? && i <= |t.members|
    ensures forall k :: i <= k < |t.members| && (forall j :: i <= j < k ==> Rejected(Check(cl, ctx, fuel, v, t.members[j])))
                        && !Rejected(Check(cl, ctx, fuel, v, t.members[k])) ==>
      CheckUnion(cl, ctx, fuel, v, t, i, errs) == Check(cl, ctx, fuel, v, t.members[k])
    decreases |t.members| - i
  {
    if i < |t.members| {
      var r := Check(cl, ctx, fuel, v, t.members[i]);
      if r.Fail? {
        UnionTailFirst(cl, ctx, fuel, v, t, i + 1, errs + [r.failure]);
      } else if r.SubclassCheckRaised? {
        UnionTailFirst(cl, ctx, fuel, v, t, i + 1, errs);
      }
    }
  }

  lemma {:induction false} UnionTailAll(cl: Classes, ctx: Table, fuel: nat, v: Val, t: Ty, i: nat, errs: seq<Failure>)
    requires t.Union? && i <= |t.members|
    requires errs == MemberFailures(cl, ctx, fuel, v, t.members[..i])
    requires forall j :: i <= j < |t.members| ==> Rejected(Check(cl, ctx, fuel, v, t.members[j]))
    ensures var fs := MemberFailures(cl, ctx, fuel, v, t.members);
            CheckUnion(cl, ctx, fuel, v, t, i, errs) == if CausesEqual(cl.equals, v, fs) then Fail(UnionErr(ctx, v, t, fs)) else AssertFailed
    decreases |t.members| - i
  {
    if i < |t.members| {
      var r := Check(cl, ctx, fuel, v, t.members[i]);
      MemberFailuresSnoc(cl, ctx, fuel, v, t.members, i);
      if r.Fail? {
        UnionTailAll(cl, ctx, fuel, v, t, i + 1, errs + [r.failure]);
      } else {
        UnionTailAll(cl, ctx, fuel, v, t, i + 1, errs);
      }
    } else {
      assert t.members[..i] == t.members;
    }
  }

  /** The failures of the members are all about the value itself. */
  lemma {:induction false} MemberFailuresAbout(cl: Classes, ctx: Table, fuel: nat, v: Val, ms: seq<Ty>)
    ensures SameValue(MemberFailures(cl, ctx, fuel, v, ms), v)
  {
    if ms != [] {
      FailureWellFormed(cl, ctx, fuel, v, ms[|ms| - 1]);
      MemberFailuresAbout(cl, ctx, fuel, v, ms[..|ms| - 1]);
    }
  }

  /**
   * Unions: the members are tried in declared order and the first member that
   * does not raise a `TypeError` decides; an empty union accepts everything;
   * when every member raises one, the union failure holds the failures of the
   * members in member order, without the `TypeError`s that carry none,
   * provided the value is `==` to itself: otherwise, as soon as one failure
   * is kept, the assertion of `ValidationFailure.__new__` raises.
   */
  lemma UnionOutcome(cl: Classes, ctx: Table, fuel: nat, v: Val, ms: seq<Ty>, pep604: bool)
    ensures ms == [] ==> Check(cl, ctx, fuel, v, Union(ms, pep604)) == Ok
    ensures forall k :: 0 <= k < |ms| && (forall j :: 0 <= j < k ==> Rejected(Check(cl, ctx, fuel, v, ms[j])))
                        && !Rejected(Check(cl, ctx, fuel, v, ms[k])) ==>
      Check(cl, ctx, fuel, v, Union(ms, pep604)) == Check(cl, ctx, fuel, v, ms[k])
    ensures ms != [] && (forall j :: 0 <= j < |ms| ==> Rejected(Check(cl, ctx, fuel, v, ms[j]))) ==>
      var fs := MemberFailures(cl, ctx, fuel, v, ms);
      Check(cl, ctx, fuel, v, Union(ms, pep604)) ==
        if fs == [] || cl.equals(v, v) then Fail(Failure(v, Union(ms, pep604), fs, UnionOf, ctx)) else AssertFailed
    ensures ms != [] && (forall j :: 0 <= j < |ms| ==> Check(cl, ctx, fuel, v, ms[j]).Fail?) ==>
      var r := Check(cl, ctx, fuel, v, Union(ms, pep604));
      if !cl.equals(v, v) then r == AssertFailed
      else r.Fail? && |r.failure.causes| == |ms| &&
           forall j :: 0 <= j < |ms| ==> r.failure.causes[j] == Check(cl, ctx, fuel, v, ms[j]).failure
  {
    if ms != [] {
      var t := Union(ms, pep604);
      assert Check(cl, ctx, fuel, v, t) == CheckUnion(cl, ctx, fuel, v, t, 0, []);
      UnionTailFirst(cl, ctx, fuel, v, t, 0, []);
      MemberFailuresAbout(cl, ctx, fuel, v, ms);
      SameValueEqual(cl.equals, v, MemberFailures(cl, ctx, fuel, v, ms));
      if forall j :: 0 <= j < |ms| ==> Rejected(Check(cl, ctx, fuel, v, ms[j])) {
        assert ms[..0] == [];
        UnionTailAll(cl, ctx, fuel, v, t, 0, []);
      }
      if forall j :: 0 <= j < |ms| ==> Check(cl, ctx, fuel, v, ms[j]).Fail? {
        MemberFailuresAllFail(cl, ctx, fuel, v, ms);
      }
    }
  }

  // ---------------------------------------------------------------------------
  // TypedDict
  // ---------------------------------------------------------------------------

  lemma {:induction false} StrKeysAgree(cl: Classes, ctx: Table, fuel: nat, v: Val, ps: seq<(Val, Val)>, i: nat)
    requires i <= |ps|
    ensures CheckStrKeys(cl, ctx, v, ps, i) == CheckPairs(cl, ctx, fuel, v, StrMappingTy, ps, i)
    ensures CheckStrKeys(cl, ctx, v, ps, i).Ok? <==> forall j :: i <= j < |ps| ==> cl.isInstance(ps[j].0, StrClass)
    ensures Decided(CheckStrKeys(cl, ctx, v, ps, i))
    decreases |ps| - i
  {
    if i < |ps| { StrKeysAgree(cl, ctx, fuel, v, ps, i + 1); }
  }

  /**
   * The first step of `_validate_typed_dict` is `validate(val, Mapping[str, Any])`:
   * the shortcut used for it agrees with the matcher on that hint, and it
   * accepts exactly the mappings whose keys are all strings.
   */
  lemma StrMappingAgrees(cl: Classes, ctx: Table, fuel: nat, v: Val)
    ensures CheckStrMapping(cl, ctx, v) == Check(cl, ctx, fuel, v, StrMappingTy)
    ensures CheckStrMapping(cl, ctx, v).Ok? <==>
      cl.isInstance(v, MappingClass) && forall j :: 0 <= j < |Pairs(v)| ==> cl.isInstance(Pairs(v)[j].0, StrClass)
    ensures Decided(CheckStrMapping(cl, ctx, v))
  {
    StrKeysAgree(cl, ctx, fuel, v, Pairs(v), 0);
  }

  /** An annotated key that, if present, holds a value of its annotated type. */
  predicate FieldOk(cl: Classes, ctx: Table, fuel: nat, v: Val, f: Field)
  {
    HasKey(v, f.key) ==> Check(cl, ctx, fuel, Lookup(v, f.key).value, f.ty).Ok?
  }

  /** An annotated key that is present and holds a value the matcher rejects. */
  predicate FieldFails(cl: Classes, ctx: Table, fuel: nat, v: Val, f: Field)
  {
    HasKey(v, f.key) && Check(cl, ctx, fuel, Lookup(v, f.key).value, f.ty).Fail?
  }

  lemma {:induction false} FieldsOutcome(cl: Classes, ctx: Table, fuel: nat, v: Val, t: Ty, i: nat)
    requires t.TypedDict? && i <= |t.fields|
    ensures (forall k :: i <= k < |t.fields| ==> FieldOk(cl, ctx, fuel, v, t.fields[k])) ==>
      CheckFields(cl, ctx, fuel, v, t, i) == Ok
    ensures forall k :: i <= k < |t.fields| && (forall j :: i <= j < k ==> FieldOk(cl, ctx, fuel, v, t.fields[j]))
                        && FieldFails(cl, ctx, fuel, v, t.fields[k]) ==>
      CheckFields(cl, ctx, fuel, v, t, i) ==
        Fail(KeyErr(v, t, Check(cl, ctx, fuel, Lookup(v, t.fields[k].key).value, t.fields[k].ty).failure, Str(t.fields[k].key)))
  {
    if forall k :: i <= k < |t.fields| ==> FieldOk(cl, ctx, fuel, v, t.fields[k]) {
      FieldsUpTo(cl, ctx, fuel, v, t, i, |t.fields|);
    }
    forall k | i <= k < |t.fields| && (forall j :: i <= j < k ==> FieldOk(cl, ctx, fuel, v, t.fields[j]))
               && FieldFails(cl, ctx, fuel, v, t.fields[k])
      ensures CheckFields(cl, ctx, fuel, v, t, i) == CheckFields(cl, ctx, fuel, v, t, k)
    {
      FieldsUpTo(cl, ctx, fuel, v, t, i, k);
    }
  }

  /** Annotated keys that are absent or hold accepted values let the check go on past them. */
  lemma {:induction false} FieldsUpTo(cl: Classes, ctx: Table, fuel: nat, v: Val, t: Ty, i: nat, k: nat)
    requires t.TypedDict? && i <= k <= |t.fields|
    requires forall j :: i <= j < k ==> FieldOk(cl, ctx, fuel, v, t.fields[j])
    ensures CheckFields(cl, ctx, fuel, v, t, i) == CheckFields(cl, ctx, fuel, v, t, k)
    decreases k - i
  {
    if i < k {
      assert FieldOk(cl, ctx, fuel, v, t.fields[i]);
      FieldsUpTo(cl, ctx, fuel, v, t, i + 1, k);
    }
  }

  /**
   * TypedDict: a value that is not a `Mapping[str, Any]` fails with that
   * failure as the only cause; then all absent required keys are reported
   * together, before any value is looked at; then the annotated keys that are
   * present are checked in annotation order and the first failing one is
   * reported at its key. Keys that are missing but not required are skipped.
   */
  lemma TypedDictOutcome(cl: Classes, ctx: Table, fuel: nat, v: Val, t: Ty)
    requires t.TypedDict?
    ensures CheckStrMapping(cl, ctx, v).Fail? ==>
      Check(cl, ctx, fuel, v, t) == Fail(Failure(v, t, [CheckStrMapping(cl, ctx, v).failure], Plain, ctx))
    ensures CheckStrMapping(cl, ctx, v).Ok? && MissingKeysOf(t.fields, v) != [] ==>
      Check(cl, ctx, fuel, v, t) == Fail(Failure(v, t, [], MissingKeys(MissingKeysOf(t.fields, v)), []))
    ensures CheckStrMapping(cl, ctx, v).Ok? && MissingKeysOf(t.fields, v) == [] ==>
      ((forall k :: 0 <= k < |t.fields| ==> FieldOk(cl, ctx, fuel, v, t.fields[k])) ==> Check(cl, ctx, fuel, v, t) == Ok) &&
      (forall k :: 0 <= k < |t.fields| && (forall j :: 0 <= j < k ==> FieldOk(cl, ctx, fuel, v, t.fields[j]))
                   && FieldFails(cl, ctx, fuel, v, t.fields[k]) ==>
         Check(cl, ctx, fuel, v, t) ==
           Fail(Failure(v, t, [Check(cl, ctx, fuel, Lookup(v, t.fields[k].key).value, t.fields[k].ty).failure],
                        AtKey(Str(t.fields[k].key)), [])))
  {
    if CheckStrMapping(cl, ctx, v).Ok? && MissingKeysOf(t.fields, v) == [] {
      assert Check(cl, ctx, fuel, v, t) == CheckFields(cl, ctx, fuel, v, t, 0);
      FieldsOutcome(cl, ctx, fuel, v, t, 0);
    }
  }

  lemma {:induction false} LookupFromAppend(ps: seq<(Val, Val)>, p: (Val, Val), k: string)
    requires p.0 != Str(k)
    ensures LookupFrom(ps + [p], k) == LookupFrom(ps, k)
  {
    if ps == [] {
      assert ps + [p] == [p];
      assert [p][1..] == [];
    } else {
      assert (ps + [p])[1..] == ps[1..] + [p];
      LookupFromAppend(ps[1..], p, k);
    }
  }

  lemma {:induction false} MissingKeysExtra(fields: seq<Field>, v: Val, w: Val)
    requires forall i :: 0 <= i < |fields| ==> (HasKey(w, fields[i].key) <==> HasKey(v, fields[i].key))
    ensures MissingKeysOf(fields, w) == MissingKeysOf(fields, v)
  {
    if fields != [] {
      assert forall i :: 1 <= i < |fields| ==> fields[1..][i - 1] == fields[i];
      MissingKeysExtra(fields[1..], v, w);
    }
  }

  lemma {:induction false} FieldsExtra(cl: Classes, ctx: Table, fuel: nat, v: Val, w: Val, t: Ty, i: nat)
    requires t.TypedDict? && i <= |t.fields|
    requires forall j :: 0 <= j < |t.fields| ==> Lookup(w, t.fields[j].key) == Lookup(v, t.fields[j].key)
    ensures CheckFields(cl, ctx, fuel, w, t, i).Ok? <==> CheckFields(cl, ctx, fuel, v, t, i).Ok?
    decreases |t.fields| - i
  {
    if i < |t.fields| {
      FieldsExtra(cl, ctx, fuel, v, w, t, i + 1);
    }
  }

  /**
   * TypedDict: keys that are not annotated are ignored. Adding a string key
   * the TypedDict does not annotate to a dict does not change whether it is
   * accepted.
   */
  lemma ExtraKeysIgnored(cl: Classes, ctx: Table, fuel: nat, c: ClassName, ps: seq<(Val, Val)>, k: string, x: Val, t: Ty)
    requires t.TypedDict? && forall i :: 0 <= i < |t.fields| ==> t.fields[i].key != k
    requires cl.isInstance(Dict(c, ps + [(Str(k), x)]), MappingClass) == cl.isInstance(Dict(c, ps), MappingClass)
    requires cl.isInstance(Str(k), StrClass)
    ensures Check(cl, ctx, fuel, Dict(c, ps + [(Str(k), x)]), t).Ok? <==> Check(cl, ctx, fuel, Dict(c, ps), t).Ok?
  {
    var v := Dict(c, ps);
    var w := Dict(c, ps + [(Str(k), x)]);
    forall i | 0 <= i < |t.fields|
      ensures Lookup(w, t.fields[i].key) == Lookup(v, t.fields[i].key)
      ensures HasKey(w, t.fields[i].key) <==> HasKey(v, t.fields[i].key)
    {
      LookupFromAppend(ps, (Str(k), x), t.fields[i].key);
    }
    MissingKeysExtra(t.fields, v, w);
    StrMappingAgrees(cl, ctx, fuel, v);
    StrMappingAgrees(cl, ctx, fuel, w);
    assert Pairs(w) == Pairs(v) + [(Str(k), x)];
    assert CheckStrMapping(cl, ctx, w).Ok? <==> CheckStrMapping(cl, ctx, v).Ok? by {
      assert forall j :: 0 <= j < |Pairs(v)| ==> Pairs(w)[j] == Pairs(v)[j];
      assert Pairs(w)[|Pairs(v)|].0 == Str(k);
    }
    FieldsExtra(cl, ctx, fuel, v, w, t, 0);
  }

  // ---------------------------------------------------------------------------
  // Aliases
  // ---------------------------------------------------------------------------

  /**
   * Inside `validation_aliases(**bindings)`, a string hint naming a binding
   * means that binding, a name the scope does not bind keeps its outer
   * meaning, and a name bound nowhere is unsupported, never a mismatch. A
   * mismatch against an alias is the failure of the aliased type relabelled
   * with the alias name; a `TypeError` without a failure trips the assertion
   * of `_type_alias_error`.
   */
  lemma AliasInScope(cl: Classes, outer: Table, bindings: Table, fuel: nat, v: Val, name: string)
    requires DistinctNames(bindings)
    ensures var ctx := UpdateAll(outer, bindings);
      var meaning := if Bound(bindings, name) then Find(bindings, name) else Find(outer, name);
      var r := Check(cl, ctx, fuel + 1, v, Alias(name));
      (meaning.None? ==> r == Unsupported(Alias(name), UnknownAlias(name))) &&
      (meaning.Some? ==>
        var inner := Check(cl, ctx, fuel, v, meaning.value);
        (inner.Fail? ==> r == Fail(inner.failure.(t := Alias(name)))) &&
        (inner.SubclassCheckRaised? ==> r == AssertFailed) &&
        (!inner.Fail? && !inner.SubclassCheckRaised? ==> r == inner))
  {
    FindUpdateAll(outer, bindings, name);
  }

  // ---------------------------------------------------------------------------
  // Type[...]
  // ---------------------------------------------------------------------------

  /** The hints reachable from `t` through nested unions, depth first: an independent flattening. */
  function Flat(t: Ty): seq<Ty>
    decreases t, 1, 0
  {
    if t.Union? then FlatFrom(t, 0) else [t]
  }

  function FlatFrom(t: Ty, i: nat): seq<Ty>
    requires t.Union? && i <= |t.members|
    decreases t, 0, |t.members| - i
  {
    if i == |t.members| then [] else Flat(t.members[i]) + FlatFrom(t, i + 1)
  }

  function FlatQueue(q: seq<Ty>): seq<Ty>
  {
    if q == [] then [] else Flat(q[0]) + FlatQueue(q[1..])
  }

  lemma {:induction false} FlatQueueAppend(a: seq<Ty>, b: seq<Ty>)
    ensures FlatQueue(a + b) == FlatQueue(a) + FlatQueue(b)
  {
    if a == [] {
      assert a + b == b;
    } else {
      assert (a + b)[0] == a[0] && (a + b)[1..] == a[1..] + b;
      FlatQueueAppend(a[1..], b);
    }
  }

  lemma {:induction false} FlatFromQueue(t: Ty, i: nat)
    requires t.Union? && i <= |t.members|
    ensures FlatFrom(t, i) == FlatQueue(t.members[i..])
    decreases |t.members| - i
  {
    if i < |t.members| {
      FlatFromQueue(t, i + 1);
      assert t.members[i..][1..] == t.members[i + 1..];
    } else {
      assert t.members[i..] == [];
    }
  }

  lemma {:induction false} WalkFlat(q: seq<Ty>, acc: seq<Ty>)
    ensures Walk(q, acc).None? <==> AnyTy in FlatQueue(q)
    ensures Walk(q, acc).Some? ==> multiset(Walk(q, acc).value) == multiset(acc) + multiset(FlatQueue(q))
    decreases QueueSize(q)
  {
    if q != [] {
      if q[0].AnyTy? {
        assert FlatQueue(q)[0] == AnyTy;
      } else if q[0].Union? {
        ExpandShrinks(q);
        WalkFlat(q[1..] + q[0].members, acc);
        FlatQueueAppend(q[1..], q[0].members);
        FlatFromQueue(q[0], 0);
        assert q[0].members[0..] == q[0].members;
        assert multiset(FlatQueue(q)) == multiset(FlatQueue(q[1..] + q[0].members));
      } else {
        WalkFlat(q[1..], acc + [q[0]]);
      }
    }
  }

  /**
   * `__extract_member_types(u)`: `None` exactly when `Any` is among the
   * flattened members of `u`, and otherwise those members, each as often as
   * it occurs.
   */
  lemma MemberTypesFlat(u: Ty)
    ensures MemberTypes(u).None? <==> AnyTy in Flat(u)
    ensures MemberTypes(u).Some? ==> multiset(MemberTypes(u).value) == multiset(Flat(u))
  {
    WalkFlat([u], []);
    assert [u][1..] == [];
    assert FlatQueue([u]) == Flat(u) + [];
  }

  /** A member that `issubclass` asks and that answers no. */
  predicate PassedOver(cl: Classes, s: Val, m: Ty)
  {
    !RefusesSubclassCheck(m) && !SubclassOfHint(cl, s, m)
  }

  /**
   * `issubclass(s, ms)` asks the members in order: the first member that
   * raises or answers yes decides, and `False` when every member answers no
   * is the subtype failure of `s` against `u`.
   */
  lemma {:induction false} SubclassCheckOrder(cl: Classes, s: Val, u: Ty, ms: seq<Ty>, i: nat)
    requires i <= |ms|
    ensures forall k :: i <= k < |ms| && (forall j :: i <= j < k ==> PassedOver(cl, s, ms[j])) && RefusesSubclassCheck(ms[k]) ==>
      SubclassCheck(cl, s, u, ms, i) == SubclassCheckRaised(ms[k])
    ensures forall k :: i <= k < |ms| && (forall j :: i <= j < k ==> PassedOver(cl, s, ms[j]))
                        && !RefusesSubclassCheck(ms[k]) && SubclassOfHint(cl, s, ms[k]) ==>
      SubclassCheck(cl, s, u, ms, i) == Ok
    ensures (forall j :: i <= j < |ms| ==> PassedOver(cl, s, ms[j])) ==>
      SubclassCheck(cl, s, u, ms, i) == Fail(Failure(s, u, [], Subtype, []))
    ensures SubclassCheck(cl, s, u, ms, i).SubclassCheckRaised? ==>
      exists k :: i <= k < |ms| && ms[k] == SubclassCheck(cl, s, u, ms, i).refuser && RefusesSubclassCheck(ms[k])
    ensures (forall j :: i <= j < |ms| ==> !RefusesSubclassCheck(ms[j])) ==>
      (SubclassCheck(cl, s, u, ms, i).Ok? <==> exists k :: i <= k < |ms| && SubclassOfHint(cl, s, ms[k]))
    ensures var r := SubclassCheck(cl, s, u, ms, i);
      r.Ok? || r == Fail(Failure(s, u, [], Subtype, [])) || r.SubclassCheckRaised?
  {
    if forall j :: i <= j < |ms| ==> PassedOver(cl, s, ms[j]) {
      SubclassCheckUpTo(cl, s, u, ms, i, |ms|);
    }
    forall k | i <= k < |ms| && (forall j :: i <= j < k ==> PassedOver(cl, s, ms[j])) && !PassedOver(cl, s, ms[k])
      ensures SubclassCheck(cl, s, u, ms, i) == SubclassCheck(cl, s, u, ms, k)
    {
      SubclassCheckUpTo(cl, s, u, ms, i, k);
    }
    SubclassCheckAnswers(cl, s, u, ms, i);
  }

  /** Members that answer no let the check go on past them. */
  lemma {:induction false} SubclassCheckUpTo(cl: Classes, s: Val, u: Ty, ms: seq<Ty>, i: nat, k: nat)
    requires i <= k <= |ms|
    requires forall j :: i <= j < k ==> PassedOver(cl, s, ms[j])
    ensures SubclassCheck(cl, s, u, ms, i) == SubclassCheck(cl, s, u, ms, k)
    decreases k - i
  {
    if i < k {
      assert PassedOver(cl, s, ms[i]);
      SubclassCheckUpTo(cl, s, u, ms, i + 1, k);
    }
  }

  /**
   * A refusal names a member that refuses; with no member that can refuse,
   * the class is accepted exactly when some member answers yes; and the only
   * outcomes are acceptance, the subtype failure and a refusal.
   */
  lemma {:induction false} SubclassCheckAnswers(cl: Classes, s: Val, u: Ty, ms: seq<Ty>, i: nat)
    requires i <= |ms|
    ensures SubclassCheck(cl, s, u, ms, i).SubclassCheckRaised? ==>
      exists k :: i <= k < |ms| && ms[k] == SubclassCheck(cl, s, u, ms, i).refuser && RefusesSubclassCheck(ms[k])
    ensures (forall j :: i <= j < |ms| ==> !RefusesSubclassCheck(ms[j])) ==>
      (SubclassCheck(cl, s, u, ms, i).Ok? <==> exists k :: i <= k < |ms| && SubclassOfHint(cl, s, ms[k]))
    ensures var r := SubclassCheck(cl, s, u, ms, i);
      r.Ok? || r == Fail(Failure(s, u, [], Subtype, [])) || r.SubclassCheckRaised?
    decreases |ms| - i
  {
    if i < |ms| {
      SubclassCheckAnswers(cl, s, u, ms, i + 1);
    }
  }

  /**
   * `Type[u]`: a value that is not a class is a plain failure. For a class,
   * an `Any` among the flattened members of `u` accepts it; otherwise a
   * member that is not a class makes the hint unsupported in this position;
   * otherwise `issubclass` asks the members in the order of
   * `__extract_member_types`. A TypedDict class or a protocol class that is
   * not runtime-checkable raises a `TypeError` with no failure when it is
   * asked; when no member can raise, the class is accepted exactly when it is
   * a subclass of some member, and rejected with a subtype failure.
   */
  lemma SubclassOfOutcome(cl: Classes, ctx: Table, fuel: nat, v: Val, u: Ty)
    ensures !cl.isInstance(v, TypeClass) ==>
      Check(cl, ctx, fuel, v, SubclassOf([u])) == Fail(TypeErr(ctx, v, Class(TypeClass), []))
    ensures cl.isInstance(v, TypeClass) ==>
      var r := Check(cl, ctx, fuel, v, SubclassOf([u]));
      (AnyTy in Flat(u) ==> r == Ok) &&
      (AnyTy !in Flat(u) ==>
        (r.BadSubtype? <==> exists m :: m in Flat(u) && !IsClassHint(m)) &&
        (MemberTypes(u).Some? && !r.BadSubtype? ==> r == SubclassCheck(cl, v, u, MemberTypes(u).value, 0)) &&
        (r.SubclassCheckRaised? ==> r.refuser in Flat(u) && RefusesSubclassCheck(r.refuser)) &&
        ((forall m :: m in Flat(u) ==> IsClassHint(m) && !RefusesSubclassCheck(m)) ==>
           (r.Ok? <==> exists m :: m in Flat(u) && SubclassOfHint(cl, v, m))) &&
        (r.Fail? ==> r == Fail(Failure(v, u, [], Subtype, []))) &&
        (r.Ok? || r.Fail? || r.BadSubtype? || r.SubclassCheckRaised?))
    ensures cl.isInstance(v, TypeClass) ==>
      (Check(cl, ctx, fuel, v, SubclassOf([u])).BadSubtype? <==> !CanValidateSubtypeOf(u))
  {
    MemberTypesFlat(u);
    if cl.isInstance(v, TypeClass) {
      assert Check(cl, ctx, fuel, v, SubclassOf([u])) == SubtypeOf(cl, v, u);
      if MemberTypes(u).Some? {
        SubtypeOfMembers(cl, v, u);
      }
    }
  }

  /** `_validate_subtype_of(s, u)` when `Any` is not among the members of `u`. */
  lemma SubtypeOfMembers(cl: Classes, v: Val, u: Ty)
    requires MemberTypes(u).Some?
    ensures var r := SubtypeOf(cl, v, u);
      (r.BadSubtype? <==> exists m :: m in Flat(u) && !IsClassHint(m)) &&
      (r.BadSubtype? <==> !CanValidateSubtypeOf(u)) &&
      (!r.BadSubtype? ==> r == SubclassCheck(cl, v, u, MemberTypes(u).value, 0)) &&
      (r.SubclassCheckRaised? ==> r.refuser in Flat(u) && RefusesSubclassCheck(r.refuser)) &&
      ((forall m :: m in Flat(u) ==> IsClassHint(m) && !RefusesSubclassCheck(m)) ==>
         (r.Ok? <==> exists m :: m in Flat(u) && SubclassOfHint(cl, v, m))) &&
      (r.Fail? ==> r == Fail(Failure(v, u, [], Subtype, []))) &&
      (r.Ok? || r.Fail? || r.BadSubtype? || r.SubclassCheckRaised?)
  {
    MemberTypesFlat(u);
    var ms := MemberTypes(u).value;
    assert forall m :: m in ms <==> m in Flat(u) by {
      forall m ensures m in ms <==> m in Flat(u) {
        assert m in ms <==> m in multiset(ms);
        assert m in Flat(u) <==> m in multiset(Flat(u));
      }
    }
    assert (exists i :: 0 <= i < |ms| && !IsClassHint(ms[i])) <==> exists m :: m in Flat(u) && !IsClassHint(m) by {
      if exists m :: m in Flat(u) && !IsClassHint(m) {
        var m :| m in Flat(u) && !IsClassHint(m);
        var i :| 0 <= i < |ms| && ms[i] == m;
      }
    }
    SubclassCheckAnswers(cl, v, u, ms, 0);
    if forall m :: m in Flat(u) ==> IsClassHint(m) && !RefusesSubclassCheck(m) {
      assert forall j :: 0 <= j < |ms| ==> !RefusesSubclassCheck(ms[j]) by {
        forall j | 0 <= j < |ms| ensures !RefusesSubclassCheck(ms[j]) { assert ms[j] in Flat(u); }
      }
      assert (exists k :: 0 <= k < |ms| && SubclassOfHint(cl, v, ms[k])) <==>
             exists m :: m in Flat(u) && SubclassOfHint(cl, v, m) by {
        if exists m :: m in Flat(u) && SubclassOfHint(cl, v, m) {
          var m :| m in Flat(u) && SubclassOfHint(cl, v, m);
          var k :| 0 <= k < |ms| && ms[k] == m;
        }
      }
    }
  }

  // ---------------------------------------------------------------------------
  // Hints the matcher always decides
  // ---------------------------------------------------------------------------

  /** No member of `Type[u]` that `issubclass` asks can raise: an `Any` is among them, or none refuses. */
  predicate SubclassChecksAnswer(u: Ty)
  {
    match MemberTypes(u)
    case None => true
    case Some(ms) => forall i :: 0 <= i < |ms| ==> !RefusesSubclassCheck(ms[i])
  }

  /**
   * Hints with no unsupported part: no alias, no opaque hint, no
   * `Container[...]` of unknown values, and `Type[...]` only over classes or
   * with an `Any`. Item types of iterators and arguments of user generics are
   * never looked at. When `strict` holds, no `Type[...]` has a member whose
   * subclass check raises.
   */
  predicate Decidable(t: Ty, strict: bool)
  {
    match t
    case Alias(_) => false
    case Opaque(_, _) => false
    case ContainerOf(_) => false
    case SubclassOf(args) => |args| == 1 && CanValidateSubtypeOf(args[0]) && (strict ==> SubclassChecksAnswer(args[0]))
    case TypeVar(_, bound) => bound.None? || Decidable(bound.value, strict)
    case Union(ms, _) => forall i :: 0 <= i < |ms| ==> Decidable(ms[i], strict)
    case Collection(_, item) => Decidable(item, strict)
    case VariadicTuple(item) => Decidable(item, strict)
    case Mapping(_, key, value) => Decidable(key, strict) && Decidable(value, strict)
    case FixedTuple(items) => forall i :: 0 <= i < |items| ==> Decidable(items[i], strict)
    case TypedDict(_, fields) => forall i :: 0 <= i < |fields| ==> Decidable(fields[i].ty, strict)
    case _ => true
  }

  /**
   * For a hint with no unsupported part, `validate` never raises
   * `UnsupportedTypeError` or another `ValueError` and never recurses
   * forever, whatever the value, the alias table and the recursion depth;
   * when in addition no subclass check can raise, it returns, raises a
   * `TypeError` carrying a failure tree, or raises the `AssertionError` of a
   * union value not `==` to itself, and the last only when `==` is not
   * reflexive.
   */
  lemma {:induction false} DecidableDecided(cl: Classes, ctx: Table, fuel: nat, v: Val, t: Ty, strict: bool)
    requires Decidable(t, strict)
    ensures Answered(Check(cl, ctx, fuel, v, t))
    ensures strict ==> Decided(Check(cl, ctx, fuel, v, t)) || Check(cl, ctx, fuel, v, t).AssertFailed?
    ensures strict && ReflexiveEquals(cl) ==> Decided(Check(cl, ctx, fuel, v, t))
    decreases fuel, t, 1, 0
  {
    match t
    case TypeVar(_, bound) =>
      if bound.Some? { DecidableDecided(cl, ctx, fuel, v, bound.value, strict); }
    case Union(ms, _) =>
      if ms != [] { UnionDecided(cl, ctx, fuel, v, t, 0, [], strict); }
    case Collection(o, _) =>
      if cl.isInstance(v, CollOriginClass(o)) { ItemsDecided(cl, ctx, fuel, v, t, Iter(v), 0, strict); }
    case VariadicTuple(_) =>
      if cl.isInstance(v, TupleClass) { ItemsDecided(cl, ctx, fuel, v, t, Iter(v), 0, strict); }
    case Mapping(o, _, _) =>
      if cl.isInstance(v, MapOriginClass(o)) { PairsDecided(cl, ctx, fuel, v, t, Pairs(v), 0, strict); }
    case FixedTuple(items) =>
      if cl.isInstance(v, TupleClass) && |Iter(v)| == |items| { FixedDecided(cl, ctx, fuel, v, t, Iter(v), 0, strict); }
    case SubclassOf(args) =>
      if cl.isInstance(v, TypeClass) {
        SubclassOfOutcome(cl, ctx, fuel, v, args[0]);
        if MemberTypes(args[0]).Some? {
          SubclassCheckOrder(cl, v, args[0], MemberTypes(args[0]).value, 0);
        }
      }
    case TypedDict(_, fields) =>
      StrMappingAgrees(cl, ctx, fuel, v);
      if CheckStrMapping(cl, ctx, v).Ok? && |MissingKeysOf(fields, v)| == 0 {
        FieldsDecided(cl, ctx, fuel, v, t, 0, strict);
      }
    case _ =>
  }

  lemma {:induction false} ItemsDecided(cl: Classes, ctx: Table, fuel: nat, v: Val, t: Ty, xs: seq<Val>, i: nat, strict: bool)
    requires ItemHint(t) && Decidable(t.item, strict) && i <= |xs|
    ensures Answered(CheckItems(cl, ctx, fuel, v, t, xs, i))
    ensures strict ==> Decided(CheckItems(cl, ctx, fuel, v, t, xs, i)) || CheckItems(cl, ctx, fuel, v, t, xs, i).AssertFailed?
    ensures strict && ReflexiveEquals(cl) ==> Decided(CheckItems(cl, ctx, fuel, v, t, xs, i))
    decreases fuel, t, 0, |xs| - i
  {
    if i < |xs| {
      DecidableDecided(cl, ctx, fuel, xs[i], t.item, strict);
      ItemsDecided(cl, ctx, fuel, v, t, xs, i + 1, strict);
    }
  }

  lemma {:induction false} PairsDecided(cl: Classes, ctx: Table, fuel: nat, v: Val, t: Ty, ps: seq<(Val, Val)>, i: nat, strict: bool)
    requires t.Mapping? && Decidable(t.key, strict) && Decidable(t.value, strict) && i <= |ps|
    ensures Answered(CheckPairs(cl, ctx, fuel, v, t, ps, i))
    ensures strict ==> Decided(CheckPairs(cl, ctx, fuel, v, t, ps, i)) || CheckPairs(cl, ctx, fuel, v, t, ps, i).AssertFailed?
    ensures strict && ReflexiveEquals(cl) ==> Decided(CheckPairs(cl, ctx, fuel, v, t, ps, i))
    decreases fuel, t, 0, |ps| - i
  {
    if i < |ps| {
      DecidableDecided(cl, ctx, fuel, ps[i].0, t.key, strict);
      DecidableDecided(cl, ctx, fuel, ps[i].1, t.value, strict);
      PairsDecided(cl, ctx, fuel, v, t, ps, i + 1, strict);
    }
  }

  lemma {:induction false} FixedDecided(cl: Classes, ctx: Table, fuel: nat, v: Val, t: Ty, xs: seq<Val>, i: nat, strict: bool)
    requires t.FixedTuple? && Decidable(t, strict) && |xs| == |t.items| && i <= |xs|
    ensures Answered(CheckFixed(cl, ctx, fuel, v, t, xs, i))
    ensures strict ==> Decided(CheckFixed(cl, ctx, fuel, v, t, xs, i)) || CheckFixed(cl, ctx, fuel, v, t, xs, i).AssertFailed?
    ensures strict && ReflexiveEquals(cl) ==> Decided(CheckFixed(cl, ctx, fuel, v, t, xs, i))
    decreases fuel, t, 0, |xs| - i
  {
    if i < |xs| {
      DecidableDecided(cl, ctx, fuel, xs[i], t.items[i], strict);
      FixedDecided(cl, ctx, fuel, v, t, xs, i + 1, strict);
    }
  }

  lemma {:induction false} UnionDecided(cl: Classes, ctx: Table, fuel: nat, v: Val, t: Ty, i: nat, errs: seq<Failure>, strict: bool)
    requires t.Union? && Decidable(t, strict) && i <= |t.members| && SameValue(errs, v)
    ensures Answered(CheckUnion(cl, ctx, fuel, v, t, i, errs))
    ensures strict ==> Decided(CheckUnion(cl, ctx, fuel, v, t, i, errs)) || CheckUnion(cl, ctx, fuel, v, t, i, errs).AssertFailed?
    ensures strict && ReflexiveEquals(cl) ==> Decided(CheckUnion(cl, ctx, fuel, v, t, i, errs))
    decreases fuel, t, 0, |t.members| - i
  {
    if i < |t.members| {
      var r := Check(cl, ctx, fuel, v, t.members[i]);
      DecidableDecided(cl, ctx, fuel, v, t.members[i], strict);
      if r.Fail? {
        FailureWellFormed(cl, ctx, fuel, v, t.members[i]);
        UnionDecided(cl, ctx, fuel, v, t, i + 1, errs + [r.failure], strict);
      }
      else if r.SubclassCheckRaised? { UnionDecided(cl, ctx, fuel, v, t, i + 1, errs, strict); }
    } else if ReflexiveEquals(cl) {
      SameValueEqual(cl.equals, v, errs);
    }
  }

  lemma {:induction false} FieldsDecided(cl: Classes, ctx: Table, fuel: nat, v: Val, t: Ty, i: nat, strict: bool)
    requires t.TypedDict? && Decidable(t, strict) && i <= |t.fields|
    ensures Answered(CheckFields(cl, ctx, fuel, v, t, i))
    ensures strict ==> Decided(CheckFields(cl, ctx, fuel, v, t, i)) || CheckFields(cl, ctx, fuel, v, t, i).AssertFailed?
    ensures strict && ReflexiveEquals(cl) ==> Decided(CheckFields(cl, ctx, fuel, v, t, i))
    decreases fuel, t, 0, |t.fields| - i
  {
    if i < |t.fields| {
      if HasKey(v, t.fields[i].key) {
        DecidableDecided(cl, ctx, fuel, Lookup(v, t.fields[i].key).value, t.fields[i].ty, strict);
      }
      FieldsDecided(cl, ctx, fuel, v, t, i + 1, strict);
    }
  }

  // ---------------------------------------------------------------------------
  // The unsupported-type message
  // ---------------------------------------------------------------------------

  lemma MiddleOfConcat(a: string, x: string, b: string)
    ensures (a + x + b)[|a|..|a| + |x|] == x
  {
  }

  /** Two messages built from the same prefix and tail are equal only if what they show is. */
  lemma {:induction false} ShownCancels(x: string, y: string, tail: string)
    requires UnsupportedPrefix + x + "." + tail == UnsupportedPrefix + y + "." + tail
    ensures x == y
  {
    var m := UnsupportedPrefix + x + "." + tail;
    assert |x| == |y|;
    assert UnsupportedPrefix + x + "." + tail == UnsupportedPrefix + x + ("." + tail);
    assert UnsupportedPrefix + y + "." + tail == UnsupportedPrefix + y + ("." + tail);
    MiddleOfConcat(UnsupportedPrefix, x, "." + tail);
    MiddleOfConcat(UnsupportedPrefix, y, "." + tail);
  }

  /**
   * The message as written names no hint: it is the same for every hint,
   * and differs from the intended message whenever the hint's repr is not
   * the literal text `{t!r}`.
   */
  lemma UnsupportedMessageOmitsHint(p: Printer, t: Ty, t': Ty, e: Explanation, plainName: string -> bool)
    ensures UnsupportedMessageAsWritten(t, e, plainName) == UnsupportedMessageAsWritten(t', e, plainName)
    ensures Shown(p, t) != "{t!r}" ==> UnsupportedMessageAsWritten(t, e, plainName) != UnsupportedMessage(p, t, e, plainName)
  {
    if UnsupportedMessageAsWritten(t, e, plainName) == UnsupportedMessage(p, t, e, plainName) {
      ShownCancels("{t!r}", Shown(p, t), ExplanationTail(e, plainName));
    }
  }

  /**
   * The intended message identifies the hint: it starts with the fixed prefix
   * followed by the hint's repr, and two hints with the same explanation give
   * the same message only if their reprs are equal.
   */
  lemma UnsupportedMessageNamesHint(p: Printer, t: Ty, t': Ty, e: Explanation, plainName: string -> bool)
    ensures UnsupportedMessage(p, t, e, plainName)[..|UnsupportedPrefix| + |Shown(p, t)|] == UnsupportedPrefix + Shown(p, t)
    ensures UnsupportedMessage(p, t, e, plainName) == UnsupportedMessage(p, t', e, plainName) ==> Shown(p, t) == Shown(p, t')
  {
    if UnsupportedMessage(p, t, e, plainName) == UnsupportedMessage(p, t', e, plainName) {
      ShownCancels(Shown(p, t), Shown(p, t'), ExplanationTail(e, plainName));
    }
  }
}
