/**
 * The matcher of typing_validation/validation.py: `validate(val, t)` as a
 * function `Check` over translated type hints, the imperative `Validate`
 * methods that follow the source's loops and are proved to compute `Check`,
 * and the error builders.
 *
 * The alias table in force is a parameter (`ctx`); the recursion limit of the
 * interpreter is a parameter `fuel` that only the expansion of an alias
 * consumes, and running out of it is the outcome `Diverged`.
 */
module Validation {
  import opened Types
  import opened Aliases
  import opened ValidationFailure

  /** The optional explanation appended to an unsupported-type message. */
  datatype Explanation =
    | NoExplanation
    | NotHashableExpl
    | NotRuntimeProtocolExpl
    | UnknownAlias(name: string)

  /** How a call `validate(val, t)` ends. */
  datatype Result =
    | Ok                                            // returns True
    | Fail(failure: Failure)                        // TypeError with its failure tree attached
    | Unsupported(t: Ty, explanation: Explanation)  // UnsupportedTypeError
    | BadSubtype(members: seq<Ty>)                  // ValueError: Type[...] over non-classes
    | SubclassCheckRaised(refuser: Ty)              // TypeError of `issubclass`, with no failure attached
    | AssertFailed                                  // AssertionError: a cause without a failure reached an error builder,
                                                    // or a union value is not == to itself
    | Diverged                                      // RecursionError: the alias expansion never ends

  function Explain(why: Unsupportable): Explanation
  {
    match why
    case NotHashable => NotHashableExpl
    case NotRuntimeProtocol => NotRuntimeProtocolExpl
    case Unrecognised => NoExplanation
  }

  // ---------------------------------------------------------------------------
  // Error builders (validation.py:242-331)
  // ---------------------------------------------------------------------------

  /** `_type_error`: a plain failure, recording the alias table in force. */
  function TypeErr(ctx: Table, v: Val, t: Ty, causes: seq<Failure>): Failure
  {
    Failure(v, t, causes, Plain, ctx)
  }

  /** `_type_error(..., is_union=True)`. */
  function UnionErr(ctx: Table, v: Val, t: Ty, causes: seq<Failure>): Failure
  {
    Failure(v, t, causes, UnionOf, ctx)
  }

  /** `_typevar_error`. */
  function TypeVarErr(v: Val, t: Ty, cause: Failure): Failure
  {
    Failure(v, t, [cause], TypeVarBound, [])
  }

  /** `_idx_type_error`. */
  function IdxErr(v: Val, t: Ty, cause: Failure, idx: nat, ordered: bool): Failure
  {
    Failure(v, t, [cause], AtIdx(idx, ordered), [])
  }

  /** `_key_type_error`. */
  function KeyErr(v: Val, t: Ty, cause: Failure, key: Val): Failure
  {
    Failure(v, t, [cause], AtKey(key), [])
  }

  /** `_missing_keys_type_error`. */
  function MissingKeysErr(v: Val, t: Ty, keys: seq<string>): Failure
  {
    Failure(v, t, [], MissingKeys(keys), [])
  }

  /** `_subtype_error`. */
  function SubtypeErr(s: Val, t: Ty): Failure
  {
    Failure(s, t, [], Subtype, [])
  }

  /** `_type_alias_error`: the failure of the aliased type, relabelled with the alias name. */
  function AliasErr(name: string, f: Failure): Failure
  {
    f.(t := Alias(name))
  }

  // ---------------------------------------------------------------------------
  // Member types of Type[...] (validation.py:575-633)
  // ---------------------------------------------------------------------------

  /** Nodes of the union tree of a hint: what the breadth-first walk visits. */
  function UnionSize(t: Ty): nat
    decreases t, 1, 0
  {
    if t.Union? then 1 + UnionSizeFrom(t, 0) else 1
  }

  function UnionSizeFrom(t: Ty, i: nat): nat
    requires t.Union? && i <= |t.members|
    decreases t, 0, |t.members| - i
  {
    if i == |t.members| then 0 else UnionSize(t.members[i]) + UnionSizeFrom(t, i + 1)
  }

  function QueueSize(q: seq<Ty>): nat
  {
    if q == [] then 0 else UnionSize(q[0]) + QueueSize(q[1..])
  }

  lemma {:induction false} QueueSizeAppend(a: seq<Ty>, b: seq<Ty>)
    ensures QueueSize(a + b) == QueueSize(a) + QueueSize(b)
  {
    if a == [] {
      assert a + b == b;
    } else {
      assert (a + b)[0] == a[0] && (a + b)[1..] == a[1..] + b;
      QueueSizeAppend(a[1..], b);
    }
  }

  lemma {:induction false} UnionSizeMembers(t: Ty, i: nat)
    requires t.Union? && i <= |t.members|
    ensures UnionSizeFrom(t, i) == QueueSize(t.members[i..])
    decreases |t.members| - i
  {
    if i < |t.members| {
      UnionSizeMembers(t, i + 1);
      assert t.members[i..][1..] == t.members[i + 1..];
    } else {
      assert t.members[i..] == [];
    }
  }

  /** Expanding the union at the head of the queue shrinks the queue. */
  lemma ExpandShrinks(q: seq<Ty>)
    requires q != [] && q[0].Union?
    ensures QueueSize(q[1..] + q[0].members) < QueueSize(q)
  {
    QueueSizeAppend(q[1..], q[0].members);
    UnionSizeMembers(q[0], 0);
    assert q[0].members[0..] == q[0].members;
  }

  /**
   * The loop of `__extract_member_types` on the queue `q`, with `acc` the
   * member types found so far: `None` as soon as `Any` is dequeued, unions
   * are replaced by their members at the back of the queue.
   */
  function Walk(q: seq<Ty>, acc: seq<Ty>): Option<seq<Ty>>
    decreases QueueSize(q)
  {
    if q == [] then Some(acc)
    else if q[0].AnyTy? then None
    else if q[0].Union? then
      ExpandShrinks(q);
      Walk(q[1..] + q[0].members, acc)
    else Walk(q[1..], acc + [q[0]])
  }

  /** `__extract_member_types(u)`. */
  function MemberTypes(u: Ty): Option<seq<Ty>>
  {
    Walk([u], [])
  }

  /** `__extract_member_types`, with its deque. */
  method ExtractMemberTypes(u: Ty) returns (r: Option<seq<Ty>>)
    ensures r == MemberTypes(u)
  {
    var q := [u];
    var memberTypes: seq<Ty> := [];
    while q != []
      invariant Walk(q, memberTypes) == MemberTypes(u)
      decreases QueueSize(q)
    {
      var t := q[0];
      if t.AnyTy? {
        return None;
      } else if t.Union? {
        ExpandShrinks(q);
        q := q[1..] + t.members;
      } else {
        q := q[1..];
        memberTypes := memberTypes + [t];
      }
    }
    return Some(memberTypes);
  }

  /**
   * `isinstance(t, type)` for a member of a union: a class, `None` (which the
   * union holds as `NoneType`), a TypedDict class, a protocol class that is
   * not runtime-checkable, or an `UnsupportedType[...]` wrapper class.
   */
  predicate IsClassHint(t: Ty)
  {
    t.Class? || t.NoneTy? || t.TypedDict? || t.Marked? || (t.Opaque? && t.why.NotRuntimeProtocol?)
  }

  /**
   * The classes whose metaclass raises `TypeError` on `issubclass`: TypedDict
   * classes and protocol classes that are not runtime-checkable.
   */
  predicate RefusesSubclassCheck(t: Ty)
  {
    t.TypedDict? || (t.Opaque? && t.why.NotRuntimeProtocol?)
  }

  /**
   * `issubclass(s, t)` for a member that answers it. An `UnsupportedType[...]`
   * wrapper is a class made afresh by the inspector, which no class object
   * given to `validate` derives from.
   */
  predicate SubclassOfHint(cl: Classes, s: Val, t: Ty)
  {
    match t
    case Class(c) => cl.isSubclass(s, c)
    case NoneTy => cl.isSubclass(s, "NoneType")
    case _ => false
  }

  /** `_can_validate_subtype_of(t)`: every member type is a class, or `Any` is among them. */
  function CanValidateSubtypeOf(u: Ty): (r: bool)
    ensures r <==> MemberTypes(u).None? || forall i :: 0 <= i < |MemberTypes(u).value| ==> IsClassHint(MemberTypes(u).value[i])
  {
    match MemberTypes(u)
    case None => true
    case Some(ms) => forall i :: 0 <= i < |ms| ==> IsClassHint(ms[i])
  }

  /**
   * `issubclass(s, ms)` from member `i` on, for a tuple `ms` of classes: the
   * members are asked in order, up to the first that answers yes or raises;
   * `False` is the subtype failure.
   */
  function SubclassCheck(cl: Classes, s: Val, u: Ty, ms: seq<Ty>, i: nat): Result
    requires i <= |ms|
    decreases |ms| - i
  {
    if i == |ms| then Fail(SubtypeErr(s, u))
    else if RefusesSubclassCheck(ms[i]) then SubclassCheckRaised(ms[i])
    else if SubclassOfHint(cl, s, ms[i]) then Ok
    else SubclassCheck(cl, s, u, ms, i + 1)
  }

  /** `_validate_subtype_of(s, u)` for a class object `s`. */
  function SubtypeOf(cl: Classes, s: Val, u: Ty): Result
  {
    match MemberTypes(u)
    case None => Ok
    case Some(ms) =>
      if exists i :: 0 <= i < |ms| && !IsClassHint(ms[i]) then BadSubtype(ms)
      else SubclassCheck(cl, s, u, ms, 0)
  }

  // ---------------------------------------------------------------------------
  // TypedDict helpers (validation.py:518-544)
  // ---------------------------------------------------------------------------

  /** `typing.Mapping[str, typing.Any]`, the first check made on a TypedDict value. */
  const StrMappingTy: Ty := Mapping(MappingAbc, Class(StrClass), AnyTy)

  /** `validate(val, Mapping[str, Any])`, which needs no alias expansion. */
  function CheckStrMapping(cl: Classes, ctx: Table, v: Val): Result
  {
    if !cl.isInstance(v, MappingClass) then Fail(TypeErr(ctx, v, Class(MappingClass), []))
    else CheckStrKeys(cl, ctx, v, Pairs(v), 0)
  }

  function CheckStrKeys(cl: Classes, ctx: Table, v: Val, ps: seq<(Val, Val)>, i: nat): Result
    requires i <= |ps|
    decreases |ps| - i
  {
    if i == |ps| then Ok
    else if !cl.isInstance(ps[i].0, StrClass) then
      Fail(TypeErr(ctx, v, StrMappingTy, [TypeErr(ctx, ps[i].0, Class(StrClass), [])]))
    else CheckStrKeys(cl, ctx, v, ps, i + 1)
  }

  /** `[k for k in required_keys if k not in val]`, in annotation order. */
  function MissingKeysOf(fields: seq<Field>, v: Val): seq<string>
  {
    if fields == [] then []
    else (if fields[0].required && !HasKey(v, fields[0].key) then [fields[0].key] else []) + MissingKeysOf(fields[1..], v)
  }

  /** The missing keys are exactly the required annotated keys the value lacks. */
  lemma {:induction false} MissingKeysExact(fields: seq<Field>, v: Val)
    ensures forall k :: k in MissingKeysOf(fields, v) <==>
      exists i :: 0 <= i < |fields| && fields[i].key == k && fields[i].required && !HasKey(v, k)
  {
    if fields != [] {
      MissingKeysExact(fields[1..], v);
      assert forall i :: 1 <= i < |fields| ==> fields[i] == fields[1..][i - 1];
      forall k | exists i :: 0 <= i < |fields| && fields[i].key == k && fields[i].required && !HasKey(v, k)
        ensures k in MissingKeysOf(fields, v)
      {
        var i :| 0 <= i < |fields| && fields[i].key == k && fields[i].required && !HasKey(v, k);
        if i > 0 { assert fields[1..][i - 1] == fields[i]; }
      }
    }
  }

  // ---------------------------------------------------------------------------
  // validate
  // ---------------------------------------------------------------------------

  /** The parameterised item types validated item by item. */
  predicate ItemHint(t: Ty)
  {
    t.Collection? || t.VariadicTuple? || t.ContainerOf?
  }

  /** Whether an item failure is reported at an index of an ordered collection. */
  predicate OrderedHint(t: Ty)
  {
    (t.Collection? && Ordered(t.corigin)) || t.VariadicTuple?
  }

  /** `validate(val, t)` with the alias table `ctx` in force. */
  function Check(cl: Classes, ctx: Table, fuel: nat, v: Val, t: Ty): Result
    decreases fuel, t, 1, 0
  {
    match t
    case AnyTy => Ok
    case NoneTy => if v == NoneVal then Ok else Fail(TypeErr(ctx, v, t, []))
    case Class(c) => if cl.isInstance(v, c) then Ok else Fail(TypeErr(ctx, v, t, []))
    case Marked(_) => Fail(TypeErr(ctx, v, t, []))
    case TypeVar(_, bound) =>
      if bound.None? then Ok
      else
        var r := Check(cl, ctx, fuel, v, bound.value);
        if r.Fail? then Fail(TypeVarErr(v, t, r.failure))
        else if r.SubclassCheckRaised? then AssertFailed
        else r
    case Union(ms, _) => if ms == [] then Ok else CheckUnion(cl, ctx, fuel, v, t, 0, [])
    case Literal(vs) =>
      if exists i :: 0 <= i < |vs| && cl.equals(v, vs[i]) then Ok else Fail(TypeErr(ctx, v, t, []))
    case Collection(o, _) =>
      if !cl.isInstance(v, CollOriginClass(o)) then Fail(TypeErr(ctx, v, Class(CollOriginClass(o)), []))
      else CheckItems(cl, ctx, fuel, v, t, Iter(v), 0)
    case Mapping(o, _, _) =>
      if !cl.isInstance(v, MapOriginClass(o)) then Fail(TypeErr(ctx, v, Class(MapOriginClass(o)), []))
      else CheckPairs(cl, ctx, fuel, v, t, Pairs(v), 0)
    case VariadicTuple(_) =>
      if !cl.isInstance(v, TupleClass) then Fail(TypeErr(ctx, v, Class(TupleClass), []))
      else CheckItems(cl, ctx, fuel, v, t, Iter(v), 0)
    case FixedTuple(items) =>
      if !cl.isInstance(v, TupleClass) then Fail(TypeErr(ctx, v, Class(TupleClass), []))
      else if |Iter(v)| != |items| then Fail(TypeErr(ctx, v, t, []))
      else CheckFixed(cl, ctx, fuel, v, t, Iter(v), 0)
    case IteratorOf(o, _) =>
      if !cl.isInstance(v, IterOriginClass(o)) then Fail(TypeErr(ctx, v, Class(IterOriginClass(o)), []))
      else Ok
    case ContainerOf(_) =>
      if !cl.isInstance(v, ContainerClass) then Fail(TypeErr(ctx, v, Class(ContainerClass), []))
      else if cl.isInstance(v, CollectionClass) then CheckItems(cl, ctx, fuel, v, t, Iter(v), 0)
      else Unsupported(t, NoExplanation)
    case UserGeneric(c, _) => if cl.isInstance(v, c) then Ok else Fail(TypeErr(ctx, v, Class(c), []))
    case SubclassOf(args) =>
      if !cl.isInstance(v, TypeClass) then Fail(TypeErr(ctx, v, Class(TypeClass), []))
      else if |args| != 1 then Unsupported(t, NoExplanation)
      else SubtypeOf(cl, v, args[0])
    case TypedDict(_, fields) =>
      var r := CheckStrMapping(cl, ctx, v);
      if r.Fail? then Fail(TypeErr(ctx, v, t, [r.failure]))
      else
        var missing := MissingKeysOf(fields, v);
        if |missing| > 0 then Fail(MissingKeysErr(v, t, missing))
        else CheckFields(cl, ctx, fuel, v, t, 0)
    case Alias(name) =>
      var found := Find(ctx, name);
      if found.None? then Unsupported(t, UnknownAlias(name))
      else if fuel == 0 then Diverged
      else
        var r := Check(cl, ctx, fuel - 1, v, found.value);
        if r.Fail? then Fail(AliasErr(name, r.failure))
        else if r.SubclassCheckRaised? then AssertFailed
        else r
    case Opaque(_, why) => Unsupported(t, Explain(why))
  }

  /** `_validate_collection` and the variadic half of `_validate_tuple`, from item `i` on. */
  function CheckItems(cl: Classes, ctx: Table, fuel: nat, v: Val, t: Ty, xs: seq<Val>, i: nat): Result
    requires ItemHint(t) && i <= |xs|
    decreases fuel, t, 0, |xs| - i
  {
    if i == |xs| then Ok
    else
      var r := Check(cl, ctx, fuel, xs[i], t.item);
      if r.Ok? then CheckItems(cl, ctx, fuel, v, t, xs, i + 1)
      else if r.Fail? then Fail(IdxErr(v, t, r.failure, i, OrderedHint(t)))
      else if r.SubclassCheckRaised? then AssertFailed
      else r
  }

  /** `_validate_mapping`, from pair `i` on. */
  function CheckPairs(cl: Classes, ctx: Table, fuel: nat, v: Val, t: Ty, ps: seq<(Val, Val)>, i: nat): Result
    requires t.Mapping? && i <= |ps|
    decreases fuel, t, 0, |ps| - i
  {
    if i == |ps| then Ok
    else
      var rk := Check(cl, ctx, fuel, ps[i].0, t.key);
      if rk.Fail? then Fail(TypeErr(ctx, v, t, [rk.failure]))
      else if rk.SubclassCheckRaised? then Fail(TypeErr(ctx, v, t, []))
      else if !rk.Ok? then rk
      else
        var rv := Check(cl, ctx, fuel, ps[i].1, t.value);
        if rv.Fail? then Fail(KeyErr(v, t, rv.failure, ps[i].0))
        else if rv.SubclassCheckRaised? then AssertFailed
        else if !rv.Ok? then rv
        else CheckPairs(cl, ctx, fuel, v, t, ps, i + 1)
  }

  /** The fixed-length half of `_validate_tuple`, from position `i` on. */
  function CheckFixed(cl: Classes, ctx: Table, fuel: nat, v: Val, t: Ty, xs: seq<Val>, i: nat): Result
    requires t.FixedTuple? && |xs| == |t.items| && i <= |xs|
    decreases fuel, t, 0, |xs| - i
  {
    if i == |xs| then Ok
    else
      var r := Check(cl, ctx, fuel, xs[i], t.items[i]);
      if r.Ok? then CheckFixed(cl, ctx, fuel, v, t, xs, i + 1)
      else if r.Fail? then Fail(IdxErr(v, t, r.failure, i, true))
      else if r.SubclassCheckRaised? then AssertFailed
      else r
  }

  /**
   * `_validate_union`, from member `i` on, with the member failures `errs`
   * collected so far; `_type_error` drops a member's `TypeError` that carries
   * no failure, and the union failure it builds asserts that the value is
   * `==` to the value of each cause.
   */
  function CheckUnion(cl: Classes, ctx: Table, fuel: nat, v: Val, t: Ty, i: nat, errs: seq<Failure>): Result
    requires t.Union? && i <= |t.members|
    decreases fuel, t, 0, |t.members| - i
  {
    if i == |t.members| then
      if CausesEqual(cl.equals, v, errs) then Fail(UnionErr(ctx, v, t, errs)) else AssertFailed
    else
      var r := Check(cl, ctx, fuel, v, t.members[i]);
      if r.Ok? then Ok
      else if r.Fail? then CheckUnion(cl, ctx, fuel, v, t, i + 1, errs + [r.failure])
      else if r.SubclassCheckRaised? then CheckUnion(cl, ctx, fuel, v, t, i + 1, errs)
      else r
  }

  /** Step 3 of `_validate_typed_dict`, from annotated key `i` on: the keys present are checked. */
  function CheckFields(cl: Classes, ctx: Table, fuel: nat, v: Val, t: Ty, i: nat): Result
    requires t.TypedDict? && i <= |t.fields|
    decreases fuel, t, 0, |t.fields| - i
  {
    if i == |t.fields| then Ok
    else if !HasKey(v, t.fields[i].key) then CheckFields(cl, ctx, fuel, v, t, i + 1)
    else
      var r := Check(cl, ctx, fuel, Lookup(v, t.fields[i].key).value, t.fields[i].ty);
      if r.Ok? then CheckFields(cl, ctx, fuel, v, t, i + 1)
      else if r.Fail? then Fail(KeyErr(v, t, r.failure, Str(t.fields[i].key)))
      else if r.SubclassCheckRaised? then AssertFailed
      else r
  }

  // ---------------------------------------------------------------------------
  // The matcher as the source runs it.
  // ---------------------------------------------------------------------------

  /** `_validate_type(val, c)`. */
  method ValidateType(cl: Classes, ctx: Table, v: Val, c: ClassName) returns (r: Result)
    ensures r == if cl.isInstance(v, c) then Ok else Fail(TypeErr(ctx, v, Class(c), []))
  {
    if !cl.isInstance(v, c) {
      return Fail(TypeErr(ctx, v, Class(c), []));
    }
    return Ok;
  }

  /** `validate(val, t)`. */
  method Validate(cl: Classes, ctx: Table, fuel: nat, v: Val, t: Ty) returns (r: Result)
    ensures r == Check(cl, ctx, fuel, v, t)
    decreases fuel, t, 2
  {
    match t {
      case AnyTy => r := Ok;
      case NoneTy =>
        r := if v == NoneVal then Ok else Fail(TypeErr(ctx, v, t, []));
      case Class(c) => r := ValidateType(cl, ctx, v, c);
      case Marked(_) => r := Fail(TypeErr(ctx, v, t, []));
      case TypeVar(_, _) => r := ValidateTypeVar(cl, ctx, fuel, v, t);
      case Union(_, _) => r := ValidateUnion(cl, ctx, fuel, v, t);
      case Literal(vs) =>
        r := if exists i :: 0 <= i < |vs| && cl.equals(v, vs[i]) then Ok else Fail(TypeErr(ctx, v, t, []));
      case Collection(o, _) =>
        r := ValidateType(cl, ctx, v, CollOriginClass(o));
        if r.Ok? { r := ValidateCollection(cl, ctx, fuel, v, t); }
      case Mapping(o, _, _) =>
        r := ValidateType(cl, ctx, v, MapOriginClass(o));
        if r.Ok? { r := ValidateMapping(cl, ctx, fuel, v, t); }
      case VariadicTuple(_) =>
        r := ValidateType(cl, ctx, v, TupleClass);
        if r.Ok? { r := ValidateCollection(cl, ctx, fuel, v, t); }
      case FixedTuple(_) =>
        r := ValidateType(cl, ctx, v, TupleClass);
        if r.Ok? { r := ValidateFixedTuple(cl, ctx, fuel, v, t); }
      case IteratorOf(o, _) => r := ValidateType(cl, ctx, v, IterOriginClass(o));
      case ContainerOf(_) =>
        r := ValidateType(cl, ctx, v, ContainerClass);
        if r.Ok? {
          if cl.isInstance(v, CollectionClass) {
            r := ValidateCollection(cl, ctx, fuel, v, t);
          } else {
            r := Unsupported(t, NoExplanation);
          }
        }
      case UserGeneric(c, _) => r := ValidateType(cl, ctx, v, c);
      case SubclassOf(args) =>
        r := ValidateType(cl, ctx, v, TypeClass);
        if r.Ok? {
          if |args| != 1 {
            r := Unsupported(t, NoExplanation);
          } else {
            r := ValidateSubtypeOf(cl, v, args[0]);
          }
        }
      case TypedDict(_, _) => r := ValidateTypedDict(cl, ctx, fuel, v, t);
      case Alias(_) => r := ValidateAlias(cl, ctx, fuel, v, t);
      case Opaque(_, why) => r := Unsupported(t, Explain(why));
    }
  }

  /** `_validate_typevar`. */
  method ValidateTypeVar(cl: Classes, ctx: Table, fuel: nat, v: Val, t: Ty) returns (r: Result)
    requires t.TypeVar?
    ensures r == Check(cl, ctx, fuel, v, t)
    decreases fuel, t, 0
  {
    r := Ok;
    if t.bound.Some? {
      r := Validate(cl, ctx, fuel, v, t.bound.value);
      if r.Fail? {
        r := Fail(TypeVarErr(v, t, r.failure));
      } else if r.SubclassCheckRaised? {
        r := AssertFailed;
      }
    }
  }

  /** `_validate_collection(val, t, ordered)`: the items in iteration order, up to the first failure. */
  method ValidateCollection(cl: Classes, ctx: Table, fuel: nat, v: Val, t: Ty) returns (r: Result)
    requires ItemHint(t)
    ensures r == CheckItems(cl, ctx, fuel, v, t, Iter(v), 0)
    decreases fuel, t, 0
  {
    var xs := Iter(v);
    var ordered := OrderedHint(t);
    for idx := 0 to |xs|
      invariant CheckItems(cl, ctx, fuel, v, t, xs, idx) == CheckItems(cl, ctx, fuel, v, t, xs, 0)
    {
      var e := Validate(cl, ctx, fuel, xs[idx], t.item);
      if e.Fail? {
        return Fail(IdxErr(v, t, e.failure, idx, ordered));
      } else if e.SubclassCheckRaised? {
        return AssertFailed;
      } else if !e.Ok? {
        return e;
      }
    }
    return Ok;
  }

  /** `_validate_mapping`: keys and values pair by pair, up to the first failure. */
  method ValidateMapping(cl: Classes, ctx: Table, fuel: nat, v: Val, t: Ty) returns (r: Result)
    requires t.Mapping?
    ensures r == CheckPairs(cl, ctx, fuel, v, t, Pairs(v), 0)
    decreases fuel, t, 0
  {
    var ps := Pairs(v);
    for i := 0 to |ps|
      invariant CheckPairs(cl, ctx, fuel, v, t, ps, i) == CheckPairs(cl, ctx, fuel, v, t, ps, 0)
    {
      var (key, value) := ps[i];
      var ek := Validate(cl, ctx, fuel, key, t.key);
      if ek.Fail? {
        return Fail(TypeErr(ctx, v, t, [ek.failure]));
      } else if ek.SubclassCheckRaised? {
        return Fail(TypeErr(ctx, v, t, []));
      } else if !ek.Ok? {
        return ek;
      }
      var ev := Validate(cl, ctx, fuel, value, t.value);
      if ev.Fail? {
        return Fail(KeyErr(v, t, ev.failure, key));
      } else if ev.SubclassCheckRaised? {
        return AssertFailed;
      } else if !ev.Ok? {
        return ev;
      }
    }
    return Ok;
  }

  /** The fixed-length half of `_validate_tuple`. */
  method ValidateFixedTuple(cl: Classes, ctx: Table, fuel: nat, v: Val, t: Ty) returns (r: Result)
    requires t.FixedTuple?
    ensures r == if |Iter(v)| != |t.items| then Fail(TypeErr(ctx, v, t, []))
                 else CheckFixed(cl, ctx, fuel, v, t, Iter(v), 0)
    decreases fuel, t, 0
  {
    var xs := Iter(v);
    if |xs| != |t.items| {
      return Fail(TypeErr(ctx, v, t, []));
    }
    for idx := 0 to |xs|
      invariant CheckFixed(cl, ctx, fuel, v, t, xs, idx) == CheckFixed(cl, ctx, fuel, v, t, xs, 0)
    {
      var e := Validate(cl, ctx, fuel, xs[idx], t.items[idx]);
      if e.Fail? {
        return Fail(IdxErr(v, t, e.failure, idx, true));
      } else if e.SubclassCheckRaised? {
        return AssertFailed;
      } else if !e.Ok? {
        return e;
      }
    }
    return Ok;
  }

  /** `_validate_union`: the first member that accepts the value wins. */
  method ValidateUnion(cl: Classes, ctx: Table, fuel: nat, v: Val, t: Ty) returns (r: Result)
    requires t.Union?
    ensures r == Check(cl, ctx, fuel, v, t)
    decreases fuel, t, 0
  {
    if t.members == [] {
      return Ok;
    }
    var memberErrors: seq<Failure> := [];
    for i := 0 to |t.members|
      invariant CheckUnion(cl, ctx, fuel, v, t, i, memberErrors) == CheckUnion(cl, ctx, fuel, v, t, 0, [])
    {
      var e := Validate(cl, ctx, fuel, v, t.members[i]);
      if e.Ok? {
        return Ok;
      } else if e.Fail? {
        memberErrors := memberErrors + [e.failure];
      } else if !e.SubclassCheckRaised? {
        return e;
      }
    }
    if !CausesEqual(cl.equals, v, memberErrors) {
      return AssertFailed;
    }
    return Fail(UnionErr(ctx, v, t, memberErrors));
  }

  /** `_validate_typed_dict`. */
  method ValidateTypedDict(cl: Classes, ctx: Table, fuel: nat, v: Val, t: Ty) returns (r: Result)
    requires t.TypedDict?
    ensures r == Check(cl, ctx, fuel, v, t)
    decreases fuel, t, 1
  {
    var e := ValidateStrMapping(cl, ctx, v);
    if e.Fail? {
      return Fail(TypeErr(ctx, v, t, [e.failure]));
    }
    var missingKeys := CollectMissingKeys(t.fields, v);
    if |missingKeys| > 0 {
      return Fail(MissingKeysErr(v, t, missingKeys));
    }
    r := ValidateFields(cl, ctx, fuel, v, t);
  }

  /** Step 2 of `_validate_typed_dict`: the required keys absent from the value. */
  method CollectMissingKeys(fields: seq<Field>, v: Val) returns (missingKeys: seq<string>)
    ensures missingKeys == MissingKeysOf(fields, v)
  {
    missingKeys := [];
    for i := 0 to |fields|
      invariant missingKeys + MissingKeysOf(fields[i..], v) == MissingKeysOf(fields, v)
    {
      MissingKeysStep(fields, i, v);
      var f := fields[i];
      if f.required && !HasKey(v, f.key) {
        missingKeys := missingKeys + [f.key];
      }
    }
    assert fields[|fields|..] == [];
  }

  lemma MissingKeysStep(fields: seq<Field>, i: nat, v: Val)
    requires i < |fields|
    ensures MissingKeysOf(fields[i..], v) ==
            (if fields[i].required && !HasKey(v, fields[i].key) then [fields[i].key] else [])
            + MissingKeysOf(fields[i + 1..], v)
  {
    assert fields[i..][1..] == fields[i + 1..];
    assert fields[i..][0] == fields[i];
  }

  /** Step 3 of `_validate_typed_dict`: the annotated keys present, in annotation order. */
  method ValidateFields(cl: Classes, ctx: Table, fuel: nat, v: Val, t: Ty) returns (r: Result)
    requires t.TypedDict?
    ensures r == CheckFields(cl, ctx, fuel, v, t, 0)
    decreases fuel, t, 0
  {
    for i := 0 to |t.fields|
      invariant CheckFields(cl, ctx, fuel, v, t, i) == CheckFields(cl, ctx, fuel, v, t, 0)
    {
      var f := t.fields[i];
      if HasKey(v, f.key) {
        var ev := Validate(cl, ctx, fuel, Lookup(v, f.key).value, f.ty);
        if ev.Fail? {
          return Fail(KeyErr(v, t, ev.failure, Str(f.key)));
        } else if ev.SubclassCheckRaised? {
          return AssertFailed;
        } else if !ev.Ok? {
          return ev;
        }
      }
    }
    return Ok;
  }

  /** `validate(val, Mapping[str, Any])` as step 1 of `_validate_typed_dict` runs it. */
  method ValidateStrMapping(cl: Classes, ctx: Table, v: Val) returns (r: Result)
    ensures r == CheckStrMapping(cl, ctx, v)
  {
    r := ValidateType(cl, ctx, v, MappingClass);
    if r.Fail? {
      return;
    }
    var ps := Pairs(v);
    for i := 0 to |ps|
      invariant CheckStrKeys(cl, ctx, v, ps, i) == CheckStrKeys(cl, ctx, v, ps, 0)
    {
      var ek := ValidateType(cl, ctx, ps[i].0, StrClass);
      if ek.Fail? {
        return Fail(TypeErr(ctx, v, StrMappingTy, [ek.failure]));
      }
    }
    return Ok;
  }

  /** `_validate_alias`: the aliased type, with the failure relabelled by the alias name. */
  method ValidateAlias(cl: Classes, ctx: Table, fuel: nat, v: Val, t: Ty) returns (r: Result)
    requires t.Alias?
    ensures r == Check(cl, ctx, fuel, v, t)
    decreases fuel, t, 0
  {
    var found := Find(ctx, t.alias);
    if found.None? {
      return Unsupported(t, UnknownAlias(t.alias));
    }
    if fuel == 0 {
      return Diverged;
    }
    r := Validate(cl, ctx, fuel - 1, v, found.value);
    if r.Fail? {
      r := Fail(AliasErr(t.alias, r.failure));
    } else if r.SubclassCheckRaised? {
      r := AssertFailed;
    }
  }

  /** `_validate_subtype_of(s, u)`. */
  method ValidateSubtypeOf(cl: Classes, s: Val, u: Ty) returns (r: Result)
    ensures r == SubtypeOf(cl, s, u)
  {
    var memberTypes := ExtractMemberTypes(u);
    if memberTypes.None? {
      return Ok;
    }
    var ms := memberTypes.value;
    for i := 0 to |ms|
      invariant forall k :: 0 <= k < i ==> IsClassHint(ms[k])
    {
      if !IsClassHint(ms[i]) {
        return BadSubtype(ms);
      }
    }
    for i := 0 to |ms|
      invariant SubclassCheck(cl, s, u, ms, i) == SubclassCheck(cl, s, u, ms, 0)
    {
      if RefusesSubclassCheck(ms[i]) {
        return SubclassCheckRaised(ms[i]);
      }
      if SubclassOfHint(cl, s, ms[i]) {
        return Ok;
      }
    }
    return Fail(SubtypeErr(s, u));
  }

  /**
   * `with validation_aliases(**bindings): validate(val, t)`: the scope extends
   * the table for the call and restores it afterwards.
   */
  method ValidateInScope(ac: AliasContext, bindings: Table, cl: Classes, fuel: nat, v: Val, t: Ty)
    returns (r: Result)
    modifies ac
    ensures ac.table == old(ac.table)
    ensures r == Check(cl, UpdateAll(old(ac.table), bindings), fuel, v, t)
  {
    var outer := ac.Enter(bindings);
    r := Validate(cl, ac.table, fuel, v, t);
    ac.Exit(outer);
  }

  // ---------------------------------------------------------------------------
  // The message of UnsupportedTypeError (validation.py:230-239)
  // ---------------------------------------------------------------------------

  /**
   * The hint suggested for an unknown alias; `plainName` says whether the
   * name is an identifier that is neither a keyword nor a soft keyword.
   */
  function AliasHint(name: string, plainName: string -> bool): string
  {
    if plainName(name) then "Perhaps set it with validation_aliases(" + name + "=...)?"
    else "Perhaps set it with validation_aliases(**{'" + name + "': ...})?"
  }

  /** The explanation appended to the message, led by a space, or nothing. */
  function ExplanationTail(e: Explanation, plainName: string -> bool): string
  {
    match e
    case NoExplanation => ""
    case NotHashableExpl => " Type is not hashable."
    case NotRuntimeProtocolExpl => " Protocol class is not runtime-checkable."
    case UnknownAlias(name) => " Type alias is not known. " + AliasHint(name, plainName)
  }

  const UnsupportedPrefix: string := "Unsupported validation for type "

  /**
   * `_unsupported_type_error(t, explanation)` as written: the message is a
   * plain string literal, so `{t!r}` appears in it verbatim.
   */
  function UnsupportedMessageAsWritten(t: Ty, e: Explanation, plainName: string -> bool): string
  {
    UnsupportedPrefix + "{t!r}" + "." + ExplanationTail(e, plainName)
  }

  /** What the message shows for the hint: the repr of the alias name for an alias, of the hint otherwise. */
  function Shown(p: Printer, t: Ty): string
  {
    if t.Alias? then p.reprStr(t.alias) else p.reprTy(t)
  }

  /** The message with the hint interpolated, as the placeholder intends. */
  function UnsupportedMessage(p: Printer, t: Ty, e: Explanation, plainName: string -> bool): string
  {
    UnsupportedPrefix + Shown(p, t) + "." + ExplanationTail(e, plainName)
  }

  // ---------------------------------------------------------------------------
  // Entry points (validation.py:920-1050)
  // ---------------------------------------------------------------------------

  /**
   * How a call of an entry point ends; `BadIterHint` is the `ValueError` of
   * `validated_iter`, and `NoFailureAttr` the `AttributeError` of `is_valid`
   * reading the failure of a `TypeError` that carries none.
   */
  datatype Outcome<T> = Returned(value: T) | Raised(error: Result) | BadIterHint | NoFailureAttr

  /**
   * `is_valid(val, t)`: the boolean returned and the failure it stores as the
   * latest one; errors other than a `TypeError` propagate, and a `TypeError`
   * without a failure makes the `getattr` of the handler raise.
   */
  function IsValid(cl: Classes, ctx: Table, fuel: nat, v: Val, t: Ty): (r: Outcome<(bool, Option<Failure>)>)
    ensures r.Returned? <==> Check(cl, ctx, fuel, v, t).Ok? || Check(cl, ctx, fuel, v, t).Fail?
    ensures r.Returned? ==> (r.value.0 <==> Check(cl, ctx, fuel, v, t).Ok?)
    ensures r.Returned? ==> (r.value.1.Some? <==> !r.value.0)
    ensures r.Returned? && r.value.1.Some? ==> r.value.1.value == Check(cl, ctx, fuel, v, t).failure
    ensures r.NoFailureAttr? <==> Check(cl, ctx, fuel, v, t).SubclassCheckRaised?
    ensures r.Raised? ==> r.error == Check(cl, ctx, fuel, v, t)
    ensures !r.BadIterHint?
  {
    var res := Check(cl, ctx, fuel, v, t);
    match res
    case Ok => Returned((true, None))
    case Fail(f) => Returned((false, Some(f)))
    case SubclassCheckRaised(_) => NoFailureAttr
    case _ => Raised(res)
  }

  /** `validated(val, t)`: the value itself, once `validate` has accepted it. */
  function Validated(cl: Classes, ctx: Table, fuel: nat, v: Val, t: Ty): (r: Outcome<Val>)
    ensures r.Returned? <==> Check(cl, ctx, fuel, v, t).Ok?
    ensures r.Returned? ==> r.value == v
    ensures r.Raised? ==> r.error == Check(cl, ctx, fuel, v, t)
    ensures !r.BadIterHint? && !r.NoFailureAttr?
  {
    var res := Check(cl, ctx, fuel, v, t);
    if res.Ok? then Returned(v) else Raised(res)
  }

  /**
   * The generator `(validated(item, item_t) for item in val)` drained from
   * item `i` on: every item, if all are accepted, and otherwise the error of
   * the first item that is not.
   */
  function ValidatedItems(cl: Classes, ctx: Table, fuel: nat, xs: seq<Val>, item: Ty, i: nat): (r: Outcome<seq<Val>>)
    requires i <= |xs|
    ensures r.Returned? <==> forall k :: i <= k < |xs| ==> Check(cl, ctx, fuel, xs[k], item).Ok?
    ensures r.Returned? ==> r.value == xs[i..]
    ensures r.Raised? ==> exists k :: i <= k < |xs| && (forall j :: i <= j < k ==> Check(cl, ctx, fuel, xs[j], item).Ok?)
                                   && !Check(cl, ctx, fuel, xs[k], item).Ok? && r.error == Check(cl, ctx, fuel, xs[k], item)
    ensures !r.BadIterHint? && !r.NoFailureAttr?
    decreases |xs| - i
  {
    if i == |xs| then Returned([])
    else
      var res := Check(cl, ctx, fuel, xs[i], item);
      if !res.Ok? then Raised(res)
      else
        var rest := ValidatedItems(cl, ctx, fuel, xs, item, i + 1);
        if rest.Returned? then
          assert [xs[i]] + xs[i + 1..] == xs[i..];
          Returned([xs[i]] + rest.value)
        else rest
  }

  /** The bare `Iterator` and `Iterable` hints, which `validated_iter` passes through. */
  predicate BareIterHint(t: Ty)
  {
    t == Class(IterOriginClass(Iterator)) || t == Class(IterOriginClass(Iterable))
  }

  /**
   * `validated_iter(val, t)`: the value is validated against `t` first; the
   * bare iterator hints return it as it is, `Iterator[T]`/`Iterable[T]` yield
   * each item validated against `T`, and any other hint is a `ValueError`.
   * The items are those the generator yields when drained.
   */
  function ValidatedIter(cl: Classes, ctx: Table, fuel: nat, v: Val, t: Ty): (r: Outcome<seq<Val>>)
    ensures !Check(cl, ctx, fuel, v, t).Ok? ==> r == Raised(Check(cl, ctx, fuel, v, t))
    ensures r.Returned? <==>
      Check(cl, ctx, fuel, v, t).Ok? &&
      (BareIterHint(t) || (t.IteratorOf? && forall k :: 0 <= k < |Iter(v)| ==> Check(cl, ctx, fuel, Iter(v)[k], t.item).Ok?))
    ensures r.Returned? ==> r.value == Iter(v)
    ensures r.BadIterHint? <==> Check(cl, ctx, fuel, v, t).Ok? && !BareIterHint(t) && !t.IteratorOf?
    ensures !r.NoFailureAttr?
  {
    var res := Check(cl, ctx, fuel, v, t);
    if !res.Ok? then Raised(res)
    else if BareIterHint(t) then Returned(Iter(v))
    else if t.IteratorOf? then
      var items := ValidatedItems(cl, ctx, fuel, Iter(v), t.item, 0);
      assert Iter(v)[0..] == Iter(v);
      items
    else BadIterHint
  }

  /**
   * The error `validate` raises for a result other than `Ok`, as
   * `get_validation_failure` sees it: the failure of a `TypeError` raised by
   * the matcher, a `ValueError` for the `TypeError` of `issubclass`, and a
   * `TypeError` for every error that is not one.
   */
  function RaisedError(r: Result): (e: ErrorObj)
    requires !r.Ok?
    ensures GetValidationFailure(e) ==
      if r.Fail? then Found(r.failure) else if r.SubclassCheckRaised? then RaisesValueError else RaisesTypeError
  {
    if r.Fail? then ErrorObj(true, FailureAttr(r.failure))
    else if r.SubclassCheckRaised? then ErrorObj(true, NoAttr)
    else ErrorObj(false, NoAttr)
  }
}
