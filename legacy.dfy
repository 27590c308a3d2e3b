/**
 * The earlier matcher of typing_validation/validate.py: `validate(val, t)`
 * as a function `Legacy` over translated type hints, its failure tree and
 * message (the old `ValidationFailure` and `_type_error`), and the imperative
 * `LegacyValidator` whose `latest` field is the module-level
 * `_validation_failure` slot that every call of `validate`, nested ones
 * included, resets and sets.
 *
 * This matcher knows no aliases, so its failures carry the empty alias table
 * and only the kinds `Plain` and `UnionOf`.
 */
module LegacyMatcher {
  import opened Types
  import opened Aliases
  import opened ValidationFailure

  /**
   * How `_validate(val, t)` ends: it returns, raises `TypeError` with a
   * `validation_failure` attribute, raises `ValueError`, raises a `TypeError`
   * of the interpreter's own that carries no failure tree, or raises the
   * `AssertionError` of `ValidationFailure.__new__` for a union value that is
   * not `==` to itself. No `validate` catches that last error, so the slot
   * `_validation_failure` keeps what the innermost call left in it, `slot`.
   */
  datatype OldOutcome =
    | LOk
    | LFail(failure: Failure)
    | LValueError
    | LBareTypeError
    | LAssertionError(slot: Option<Failure>)

  /** Whether the outcome is a `TypeError`, which the item loops and the union loop catch. */
  predicate IsTypeError(o: OldOutcome)
  {
    o.LFail? || o.LBareTypeError?
  }

  /** The failure trees `_type_error` keeps from a caught error: those of errors that carry one. */
  function Attached(o: OldOutcome): (r: seq<Failure>)
    ensures |r| <= 1 && (o.LFail? <==> |r| == 1)
  {
    if o.LFail? then [o.failure] else []
  }

  /**
   * What the slot `_validation_failure` holds once a call `validate(val, t)`
   * has ended with `o`: the failure tree of a `TypeError` that carries one,
   * what an `AssertionError` left in it, nothing otherwise.
   */
  function SlotAfter(o: OldOutcome): (s: Option<Failure>)
    ensures o.LFail? ==> s == Some(o.failure)
    ensures o.LValueError? || o.LOk? || o.LBareTypeError? ==> s == None
  {
    match o
    case LFail(f) => Some(f)
    case LAssertionError(slot) => slot
    case _ => None
  }

  /** `_type_error(val, t, *causes)`: a plain failure. */
  function OldErr(v: Val, t: Ty, causes: seq<Failure>): Failure
  {
    Failure(v, t, causes, Plain, [])
  }

  /** `_type_error(val, t, *causes, is_union=True)`. */
  function OldUnionErr(v: Val, t: Ty, causes: seq<Failure>): Failure
  {
    Failure(v, t, causes, UnionOf, [])
  }

  /** The hints whose items the old matcher validates one by one. */
  predicate LegacyItemHint(t: Ty)
  {
    t.Collection? || t.VariadicTuple? || t.ContainerOf? || t.IteratorOf?
  }

  /** `_validate_type(val, c)`, then `rest` if the value is an instance of `c`. */
  function Guard(cl: Classes, v: Val, c: ClassName, rest: OldOutcome): OldOutcome
  {
    if cl.isInstance(v, c) then rest else LFail(OldErr(v, Class(c), []))
  }

  /** `_validate(val, t)`. */
  function Legacy(cl: Classes, v: Val, t: Ty): OldOutcome
    decreases t, 1
  {
    match t
    case AnyTy => LOk
    case NoneTy => if v == NoneVal then LOk else LFail(OldErr(v, t, []))
    case Class(c) => if cl.isInstance(v, c) then LOk else LFail(OldErr(v, t, []))
    // UnsupportedType[T] is a fresh class without instances
    case Marked(_) => LFail(OldErr(v, t, []))
    // X | Y has no __origin__ and is not a class
    case Union(ms, pep604) =>
      if pep604 then LValueError
      else if ms == [] then LOk
      else LegacyUnion(cl, v, t, 0, [])
    case Literal(vs) =>
      if exists i :: 0 <= i < |vs| && cl.equals(v, vs[i]) then LOk else LFail(OldErr(v, t, []))
    case Collection(o, _) => Guard(cl, v, CollOriginClass(o), LegacyItems(cl, v, t, Iter(v), 0))
    case Mapping(o, _, _) => Guard(cl, v, MapOriginClass(o), LegacyPairs(cl, v, t, Pairs(v), 0))
    case VariadicTuple(_) => Guard(cl, v, TupleClass, LegacyItems(cl, v, t, Iter(v), 0))
    case FixedTuple(items) =>
      Guard(cl, v, TupleClass,
        if |Iter(v)| != |items| then LFail(OldErr(v, t, [])) else LegacyFixed(cl, v, t, Iter(v), 0))
    // Iterable[T] is validated as a collection when the value is one
    case IteratorOf(o, _) =>
      Guard(cl, v, IterOriginClass(o),
        if o.Iterable? && cl.isInstance(v, CollectionClass) then LegacyItems(cl, v, t, Iter(v), 0) else LValueError)
    case ContainerOf(_) =>
      Guard(cl, v, ContainerClass,
        if cl.isInstance(v, CollectionClass) then LegacyItems(cl, v, t, Iter(v), 0) else LValueError)
    // a TypedDict is a class, and isinstance refuses it
    case TypedDict(_, _) => LBareTypeError
    // hashing an unhashable hint, or isinstance on a protocol that is not runtime-checkable
    case Opaque(_, why) => if why.Unrecognised? then LValueError else LBareTypeError
    case TypeVar(_, _) => LValueError
    case UserGeneric(_, _) => LValueError
    case SubclassOf(_) => LValueError
    case Alias(_) => LValueError
  }

  /** `_validate_collection` and the variadic half of `_validate_tuple`, from item `i` on. */
  function LegacyItems(cl: Classes, v: Val, t: Ty, xs: seq<Val>, i: nat): OldOutcome
    requires LegacyItemHint(t) && i <= |xs|
    decreases t, 0, |xs| - i
  {
    if i == |xs| then LOk
    else
      var r := Legacy(cl, xs[i], t.item);
      if r.LOk? then LegacyItems(cl, v, t, xs, i + 1)
      else if IsTypeError(r) then LFail(OldErr(v, t, Attached(r)))
      else r
  }

  /** `_validate_mapping`, from pair `i` on: key and value in the same `try`. */
  function LegacyPairs(cl: Classes, v: Val, t: Ty, ps: seq<(Val, Val)>, i: nat): OldOutcome
    requires t.Mapping? && i <= |ps|
    decreases t, 0, |ps| - i
  {
    if i == |ps| then LOk
    else
      var r := PairOutcome(cl, t, ps[i]);
      if r.LOk? then LegacyPairs(cl, v, t, ps, i + 1)
      else if IsTypeError(r) then LFail(OldErr(v, t, Attached(r)))
      else r
  }

  /** The body of the `try` of `_validate_mapping` for one pair. */
  function PairOutcome(cl: Classes, t: Ty, kv: (Val, Val)): OldOutcome
    requires t.Mapping?
    decreases t, 0, 0
  {
    var rk := Legacy(cl, kv.0, t.key);
    if rk.LOk? then Legacy(cl, kv.1, t.value) else rk
  }

  /** The fixed-length half of `_validate_tuple`, from position `i` on. */
  function LegacyFixed(cl: Classes, v: Val, t: Ty, xs: seq<Val>, i: nat): OldOutcome
    requires t.FixedTuple? && |xs| == |t.items| && i <= |xs|
    decreases t, 0, |xs| - i
  {
    if i == |xs| then LOk
    else
      var r := Legacy(cl, xs[i], t.items[i]);
      if r.LOk? then LegacyFixed(cl, v, t, xs, i + 1)
      else if IsTypeError(r) then LFail(OldErr(v, t, Attached(r)))
      else r
  }

  /** `_validate_union`, from member `i` on, with the failure trees `errs` kept so far. */
  function LegacyUnion(cl: Classes, v: Val, t: Ty, i: nat, errs: seq<Failure>): OldOutcome
    requires t.Union? && i <= |t.members|
    decreases t, 0, |t.members| - i + 1
  {
    if i == |t.members| then OldUnionEnd(cl, v, t, errs)
    else
      var r := Legacy(cl, v, t.members[i]);
      if r.LOk? then LOk
      else if IsTypeError(r) then LegacyUnion(cl, v, t, i + 1, errs + Attached(r))
      else r
  }

  /**
   * `raise _type_error(val, t, *member_errors, is_union=True)` once every
   * member raised `TypeError`: the assertion of `ValidationFailure.__new__`
   * fails unless `val` is `==` to the value of every failure tree kept, and
   * the slot then holds what the call on the last member left in it.
   */
  function OldUnionEnd(cl: Classes, v: Val, t: Ty, errs: seq<Failure>): OldOutcome
    requires t.Union?
    decreases t, 0, 0
  {
    if CausesEqual(cl.equals, v, errs) then LFail(OldUnionErr(v, t, errs))
    else if t.members == [] then LAssertionError(None)
    else LAssertionError(SlotAfter(Legacy(cl, v, t.members[|t.members| - 1])))
  }

  // ---------------------------------------------------------------------------
  // The old `ValidationFailure.__str__`
  // ---------------------------------------------------------------------------

  /** The first line of the message. */
  function OldHeader(p: Printer, f: Failure): string
  {
    "For type " + p.reprTy(f.t) + ", invalid value: " + p.reprVal(f.val)
  }

  /** `str(f)`. */
  function OldText(p: Printer, f: Failure): string
    decreases f, 2
  {
    OldHeader(p, f) + (if f.kind.UnionOf? then OldUnionTail(p, f, 0) else OldCauseTail(p, f, 0))
  }

  /** What the loop over the causes of a non-union failure appends, from cause `i` on. */
  function OldCauseTail(p: Printer, f: Failure, i: nat): string
    requires i <= |f.causes|
    decreases f, 1, |f.causes| - i
  {
    if i == |f.causes| then "" else "\n" + Indent(OldText(p, f.causes[i])) + OldCauseTail(p, f, i + 1)
  }

  /** What the loop over the member failures of a union appends, from member `i` on. */
  function OldUnionTail(p: Printer, f: Failure, i: nat): string
    requires i <= |f.causes|
    decreases f, 1, |f.causes| - i
  {
    if i == |f.causes| then "" else OldMemberDetails(p, f.causes[i]) + OldUnionTail(p, f, i + 1)
  }

  /** The details of one member failure of a union: nothing when it has no causes of its own. */
  function OldMemberDetails(p: Printer, c: Failure): string
    decreases c, 1, 0
  {
    if c.causes == [] then ""
    else "\n" + Indent("Detailed failures for member type " + p.reprTy(c.t) + ":") + OldSubTail(p, c, 0)
  }

  /** The details of one expanded member failure `c`, from its cause `j` on, indented twice. */
  function OldSubTail(p: Printer, c: Failure, j: nat): string
    requires j <= |c.causes|
    decreases c, 0, |c.causes| - j
  {
    if j == |c.causes| then "" else "\n" + Indent(Indent(OldText(p, c.causes[j]))) + OldSubTail(p, c, j + 1)
  }

  /** One `msg += piece` of a loop that builds `total` piece by piece. */
  lemma Appended(msg: string, piece: string, rest: string, total: string)
    requires msg + (piece + rest) == total
    ensures (msg + piece) + rest == total
  {
  }

  /** `ValidationFailure.__str__`, with its loops. */
  method OldStr(p: Printer, f: Failure) returns (msg: string)
    ensures msg == OldText(p, f)
    decreases f, 3
  {
    var tail;
    if f.kind.UnionOf? {
      tail := OldStrUnion(p, f);
    } else {
      tail := OldStrCauses(p, f);
    }
    msg := OldHeader(p, f) + tail;
  }

  /** The loop over the causes of a non-union failure. */
  method OldStrCauses(p: Printer, f: Failure) returns (msg: string)
    ensures msg == OldCauseTail(p, f, 0)
    decreases f, 2
  {
    msg := "";
    for i := 0 to |f.causes|
      invariant msg + OldCauseTail(p, f, i) == OldCauseTail(p, f, 0)
    {
      var s := OldStr(p, f.causes[i]);
      var line := "\n" + Indent(s);
      Appended(msg, line, OldCauseTail(p, f, i + 1), OldCauseTail(p, f, 0));
      msg := msg + line;
    }
  }

  /** The loop over the member failures of a union: only those with causes of their own are expanded. */
  method OldStrUnion(p: Printer, f: Failure) returns (msg: string)
    ensures msg == OldUnionTail(p, f, 0)
    decreases f, 2
  {
    msg := "";
    for i := 0 to |f.causes|
      invariant msg + OldUnionTail(p, f, i) == OldUnionTail(p, f, 0)
    {
      var cause := f.causes[i];
      var details := "";
      if cause.causes != [] {
        var sub := OldStrMember(p, cause);
        details := "\n" + Indent("Detailed failures for member type " + p.reprTy(cause.t) + ":") + sub;
      }
      assert details == OldMemberDetails(p, cause);
      Appended(msg, details, OldUnionTail(p, f, i + 1), OldUnionTail(p, f, 0));
      msg := msg + details;
    }
  }

  /** The inner loop of the union case, over the causes of one member failure. */
  method OldStrMember(p: Printer, c: Failure) returns (msg: string)
    ensures msg == OldSubTail(p, c, 0)
    decreases c, 1
  {
    msg := "";
    for j := 0 to |c.causes|
      invariant msg + OldSubTail(p, c, j) == OldSubTail(p, c, 0)
    {
      var s := OldStr(p, c.causes[j]);
      var line := "\n" + Indent(Indent(s));
      Appended(msg, line, OldSubTail(p, c, j + 1), OldSubTail(p, c, 0));
      msg := msg + line;
    }
  }

  // ---------------------------------------------------------------------------
  // `validate` and the slot `_validation_failure`
  // ---------------------------------------------------------------------------

  /** The module state of validate.py. */
  class LegacyValidator {
    /** `_validation_failure`: the failure tree of the latest call of `validate`. */
    var latest: Option<Failure>

    /** The module is loaded with the slot empty. */
    constructor ()
      ensures latest == None
    {
      latest := None;
    }

    /**
     * `validate(val, t)`: the slot is reset, and afterwards holds the failure
     * tree when the call raises a `TypeError` that carries one, what the
     * innermost union left in it when the call raises `AssertionError`, and
     * nothing otherwise.
     */
    method Validate(cl: Classes, v: Val, t: Ty) returns (r: OldOutcome)
      modifies this
      ensures r == Legacy(cl, v, t)
      ensures latest == SlotAfter(r)
      decreases t, 4
    {
      latest := None;
      r := Dispatch(cl, v, t);
      if r.LFail? {
        latest := Some(r.failure);
      }
    }

    /** `_validate(val, t)`, entered with the slot just reset. */
    method Dispatch(cl: Classes, v: Val, t: Ty) returns (r: OldOutcome)
      requires latest == None
      modifies this
      ensures r == Legacy(cl, v, t)
      ensures !r.LFail? ==> latest == SlotAfter(r)
      decreases t, 3
    {
      match t {
        case AnyTy => r := LOk;
        case NoneTy => r := if v == NoneVal then LOk else LFail(OldErr(v, t, []));
        case Class(c) => r := if cl.isInstance(v, c) then LOk else LFail(OldErr(v, t, []));
        case Marked(_) => r := LFail(OldErr(v, t, []));
        case Union(ms, pep604) =>
          if pep604 {
            r := LValueError;
          } else {
            r := ValidateUnion(cl, v, t);
          }
        case Literal(vs) =>
          r := if exists i :: 0 <= i < |vs| && cl.equals(v, vs[i]) then LOk else LFail(OldErr(v, t, []));
        case Collection(_, _) => r := DispatchParametric(cl, v, t);
        case Mapping(_, _, _) => r := DispatchParametric(cl, v, t);
        case VariadicTuple(_) => r := DispatchParametric(cl, v, t);
        case FixedTuple(_) => r := DispatchParametric(cl, v, t);
        case IteratorOf(_, _) => r := DispatchParametric(cl, v, t);
        case ContainerOf(_) => r := DispatchParametric(cl, v, t);
        case TypedDict(_, _) => r := LBareTypeError;
        case Opaque(_, why) => r := if why.Unrecognised? then LValueError else LBareTypeError;
        case TypeVar(_, _) => r := LValueError;
        case UserGeneric(_, _) => r := LValueError;
        case SubclassOf(_) => r := LValueError;
        case Alias(_) => r := LValueError;
      }
    }

    /** The branch of `_validate` for the parameterised origins: the origin check, then the items. */
    method DispatchParametric(cl: Classes, v: Val, t: Ty) returns (r: OldOutcome)
      requires LegacyItemHint(t) || t.Mapping? || t.FixedTuple?
      requires latest == None
      modifies this
      ensures r == Legacy(cl, v, t)
      ensures !r.LFail? ==> latest == SlotAfter(r)
      decreases t, 2
    {
      match t {
        case Collection(o, _) =>
          r := ValidateType(cl, v, CollOriginClass(o));
          if r.LOk? { r := ValidateItems(cl, v, t); }
        case Mapping(o, _, _) =>
          r := ValidateType(cl, v, MapOriginClass(o));
          if r.LOk? { r := ValidatePairs(cl, v, t); }
        case VariadicTuple(_) =>
          r := ValidateType(cl, v, TupleClass);
          if r.LOk? { r := ValidateItems(cl, v, t); }
        case FixedTuple(_) =>
          r := ValidateType(cl, v, TupleClass);
          if r.LOk? { r := ValidateFixed(cl, v, t); }
        case IteratorOf(o, _) =>
          r := ValidateType(cl, v, IterOriginClass(o));
          if r.LOk? {
            if o.Iterable? && cl.isInstance(v, CollectionClass) {
              r := ValidateItems(cl, v, t);
            } else {
              r := LValueError;
            }
          }
        case ContainerOf(_) =>
          r := ValidateType(cl, v, ContainerClass);
          if r.LOk? {
            if cl.isInstance(v, CollectionClass) {
              r := ValidateItems(cl, v, t);
            } else {
              r := LValueError;
            }
          }
      }
    }

    /** `_validate_type(val, c)`. */
    method ValidateType(cl: Classes, v: Val, c: ClassName) returns (r: OldOutcome)
      ensures r == Guard(cl, v, c, LOk)
    {
      if !cl.isInstance(v, c) {
        return LFail(OldErr(v, Class(c), []));
      }
      return LOk;
    }

    /** The loop of `_validate_collection`: up to the first item that raises. */
    method ValidateItems(cl: Classes, v: Val, t: Ty) returns (r: OldOutcome)
      requires LegacyItemHint(t) && latest == None
      modifies this
      ensures r == LegacyItems(cl, v, t, Iter(v), 0)
      ensures !r.LFail? ==> latest == SlotAfter(r)
      decreases t, 1
    {
      var xs := Iter(v);
      for i := 0 to |xs|
        invariant LegacyItems(cl, v, t, xs, i) == LegacyItems(cl, v, t, xs, 0)
        invariant latest == None
      {
        var e := Validate(cl, xs[i], t.item);
        if IsTypeError(e) {
          return LFail(OldErr(v, t, Attached(e)));
        } else if !e.LOk? {
          return e;
        }
      }
      return LOk;
    }

    /** The loop of `_validate_mapping`. */
    method ValidatePairs(cl: Classes, v: Val, t: Ty) returns (r: OldOutcome)
      requires t.Mapping? && latest == None
      modifies this
      ensures r == LegacyPairs(cl, v, t, Pairs(v), 0)
      ensures !r.LFail? ==> latest == SlotAfter(r)
      decreases t, 1
    {
      var ps := Pairs(v);
      for i := 0 to |ps|
        invariant LegacyPairs(cl, v, t, ps, i) == LegacyPairs(cl, v, t, ps, 0)
        invariant latest == None
      {
        var (key, value) := ps[i];
        var e := Validate(cl, key, t.key);
        if e.LOk? {
          e := Validate(cl, value, t.value);
        }
        if IsTypeError(e) {
          return LFail(OldErr(v, t, Attached(e)));
        } else if !e.LOk? {
          return e;
        }
      }
      return LOk;
    }

    /** The fixed-length half of `_validate_tuple`. */
    method ValidateFixed(cl: Classes, v: Val, t: Ty) returns (r: OldOutcome)
      requires t.FixedTuple? && latest == None
      modifies this
      ensures r == if |Iter(v)| != |t.items| then LFail(OldErr(v, t, [])) else LegacyFixed(cl, v, t, Iter(v), 0)
      ensures !r.LFail? ==> latest == SlotAfter(r)
      decreases t, 1
    {
      var xs := Iter(v);
      if |xs| != |t.items| {
        return LFail(OldErr(v, t, []));
      }
      for i := 0 to |xs|
        invariant LegacyFixed(cl, v, t, xs, i) == LegacyFixed(cl, v, t, xs, 0)
        invariant latest == None
      {
        var e := Validate(cl, xs[i], t.items[i]);
        if IsTypeError(e) {
          return LFail(OldErr(v, t, Attached(e)));
        } else if !e.LOk? {
          return e;
        }
      }
      return LOk;
    }

    /**
     * `_validate_union` for a `typing.Union`: the first member that accepts
     * the value wins, and the slot after each member is what its `validate` left.
     */
    method ValidateUnion(cl: Classes, v: Val, t: Ty) returns (r: OldOutcome)
      requires t.Union? && !t.pep604 && latest == None
      modifies this
      ensures r == Legacy(cl, v, t)
      ensures !r.LFail? ==> latest == SlotAfter(r)
      decreases t, 1
    {
      if t.members == [] {
        return LOk;
      }
      var memberErrors: seq<Failure> := [];
      for i := 0 to |t.members|
        invariant LegacyUnion(cl, v, t, i, memberErrors) == LegacyUnion(cl, v, t, 0, [])
        invariant latest == if i == 0 then None else SlotAfter(Legacy(cl, v, t.members[i - 1]))
      {
        var e := Validate(cl, v, t.members[i]);
        if e.LOk? {
          return LOk;
        } else if IsTypeError(e) {
          memberErrors := memberErrors + Attached(e);
        } else {
          return e;
        }
      }
      if !CausesEqual(cl.equals, v, memberErrors) {
        return LAssertionError(latest);
      }
      return LFail(OldUnionErr(v, t, memberErrors));
    }
  }
}
