/**
 * The type inspector of typing_validation/inspector.py and the inspector
 * branches of `validate` (typing_validation/validation.py).
 *
 * `validate(inspector, t)` is a dry run: instead of checking a value it
 * appends one tagged record per constructor it meets, in preorder, to a
 * trace; a one-slot buffer holds the origin of a generic type until the
 * record of its arguments arrives; unsupported parts are recorded, never
 * raised. `_recorded_type` and `_repr` read the trace back with an index
 * cursor.
 */
module Inspector {
  import opened Types
  import opened Aliases
  import opened Validation
  import opened ValidationProperties
  import ValidationFailure

  // ---------------------------------------------------------------------------
  // Trace records (the `TypeConstructorArgs` pairs)
  // ---------------------------------------------------------------------------

  /** The origin class of a generic type, held in the pending slot. */
  datatype Origin =
    | OColl(co: CollOrigin)
    | OMap(mo: MapOrigin)
    | OTuple
    | OIter(io: IterOrigin)
    | OContainer
    | OUser(cls: ClassName)
    | OType

  function OriginClass(o: Origin): ClassName
  {
    match o
    case OColl(c) => CollOriginClass(c)
    case OMap(m) => MapOriginClass(m)
    case OTuple => TupleClass
    case OIter(i) => IterOriginClass(i)
    case OContainer => ContainerClass
    case OUser(c) => c
    case OType => TypeClass
  }

  /** The constructor tags that may combine with a pending origin. */
  datatype Tag =
    | TCollection                 // ("collection", None)
    | TMapping                    // ("mapping", None)
    | TTuple(count: Option<nat>)  // ("tuple", None) variadic, ("tuple", n) fixed
    | TUserClass(n: nat)          // ("user-class", n)

  /** How many sub-records follow a constructor record with this tag. */
  function TagArity(tag: Tag): nat
  {
    match tag
    case TCollection => 1
    case TMapping => 2
    case TTuple(c) => if c.Some? then c.value else 1
    case TUserClass(n) => n
  }

  /** One entry of `_recorded_constructors`. */
  datatype Entry =
    | ENone                              // ("none", None)
    | EAny                               // ("any", None)
    | EType(ty: Ty)                      // ("type", t) for a plain type
    | EGeneric(origin: Origin, tag: Tag) // ("type", (origin, tag, param)), built from a pending origin
    | ETag(tag: Tag)                     // (tag, param) recorded with nothing pending
    | ETypedDict(td: Ty)                 // ("typed-dict", t)
    | ETypeVar(tv: Ty)                   // ("typevar", t)
    | EUnion(members: nat, pep604: bool) // ("union", (n, use_UnionType))
    | ELiteral(values: seq<Val>)         // ("literal", values)
    | EAlias(name: string)               // ("alias", name)
    | EUnsupported(unsupported: Ty)      // ("unsupported", t)

  /** The unsupported types recorded in a trace, in trace order. */
  function UnsupportedIn(tr: seq<Entry>): seq<Ty>
  {
    if tr == [] then []
    else (if tr[0].EUnsupported? then [tr[0].unsupported] else []) + UnsupportedIn(tr[1..])
  }

  lemma {:induction false} UnsupportedInAppend(a: seq<Entry>, b: seq<Entry>)
    ensures UnsupportedIn(a + b) == UnsupportedIn(a) + UnsupportedIn(b)
    decreases |a|
  {
    if a == [] {
      assert a + b == b;
    } else {
      assert (a + b)[0] == a[0];
      assert (a + b)[1..] == a[1..] + b;
      UnsupportedInAppend(a[1..], b);
      var h := if a[0].EUnsupported? then [a[0].unsupported] else [];
      assert UnsupportedIn(a) == h + UnsupportedIn(a[1..]);
      assert UnsupportedIn(a + b) == h + UnsupportedIn(a[1..] + b);
    }
  }

  // ---------------------------------------------------------------------------
  // What the dry run records for a hint
  // ---------------------------------------------------------------------------

  /** `Type[u]` is recorded as a generic of `type` only when `u` can be checked. */
  predicate SubclassRecordable(args: seq<Ty>)
  {
    |args| == 1 && CanValidateSubtypeOf(args[0])
  }

  /** The number of sub-hints the dry run visits after recording `t` itself. */
  function Arity(t: Ty): nat
  {
    match t
    case TypeVar(_, bound) => if bound.Some? then 1 else 0
    case Union(ms, _) => |ms|
    case Collection(_, _) => 1
    case Mapping(_, _, _) => 2
    case VariadicTuple(_) => 1
    case FixedTuple(items) => |items|
    case IteratorOf(_, _) => 1
    case UserGeneric(_, args) => |args|
    case SubclassOf(args) => if SubclassRecordable(args) then 1 else 0
    case TypedDict(_, fields) => |fields|
    case _ => 0
  }

  /** The `i`-th sub-hint visited: the bound, a member, an item, a key or value type, an annotation. */
  function Kid(t: Ty, i: nat): Ty
    requires i < Arity(t)
  {
    match t
    case TypeVar(_, bound) => bound.value
    case Union(ms, _) => ms[i]
    case Collection(_, item) => item
    case Mapping(_, key, value) => if i == 0 then key else value
    case VariadicTuple(item) => item
    case FixedTuple(items) => items[i]
    case IteratorOf(_, item) => item
    case UserGeneric(_, args) => args[i]
    case SubclassOf(args) => args[0]
    case TypedDict(_, fields) => fields[i].ty
  }

  /** The record appended for `t` itself, with the alias table `ctx` in force. */
  function Head(ctx: Table, t: Ty): Entry
  {
    match t
    case AnyTy => EAny
    case NoneTy => ENone
    case Class(_) => EType(t)
    case Marked(_) => EType(t)
    case TypeVar(_, _) => ETypeVar(t)
    case Union(ms, pep604) => EUnion(|ms|, pep604)
    case Literal(vs) => ELiteral(vs)
    case Collection(o, _) => EGeneric(OColl(o), TCollection)
    case Mapping(o, _, _) => EGeneric(OMap(o), TMapping)
    case VariadicTuple(_) => EGeneric(OTuple, TTuple(None))
    case FixedTuple(items) => EGeneric(OTuple, TTuple(Some(|items|)))
    case IteratorOf(o, _) => EGeneric(OIter(o), TCollection)
    case ContainerOf(_) => EUnsupported(t)
    case UserGeneric(c, args) => EGeneric(OUser(c), TUserClass(|args|))
    case SubclassOf(args) => if SubclassRecordable(args) then EGeneric(OType, TUserClass(1)) else EUnsupported(t)
    case TypedDict(_, _) => ETypedDict(t)
    case Alias(name) => if Find(ctx, name).Some? then EAlias(name) else EUnsupported(t)
    case Opaque(_, _) => EUnsupported(t)
  }

  /** The trace `validate(inspector, t)` appends: the record of `t`, then those of its sub-hints. */
  function Encode(ctx: Table, t: Ty): (r: seq<Entry>)
    ensures |r| >= 1
    decreases t, 1, 0
  {
    [Head(ctx, t)] + EncodeFrom(ctx, t, 0)
  }

  function EncodeFrom(ctx: Table, t: Ty, i: nat): seq<Entry>
    requires i <= Arity(t)
    decreases t, 0, Arity(t) - i
  {
    if i == Arity(t) then [] else Encode(ctx, Kid(t, i)) + EncodeFrom(ctx, t, i + 1)
  }

  /** `_record_union` asserts that a PEP 604 union has a member; no other hint can make the dry run fail. */
  predicate Recordable(t: Ty)
    decreases t
  {
    (t.Union? && t.pep604 ==> |t.members| > 0)
    && forall i :: 0 <= i < Arity(t) ==> Recordable(Kid(t, i))
  }

  /** Every union visited has at least `n` members. */
  predicate UnionsAtLeast(t: Ty, n: nat)
    decreases t
  {
    (t.Union? ==> |t.members| >= n)
    && forall i :: 0 <= i < Arity(t) ==> UnionsAtLeast(Kid(t, i), n)
  }

  /** No TypeVar is visited. */
  predicate TypeVarFree(t: Ty)
    decreases t
  {
    !t.TypeVar? && forall i :: 0 <= i < Arity(t) ==> TypeVarFree(Kid(t, i))
  }

  /** No fixed tuple and no user generic visited has an empty argument list. */
  predicate ArgsNonEmpty(t: Ty)
    decreases t
  {
    (t.FixedTuple? ==> |t.items| > 0)
    && (t.UserGeneric? ==> |t.args| > 0)
    && forall i :: 0 <= i < Arity(t) ==> ArgsNonEmpty(Kid(t, i))
  }

  // ---------------------------------------------------------------------------
  // Reading the trace back: `_recorded_type`
  // ---------------------------------------------------------------------------

  /** The stand-in for the empty tuple `()` that a zero-item fixed tuple or user class is applied to. */
  const EmptyTupleArg: Ty := FixedTuple([])

  /** The argument list a fixed tuple or user class is rebuilt with: `[tuple()]` when there is none. */
  function Args(items: seq<Ty>): (r: seq<Ty>)
    ensures |r| >= 1
    ensures items != [] ==> r == items
  {
    if items == [] then [EmptyTupleArg] else items
  }

  /**
   * The type a constructor record stands for, once its sub-records are read:
   * the pending origin applied to the items, or the `typing` default when
   * nothing was pending. `None` marks an assertion of the source that fails
   * (a user class with nothing pending) and combinations the dry run never
   * records.
   */
  function Build(o: Option<Origin>, tag: Tag, items: seq<Ty>): Option<Ty>
    requires |items| == TagArity(tag)
  {
    match tag
    case TCollection =>
      if o.None? then Some(Collection(CollectionAbc, items[0]))
      else (match o.value
        case OColl(c) => Some(Collection(c, items[0]))
        case OIter(i) => Some(IteratorOf(i, items[0]))
        case OContainer => Some(ContainerOf(items[0]))
        case _ => None)
    case TMapping =>
      if o.None? then Some(Mapping(MappingAbc, items[0], items[1]))
      else if o.value.OMap? then Some(Mapping(o.value.mo, items[0], items[1]))
      else None
    case TTuple(count) =>
      if o.Some? && !o.value.OTuple? then None
      else if count.None? then Some(VariadicTuple(items[0]))
      else Some(FixedTuple(Args(items)))
    case TUserClass(_) =>
      if o.None? then None
      else if o.value.OUser? then Some(UserGeneric(o.value.cls, Args(items)))
      else if o.value.OType? then Some(SubclassOf(Args(items)))
      else None
  }

  /**
   * `_recorded_type(idx)`: the type read from the record at `idx` and the index
   * of the last record consumed, or `None` where the source raises (an index
   * past the end, a failed assertion, a union of no types). With
   * `decodeTypeVars` false this is the code as written, which has no branch for
   * `"typevar"` records; with it true a TypeVar record is read like a TypedDict
   * one: the TypeVar itself, after its bound's records.
   */
  function Decode(tr: seq<Entry>, idx: nat, decodeTypeVars: bool): (r: Option<(Ty, nat)>)
    ensures r.Some? ==> idx <= r.value.1 < |tr|
    decreases |tr| - idx, 1, 0
  {
    if idx >= |tr| then None
    else
      match tr[idx]
      case EUnsupported(u) => Some((Marked(u), idx))
      case ENone => Some((NoneTy, idx))
      case EAny => Some((AnyTy, idx))
      case EAlias(name) => Some((Alias(name), idx))
      case ELiteral(vs) => Some((Literal(vs), idx))
      case EType(c) => Some((c, idx))
      case EUnion(n, pep604) =>
        var ms := DecodeMany(tr, idx, n, decodeTypeVars);
        if ms.None? || n == 0 then None
        else if n == 1 then Some((ms.value.0[0], ms.value.1))
        else Some((Union(ms.value.0, pep604), ms.value.1))
      case ETypedDict(td) =>
        if !td.TypedDict? then None
        else
          var vs := DecodeMany(tr, idx, |td.fields|, decodeTypeVars);
          if vs.None? then None else Some((td, vs.value.1))
      case ETypeVar(tv) =>
        if !decodeTypeVars || !tv.TypeVar? then None
        else
          var bs := DecodeMany(tr, idx, if tv.bound.Some? then 1 else 0, decodeTypeVars);
          if bs.None? then None else Some((tv, bs.value.1))
      case EGeneric(o, tag) =>
        var items := DecodeMany(tr, idx, TagArity(tag), decodeTypeVars);
        if items.None? then None else ThenBuild(Some(o), tag, items.value)
      case ETag(tag) =>
        var items := DecodeMany(tr, idx, TagArity(tag), decodeTypeVars);
        if items.None? then None else ThenBuild(None, tag, items.value)
  }

  /** The loop `for _ in range(n): item_t, idx = self._recorded_type(idx + 1)`. */
  function DecodeMany(tr: seq<Entry>, last: nat, n: nat, decodeTypeVars: bool): (r: Option<(seq<Ty>, nat)>)
    requires last < |tr|
    ensures r.Some? ==> |r.value.0| == n && last <= r.value.1 < |tr|
    decreases |tr| - last, 0, n
  {
    if n == 0 then Some(([], last))
    else
      var h := Decode(tr, last + 1, decodeTypeVars);
      if h.None? then None
      else
        Prepend([h.value.0], DecodeMany(tr, h.value.1, n - 1, decodeTypeVars))
  }

  /** The type a constructor record builds from the items read, with the index of the last one. */
  function ThenBuild(o: Option<Origin>, tag: Tag, items: (seq<Ty>, nat)): Option<(Ty, nat)>
  {
    if |items.0| != TagArity(tag) then None
    else
      var b := Build(o, tag, items.0);
      if b.None? then None else Some((b.value, items.1))
  }

  /** The lines or items already collected, put in front of what a read returns. */
  function Prepend<T>(xs: seq<T>, r: Option<(seq<T>, nat)>): Option<(seq<T>, nat)>
  {
    if r.None? then None else Some((xs + r.value.0, r.value.1))
  }

  lemma PrependNothing<T>(r: Option<(seq<T>, nat)>)
    ensures Prepend([], r) == r
  {
    if r.Some? {
      assert [] + r.value.0 == r.value.0;
    }
  }

  lemma PrependStep<T>(xs: seq<T>, ys: seq<T>, r: Option<(seq<T>, nat)>)
    ensures Prepend(xs, Prepend(ys, r)) == Prepend(xs + ys, r)
  {
    if r.Some? {
      assert xs + (ys + r.value.0) == (xs + ys) + r.value.0;
    }
  }

  /** `recorded_type`: the whole trace must be consumed by one read from index 0. */
  function RecordedType(tr: seq<Entry>, decodeTypeVars: bool): Option<Ty>
  {
    var r := Decode(tr, 0, decodeTypeVars);
    if r.Some? && r.value.1 == |tr| - 1 then Some(r.value.0) else None
  }

  // ---------------------------------------------------------------------------
  // Printing the trace: `_repr`, `type_structure`, `type_annotation`
  // ---------------------------------------------------------------------------

  /** `"  " * level`. */
  function Spaces(level: nat): (r: string)
    ensures |r| == 2 * level
  {
    if level == 0 then "" else "  " + Spaces(level - 1)
  }

  /** `lines[-1] += suffix`. */
  function WithLast(lines: seq<string>, suffix: string): (r: seq<string>)
    requires |lines| > 0
    ensures |r| == |lines|
  {
    lines[..|lines| - 1] + [lines[|lines| - 1] + suffix]
  }

  /** `s[n:]`. */
  function DropPrefix(s: string, n: nat): string
  {
    if n >= |s| then "" else s[n..]
  }

  function Reprs(p: Printer, vs: seq<Val>): seq<string>
  {
    seq(|vs|, i requires 0 <= i < |vs| => p.reprVal(vs[i]))
  }

  /** The opening line of a generic: the pending origin's `__name__`, or the `typing` default. */
  function Opening(p: Printer, o: Option<Origin>, default: string): string
  {
    if o.Some? then p.typeStr(Class(OriginClass(o.value))) + "[" else default
  }

  /**
   * `_repr(idx, level, mark_unsupported=mark)`: the lines printed for the record
   * at `idx` and the index of the last record consumed, or `None` where the
   * source raises. With `forwardMark` false this is the code as written, whose
   * nested calls drop `mark_unsupported` and so use its default `True`; with it
   * true the nested calls pass `mark` on.
   */
  function Repr(p: Printer, tr: seq<Entry>, idx: nat, level: nat, mark: bool, forwardMark: bool): (r: Option<(seq<string>, nat)>)
    ensures r.Some? ==> idx <= r.value.1 < |tr| && |r.value.0| > 0
    decreases |tr| - idx, 1, 1
  {
    if idx >= |tr| then None
    else
      var ind := Spaces(level);
      var inner := if forwardMark then mark else true;
      match tr[idx]
      case EUnsupported(u) =>
        if mark then Some(([ind + "UnsupportedType[", ind + "    " + p.strTy(u), ind + "]"], idx))
        else Some(([ind + p.strTy(u)], idx))
      case ENone => Some(([ind + "NoneType"], idx))
      case EAny => Some(([ind + "Any"], idx))
      case EAlias(name) => Some(([ind + p.reprStr(name)], idx))
      case ELiteral(vs) => Some(([ind + "Literal[" + ValidationFailure.Join(", ", Reprs(p, vs)) + "]"], idx))
      case EType(c) => Some(([ind + p.typeStr(c)], idx))
      case ETypeVar(tv) =>
        if !tv.TypeVar? then None
        else if tv.bound.None? then Some(([ind + "TypeVar(" + p.reprStr(tv.var_name) + ")"], idx))
        else
          var b := ReprItems(p, tr, idx, 1, level + 1, inner, forwardMark, "");
          if b.None? then None
          else Some(([ind + "TypeVar(" + p.reprStr(tv.var_name) + ", bound="] + b.value.0 + [ind + ")"], b.value.1))
      case EUnion(n, pep604) =>
        var ms := ReprItems(p, tr, idx, n, level + 1, inner, forwardMark, if pep604 then "|" else ",");
        if ms.None? then None
        else
          var lines := (if pep604 then [] else [ind + "Union["]) + ms.value.0;
          if |lines| <= 1 then None  // "Cannot take a union of no types."
          else Some((lines + (if pep604 then [] else [ind + "]"]), ms.value.1))
      case ETypedDict(td) =>
        if !td.TypedDict? then None
        else
          var fs := ReprFields(p, tr, idx, td.fields, 0, level, inner, forwardMark);
          if fs.None? then None
          else Some(([ind + p.typeStr(td) + " {"] + fs.value.0 + [ind + "}"], fs.value.1))
      case EGeneric(o, tag) => ReprGeneric(p, tr, idx, level, Some(o), tag, inner, forwardMark)
      case ETag(tag) => ReprGeneric(p, tr, idx, level, None, tag, inner, forwardMark)
  }

  /** A constructor record at `idx` printed at `level`, with pending origin `o`; its items get `mark`. */
  function ReprGeneric(p: Printer, tr: seq<Entry>, idx: nat, level: nat, o: Option<Origin>, tag: Tag, mark: bool, forwardMark: bool): (r: Option<(seq<string>, nat)>)
    requires idx < |tr|
    ensures r.Some? ==> idx <= r.value.1 < |tr| && |r.value.0| > 0
    decreases |tr| - idx, 1, 0
  {
    var ind := Spaces(level);
    match tag
    case TCollection =>
      var it := ReprItems(p, tr, idx, 1, level + 1, mark, forwardMark, "");
      if it.None? then None
      else Some(([ind + Opening(p, o, "Collection[")] + it.value.0 + [ind + "]"], it.value.1))
    case TMapping =>
      var k := ReprItems(p, tr, idx, 1, level + 1, mark, forwardMark, ",");
      if k.None? then None
      else
        var v := ReprItems(p, tr, k.value.1, 1, level + 1, mark, forwardMark, "");
        if v.None? then None
        else Some(([ind + Opening(p, o, "Mapping[")] + k.value.0 + v.value.0 + [ind + "]"], v.value.1))
    case TTuple(count) =>
      if count.None? then
        var it := ReprItems(p, tr, idx, 1, level + 1, mark, forwardMark, ",");
        if it.None? then None
        else if o.Some? then
          Some(([ind + Opening(p, o, "")] + it.value.0 + [Spaces(level + 1) + "...", ind + "]"], it.value.1))
        else Some(([ind + "Tuple["] + it.value.0 + [ind + "]"], it.value.1))
      else
        var it := ReprItems(p, tr, idx, count.value, level + 1, mark, forwardMark, ",");
        if it.None? then None
        else Some(([ind + Opening(p, o, "Tuple[")] + it.value.0 + (if it.value.0 == [] then ["tuple()"] else []) + [ind + "]"], it.value.1))
    case TUserClass(n) =>
      if o.None? then None
      else
        var it := ReprItems(p, tr, idx, n, level + 1, mark, forwardMark, ",");
        if it.None? then None
        else Some(([ind + Opening(p, o, "")] + it.value.0 + (if it.value.0 == [] then ["tuple()"] else []) + [ind + "]"], it.value.1))
  }

  /** `n` consecutive sub-records at `level`, each with `suffix` added to its last line. */
  function ReprItems(p: Printer, tr: seq<Entry>, last: nat, n: nat, level: nat, mark: bool, forwardMark: bool, suffix: string): (r: Option<(seq<string>, nat)>)
    requires last < |tr|
    ensures r.Some? ==> last <= r.value.1 < |tr| && |r.value.0| >= n
    decreases |tr| - last, 0, n
  {
    if n == 0 then Some(([], last))
    else
      var h := ItemRepr(p, tr, last, level, mark, forwardMark, suffix);
      if h.None? then None
      else
        Prepend(h.value.0, ReprItems(p, tr, h.value.1, n - 1, level, mark, forwardMark, suffix))
  }

  /** One argument: the record after `cur` printed at `level`, with `suffix` on its last line. */
  function ItemRepr(p: Printer, tr: seq<Entry>, cur: nat, level: nat, mark: bool, forwardMark: bool, suffix: string): (r: Option<(seq<string>, nat)>)
    requires cur < |tr|
    ensures r.Some? ==> cur < r.value.1 < |tr| && |r.value.0| > 0
    decreases |tr| - cur, 0, 0
  {
    var h := Repr(p, tr, cur + 1, level, mark, forwardMark);
    if h.None? then None else Some((WithLast(h.value.0, suffix), h.value.1))
  }

  /** One step of the loop over the arguments of a generic, in both of its outcomes. */
  lemma ReprItemsStep(p: Printer, tr: seq<Entry>, last: nat, cur: nat, n: nat, k: nat, level: nat, mark: bool, forwardMark: bool, suffix: string, lines: seq<string>)
    requires last < |tr| && cur < |tr| && k < n
    requires ReprItems(p, tr, last, n, level, mark, forwardMark, suffix) ==
             Prepend(lines, ReprItems(p, tr, cur, n - k, level, mark, forwardMark, suffix))
    ensures var h := ItemRepr(p, tr, cur, level, mark, forwardMark, suffix);
            if h.None? then ReprItems(p, tr, last, n, level, mark, forwardMark, suffix) == None
            else ReprItems(p, tr, last, n, level, mark, forwardMark, suffix) ==
                 Prepend(lines + h.value.0, ReprItems(p, tr, h.value.1, n - k - 1, level, mark, forwardMark, suffix))
  {
    var h := ItemRepr(p, tr, cur, level, mark, forwardMark, suffix);
    if h.Some? {
      PrependStep(lines, h.value.0, ReprItems(p, tr, h.value.1, n - k - 1, level, mark, forwardMark, suffix));
    }
  }

  /**
   * The annotations of a TypedDict printed at `level`: each value printed one
   * level deeper, its first line replaced by the key, preceded by `"  "` for a
   * required key and `" ?"` for an optional one.
   */
  function ReprFields(p: Printer, tr: seq<Entry>, last: nat, fields: seq<Field>, i: nat, level: nat, mark: bool, forwardMark: bool): (r: Option<(seq<string>, nat)>)
    requires last < |tr| && i <= |fields|
    ensures r.Some? ==> last <= r.value.1 < |tr| && |r.value.0| >= |fields| - i
    decreases |tr| - last, 0, |fields| - i
  {
    if i == |fields| then Some(([], last))
    else
      var h := FieldRepr(p, tr, last, fields[i], level, mark, forwardMark);
      if h.None? then None
      else
        Prepend(h.value.0, ReprFields(p, tr, h.value.1, fields, i + 1, level, mark, forwardMark))
  }

  /** One step of the loop over the annotations of a TypedDict, in both of its outcomes. */
  lemma ReprFieldsStep(p: Printer, tr: seq<Entry>, last: nat, cur: nat, fields: seq<Field>, i: nat, level: nat, mark: bool, forwardMark: bool, lines: seq<string>)
    requires last < |tr| && cur < |tr| && i < |fields|
    requires ReprFields(p, tr, last, fields, 0, level, mark, forwardMark) ==
             Prepend(lines, ReprFields(p, tr, cur, fields, i, level, mark, forwardMark))
    ensures var h := FieldRepr(p, tr, cur, fields[i], level, mark, forwardMark);
            if h.None? then ReprFields(p, tr, last, fields, 0, level, mark, forwardMark) == None
            else ReprFields(p, tr, last, fields, 0, level, mark, forwardMark) ==
                 Prepend(lines + h.value.0, ReprFields(p, tr, h.value.1, fields, i + 1, level, mark, forwardMark))
  {
    var h := FieldRepr(p, tr, cur, fields[i], level, mark, forwardMark);
    if h.Some? {
      PrependStep(lines, h.value.0, ReprFields(p, tr, h.value.1, fields, i + 1, level, mark, forwardMark));
    }
  }

  /** One annotation: the value printed one level deeper, its first line replaced by the key line. */
  function FieldRepr(p: Printer, tr: seq<Entry>, cur: nat, f: Field, level: nat, mark: bool, forwardMark: bool): (r: Option<(seq<string>, nat)>)
    requires cur < |tr|
    ensures r.Some? ==> cur < r.value.1 < |tr|
    decreases |tr| - cur, 0, 0
  {
    var h := Repr(p, tr, cur + 1, level + 1, mark, forwardMark);
    if h.None? then None else Some((KeyLines(level, f, h.value.0), h.value.1))
  }

  function KeyLines(level: nat, f: Field, valueLines: seq<string>): seq<string>
    requires |valueLines| > 0
  {
    var optStr := if f.required then "  " else " ?";
    [Spaces(level) + optStr + f.key + ": " + DropPrefix(valueLines[0], 2 * (level + 1))] + valueLines[1..]
  }

  /** `str.strip()` for the ASCII whitespace a printed line can carry. */
  predicate IsSpace(c: char)
  {
    c == ' ' || c == '\t' || c == '\n' || c == '\r'
  }

  function StripLeft(s: string): string
  {
    if |s| > 0 && IsSpace(s[0]) then StripLeft(s[1..]) else s
  }

  function StripRight(s: string): string
  {
    if |s| > 0 && IsSpace(s[|s| - 1]) then StripRight(s[..|s| - 1]) else s
  }

  function Strip(s: string): string
  {
    StripRight(StripLeft(s))
  }

  /** `"".join(line.strip() for line in lines)`. */
  function ConcatStripped(lines: seq<string>): string
  {
    if lines == [] then "" else Strip(lines[0]) + ConcatStripped(lines[1..])
  }

  /** `type_structure`: the marked lines joined by newlines. */
  function TypeStructure(p: Printer, tr: seq<Entry>, forwardMark: bool): Option<string>
  {
    var r := Repr(p, tr, 0, 0, true, forwardMark);
    if r.None? then None else Some(ValidationFailure.Join("\n", r.value.0))
  }

  /** `type_annotation`: the unmarked lines, stripped and concatenated. */
  function TypeAnnotation(p: Printer, tr: seq<Entry>, forwardMark: bool): Option<string>
  {
    var r := Repr(p, tr, 0, 0, false, forwardMark);
    if r.None? then None else Some(ConcatStripped(r.value.0))
  }

  // ---------------------------------------------------------------------------
  // The inspector object
  // ---------------------------------------------------------------------------

  class TypeInspector {
    var trace: seq<Entry>         // _recorded_constructors
    var unsupported: seq<Ty>      // _unsupported_types
    var pending: Option<Origin>   // _pending_generic_type_constr

    /** The unsupported list holds exactly the unsupported records of the trace, in order. */
    predicate Valid()
      reads this
    {
      unsupported == UnsupportedIn(trace)
    }

    /** `__new__`: empty trace, no unsupported type, nothing pending. */
    constructor ()
      ensures trace == [] && unsupported == [] && pending == None
      ensures Valid()
    {
      trace := [];
      unsupported := [];
      pending := None;
    }

    /** `__bool__`. */
    function Truthy(): (b: bool)
      reads this
      requires Valid()
      ensures b <==> forall i :: 0 <= i < |trace| ==> !trace[i].EUnsupported?
    {
      UnsupportedInEmpty(trace);
      unsupported == []
    }

    /** `unsupported_types`. */
    function UnsupportedTypes(): (r: seq<Ty>)
      reads this
      requires Valid()
      ensures r == UnsupportedIn(trace)
    {
      unsupported
    }

    /**
     * `_append_constructor_args`: exactly one record is appended — `args` when
     * nothing is pending, otherwise the pending origin combined with the tag of
     * `args` — and the pending slot ends up empty.
     */
    method AppendConstructorArgs(args: Entry)
      requires pending.Some? ==> args.ETag?
      modifies this
      ensures pending == None && unsupported == old(unsupported)
      ensures trace == old(trace) + [if old(pending).None? then args else EGeneric(old(pending).value, args.tag)]
    {
      if pending.None? {
        trace := trace + [args];
        return;
      }
      trace := trace + [EGeneric(pending.value, args.tag)];
      pending := None;
    }

    method RecordNone()
      requires Valid() && pending.None?
      modifies this
      ensures Valid() && pending == None
      ensures trace == old(trace) + [ENone]
    {
      AppendConstructorArgs(ENone);
      UnsupportedInAppend(old(trace), [ENone]);
    }

    method RecordAny()
      requires Valid() && pending.None?
      modifies this
      ensures Valid() && pending == None
      ensures trace == old(trace) + [EAny]
    {
      AppendConstructorArgs(EAny);
      UnsupportedInAppend(old(trace), [EAny]);
    }

    method RecordType(t: Ty)
      requires Valid() && pending.None?
      modifies this
      ensures Valid() && pending == None
      ensures trace == old(trace) + [EType(t)]
    {
      AppendConstructorArgs(EType(t));
      UnsupportedInAppend(old(trace), [EType(t)]);
    }

    method RecordTypedDict(t: Ty)
      requires Valid() && pending.None?
      modifies this
      ensures Valid() && pending == None
      ensures trace == old(trace) + [ETypedDict(t)]
    {
      AppendConstructorArgs(ETypedDict(t));
      UnsupportedInAppend(old(trace), [ETypedDict(t)]);
    }

    method RecordTypeVar(t: Ty)
      requires Valid() && pending.None?
      modifies this
      ensures Valid() && pending == None
      ensures trace == old(trace) + [ETypeVar(t)]
    {
      AppendConstructorArgs(ETypeVar(t));
      UnsupportedInAppend(old(trace), [ETypeVar(t)]);
    }

    /** `_record_pending_type_generic`: fills the empty slot and appends nothing. */
    method RecordPendingTypeGeneric(o: Origin)
      requires pending.None?
      modifies this
      ensures pending == Some(o)
      ensures trace == old(trace) && unsupported == old(unsupported)
    {
      pending := Some(o);
    }

    method RecordCollection()
      requires Valid()
      modifies this
      ensures Valid() && pending == None
      ensures trace == old(trace) + [if old(pending).None? then ETag(TCollection) else EGeneric(old(pending).value, TCollection)]
    {
      AppendConstructorArgs(ETag(TCollection));
      UnsupportedInAppend(old(trace), [trace[|trace| - 1]]);
    }

    method RecordMapping()
      requires Valid()
      modifies this
      ensures Valid() && pending == None
      ensures trace == old(trace) + [if old(pending).None? then ETag(TMapping) else EGeneric(old(pending).value, TMapping)]
    {
      AppendConstructorArgs(ETag(TMapping));
      UnsupportedInAppend(old(trace), [trace[|trace| - 1]]);
    }

    /** `_record_union`: a PEP 604 union must have a member. */
    method RecordUnion(n: nat, pep604: bool)
      requires Valid() && pending.None?
      requires pep604 ==> n > 0
      modifies this
      ensures Valid() && pending == None
      ensures trace == old(trace) + [EUnion(n, pep604)]
    {
      AppendConstructorArgs(EUnion(n, pep604));
      UnsupportedInAppend(old(trace), [EUnion(n, pep604)]);
    }

    method RecordVariadicTuple()
      requires Valid()
      modifies this
      ensures Valid() && pending == None
      ensures trace == old(trace) + [if old(pending).None? then ETag(TTuple(None)) else EGeneric(old(pending).value, TTuple(None))]
    {
      AppendConstructorArgs(ETag(TTuple(None)));
      UnsupportedInAppend(old(trace), [trace[|trace| - 1]]);
    }

    method RecordFixedTuple(n: nat)
      requires Valid()
      modifies this
      ensures Valid() && pending == None
      ensures trace == old(trace) + [if old(pending).None? then ETag(TTuple(Some(n))) else EGeneric(old(pending).value, TTuple(Some(n)))]
    {
      AppendConstructorArgs(ETag(TTuple(Some(n))));
      UnsupportedInAppend(old(trace), [trace[|trace| - 1]]);
    }

    method RecordUserClass(n: nat)
      requires Valid()
      modifies this
      ensures Valid() && pending == None
      ensures trace == old(trace) + [if old(pending).None? then ETag(TUserClass(n)) else EGeneric(old(pending).value, TUserClass(n))]
    {
      AppendConstructorArgs(ETag(TUserClass(n)));
      UnsupportedInAppend(old(trace), [trace[|trace| - 1]]);
    }

    method RecordLiteral(vs: seq<Val>)
      requires Valid() && pending.None?
      modifies this
      ensures Valid() && pending == None
      ensures trace == old(trace) + [ELiteral(vs)]
    {
      AppendConstructorArgs(ELiteral(vs));
      UnsupportedInAppend(old(trace), [ELiteral(vs)]);
    }

    method RecordAlias(name: string)
      requires Valid() && pending.None?
      modifies this
      ensures Valid() && pending == None
      ensures trace == old(trace) + [EAlias(name)]
    {
      AppendConstructorArgs(EAlias(name));
      UnsupportedInAppend(old(trace), [EAlias(name)]);
    }

    /**
     * `_record_unsupported_type`: clears the pending slot, appends `t` to the
     * unsupported list and appends one unsupported record.
     */
    method RecordUnsupportedType(t: Ty)
      requires Valid()
      modifies this
      ensures Valid() && pending == None
      ensures unsupported == old(unsupported) + [t]
      ensures trace == old(trace) + [EUnsupported(t)]
    {
      pending := None;
      unsupported := unsupported + [t];
      AppendConstructorArgs(EUnsupported(t));
      UnsupportedInAppend(old(trace), [EUnsupported(t)]);
    }

    /** `_recorded_type(idx)`: one read of the trace, proved to be `Decode`. */
    method RecordedTypeAt(idx: nat, decodeTypeVars: bool) returns (r: Option<(Ty, nat)>)
      ensures r == Decode(trace, idx, decodeTypeVars)
      decreases |trace| - idx, 1
    {
      if idx >= |trace| {
        return None;  // IndexError
      }
      match trace[idx] {
        case EUnsupported(u) => return Some((Marked(u), idx));
        case ENone => return Some((NoneTy, idx));
        case EAny => return Some((AnyTy, idx));
        case EAlias(name) => return Some((Alias(name), idx));
        case ELiteral(vs) => return Some((Literal(vs), idx));
        case EType(c) => return Some((c, idx));
        case EUnion(n, pep604) =>
          var ms := ReadItems(idx, n, decodeTypeVars);
          if ms.None? || n == 0 {
            return None;
          }
          r := if n == 1 then Some((ms.value.0[0], ms.value.1)) else Some((Union(ms.value.0, pep604), ms.value.1));
        case ETypedDict(td) =>
          if !td.TypedDict? {
            return None;
          }
          var vs := ReadItems(idx, |td.fields|, decodeTypeVars);
          r := if vs.None? then None else Some((td, vs.value.1));
        case ETypeVar(tv) =>
          if !decodeTypeVars || !tv.TypeVar? {
            return None;  // assert False, "Invalid type constructor tag"
          }
          var bs := ReadItems(idx, if tv.bound.Some? then 1 else 0, decodeTypeVars);
          r := if bs.None? then None else Some((tv, bs.value.1));
        case EGeneric(o, tag) =>
          var items := ReadItems(idx, TagArity(tag), decodeTypeVars);
          r := if items.None? then None else ThenBuild(Some(o), tag, items.value);
        case ETag(tag) =>
          var items := ReadItems(idx, TagArity(tag), decodeTypeVars);
          r := if items.None? then None else ThenBuild(None, tag, items.value);
      }
    }

    /** `for _ in range(n): item_t, idx = self._recorded_type(idx + 1)`. */
    method ReadItems(last: nat, n: nat, decodeTypeVars: bool) returns (r: Option<(seq<Ty>, nat)>)
      requires last < |trace|
      ensures r == DecodeMany(trace, last, n, decodeTypeVars)
      decreases |trace| - last, 0
    {
      var items: seq<Ty> := [];
      var cur := last;
      PrependNothing(DecodeMany(trace, last, n, decodeTypeVars));
      for k := 0 to n
        invariant last <= cur < |trace|
        invariant DecodeMany(trace, last, n, decodeTypeVars) == Prepend(items, DecodeMany(trace, cur, n - k, decodeTypeVars))
      {
        var h := RecordedTypeAt(cur + 1, decodeTypeVars);
        if h.None? {
          return None;
        }
        PrependStep(items, [h.value.0], DecodeMany(trace, h.value.1, n - k - 1, decodeTypeVars));
        items := items + [h.value.0];
        cur := h.value.1;
      }
      assert items + [] == items;
      return Some((items, cur));
    }

    /** `recorded_type`: one read from index 0 that must consume the whole trace. */
    method GetRecordedType(decodeTypeVars: bool) returns (r: Option<Ty>)
      ensures r == RecordedType(trace, decodeTypeVars)
    {
      var d := RecordedTypeAt(0, decodeTypeVars);
      if d.None? || d.value.1 != |trace| - 1 {
        return None;  // IndexError, or "The following recorded types have not been included"
      }
      return Some(d.value.0);
    }

    /** `_repr(idx, level, mark_unsupported=mark)`: proved to be `Repr`. */
    method ReprAt(p: Printer, idx: nat, level: nat, mark: bool, forwardMark: bool) returns (r: Option<(seq<string>, nat)>)
      ensures r == Repr(p, trace, idx, level, mark, forwardMark)
      decreases |trace| - idx, 1, 1
    {
      if idx >= |trace| {
        return None;
      }
      var ind := Spaces(level);
      var inner := if forwardMark then mark else true;
      match trace[idx] {
        case EUnsupported(u) =>
          if !mark {
            return Some(([ind + p.strTy(u)], idx));
          }
          return Some(([ind + "UnsupportedType[", ind + "    " + p.strTy(u), ind + "]"], idx));
        case ENone => return Some(([ind + "NoneType"], idx));
        case EAny => return Some(([ind + "Any"], idx));
        case EAlias(name) => return Some(([ind + p.reprStr(name)], idx));
        case ELiteral(vs) => return Some(([ind + "Literal[" + ValidationFailure.Join(", ", Reprs(p, vs)) + "]"], idx));
        case EType(c) => return Some(([ind + p.typeStr(c)], idx));
        case ETypeVar(tv) =>
          if !tv.TypeVar? {
            return None;
          }
          if tv.bound.None? {
            return Some(([ind + "TypeVar(" + p.reprStr(tv.var_name) + ")"], idx));
          }
          var b := ReprItemsAt(p, idx, 1, level + 1, inner, forwardMark, "");
          if b.None? {
            return None;
          }
          return Some(([ind + "TypeVar(" + p.reprStr(tv.var_name) + ", bound="] + b.value.0 + [ind + ")"], b.value.1));
        case EUnion(n, pep604) =>
          var lines: seq<string> := if pep604 then [] else [ind + "Union["];
          var ms := ReprItemsAt(p, idx, n, level + 1, inner, forwardMark, if pep604 then "|" else ",");
          if ms.None? {
            return None;
          }
          lines := lines + ms.value.0;
          if |lines| <= 1 {
            return None;  // "Cannot take a union of no types."
          }
          return Some((lines + (if pep604 then [] else [ind + "]"]), ms.value.1));
        case ETypedDict(td) =>
          if !td.TypedDict? {
            return None;
          }
          var fs := ReprFieldsAt(p, idx, td.fields, level, inner, forwardMark);
          if fs.None? {
            return None;
          }
          return Some(([ind + p.typeStr(td) + " {"] + fs.value.0 + [ind + "}"], fs.value.1));
        case EGeneric(o, tag) => r := ReprGenericAt(p, idx, level, Some(o), tag, inner, forwardMark);
        case ETag(tag) => r := ReprGenericAt(p, idx, level, None, tag, inner, forwardMark);
      }
    }

    /** The constructor branches of `_repr`, items printed with `mark`. */
    method ReprGenericAt(p: Printer, idx: nat, level: nat, o: Option<Origin>, tag: Tag, mark: bool, forwardMark: bool) returns (r: Option<(seq<string>, nat)>)
      requires idx < |trace|
      ensures r == ReprGeneric(p, trace, idx, level, o, tag, mark, forwardMark)
      decreases |trace| - idx, 1, 0
    {
      var ind := Spaces(level);
      match tag {
        case TCollection =>
          var it := ReprItemsAt(p, idx, 1, level + 1, mark, forwardMark, "");
          if it.None? {
            return None;
          }
          return Some(([ind + Opening(p, o, "Collection[")] + it.value.0 + [ind + "]"], it.value.1));
        case TMapping =>
          var k := ReprItemsAt(p, idx, 1, level + 1, mark, forwardMark, ",");
          if k.None? {
            return None;
          }
          var v := ReprItemsAt(p, k.value.1, 1, level + 1, mark, forwardMark, "");
          if v.None? {
            return None;
          }
          return Some(([ind + Opening(p, o, "Mapping[")] + k.value.0 + v.value.0 + [ind + "]"], v.value.1));
        case TTuple(count) =>
          if count.None? {
            var it := ReprItemsAt(p, idx, 1, level + 1, mark, forwardMark, ",");
            if it.None? {
              return None;
            }
            if o.Some? {
              return Some(([ind + Opening(p, o, "")] + it.value.0 + [Spaces(level + 1) + "...", ind + "]"], it.value.1));
            }
            return Some(([ind + "Tuple["] + it.value.0 + [ind + "]"], it.value.1));
          }
          var lines := [ind + Opening(p, o, "Tuple[")];
          var it := ReprItemsAt(p, idx, count.value, level + 1, mark, forwardMark, ",");
          if it.None? {
            return None;
          }
          lines := lines + it.value.0;
          assert |lines| == 1 <==> it.value.0 == [];
          if |lines| == 1 {
            lines := lines + ["tuple()"];
          } else {
            assert lines == lines + [];
          }
          return Some((lines + [ind + "]"], it.value.1));
        case TUserClass(n) =>
          if o.None? {
            return None;  // assert pending_type is not None
          }
          var lines := [ind + Opening(p, o, "")];
          var it := ReprItemsAt(p, idx, n, level + 1, mark, forwardMark, ",");
          if it.None? {
            return None;
          }
          lines := lines + it.value.0;
          assert |lines| == 1 <==> it.value.0 == [];
          if |lines| == 1 {
            lines := lines + ["tuple()"];
          } else {
            assert lines == lines + [];
          }
          return Some((lines + [ind + "]"], it.value.1));
      }
    }

    /** The loop printing `n` sub-records, `suffix` added to the last line of each. */
    method ReprItemsAt(p: Printer, last: nat, n: nat, level: nat, mark: bool, forwardMark: bool, suffix: string) returns (r: Option<(seq<string>, nat)>)
      requires last < |trace|
      ensures r == ReprItems(p, trace, last, n, level, mark, forwardMark, suffix)
      decreases |trace| - last, 0, 1
    {
      var lines: seq<string> := [];
      var cur := last;
      PrependNothing(ReprItems(p, trace, last, n, level, mark, forwardMark, suffix));
      for k := 0 to n
        invariant last <= cur < |trace|
        invariant ReprItems(p, trace, last, n, level, mark, forwardMark, suffix) ==
                  Prepend(lines, ReprItems(p, trace, cur, n - k, level, mark, forwardMark, suffix))
      {
        ReprItemsStep(p, trace, last, cur, n, k, level, mark, forwardMark, suffix, lines);
        var h := ItemReprAt(p, cur, level, mark, forwardMark, suffix);
        if h.None? {
          return None;
        }
        lines := lines + h.value.0;
        cur := h.value.1;
      }
      assert lines + [] == lines;
      return Some((lines, cur));
    }

    /** One argument of a generic, printed at `level` with `suffix` on its last line. */
    method ItemReprAt(p: Printer, cur: nat, level: nat, mark: bool, forwardMark: bool, suffix: string) returns (r: Option<(seq<string>, nat)>)
      requires cur < |trace|
      ensures r == ItemRepr(p, trace, cur, level, mark, forwardMark, suffix)
      decreases |trace| - cur, 0, 0
    {
      var h := ReprAt(p, cur + 1, level, mark, forwardMark);
      if h.None? {
        return None;
      }
      return Some((WithLast(h.value.0, suffix), h.value.1));
    }

    /** The loop over the annotations of a TypedDict printed at `level`. */
    method ReprFieldsAt(p: Printer, last: nat, fields: seq<Field>, level: nat, mark: bool, forwardMark: bool) returns (r: Option<(seq<string>, nat)>)
      requires last < |trace|
      ensures r == ReprFields(p, trace, last, fields, 0, level, mark, forwardMark)
      decreases |trace| - last, 0, 1
    {
      var lines: seq<string> := [];
      var cur := last;
      PrependNothing(ReprFields(p, trace, last, fields, 0, level, mark, forwardMark));
      for i := 0 to |fields|
        invariant last <= cur < |trace|
        invariant ReprFields(p, trace, last, fields, 0, level, mark, forwardMark) ==
                  Prepend(lines, ReprFields(p, trace, cur, fields, i, level, mark, forwardMark))
      {
        ReprFieldsStep(p, trace, last, cur, fields, i, level, mark, forwardMark, lines);
        var h := FieldReprAt(p, cur, fields[i], level, mark, forwardMark);
        if h.None? {
          return None;
        }
        lines := lines + h.value.0;
        cur := h.value.1;
      }
      assert lines + [] == lines;
      return Some((lines, cur));
    }

    /** One annotation of a TypedDict: its value printed one level deeper, behind the key. */
    method FieldReprAt(p: Printer, cur: nat, f: Field, level: nat, mark: bool, forwardMark: bool) returns (r: Option<(seq<string>, nat)>)
      requires cur < |trace|
      ensures r == FieldRepr(p, trace, cur, f, level, mark, forwardMark)
      decreases |trace| - cur, 0, 0
    {
      var h := ReprAt(p, cur + 1, level + 1, mark, forwardMark);
      if h.None? {
        return None;
      }
      return Some((KeyLines(level, f, h.value.0), h.value.1));
    }

    /** `type_annotation`. */
    method GetTypeAnnotation(p: Printer, forwardMark: bool) returns (r: Option<string>)
      ensures r == TypeAnnotation(p, trace, forwardMark)
    {
      var lines := ReprAt(p, 0, 0, false, forwardMark);
      if lines.None? {
        return None;
      }
      var s := "";
      for i := 0 to |lines.value.0|
        invariant ConcatStripped(lines.value.0) == s + ConcatStripped(lines.value.0[i..])
      {
        assert lines.value.0[i..][1..] == lines.value.0[i + 1..];
        s := s + Strip(lines.value.0[i]);
      }
      assert lines.value.0[|lines.value.0|..] == [];
      assert s + "" == s;
      return Some(s);
    }

    /**
     * `validate(inspector, t)`: never raises for an unsupported part, visits
     * every sub-hint (every union member, every tuple item), and records an
     * alias by name without expanding it.
     */
    method Inspect(ctx: Table, t: Ty)
      requires Valid() && pending.None? && Recordable(t)
      modifies this
      ensures Valid() && pending == None
      ensures trace == old(trace) + Encode(ctx, t)
      ensures unsupported == old(unsupported) + UnsupportedIn(Encode(ctx, t))
      decreases t, 2
    {
      if t.Collection? || t.Mapping? || t.VariadicTuple? || t.FixedTuple? || t.IteratorOf? || t.ContainerOf? || t.UserGeneric? || t.SubclassOf? {
        RecordGeneric(t);
      } else {
        RecordPlain(ctx, t);
      }
      InspectKids(ctx, t);
      assert Encode(ctx, t) == [Head(ctx, t)] + EncodeFrom(ctx, t, 0);
      UnsupportedInAppend(old(trace), Encode(ctx, t));
    }

    /** The record of a hint that is not generic. */
    method RecordPlain(ctx: Table, t: Ty)
      requires Valid() && pending.None?
      requires t.Union? && t.pep604 ==> |t.members| > 0
      requires !(t.Collection? || t.Mapping? || t.VariadicTuple? || t.FixedTuple? || t.IteratorOf? || t.ContainerOf? || t.UserGeneric? || t.SubclassOf?)
      modifies this
      ensures Valid() && pending == None
      ensures trace == old(trace) + [Head(ctx, t)]
    {
      match t {
        case AnyTy => RecordAny();
        case NoneTy => RecordNone();
        case Class(_) => RecordType(t);
        case Marked(_) => RecordType(t);
        case TypeVar(_, _) => RecordTypeVar(t);
        case Union(ms, pep604) => RecordUnion(|ms|, pep604);
        case Literal(vs) => RecordLiteral(vs);
        case TypedDict(_, _) => RecordTypedDict(t);
        case Alias(name) =>
          if Find(ctx, name).Some? {
            RecordAlias(name);
          } else {
            RecordUnsupportedType(t);
          }
        case Opaque(_, _) => RecordUnsupportedType(t);
      }
    }

    /** The records of a generic hint: its origin goes pending, then the constructor record combines with it. */
    method RecordGeneric(t: Ty)
      requires Valid() && pending.None?
      requires t.Collection? || t.Mapping? || t.VariadicTuple? || t.FixedTuple? || t.IteratorOf? || t.ContainerOf? || t.UserGeneric? || t.SubclassOf?
      modifies this
      ensures Valid() && pending == None
      ensures forall ctx :: trace == old(trace) + [Head(ctx, t)]
    {
      match t {
        case Collection(o, _) =>
          RecordPendingTypeGeneric(OColl(o));
          RecordCollection();
        case Mapping(o, _, _) =>
          RecordPendingTypeGeneric(OMap(o));
          RecordMapping();
        case VariadicTuple(_) =>
          RecordPendingTypeGeneric(OTuple);
          RecordVariadicTuple();
        case FixedTuple(items) =>
          RecordPendingTypeGeneric(OTuple);
          RecordFixedTuple(|items|);
        case IteratorOf(o, _) =>
          RecordPendingTypeGeneric(OIter(o));
          RecordCollection();
        case ContainerOf(_) =>
          // The origin is set pending; an inspector is no Collection, so the hint falls through to unsupported.
          RecordPendingTypeGeneric(OContainer);
          RecordUnsupportedType(t);
        case UserGeneric(c, args) =>
          RecordPendingTypeGeneric(OUser(c));
          RecordUserClass(|args|);
        case SubclassOf(args) =>
          if SubclassRecordable(args) {
            RecordPendingTypeGeneric(OType);
            RecordUserClass(1);
          } else {
            RecordUnsupportedType(t);
          }
      }
    }

    /** The loop over the sub-hints of `t`, in order. */
    method InspectKids(ctx: Table, t: Ty)
      requires Valid() && pending.None? && Recordable(t)
      modifies this
      ensures Valid() && pending == None
      ensures trace == old(trace) + EncodeFrom(ctx, t, 0)
      decreases t, 1
    {
      for i := 0 to Arity(t)
        invariant Valid() && pending == None
        invariant trace + EncodeFrom(ctx, t, i) == old(trace) + EncodeFrom(ctx, t, 0)
      {
        ghost var before := trace;
        assert Recordable(Kid(t, i));
        Inspect(ctx, Kid(t, i));
        ghost var e := Encode(ctx, Kid(t, i));
        ghost var rest := EncodeFrom(ctx, t, i + 1);
        assert EncodeFrom(ctx, t, i) == e + rest;
        assert trace == before + e;
        assert before + (e + rest) == (before + e) + rest;
      }
    }
  }

  lemma {:induction false} UnsupportedInEmpty(tr: seq<Entry>)
    ensures UnsupportedIn(tr) == [] <==> forall i :: 0 <= i < |tr| ==> !tr[i].EUnsupported?
    decreases |tr|
  {
    if tr != [] {
      UnsupportedInEmpty(tr[1..]);
      assert forall i :: 1 <= i < |tr| ==> tr[i] == tr[1..][i - 1];
    }
  }

  /** `inspect_type(t)` and `can_validate(t)`: a fresh inspector after the dry run over `t`. */
  method InspectType(ctx: Table, t: Ty) returns (inspector: TypeInspector)
    requires Recordable(t)
    ensures fresh(inspector) && inspector.Valid() && inspector.pending == None
    ensures inspector.trace == Encode(ctx, t)
    ensures inspector.unsupported == UnsupportedIn(Encode(ctx, t))
  {
    inspector := new TypeInspector();
    inspector.Inspect(ctx, t);
  }
}
