/**
 * The value and type-descriptor model shared by the matchers, the failure tree
 * and the type inspector.
 *
 * Python values and typing objects are not modelled concretely: a `Val` is an
 * abstract runtime value and a `Ty` is a type hint already translated into a
 * closed set of shapes (no `__origin__`/`__args__` inspection happens here).
 * What the interpreter would answer about classes (`isinstance`, `issubclass`,
 * `==`) and how it prints things (`repr`, `str`) are passed in as parameters.
 */
module Types {

  datatype Option<+T> = None | Some(value: T)

  /** A class, identified by its qualified name (`"int"`, `"collections.abc.Sequence"`). */
  type ClassName = string

  /** An abstract Python value. */
  datatype Val =
    | NoneVal                                  // the `None` singleton
    | Atom(cls: ClassName, id: int)            // an object without items (a number, a user object, ...)
    | Str(s: string)                           // a `str`; iterating it yields one-character strings
    | Items(cls: ClassName, elems: seq<Val>)   // an iterable container, elements in iteration order
    | Dict(cls: ClassName, entries: seq<(Val, Val)>)  // a mapping, pairs in iteration order
    | ClassObj(name: ClassName)                // a class object, such as `int`

  /** What `for item in v` yields. */
  function Iter(v: Val): seq<Val>
  {
    match v
    case Str(s) => seq(|s|, i requires 0 <= i < |s| => Str([s[i]]))
    case Items(_, elems) => elems
    case Dict(_, entries) => seq(|entries|, i requires 0 <= i < |entries| => entries[i].0)
    case _ => []
  }

  /** What `v.items()` yields. */
  function Pairs(v: Val): seq<(Val, Val)>
  {
    if v.Dict? then v.entries else []
  }

  /** `k in v` for a string key `k`. */
  predicate HasKey(v: Val, k: string)
  {
    exists i :: 0 <= i < |Pairs(v)| && Pairs(v)[i].0 == Str(k)
  }

  /** `v[k]`: the value of the first pair whose key is `k`. */
  function Lookup(v: Val, k: string): (r: Option<Val>)
    ensures r.Some? <==> HasKey(v, k)
  {
    LookupFrom(Pairs(v), k)
  }

  function LookupFrom(ps: seq<(Val, Val)>, k: string): (r: Option<Val>)
    ensures r.Some? <==> exists i :: 0 <= i < |ps| && ps[i].0 == Str(k)
  {
    if ps == [] then None
    else if ps[0].0 == Str(k) then Some(ps[0].1)
    else
      var r := LookupFrom(ps[1..], k);
      assert forall i :: 1 <= i < |ps| ==> ps[i] == ps[1..][i - 1];
      r
  }

  /**
   * Answers of the interpreter about classes and values. These are free
   * parameters: nothing ties `isInstance` to the shape of a `Val` (a `List`
   * value need not be an instance of `list`, nor a `Str` of `str`), and
   * `isSubclass` need not be reflexive or transitive. Every property proved
   * holds for all such answers; one that needs more states it as a
   * `requires` on these functions.
   */
  datatype Classes = Classes(
    isInstance: (Val, ClassName) -> bool,   // isinstance(v, C)
    isSubclass: (Val, ClassName) -> bool,   // issubclass(s, C), for a class object s
    equals: (Val, Val) -> bool)             // v == w, not reflexive for float('nan')

  /** Python's `==` holds between every value and itself (it fails for `float('nan')`). */
  ghost predicate ReflexiveEquals(cl: Classes)
  {
    forall w :: cl.equals(w, w)
  }

  /** How the interpreter prints values and types. */
  datatype Printer = Printer(
    reprVal: Val -> string,      // repr(v)
    reprTy: Ty -> string,        // repr(t)
    strTy: Ty -> string,         // str(t)
    typeStr: Ty -> string,       // t.__name__ for a class, str(t) otherwise
    reprStr: string -> string)   // repr(s) for a string s

  /** Origins of the parametric collection types (the values of `_collection_pseudotypes_dict`). */
  datatype CollOrigin =
    | CollectionAbc | AbstractSet | MutableSet | SequenceAbc | MutableSequence
    | Deque | List | Set | FrozenSet

  /** Origins of the parametric mapping types. */
  datatype MapOrigin = MappingAbc | MutableMapping | DictOrigin | DefaultDict

  /** Origins of the parametric iterator types (`_iterator_origins`). */
  datatype IterOrigin = Iterator | Iterable

  /** Why a type hint is outside what the matcher understands. */
  datatype Unsupportable = NotHashable | NotRuntimeProtocol | Unrecognised

  /** One annotated key of a TypedDict; `required` is its totality after PEP 589/655. */
  datatype Field = Field(key: string, ty: Ty, required: bool)

  /** A translated type hint. */
  datatype Ty =
    | AnyTy                                         // typing.Any
    | NoneTy                                        // None / NoneType
    | Class(name: ClassName)                        // a class checked with isinstance
    | TypeVar(var_name: string, bound: Option<Ty>)  // a TypeVar, possibly bounded
    | Union(members: seq<Ty>, pep604: bool)         // Union[...] or X | Y (PEP 604)
    | Literal(values: seq<Val>)                     // Literal[...] (PEP 586)
    | Collection(corigin: CollOrigin, item: Ty)     // list[T], Sequence[T], set[T], ...
    | Mapping(morigin: MapOrigin, key: Ty, value: Ty)
    | VariadicTuple(item: Ty)                       // tuple[T, ...]
    | FixedTuple(items: seq<Ty>)                    // tuple[T1, ..., Tn]
    | IteratorOf(iorigin: IterOrigin, item: Ty)     // Iterator[T], Iterable[T]
    | ContainerOf(item: Ty)                         // Container[T]
    | UserGeneric(origin: ClassName, args: seq<Ty>) // C[T1, ..., Tn] for a user generic class C
    | SubclassOf(args: seq<Ty>)                     // Type[...] / type[...]
    | TypedDict(td_name: ClassName, fields: seq<Field>)
    | Alias(alias: string)                          // a string or forward reference naming an alias
    | Opaque(descr: string, why: Unsupportable)     // a hint the matcher cannot interpret
    | Marked(wrapped: Ty)                           // UnsupportedType[t], built by the inspector

  function CollOriginClass(o: CollOrigin): ClassName
  {
    match o
    case CollectionAbc => "collections.abc.Collection"
    case AbstractSet => "collections.abc.Set"
    case MutableSet => "collections.abc.MutableSet"
    case SequenceAbc => "collections.abc.Sequence"
    case MutableSequence => "collections.abc.MutableSequence"
    case Deque => "collections.deque"
    case List => "list"
    case Set => "set"
    case FrozenSet => "frozenset"
  }

  function MapOriginClass(o: MapOrigin): ClassName
  {
    match o
    case MappingAbc => "collections.abc.Mapping"
    case MutableMapping => "collections.abc.MutableMapping"
    case DictOrigin => "dict"
    case DefaultDict => "collections.defaultdict"
  }

  function IterOriginClass(o: IterOrigin): ClassName
  {
    match o
    case Iterator => "collections.abc.Iterator"
    case Iterable => "collections.abc.Iterable"
  }

  const TupleClass: ClassName := "tuple"
  const TypeClass: ClassName := "type"
  const StrClass: ClassName := "str"
  const ContainerClass: ClassName := "collections.abc.Container"
  const CollectionClass: ClassName := "collections.abc.Collection"
  const MappingClass: ClassName := "collections.abc.Mapping"

  /** `_ordered_collection_origins`: the collection origins whose iteration order is meaningful. */
  predicate Ordered(o: CollOrigin)
  {
    o.SequenceAbc? || o.MutableSequence? || o.Deque? || o.List?
  }
}
