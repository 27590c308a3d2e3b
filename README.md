# typing-validation, modelled in Dafny

This project models the core of `typing-validation`, a Python library that
checks at run time whether a value belongs to a type hint (`validate(val, t)`),
and proves properties of that model. The model covers five parts:

- The matcher of `typing_validation/validation.py`. `Validation.Check` is the
  reference definition of what `validate` does for every kind of hint: `Any`,
  `None`, classes, `TypeVar`s, unions (both `Union[...]` and `X | Y`), `Literal`,
  parametric collections, mappings, tuples, iterators and containers, user
  generics, `Type[...]`, `TypedDict`s, aliases and unsupported hints. The
  imperative `Validation.Validate*` methods follow the source's loops and are
  proved equal to it. `is_valid`, `validated`, `validated_iter` and the
  error-to-failure plumbing are also modelled.
- The alias context of `validation_aliases` (`Aliases`). It is a class whose
  table is saved, updated and restored around a validation.
- The failure trees of `typing_validation/validation_failure.py`
  (`ValidationFailure`): `visit`, the text rendering of `_str` (top-level
  header, alias block, union summaries, indented causes) and
  `get_validation_failure`.
- The `TypeInspector` of `typing_validation/inspector.py` (`Inspector`). It is
  a class with the recorded trace, the unsupported types and the pending slot
  as fields. The model covers every `_record_*` method,
  `_append_constructor_args`, the dry run `validate(inspector, t)`, and the
  readers `_recorded_type`, `recorded_type`, `_repr` and `type_annotation`.
  Their properties are in `InspectorProperties` and `ReprProperties`: the
  trace round-trips to the type, and boolean truthiness matches
  "no unsupported part", which in turn means `validate` never reports the
  hint unsupported.
- The earlier matcher of `typing_validation/validate.py` (`LegacyMatcher`).
  It has its own failure tree and message, and a class holding the
  module-level `_validation_failure` slot. `LegacyProperties` proves that it
  agrees with the current matcher on the hints both understand.

Python's own behaviour is passed in as parameters, because the model cannot
compute it:

- `Classes`: `isinstance`, `issubclass` and `==`.
- `Printer`: `repr` and `str` of values and types.

Values are a small closed datatype (`Types.Val`), and type hints arrive
already translated into `Types.Ty`. Recursion through aliases is bounded by a
`fuel` argument. Running out of fuel is the `Diverged` result, which stands
for Python's `RecursionError`.

Each file of the project covers one part:

| file | module | part |
|---|---|---|
| types.dfy | `Types` | values, hints, interpreter parameters |
| aliases.dfy | `Aliases` | `validation_aliases` |
| failure.dfy | `ValidationFailure` | validation_failure.py |
| validation.dfy | `Validation` | validation.py matcher and entry points |
| validation_props.dfy | `ValidationProperties` | properties of the matcher |
| inspector.dfy | `Inspector` | inspector.py and the dry run |
| inspector_props.dfy | `InspectorProperties` | round trip, support |
| repr_props.dfy | `ReprProperties` | `_repr` and `type_annotation` |
| printed_hints.dfy | `PrintedHints` | the printing of a whole hint's trace |
| legacy.dfy | `LegacyMatcher` | validate.py |
| legacy_props.dfy | `LegacyProperties` | properties of the old matcher |

## Model

| member | source | states |
|---|---|---|
| Types.Lookup | typing_validation/validation.py:537-541 | `val[k]` is defined exactly when `k in val` |
| Aliases.Find | typing_validation/validation.py:497-498 | an alias resolves exactly when its name is in the table, and to a type bound to that name |
| Aliases.FindUpdate | typing_validation/validation.py:86-88 | after binding a name, that name resolves to the new type and every other name resolves as before |
| Aliases.UpdateNames | typing_validation/validation.py:86-88 | rebinding keeps names distinct, keeps an existing key in its place and appends a new key last (dict insertion order) |
| Aliases.FindUpdateAll | typing_validation/validation.py:84-88 | inside `validation_aliases(**aliases)` a name given in `aliases` resolves to the new binding and every other name to the outer one |
| Aliases.AliasContext.constructor | typing_validation/validation.py:65 | the alias table starts empty |
| Aliases.AliasContext.Enter | typing_validation/validation.py:84-88 | entering the context saves the outer table and installs the outer table updated with the new bindings |
| Aliases.AliasContext.Exit | typing_validation/validation.py:89-92 | leaving the context restores the saved table |
| Validation.ExtractMemberTypes | typing_validation/validation.py:575-588 | the queue loop returns the flattened union members (see `MemberTypesFlat`) |
| Validation.ExpandShrinks | typing_validation/validation.py:580-582 | replacing a union at the head of the queue by its members shrinks the queue's measure, so the loop terminates |
| Validation.CanValidateSubtypeOf | typing_validation/validation.py:597-619 | `Type[u]` is checkable exactly when the members of `u` contain `Any` or all pass `isinstance(t, type)`: classes, `None`, TypedDict classes, protocols that are not runtime-checkable and `UnsupportedType[...]` wrappers |
| Validation.MissingKeysExact | typing_validation/validation.py:537 | a key is reported missing exactly when it is a required annotated key that the value lacks |
| Validation.ValidateType | typing_validation/validation.py:356-362 | `isinstance` passes, or a plain failure without causes is raised |
| Validation.Validate | typing_validation/validation.py:753-917 | the dispatcher returns exactly the outcome of the reference `Check` |
| Validation.ValidateTypeVar | typing_validation/validation.py:705-714 | a TypeVar is checked through its bound |
| Validation.ValidateCollection | typing_validation/validation.py:365-380 | the item loop equals the reference item walk (first failing index reported) |
| Validation.ValidateMapping | typing_validation/validation.py:383-403 | the pair loop equals the reference pair walk |
| Validation.ValidateFixedTuple | typing_validation/validation.py:432-446 | a wrong length fails with no causes; otherwise the position loop equals the reference |
| Validation.ValidateUnion | typing_validation/validation.py:449-476 | the member loop equals the reference union check, including the `AssertionError` of the union failure for a value not `==` to itself |
| Validation.ValidateTypedDict | typing_validation/validation.py:518-544 | the three TypedDict steps equal the reference |
| Validation.CollectMissingKeys | typing_validation/validation.py:537 | the loop collects exactly the missing required keys, in annotation order |
| Validation.ValidateFields | typing_validation/validation.py:539-544 | the annotation loop equals the reference field walk |
| Validation.ValidateStrMapping | typing_validation/validation.py:529-533 | the `Mapping[str, Any]` pre-check equals its reference |
| Validation.ValidateAlias | typing_validation/validation.py:494-508 | an alias is checked through its target, and the failure is relabelled with the alias name |
| Validation.ValidateSubtypeOf | typing_validation/validation.py:622-633 | `_validate_subtype_of` equals its reference `SubtypeOf`, including the `TypeError` that `issubclass` raises for a TypedDict or non-runtime protocol member |
| Validation.ValidateInScope | typing_validation/validation.py:71-92 | validating inside `validation_aliases` uses the updated table and restores the outer one afterwards |
| Validation.IsValid | typing_validation/validation.py:997-1011 | `is_valid` returns True exactly on success and False with the failure tree exactly on a `TypeError` carrying one; a `TypeError` of `issubclass`, which carries none, makes the handler's `getattr` raise; every other error propagates |
| Validation.Validated | typing_validation/validation.py:1014-1029 | `validated` returns the value itself exactly when validation succeeds |
| Validation.ValidatedItems | typing_validation/validation.py:1047 | the item wrapper yields all items when each is valid, and otherwise raises the error of the first invalid item |
| Validation.ValidatedIter | typing_validation/validation.py:1032-1050 | `validated_iter` raises the validation error first; a bare iterator hint returns the value; `Iterator[T]`/`Iterable[T]` checks the items; any other hint raises `ValueError` |
| Validation.RaisedError | typing_validation/validation.py:242-330 | `get_validation_failure` returns exactly the tree of a `TypeError` the matcher raises, raises `ValueError` for the bare `TypeError` of `issubclass`, and `TypeError` for an error that is not a `TypeError` |
| ValidationProperties.FuelMonotone | typing_validation/validation.py:494-508 | once a check does not exhaust the recursion depth, more depth gives the same result |
| ValidationProperties.FailureWellFormed | typing_validation/validation_failure.py:45-46 | every failure raised concerns the validated value, and at every union node the value is `==` (the `equals` parameter, which need not be reflexive) to the value of each cause, so the assertion of `__new__` passed for every node of a raised tree |
| ValidationProperties.ItemsOutcome | typing_validation/validation.py:374-380 | all items valid gives success; otherwise the first invalid item decides, as an index failure at its position |
| ValidationProperties.CollectionOutcome | typing_validation/validation.py:834-842 | a non-instance of the origin fails on the origin class; otherwise all items valid means success and the first failing item gives an index failure, ordered or not according to the origin |
| ValidationProperties.VariadicTupleOutcome | typing_validation/validation.py:416-430 | as `CollectionOutcome`, for `tuple[T, ...]` with ordered indices |
| ValidationProperties.ContainerOutcome | typing_validation/validation.py:854-858 | `Container[T]` fails on non-containers, is unsupported for containers that are not collections, and otherwise checks items like a collection |
| ValidationProperties.FixedOutcome | typing_validation/validation.py:441-446 | the first failing position of a fixed tuple decides, as an index failure |
| ValidationProperties.FixedTupleOutcome | typing_validation/validation.py:432-446 | a non-tuple fails on `tuple`; a wrong length fails without causes; otherwise the positions decide |
| ValidationProperties.PairsOutcome | typing_validation/validation.py:393-403 | the first bad pair decides: a bad key gives a plain failure with the key's failure as cause, a bad value a key failure at that key |
| ValidationProperties.MappingOutcome | typing_validation/validation.py:383-403 | the origin check, then the pairs, exactly as in `PairsOutcome` |
| ValidationProperties.UnionOutcome | typing_validation/validation.py:449-476 | an empty union accepts everything; the first member not raising `TypeError` decides; when all fail, one union failure holds every member failure in order if no member kept a failure or the value is `==` to itself, and otherwise the assertion of `ValidationFailure.__new__` raises `AssertionError` |
| ValidationProperties.StrMappingAgrees | typing_validation/validation.py:529-533 | the pre-check equals validation against `Mapping[str, Any]`: it succeeds exactly for mappings with all-`str` keys, and never raises anything else |
| ValidationProperties.FieldsOutcome | typing_validation/validation.py:539-544 | each present annotated key is checked in annotation order, and the first bad value gives a key failure |
| ValidationProperties.TypedDictOutcome | typing_validation/validation.py:518-544 | a non-mapping fails with the pre-check as its cause; missing keys fail with no causes; otherwise the fields decide |
| ValidationProperties.ExtraKeysIgnored | typing_validation/validation.py:518-544 | adding a `str` key that is not annotated changes no TypedDict verdict |
| ValidationProperties.AliasInScope | typing_validation/validation.py:892-911 | an unknown alias is unsupported; a known one behaves as its target under the scoped table, relabelled on failure |
| ValidationProperties.MemberTypesFlat | typing_validation/validation.py:575-588 | `__extract_member_types` returns nothing exactly when `Any` occurs among the flattened members, and otherwise returns those members |
| ValidationProperties.SubclassOfOutcome | typing_validation/validation.py:562-567 | `Type[u]` fails on non-classes, accepts with `Any`, gives `ValueError` exactly when a member fails `isinstance(t, type)`, raises the `TypeError` of `issubclass` only at a TypedDict or non-runtime protocol member, and without such members succeeds exactly for a subclass of some member (subtype failure otherwise) |
| ValidationProperties.SubtypeOfMembers | typing_validation/validation.py:622-633 | without `Any` among the members: `ValueError` exactly when some member is not a class, which is exactly when `_can_validate_subtype_of` is false; otherwise the outcome of `issubclass` over the member tuple |
| ValidationProperties.SubclassCheckOrder | typing_validation/validation.py:631 | `issubclass(s, ms)` asks the members in order: the first that raises, or the first that answers yes, decides, and all answering no is the subtype failure |
| ValidationProperties.SubclassCheckAnswers | typing_validation/validation.py:631 | a raised `TypeError` names a member that refuses the check; with no such member, acceptance exactly when some member answers yes; no other outcome |
| ValidationProperties.DecidableDecided | typing_validation/validation.py:753-917 | a hint without unsupported parts or aliases returns, raises `TypeError`, or raises the builders' `AssertionError` (never `UnsupportedTypeError`, another `ValueError` or `RecursionError`); with no subclass check that can raise, it returns, raises a `TypeError` carrying a failure, or raises the `AssertionError` of a union value not `==` to itself, and the last cannot happen when `==` is reflexive |
| ValidationProperties.UnsupportedMessageOmitsHint | typing_validation/validation.py:230-239 | as written, the unsupported-type message is the same for every hint and differs from the intended one |
| ValidationProperties.UnsupportedMessageNamesHint | typing_validation/validation.py:230-239 | the corrected message starts with the repr of the hint, and distinct reprs give distinct messages |
| ValidationFailure.VisitIsPreorder | typing_validation/validation_failure.py:80-121 | `visit` calls `fun` once per node, in pre-order, starting at the root with the initial accumulator |
| ValidationFailure.IndentLines | typing_validation/validation_failure.py:11-14 | `_indent` prefixes every line with two spaces |
| ValidationFailure.SplitJoin | typing_validation/validation_failure.py:207 | the lines of the joined message are the lines of its pieces |
| ValidationFailure.AliasLinesFrom | typing_validation/validation_failure.py:178-179 | the alias block has one line per alias |
| ValidationFailure.TopLevelOpening | typing_validation/validation_failure.py:171-181 | the top-level message opens with the header, then the alias block exactly when aliases were set, then the summary line |
| ValidationFailure.NestedRenderingIsLayout | typing_validation/validation_failure.py:164-207 | without unions, the nested rendering puts each node on its own line at twice its depth in spaces, in pre-order |
| ValidationFailure.UnionOfLeaves | typing_validation/validation_failure.py:171-195 | a union whose member failures have no causes renders as its opening lines (at top level), its summary and one "Not of any member type" line |
| ValidationFailure.SameValueEqual | typing_validation/validation_failure.py:45-46 | for causes about the value itself, the union assertion holds exactly when there are no causes or the value is `==` to itself |
| ValidationFailure.UnionOfMixed | typing_validation/validation_failure.py:182-203 | a union with member failures of both kinds renders as its summary, the line naming the member types without details, then one details block per other member failure, in order |
| ValidationFailure.UnionOfExpanded | typing_validation/validation_failure.py:182-203 | a union whose member failures all have causes renders as its summary and one details block per member failure, with no leaf line |
| ValidationFailure.UnionOfNothing | typing_validation/validation_failure.py:182-199 | a union without member failures renders as its summary and the unindented line "Type union is empty." |
| ValidationFailure.ExpandSeqCons | typing_validation/validation_failure.py:200-203 | the details are one block per member failure with causes, in order, each opening with its "details below" header |
| ValidationFailure.PartitionSplits | typing_validation/validation_failure.py:183-189 | every member failure goes to exactly one side: the leaves have no causes, the others have some, and together they are all the causes |
| ValidationFailure.ExpandableMembers | typing_validation/validation_failure.py:183-189 | the member failures expanded in detail are member failures of the union |
| ValidationFailure.Render | typing_validation/validation_failure.py:152-207 | `_str` equals the reference rendering `Text` |
| ValidationFailure.RenderTop | typing_validation/validation_failure.py:171-181 | the opening lines equal the reference |
| ValidationFailure.RenderCauses | typing_validation/validation_failure.py:204-206 | the indented causes of a non-union failure equal the reference |
| ValidationFailure.Partition | typing_validation/validation_failure.py:183-189 | the loop splits member failures into those without causes and those with, keeping their order |
| ValidationFailure.RenderUnion | typing_validation/validation_failure.py:182-203 | the union part equals the summary line followed by the expanded members |
| ValidationFailure.RenderExpandAll | typing_validation/validation_failure.py:200-203 | each member with causes is expanded in turn |
| ValidationFailure.RenderExpanded | typing_validation/validation_failure.py:201-203 | one expanded member is its header and its doubly indented causes |
| ValidationFailure.GetValidationFailure | typing_validation/validation_failure.py:209-237 | the tree is returned exactly for a `TypeError` carrying one; a non-`TypeError` raises `TypeError`, anything else `ValueError` |
| Inspector.Encode | typing_validation/validation.py:789-917 | the dry run records at least one constructor for every hint |
| Inspector.Args | typing_validation/inspector.py:241-242 | a fixed tuple or user class with no arguments is rebuilt applied to `()`; otherwise to its items |
| Inspector.Decode | typing_validation/inspector.py:174-260 | when `_recorded_type(idx)` returns, the index it returns lies between `idx` and the end of the trace |
| Inspector.DecodeMany | typing_validation/inspector.py:197-200 | reading `n` sub-types gives `n` types and a cursor still inside the trace |
| Inspector.Spaces | typing_validation/inspector.py:366-367 | the indent of level `l` has `2l` characters |
| Inspector.WithLast | typing_validation/inspector.py:413-419 | appending a separator to the last line keeps the number of lines |
| Inspector.Repr | typing_validation/inspector.py:361-524 | when `_repr(idx, level)` returns, it returns some lines and an index between `idx` and the trace's end |
| Inspector.ReprGeneric | typing_validation/inspector.py:444-523 | the same for generic records |
| Inspector.ReprItems | typing_validation/inspector.py:504-507 | reading `n` items gives at least `n` lines |
| Inspector.ReprFields | typing_validation/inspector.py:428-441 | reading the TypedDict values gives at least one line per key |
| Inspector.FieldRepr | typing_validation/inspector.py:429-440 | one TypedDict value advances the cursor |
| Inspector.TypeInspector.constructor | typing_validation/inspector.py:126-131 | a new inspector has an empty trace, no unsupported types and nothing pending |
| Inspector.TypeInspector.Truthy | typing_validation/inspector.py:347-348 | the inspector is truthy exactly when no unsupported record is in its trace |
| Inspector.TypeInspector.UnsupportedTypes | typing_validation/inspector.py:142-145 | `unsupported_types` lists the unsupported records of the trace in order |
| Inspector.TypeInspector.AppendConstructorArgs | typing_validation/inspector.py:262-290 | appends the record, merged with the pending origin when one is pending, and clears the slot |
| Inspector.TypeInspector.RecordNone | typing_validation/inspector.py:292-293 | appends the `none` record |
| Inspector.TypeInspector.RecordAny | typing_validation/inspector.py:295-296 | appends the `any` record |
| Inspector.TypeInspector.RecordType | typing_validation/inspector.py:298-299 | appends a `type` record |
| Inspector.TypeInspector.RecordTypedDict | typing_validation/inspector.py:301-302 | appends a `typed-dict` record |
| Inspector.TypeInspector.RecordTypeVar | typing_validation/inspector.py:304-305 | appends a `typevar` record |
| Inspector.TypeInspector.RecordPendingTypeGeneric | typing_validation/inspector.py:307-309 | fills the empty pending slot and changes nothing else |
| Inspector.TypeInspector.RecordCollection | typing_validation/inspector.py:311-312 | appends a `collection` record, merged with the pending origin |
| Inspector.TypeInspector.RecordMapping | typing_validation/inspector.py:314-315 | appends a `mapping` record, merged with the pending origin |
| Inspector.TypeInspector.RecordUnion | typing_validation/inspector.py:317-325 | appends a `union` record with the member count and the PEP 604 flag; a PEP 604 union must have members |
| Inspector.TypeInspector.RecordVariadicTuple | typing_validation/inspector.py:327-328 | appends a variadic `tuple` record, merged with the pending origin |
| Inspector.TypeInspector.RecordFixedTuple | typing_validation/inspector.py:330-331 | appends a `tuple` record with the item count, merged with the pending origin |
| Inspector.TypeInspector.RecordUserClass | typing_validation/inspector.py:333-334 | appends a `user-class` record with the argument count, merged with the pending origin |
| Inspector.TypeInspector.RecordLiteral | typing_validation/inspector.py:336-337 | appends a `literal` record with the values |
| Inspector.TypeInspector.RecordAlias | typing_validation/inspector.py:339-340 | appends an `alias` record |
| Inspector.TypeInspector.RecordUnsupportedType | typing_validation/inspector.py:342-345 | drops a pending origin, adds the type to the unsupported list and appends an `unsupported` record |
| Inspector.TypeInspector.RecordedTypeAt | typing_validation/inspector.py:174-260 | the cursor-driven reader equals the reference decoder `Decode` |
| Inspector.TypeInspector.ReadItems | typing_validation/inspector.py:198-200 | reading `n` sub-types in a loop equals the reference |
| Inspector.TypeInspector.GetRecordedType | typing_validation/inspector.py:133-140 | `recorded_type` is the type at index 0 when the whole trace is consumed (see `RoundTrip`) |
| Inspector.TypeInspector.ReprAt | typing_validation/inspector.py:361-524 | `_repr` equals the reference `Repr` |
| Inspector.TypeInspector.ReprGenericAt | typing_validation/inspector.py:444-523 | the generic branches of `_repr` equal the reference |
| Inspector.TypeInspector.ReprItemsAt | typing_validation/inspector.py:504-507 | the item loops of `_repr` equal the reference |
| Inspector.TypeInspector.ItemReprAt | typing_validation/inspector.py:505-506 | one item with its separator equals the reference |
| Inspector.TypeInspector.ReprFieldsAt | typing_validation/inspector.py:428-441 | the TypedDict loop of `_repr` equals the reference |
| Inspector.TypeInspector.FieldReprAt | typing_validation/inspector.py:429-440 | one TypedDict key line equals the reference |
| Inspector.TypeInspector.GetTypeAnnotation | typing_validation/inspector.py:160-172 | `type_annotation` is the stripped lines of `_repr(mark_unsupported=False)` joined together |
| Inspector.TypeInspector.Inspect | typing_validation/validation.py:789-917 | `validate(inspector, t)` appends exactly the preorder trace of `t` and lists its unsupported parts |
| Inspector.TypeInspector.RecordPlain | typing_validation/validation.py:799-833 | a non-generic hint appends its one record |
| Inspector.TypeInspector.RecordGeneric | typing_validation/validation.py:834-869 | a generic hint goes through the pending slot and ends as one merged record |
| Inspector.TypeInspector.InspectKids | typing_validation/validation.py:365-573 | the dry run visits the sub-hints in order |
| Inspector.InspectType | typing_validation/validation.py:940-987 | `inspect_type(t)` is a fresh inspector whose trace is the preorder trace of `t` |
| InspectorProperties.DecodeEncoded | typing_validation/inspector.py:174-260 | reading the trace of any hint back from its first record gives the recorded hint and ends on its last record, exactly when the hint is decodable |
| InspectorProperties.RoundTrip | typing_validation/inspector.py:133-140 | `recorded_type` of `inspect_type(t)` is the recorded form of `t` exactly when the hint is decodable |
| InspectorProperties.TypeVarNotRecorded | typing_validation/inspector.py:207-260 | as written, `list[T]` for a TypeVar `T` cannot be read back; with a `typevar` branch it reads back as itself |
| InspectorProperties.RecordedSupported | typing_validation/inspector.py:174-260 | for a supported hint with no one-member union and no empty argument list, the recorded form is the hint itself |
| InspectorProperties.SupportedRoundTrip | typing_validation/inspector.py:133-140 | with the `typevar` branch, such a hint round-trips through the inspector exactly |
| InspectorProperties.SupportedRoundTripAsWritten | typing_validation/inspector.py:133-140 | as written, such a hint that visits no TypeVar round-trips through the inspector exactly |
| InspectorProperties.DecodableFromUnions | typing_validation/inspector.py:193-206 | with the `typevar` branch, only an empty union can stop decoding |
| InspectorProperties.EmptyArgsRecorded | typing_validation/inspector.py:241-242 | `tuple[()]` and `C[()]` read back applied to `()` |
| InspectorProperties.SupportedIff | typing_validation/inspector.py:342-348 | a hint is supported exactly when its dry run records no unsupported type, so the inspector is truthy |
| InspectorProperties.SupportedDecidable | typing_validation/validation.py:920-937 | a supported hint without aliases has no unsupported parts for the matcher |
| InspectorProperties.CanValidateSound | typing_validation/validation.py:920-937 | when `can_validate(t)` is truthy and `t` has no aliases, `validate(val, t)` never raises `UnsupportedTypeError`, another `ValueError` or `RecursionError`, for every value, table and depth |
| InspectorProperties.SubclassOfTypedDict | typing_validation/validation.py:551-567 | `Type[TD]` for a TypedDict `TD` is recorded as `type` applied to `TD`; validating a class against it raises the `TypeError` of `issubclass`, so `is_valid` fails on reading the failure |
| ReprProperties.ReprMark | typing_validation/inspector.py:361-524 | with the flag forwarded, whenever the unmarked printing succeeds the marked one does too, stops at the same record, and both are one abstract printing: the same lines except that each unsupported record consumed, in trace order, is its line `str(t)` unmarked and the three `UnsupportedType[` lines marked |
| ReprProperties.ReprItemsMark | typing_validation/inspector.py:504-507 | the same for the item loops |
| ReprProperties.ReprFieldsMark | typing_validation/inspector.py:428-441 | the same for the TypedDict loop |
| ReprProperties.AnnotationLinesWithoutUnsupported | typing_validation/inspector.py:148-172 | for a trace without unsupported records, `type_structure` and the corrected `type_annotation` are printed from the very same lines |
| ReprProperties.NestedUnsupportedMarked | typing_validation/inspector.py:452-462 | as written, `_repr(mark_unsupported=False)` still wraps a nested unsupported type in `UnsupportedType[...]`; with the flag passed on, it is shown bare |
| PrintedHints.ReprEncodedAt | typing_validation/inspector.py:361-524 | `_repr` from the first record of a hint's trace, wherever it sits, succeeds and stops at its last record, at every level, marked or not, as written or corrected, when every union in it prints |
| PrintedHints.ReprEncoded | typing_validation/inspector.py:361-524 | `_repr()` of the dry run's trace of such a hint consumes the whole trace |
| PrintedHints.PrintedHint | typing_validation/inspector.py:148-172 | the corrected `type_structure` and `type_annotation` of such a hint both succeed and print one abstract printing whose places are the hint's unsupported parts, in the order the dry run met them |
| PrintedHints.UnsupportedHintPrinted | typing_validation/inspector.py:371-380 | a hint recorded as unsupported as a whole prints as the three `UnsupportedType[` lines in `type_structure` and as the stripped `str(t)` in `type_annotation` |
| ReprProperties.ReprUnion | typing_validation/inspector.py:406-423 | a union of no members cannot be represented; otherwise `_repr` succeeds exactly when its members do |
| LegacyMatcher.Attached | typing_validation/validate.py:190-193 | `_type_error` keeps the tree of a caught error exactly when it carries one |
| LegacyMatcher.OldStr | typing_validation/validate.py:162-172 | the old `__str__` equals the reference `OldText` |
| LegacyMatcher.OldStrCauses | typing_validation/validate.py:169-171 | every cause is rendered on a new line, indented |
| LegacyMatcher.OldStrUnion | typing_validation/validate.py:164-168 | only member failures that have causes get a "Detailed failures" block |
| LegacyMatcher.OldStrMember | typing_validation/validate.py:167-168 | the causes of an expanded member are indented twice |
| LegacyMatcher.LegacyValidator.constructor | typing_validation/validate.py:350 | the slot starts empty |
| LegacyMatcher.LegacyValidator.Validate | typing_validation/validate.py:370-390 | `validate` returns the outcome of `_validate`; afterwards the slot holds the failure tree when a `TypeError` carrying one was raised, what the innermost union's last member left in it when its assertion raised `AssertionError` (which `validate` does not catch), and nothing otherwise |
| LegacyMatcher.LegacyValidator.Dispatch | typing_validation/validate.py:307-348 | `_validate` dispatches on the hint as the reference `Legacy` says, and leaves the slot empty unless it raises a failure tree or the union `AssertionError` |
| LegacyMatcher.LegacyValidator.DispatchParametric | typing_validation/validate.py:327-344 | the origin check, then the collection, mapping or tuple validator |
| LegacyMatcher.LegacyValidator.ValidateType | typing_validation/validate.py:208-211 | `isinstance`, or a plain failure without causes |
| LegacyMatcher.LegacyValidator.ValidateItems | typing_validation/validate.py:213-226 | the item loop equals the reference, and the slot stays empty unless a failure is raised |
| LegacyMatcher.LegacyValidator.ValidatePairs | typing_validation/validate.py:228-242 | the pair loop equals the reference |
| LegacyMatcher.LegacyValidator.ValidateFixed | typing_validation/validate.py:264-274 | a wrong length fails without causes; otherwise the position loop equals the reference |
| LegacyMatcher.LegacyValidator.ValidateUnion | typing_validation/validate.py:276-296 | the member loop equals the reference union check, including the `AssertionError` of `__new__` for a value not `==` to the value of every kept tree, and leaves in the slot what the last member's `validate` left |
| LegacyProperties.LegacyFailureShape | typing_validation/validate.py:93-104 | every failure tree concerns the validated value, has no alias data, and at every union node the value is `==` (the `equals` parameter) to the value of each cause, so the assertion of `__new__` passed |
| LegacyProperties.ItemsFirstFailure | typing_validation/validate.py:219-226 | items are validated in order; the first that raises decides, and its tree, if it has one, is the sole cause |
| LegacyProperties.PairsFirstFailure | typing_validation/validate.py:234-242 | the same for key/value pairs |
| LegacyProperties.PairSideForgotten | typing_validation/validate.py:235-240 | a bad key and a bad value give the same failure: the pair's side is not recorded |
| LegacyProperties.FixedFirstFailure | typing_validation/validate.py:267-274 | the positions of a fixed tuple are validated in order and the first failure is the sole cause |
| LegacyProperties.FixedWrongLength | typing_validation/validate.py:265-266 | a tuple of the wrong length fails with no causes |
| LegacyProperties.LegacyLeaves | typing_validation/validate.py:312-318 | `Any` accepts everything, `None` accepts only `None`, and unknown hints raise `ValueError` |
| LegacyProperties.UnionFirstAccept | typing_validation/validate.py:287-296 | the first member not raising `TypeError` decides; when all raise, the union failure holds every attached member tree, in order, if the value is `==` to the value of each, and otherwise `AssertionError` is raised with the slot as the last member left it |
| LegacyProperties.UnionAssertion | typing_validation/validate.py:102-103 | when every member raises `TypeError`, the union raises its failure exactly when no member kept a tree or the value is `==` to itself, and `AssertionError` otherwise |
| LegacyProperties.OptionalNotSelfEqual | typing_validation/validate.py:287-296 | `validate(float('nan'), Optional[int])`: both matchers raise `AssertionError`, and the old slot keeps the failure of the `None` member |
| LegacyProperties.AllAttachedFailures | typing_validation/validate.py:294-296 | when every member raises a tree, the union failure has one cause per member |
| LegacyProperties.LegacyAgreesWithCheck | typing_validation/validate.py:307-348 | on the hints both matchers understand, the old and the new matcher agree on success, `TypeError`, unsupported and the union `AssertionError` |
| LegacyProperties.OldRenderingIsLayout | typing_validation/validate.py:162-172 | without unions, the old message puts each node on its own line, indented by depth, in pre-order |
| LegacyProperties.OldAndNestedRenderingAgree | typing_validation/validate.py:162-172 | without unions, the old message has the same lines as the new nested rendering |
| LegacyProperties.OldUnionOfLeaves | typing_validation/validate.py:164-168 | member failures without causes add nothing to the old union message |

## Left out

- Translating Python `typing` objects into hints is not modelled. The
  `Types.Ty` datatype is the result of that translation:
  `typing.Type`→`type`, `_to_typing_equiv`, `__origin__`/`__args__` access.
- The `__args__` arity assertions and `_missing_args_msg`/`_wrong_args_num_msg`
  are not modelled, since translated hints have the right arity.
- NumPy arrays and dtypes (`_validate_numpy_array`, `_extract_dtypes`) are out
  of scope.
- `isinstance`, `issubclass`, `==`, `repr` and `str` are parameters. `Literal`
  membership uses the `equals` parameter, so `val in t.__args__` is modelled
  as "equal to some literal".
- Python-version differences are not modelled (the `UnionType` checks and the
  3.8 branches of `_append_constructor_args`). Neither is the matcher's
  behaviour on builtin generic aliases that are also instances of `type`.
- `rich_print`, `__repr__` of failures and inspectors, and
  `latest_validation_failure` of validation_failure.py are out of scope. The
  last reads `sys.last_value`, which is interpreter state.
- `validated_iter` checks items lazily as they are yielded. The model checks
  them all at once, so the order of side effects is not captured.
- The commented-out `Callable` validator and `descriptor.py` are out of scope.
- The `ValidationFailure` subclasses (`UnionValidationFailure`,
  `ValidationFailureAtIdx` and the others) are not part of this model. They
  are imported by validation.py but are not in the validation_failure.py
  modelled here. Their constructors are modelled by the `Kind` of a failure,
  and every kind is rendered with the base `_str` rules.
- Failures built by `_idx_type_error`, `_key_type_error` and the other
  specialised builders carry an empty alias table, because those builders
  pass no `type_aliases`.
- Missing TypedDict keys are listed in annotation order. The source iterates
  a `frozenset`, whose order is unspecified.
- The union assertion of `ValidationFailure.__new__` compares with the
  `equals` parameter, so a value that is not `==` to itself (`float('nan')`)
  makes a failing union raise `AssertionError`. `UnionValidationFailure`,
  which is not part of this model, is taken to pass `is_union=True` to
  `ValidationFailure.__new__`, as its name and its rendering say.
- ValidationProperties.DecidableDecided: with `strict`, the conclusion that
  `validate` returns or raises a `TypeError` carrying a failure needs
  `ReflexiveEquals`, because a union over a value not `==` to itself raises
  `AssertionError`; without it the lemma states that this error is the only
  other outcome.
- The reader's union branch (inspector.py:201-206) rebuilds the union with
  `typing.Union.__getitem__` or `|`, which flatten nested unions and drop
  duplicate members. For two or more members the model returns
  `Union(members, pep604)` as read (one member reads back as itself, none
  fails). The two agree on every hint Python builds, whose unions are
  already flat and duplicate-free; `Types.Ty` can also express nested or
  repeated members, which Python never produces.
- `recorded_type` asserts that the whole trace was consumed; `GetRecordedType`
  returns `None` instead of raising `AssertionError`.
- `type_structure` is the function `TypeStructure` over the trace; the
  `TypeInspector` class has no method of its own for it.
- `issubclass` against an `UnsupportedType[...]` wrapper class is taken to be
  false: the wrapper is made afresh by the inspector, and no class given to
  `validate` derives from it.
- Runtime-checkable protocols with data members, for which `issubclass`
  also raises `TypeError`, are not told apart from other classes.
- `AssertFailed` stands for the `AssertionError` that `_bound_type_error`,
  `_idx_type_error`, `_key_type_error` and their kin raise when the error
  they wrap carries no failure. Under `python -O` the assertion is skipped
  and the `getattr` after it raises `AttributeError` instead; the model does
  not tell the two apart.
- PrintedHints.ReprEncoded: stated for hints whose unions all print
  (`UnionsPrintable`), since `_repr` asserts on a union without member lines.
- `LegacyMatcher.Legacy` gives `ValueError` for `X | Y` unions, `TypeVar`s,
  aliases, user generics and `Type[...]`, because these hints have no
  `__origin__` the old code knows and are not classes. A `TypedDict` or a
  non-runtime protocol gives a bare `TypeError`, because `isinstance` refuses
  them. These readings depend on the Python version.
- ValidationProperties.FuelMonotone: the recursion limit of Python is modelled
  by a `fuel` count, not by the interpreter's stack.

## Findings

| source | as written | input that shows it | evidently intended | confidence | as-written member | corrected member |
|---|---|---|---|---|---|---|
| typing_validation/validation.py:236 | the message `"Unsupported validation for type {t!r}."` has no `f` prefix, so it contains `{t!r}` verbatim | `validate(1, "Foo")` outside any `validation_aliases` | the message shows `repr(t)` | not executed | ValidationProperties.UnsupportedMessageOmitsHint | ValidationProperties.UnsupportedMessageNamesHint |
| typing_validation/inspector.py:453 | the nested `self._repr(idx + 1, level + 1)` calls drop `mark_unsupported`, so `type_annotation` wraps nested unsupported types despite its docstring (lines 165-169) | `inspect_type(list[t]).type_annotation` for an unsupported `t` | nested calls pass `mark_unsupported` on | not executed | ReprProperties.NestedUnsupportedMarked | ReprProperties.ReprMark |
| typing_validation/inspector.py:207-260 | `_recorded_type` has no branch for the `"typevar"` tag recorded by `_record_typevar`, so it reaches `assert False` | `inspect_type(list[T]).recorded_type` for a TypeVar `T` | a TypeVar reads back as itself | not executed | InspectorProperties.TypeVarNotRecorded | InspectorProperties.SupportedRoundTrip |
