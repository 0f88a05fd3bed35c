# wirefilter runtime values and execution context, in Dafny

This project models the runtime value layer of the wirefilter filter engine:

- the type descriptor `Type` (Ip, Bytes, Int, Bool, or Map of a type) and `Type::next`;
- the homogeneous `Map`, whose `insert` is type-checked against its declared value type;
- the runtime value `LhsValue`, with `get_type`, `get`/`get_mut`/`set` by path item, and `as_ref`;
- the parsed literals `RhsValue`/`RhsValues`, the conversion of a literal into a runtime value, the cross-kind comparison, the per-type lexer dispatch, and the brace-list loop `lex_rhs_values`;
- the `ExecutionContext`, which keeps one optional value per field of a scheme. It has a type-checked setter, a path setter that materialises missing maps, and a reader that walks the stored maps.

Files:

- `wrappers.dfy`: `Option` and `Result`.
- `types.dfy`, module `Types`: `Type`, `LhsValue`, `TypedMap` (the source's `Map`), the errors, and the well-formedness lemmas.
- `literals.dfy`, module `Literals`: literals, comparison and lexing.
- `execution_context.dfy`, module `ExecutionContexts`: the scheme as data, the class `ExecutionContext`, the specification functions of the two setters, and their lemmas.

How the source is represented:

- **In-place operations on values.** Rust's `&mut self` operations on `Map` and `LhsValue` act on owned, unaliased data. So each one is a function that returns a `Mutation`: the new value together with what the Rust method returns. `get_mut` returns a reference that the caller writes through; that write is an `edit` function parameter.
- **The context is a class.** `ExecutionContext` has an array of slots.
  - `SetFieldValue` overwrites one slot.
  - `GetFieldValueUnchecked` and the path walk `SetPathLoop` are loops. Each is proved against a recursive specification function (`Lookup`, `SetPath`).
  - The path walk keeps a trail of the maps it went through. `Plug` writes the changed node back through them, as the source's mutable reference into the slot does.
- **Well-formedness is conditional.** Every populated slot always has its field's declared type. Nested maps stay homogeneous at every depth (`WellFormed`) only if the value handed to a setter is well-formed itself.

Two behaviours of the code are easy to miss:

- **Bool and Map literal lists.** The item types `UninhabitedBool` and `UninhabitedMap` have no values, so no single Bool or Map literal lexes (engine/src/types.rs:168-177). Still, `RhsValues::lex_with` runs `lex_rhs_values` with these item types (engine/src/types.rs:210-219). That loop returns successfully on `{}` before it calls the item lexer (engine/src/types.rs:19-26). So the empty list `{}` of these kinds lexes. `Literals.LexRhsValuesWith` and `Literals.UninhabitedListIsEmpty` state exactly this.
- **Where `VoidableType` arises.** For a scalar field, `VoidableType` arises only when the slot is unset, because no placeholder exists for the field's type (engine/src/execution_context.rs:105-109). When a scalar field's slot is already set, a non-empty path fails at `Type::next` with a `TypeMismatch` instead (engine/src/execution_context.rs:114-119). A map field whose slot is set can also give `VoidableType`. This happens when a path runs past a missing key whose value type is scalar, because that key has no placeholder to store (engine/src/execution_context.rs:120-123). For example, slot `{}` of type `Map(Int)` with path `a.b` gives `VoidableType(Int)`. `ExecutionContexts.SetSlotWithPathMissingScalarKey` states this case.

## Model

| member | source | states |
|---|---|---|
| Types.Type.Next | engine/src/types.rs:107-114 | `next` is `Some(inner)` exactly when the type is `Map(inner)`, `None` for every scalar kind |
| Types.TypeAtNext | engine/src/types.rs:107-114 | repeated `next` walks down one map layer at a time and ends at the innermost scalar kind |
| Types.LhsValue.GetType | engine/src/types.rs:82-88 | a map value reports `Map(declared value type)`; each scalar variant reports its own fixed kind, and only it |
| Types.LhsValue.AsRef | engine/src/types.rs:294-302 | `as_ref` gives a value with the same data and type |
| Types.LhsValue.Get | engine/src/types.rs:308-320 | on a map: `Ok` of the key lookup, `None` exactly for a missing key; on any other value: `TypeMismatch{Map(ty), own type}` |
| Types.LhsValue.GetMut | engine/src/types.rs:326-340 | returns what `get` returns; the value changes only at that key, when present, and only by the caller's write |
| Types.LhsValue.Set | engine/src/types.rs:346-361 | on a map it is exactly the checked `insert`; on any other value it fails with `TypeMismatch{Map(value type), own type}` and changes nothing |
| Types.LhsValue.TryFromType | engine/src/execution_context.rs:105-109 | the placeholder of a map type is an empty map of that type; every scalar kind fails with `VoidableType` of itself |
| Types.LhsValue.GetMutOrTrySetDefault | engine/src/execution_context.rs:120-123 | a present key yields its entry with no change; a missing key stores the placeholder (an empty map) and yields it, or fails with `VoidableType` when the type is scalar; failure leaves the value unchanged |
| Types.LhsValue.GetTypeFromPath | engine/src/execution_context.rs:114-119 | the reported type nests the value's type once per remaining segment, over the same innermost kind |
| Types.TypedMap.New | engine/src/types.rs:228-233 | a new map is empty, has the given value type, and is homogeneous |
| Types.TypedMap.GetType | engine/src/types.rs:259-263 | a map's type is its declared value type |
| Types.TypedMap.Get | engine/src/types.rs:235-237 | the entry under the key exactly when the key is present |
| Types.TypedMap.GetMut | engine/src/types.rs:239-241 | the lookup of `get`; only the looked-up entry is rewritten, and a missing key changes nothing |
| Types.TypedMap.Insert | engine/src/types.rs:243-256 | a mismatched type fails with `{declared, value type}` and leaves the map unchanged; otherwise it stores the value, returns the previous entry, and keeps every other key |
| Types.InsertKeepsWellFormed | engine/src/types.rs:243-256 | the checked insert keeps a well-formed map well-formed, and a returned previous entry has the declared type |
| Types.InsertThenGet | engine/src/types.rs:243-256 | after a well-typed insert, `get` on the key returns the inserted value, and `get` on other keys is unchanged |
| Types.GetMutKeepsWellFormed | engine/src/types.rs:326-340 | a type-preserving write through `get_mut` keeps the value well-formed and of the same type |
| Types.GetMutIdentity | engine/src/types.rs:326-340 | a `get_mut` with no write leaves the value as it was |
| Types.GetMutOrTrySetDefaultWellFormed | engine/src/execution_context.rs:120-123 | on a well-formed map, materialising keeps it well-formed, and the entry returned is well-formed and of the declared value type |
| Literals.RhsValue.GetType | engine/src/types.rs:159-166 | a literal is an Ip, Bytes or Int value, never Bool or Map |
| Literals.PartialCmp | engine/src/types.rs:179-188 | different kinds are unordered (`None`, never an error); same kinds use the kind's comparator |
| Literals.Eq | engine/src/types.rs:192-196 | `==` holds exactly when the comparison is `Some(Equal)`, and only between values of one kind |
| Literals.DifferentKindsNeverEqual | engine/src/types.rs:179-196 | a runtime value and a literal of different kinds are unordered and never equal, whatever the comparators |
| Literals.FromRhs | engine/src/types.rs:279-289 | the runtime value made from a literal has the literal's kind and data |
| Literals.FromRhsEqualsItself | engine/src/types.rs:279-289 | under reflexive comparators, a literal converted to a runtime value compares equal to that literal |
| Literals.Expect | engine/src/types.rs:20-24 | `expect` succeeds exactly when the input starts with the literal, and returns the input after it |
| Literals.SkipSpace | engine/src/types.rs:23 | `skip_space` returns a tail of the input that does not start with whitespace |
| Literals.SkipSpaceDropsOnlySpaces | engine/src/types.rs:23 | everything `skip_space` drops is whitespace |
| Literals.LexRhsValues | engine/src/types.rs:19-33 | the loop of `lex_rhs_values` returns exactly the brace-list result `LexList`: items in order, or the first error |
| Literals.LexListNeedsOpeningBrace | engine/src/types.rs:19-20 | `lex_rhs_values` fails unless the input starts with `{` |
| Literals.LexItemsEndsAtBrace | engine/src/types.rs:22-32 | after the `{`, a successful list returns a proper tail of the input that directly follows a `}` |
| Literals.LexListEndsAtBrace | engine/src/types.rs:19-33 | a successful list returns the remainder after its closing `}`, a proper tail of the input |
| Literals.LexItemsNeedsClosingBrace | engine/src/types.rs:22-32 | after the `{`, an input with no `}` never yields a list |
| Literals.LexListNeedsClosingBrace | engine/src/types.rs:19-33 | an input without `}` is an unterminated list and fails |
| Literals.LexItemsFirst | engine/src/types.rs:28-29 | items come in source order: the first is what the item lexer reads after the spaces, and the rest follow it |
| Literals.Uninhabited | engine/src/types.rs:380-383 | the lexer of the uninhabited Bool and Map literal types fails on every input |
| Literals.LexRhsValue | engine/src/types.rs:168-177 | Ip/Bytes/Int: exactly the kind's lexer result, the literal wrapped in that kind, with the same remainder or error; Bool and Map always fail; a lexed literal has the requested kind |
| Literals.LexRhsValuesWith | engine/src/types.rs:210-219 | each kind's result is the brace list of its item lexer, with the items wrapped in that kind and the same remainder or error; Bool and Map use the uninhabited item lexer |
| Literals.UninhabitedListIsEmpty | engine/src/types.rs:210-219 | a Bool or Map list lexes exactly when `}` follows `{` and spaces, and is then empty |
| Literals.UninhabitedListsAgree | engine/src/types.rs:210-219 | whether a Bool or Map list lexes does not depend on the failing lexer's error |
| ExecutionContexts.SetSlot | engine/src/execution_context.rs:67-81 | the slot is overwritten exactly when the value has the declared type; otherwise `{field type, value type}` and the slot is kept |
| ExecutionContexts.SetSlotWithPath | engine/src/execution_context.rs:85-111 | an empty path is the plain setter with the error wrapped; an unset scalar field fails with `VoidableType` and stays unset; otherwise the slot is populated |
| ExecutionContexts.ExecutionContext.constructor | engine/src/execution_context.rs:21-26 | `field_count` slots, all unset |
| ExecutionContexts.ExecutionContext.GetFieldValueUnchecked | engine/src/execution_context.rs:33-59 | given a set slot and every key present, the loop returns the value stored at the field's path, `Lookup` of the slot (the recursive reader `Lookup`, with `PathPresent` as the condition that every key exists, models the walk at engine/src/execution_context.rs:42-58) |
| ExecutionContexts.ExecutionContext.SetFieldValue | engine/src/execution_context.rs:62-82 | only the field's slot changes, as `SetSlot` says; the slot typing is kept, and homogeneity is kept for a well-formed value |
| ExecutionContexts.ExecutionContext.SetFieldValueWithPath | engine/src/execution_context.rs:85-111 | only the field's slot changes, as `SetSlotWithPath` says; the slot typing is kept, and homogeneity is kept for a well-formed value |
| ExecutionContexts.SetPathLoop | engine/src/execution_context.rs:113-135 | the loop with its write-back computes exactly the recursive walk `SetPath` (which models engine/src/execution_context.rs:113-133; its last segment, `SetLast`, models the checked set or mismatch at engine/src/execution_context.rs:124-131) |
| ExecutionContexts.SlotsTypedUpdate | engine/src/execution_context.rs:73-74 | overwriting a field's slot with a value of its type keeps every slot typed, since fields have distinct slots |
| ExecutionContexts.SetSlotWithPathKeepsSlots | engine/src/execution_context.rs:105-133 | the path setter keeps the whole context typed, and homogeneous for a well-formed value |
| ExecutionContexts.SetSlotWithPathKeepsSlot | engine/src/execution_context.rs:105-133 | both setters keep a slot of the declared type, and well-formed for a well-formed value |
| ExecutionContexts.SetPathKeepsType | engine/src/execution_context.rs:113-133 | the walk never changes the type of the slot's value |
| ExecutionContexts.SetPathKeepsWellFormed | engine/src/execution_context.rs:113-133 | from a well-formed value of the field type, the walk leaves a well-formed value |
| ExecutionContexts.SetPathRoundTrip | engine/src/execution_context.rs:113-133 | after a successful walk, every key along the path exists and the stored value is the one set |
| ExecutionContexts.SetSlotWithPathRoundTrip | engine/src/execution_context.rs:85-136 | after a successful set, with or without a path, the reader finds the set value at that path |
| ExecutionContexts.SetPathWithinDepth | engine/src/execution_context.rs:113-133 | within the map nesting of the type, the walk succeeds exactly when the value has the type at the path's depth, and otherwise fails with `{that type, value type}` |
| ExecutionContexts.SetSlotWithPathWithinDepth | engine/src/execution_context.rs:113-133 | the same if-and-only-if at the slot, set or unset |
| ExecutionContexts.SetPathTooDeep | engine/src/execution_context.rs:114-122 | a path longer than the type's nesting always fails, against the innermost scalar kind, as a mismatch or a `VoidableType` |
| ExecutionContexts.SetPathFailureOnlyMaterialises | engine/src/execution_context.rs:114-131 | a failed walk only adds empty maps under new keys; no existing entry is lost or replaced |
| ExecutionContexts.SetPathFailureOnPresentPathChangesNothing | engine/src/execution_context.rs:114-131 | when every map above the last segment already exists, a failed walk changes nothing |
| ExecutionContexts.SetSlotWithPathFailureKeepsData | engine/src/execution_context.rs:105-131 | a failed path set on a populated slot loses no data, and changes nothing when the maps above the last segment exist |
| ExecutionContexts.SetPathFailureAddsOnlyPrefixes | engine/src/execution_context.rs:113-133 | a failed walk adds maps only along its path: any path present afterwards that is not a proper prefix of the written path was already present before |
| ExecutionContexts.SetSlotWithPathFailureAddsOnlyPrefixes | engine/src/execution_context.rs:105-133 | lifted to a slot: such a path was present in the slot's old value, and on an unset slot only proper prefixes of the written path exist after a failure |
| ExecutionContexts.SetPathSuccessKeepsOthers | engine/src/execution_context.rs:113-133 | a successful walk keeps every path that `path` is not a prefix of, and every scalar stored at one |
| ExecutionContexts.SetSlotWithPathSuccessKeepsOthers | engine/src/execution_context.rs:105-133 | a successful path set on a populated slot keeps every value stored off that path |
| ExecutionContexts.SetPathSuccessAddsOnlyPath | engine/src/execution_context.rs:113-133 | a successful walk adds nothing off its path: any path present afterwards that is neither a prefix nor an extension of the written path was already present before |
| ExecutionContexts.SetSlotWithPathSuccessAddsOnlyPath | engine/src/execution_context.rs:105-133 | lifted to a slot: such a path was present in the slot's old value, and on an unset slot no such path exists afterwards |
| ExecutionContexts.SetSlotWithPathMissingScalarKey | engine/src/execution_context.rs:111-123 | on a set map slot, a path that runs past a missing key whose value type is scalar fails with `VoidableType` of that type and leaves the slot unchanged |
| ExecutionContexts.MaterialisedKeepsEntries | engine/src/execution_context.rs:120-123 | materialising maps keeps every existing path and every scalar stored at one |
| ExecutionContexts.FieldValueTypeMismatchScenario | engine/src/execution_context.rs:139-154 | `Bool(false)` set on the `Int` field `foo` fails with `{Int, Bool}` |
| ExecutionContexts.FillingKeyByKey | engine/src/execution_context.rs:85-136 | on slot values: after `[a, b] := 5` on an unset `Map(Map(Int))` slot and then `[a, c] := 7`, both sets succeed and both paths read back their values |
| ExecutionContexts.NestedPathScenario | engine/src/execution_context.rs:85-136 | setting `[a, b]` of an unset `Map(Map(Int))` field to 5 and then `[a, c]` to 7 reads back 5 and 7 |

## Left out

- **Serde deserialisation** of `Type`, `LhsValue` and `Map`, and the deserialisation test. JSON decoding belongs to a foreign library.
- **The macros.** `declare_types!` and its helpers are replaced by the enums and functions they expand to.
- **`Debug` and `Fail` formatting**, which only produces display text.
- **The `From` conversions** into `LhsValue` of a raw payload, of `&[u8]` and of `&str`. Each only wraps its argument in a constructor.
- **The `TryFrom<LhsValue>` payload extractions.** The `Map` arm of these is `unreachable!()`, a panic.
- **The `Cow` distinction between borrowed and owned byte buffers, and the lifetimes.** Bytes are `seq<bv8>`, so `as_ref` is the identity on data.
- **Update in place.** The in-place updates of `Map` and `LhsValue` (`insert`, `get_mut`, `set`) are modelled on values. Rust's `&mut` makes these values unaliased, so replacing the value is the same as updating it; hash-map iteration order is never observed.
- **The per-kind comparators** (`strict_partial_cmp` of addresses, byte strings and integers). They are not in these sources, so they are parameters (`Comparators`).
- **The literal lexers** of addresses, byte strings, integers, address ranges and integer ranges. They are not in these sources, so they are parameters (`Lexers`).
  - The lexers of `UninhabitedBool` and `UninhabitedMap` are not in these sources either. The model assumes they return an error (`Uninhabited`); if they panic instead, the Bool and Map arms of `LexRhsValue` and of a non-empty list do not return at all.
- **Range membership** of address and integer ranges.
- **`expect` and `skip_space`** are not in these sources.
  - Literals.Expect: modelled as consuming an exact prefix.
  - Literals.SkipSpace: modelled as dropping leading space, tab, LF, FF and CR characters. The exact set is not in these sources. The lexing lemmas use only that it returns a tail that does not start with one of these characters.
- **Literals.LexRhsValues: requires the item lexer to consume input when it succeeds (`Consumes`).** The source loop only terminates under this assumption.
- **Scheme internals.** The scheme is data: a map from field name to slot index and declared type, plus the field count.
  - A field lookup's `unwrap()` and the debug-only scheme equality assertion are preconditions.
  - `ExecutionContext::scheme()` is a plain accessor of the `scheme` field.
- **ExecutionContexts.ExecutionContext.GetFieldValueUnchecked: the panics are preconditions.** `PathPresent` excludes all four:
  - an unset slot;
  - a path deeper than the type's nesting (`next().unwrap()`);
  - a node at a map-typed level that is not a map, where `get(..).unwrap()` fails with `TypeMismatch` (possible only for an ill-formed value);
  - a missing key.
- **Types.LhsValue.TryFromType, Types.LhsValue.GetMutOrTrySetDefault and Types.LhsValue.GetTypeFromPath are not in these sources.** They are small definitions with the behaviour their call sites rely on.
  - The `unwrap()` after `get_mut_or_try_set_default` never fails in the model: a successful call always yields an entry.
  - No lemma about the path setter depends on the type that `GetTypeFromPath` reports beyond its contract.
- **ExecutionContexts.ExecutionContext.SetFieldValue: keeps nested maps homogeneous only when the stored value is well-formed.** A caller can build an inhomogeneous map value, through `get_mut` or deserialisation.
- **ExecutionContexts.ExecutionContext.SetFieldValueWithPath: the same condition on homogeneity.** The slot's declared-type invariant holds unconditionally.
