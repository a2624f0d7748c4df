# Affinity Ruby driver: PIN collections, marshaling and the protobuf transaction context

This project models the in-memory core of the Ruby client of the Affinity store (`affinity.rb`) and proves properties of it in Dafny:

- **PIN::Collection** is an array-valued PIN property. Every mutator changes the values and the parallel list of `Extra` records (`@pin.extras[@property]`) in place, and hands one update PIN per element operation to `_handlePINUpdate`. The mutators are `insert`, `push`, `<<`, `concat`, `pop`, `delete_at`, `delete`, `delete_if`/`reject!`, `keep_if`/`select!`, `uniq!`, `slice!`, `[]=`, `fill`, `collect!`/`map!`, `unshift`, `clear` and `replace`, plus the reorderings done through `_shuffle_begin`/`_shuffle_end`.
- A reference model of the store (module `Store`) applies those element operations to its own copy of the collection. Each mutator is proved to emit exactly the operations that take the store's copy to the copy of the new local state; in the lemmas this is `Follows` and `...Syncs`/`...Replays`.
- **Value types:** `Extra`, `PID` and `Ref`, with their ordering (`<=>`) and their text forms (`to_s`).
- **Marshaling** between native values and wire values (`_valueRB2PB`, `_valuePB2RB`): tag choice, pinned tags, references, VT_ARRAY, and the VT_URIID fallback.
- **The PIN as a property map** (`_assign`, `delete`, `replace`, `clear`, `PIN.[]`, `getExtra`, `loadPIN`, `clearPIN`). PIN is a class. Every change it makes while it has a pid appends an update PIN to its `outbox`.
- **Saving:**
  - property-id allocation (`_preparePBPropIDs`);
  - the insert-or-update message and return type of `_savePINsi`;
  - the pid and element-id back-fill of `savePINs`;
  - the defer-or-send rule of `_handlePINUpdate`.
- **PBTransactionCtx:** how `capture`, `flush`, `startTx`/`commitTx`/`rollbackTx`, `_terminate`, `recordPINUpdate`/`_applyPINUpdates` and `_pushData` move segments, the property dictionary, the nesting count and the deferred updates. Also the per-thread connection stack.

Layout, one module per file:

| file | module | contents |
|---|---|---|
| `wire.dfy` | `Common`, `Wire` | Option, `<=>` on integers, operation codes, value-type tags, the reserved element ids, `Extra` |
| `ids.dfy` | `Ids` | `PID`, `Ref`, their ordering and text |
| `marshal.dfy` | `Marshal` | native values, wire values, both conversions |
| `rbarray.dfy` | `RbArray` | the Ruby `Array` primitives the collection reaches via `super` |
| `store.dfy` | `Store` | the store's copy of a collection and how it applies element operations |
| `diff.dfy` | `Diff` | the element operations of insert, delete and set, and that the store follows them |
| `edits.dfy` | `Edits` | each mutator as a function of (values, extras), and its sync lemma |
| `reorder.dfy` | `Reorder` | `_shuffle_begin`/`_shuffle_end` for any permutation |
| `loops.dfy` | `Loops` | one-iteration lemmas that carry the mutators' loop invariants |
| `pins.dfy` | `Pins` | classes `Pin` and `Collection` |
| `saving.dfy` | `Saving` | property ids, PIN messages, back-fill |
| `tx.dfy` | `Tx` | classes `ConnectionStack` and `TxCtx`, and `savePINs` |

**Raising.** A raise is modelled as a `false` outcome. The state and the updates sent before the raise are kept, as Ruby keeps them.

**The connection.** It is replaced by an event log (`log`: posts, long-post begin and end, reset) and by a `Reply` parameter that stands for what the store answers.

**Where the model follows the code rather than the behaviour the driver is documented to have:**
- A collection emits its element operations whenever it has a PIN. It does not matter whether that PIN has a pid (`@pin != nil`, affinity.rb:136, 164, 211).
- `savePINs` redirects the back-fill through `isUpdate.otherPINs` (affinity.rb:672, 690), but nothing ever assigns `isUpdate`: `markAsUpdate` sets `@updateOf` instead (affinity.rb:639-642). So the redirection never happens. The model back-fills the PINs it is given. An update PIN made by `_handlePINUpdate` is a value here, and nothing is back-filled into the PIN it updates.
- `insert` and `push` with several values (affinity.rb:139-152) anchor every value on the same unadvanced position. The classes, and `Edits.InsertF`/`Edits.PushF`, use the corrected per-value anchoring of the third row of "## Findings" (`Diff.InsertOps`). The code as written is `Diff.InsertOpsAsWritten`, and for a single value the two agree (`Diff.InsertOneAsWrittenAgrees`).

## Model

| member | source | states |
|---|---|---|
| Common.Spaceship | affinity.rb:447-448 | `<=>` on integers is -1, 0 or 1, and is 0 exactly on equal values and negative exactly when the first is smaller |
| Ids.RefFromPid | affinity.rb:483 | `Ref.fromPID` keeps the PID and names no property and no element |
| Ids.ComparePid | affinity.rb:442-450 | `PID#<=>` is 0 exactly on equal PIDs, and negative or positive exactly as the lexicographic order on (localPID, ident) says |
| Ids.PidLessIsStrictTotalOrder | affinity.rb:442-450 | the PID order is irreflexive, transitive and total |
| Ids.CompareStr | affinity.rb:469 | `String#<=>` on property names is -1, 0 or 1 and is 0 exactly on equal strings |
| Ids.CompareStrAntisymmetric | affinity.rb:469 | swapping the strings negates the comparison |
| Ids.CompareStrTransitive | affinity.rb:469 | the string order is transitive |
| Ids.CompareOptStr | affinity.rb:469 | comparing optional property names is 0 exactly on equal names and undefined (nil) exactly when one side is nil and the other is not |
| Ids.CompareOptNat | affinity.rb:470 | comparing optional element ids is 0 exactly on equal ids and undefined exactly when one side is nil and the other is not |
| Ids.CompareRef | affinity.rb:464-472 | `Ref#<=>` is -1, 0, 1 or undefined, is 0 exactly on equal references, and decides by the PID first, then by the property, then by the element id |
| Ids.CompareRefAntisymmetric | affinity.rb:464-472 | swapping two references negates the comparison and keeps incomparability |
| Ids.Hex | affinity.rb:451 | `to_s(16)` gives at least one digit, all hexadecimal |
| Ids.ParseHexOfHex | affinity.rb:451 | the hexadecimal text of a number reads back as that number |
| Ids.Dec | affinity.rb:475 | `to_s` of an element id gives a non-empty run of decimal digits |
| Ids.ParseDecOfDec | affinity.rb:475 | the decimal text of an element id reads back as that id |
| Ids.RefText | affinity.rb:473-481 | the text starts with the PID's text; a reference with neither property nor element prints as its PID; with a property or an element id a `.` follows the PID; with an element id the text ends in `]` |
| Ids.RefTextDeterminesLocalPid | affinity.rb:473-481 | the text of a PID or of any reference determines its local id |
| Ids.RefTextReadsBack | affinity.rb:473-481 | the `to_s` of a reference whose property has no `[` splits back into its local PID, its property (for an element reference the printed text of the property) and its element id |
| Ids.PidTextInjective | affinity.rb:451 | two PIDs with the same text have the same local id |
| Marshal.RubyEqEquivalence | affinity.rb:198 | Ruby `==` on native values, as `delete` uses it, is reflexive, symmetric and transitive |
| Marshal.SameStringTransitive | affinity.rb:486-492 | content equality between Strings, whatever their class (`String`, `Url`, `ByteArray`), is transitive |
| Marshal.KeyEqIsRubyEq | affinity.rb:247 | two values that collide as Hash keys are `==`; two `==` values that do not collide are exactly an integer and a float of the same value, or a reference and itself |
| Marshal.KeyEqProperties | affinity.rb:247 | collision of Hash keys is symmetric and transitive, and reflexive on every value but a reference (identity hash) |
| Marshal.RubyEqExamples | affinity.rb:198 | `1 == 1.0` but they are different keys; `"a"` equals and collides with `Url("a")`; `"a" == ByteArray("a")`; a Symbol is not its String; a reference is not a String |
| Marshal.GuessIntTag | affinity.rb:987-998 | an unpinned integer is tagged VT_INT on [-2^31, 2^31-1], VT_UINT on (2^31-1, 2^32-1], VT_INT64 below -2^31 or on (2^32-1, 2^63-1], VT_UINT64 above 2^63-1 |
| Marshal.WithInt | affinity.rb:978-998 | storing an integer in the field of its tag succeeds exactly when the integer is in that field's range (int32, uint32, int64, uint64) |
| Marshal.TagFor | affinity.rb:956-1039 | an integer gets an integer tag, keeping a pinned one; a float gets VT_FLOAT exactly when VT_FLOAT is pinned, and VT_DOUBLE otherwise; nil and an unsupported value keep the pinned tag |
| Marshal.TagForFixed | affinity.rb:956-1039 | every other kind gets its tag whatever is pinned, and never VT_ARRAY |
| Marshal.ExtraFromPB | affinity.rb:429 | `Extra.fromPB` copies the property id, type, operation, element id and meta of the record |
| Marshal.ValueToPB | affinity.rb:956-1039 | `_valueRB2PB` succeeds exactly when the value is encodable (an integer must fit the field of its tag); it then sets the tag `TagFor` chooses, keeps the property, operation, element id, meta and array fields, and leaves the record untouched for nil or an unsupported value |
| Marshal.ValueFromPB | affinity.rb:1041-1091 | `_valuePB2RB` gives a list exactly for VT_ARRAY, with one entry per wire element, and otherwise a value paired with `Extra.fromPB` of the record |
| Marshal.ElementsFromPB | affinity.rb:1043-1047 | the elements decoded from position `k` on are as many as the wire elements left |
| Marshal.ElementsAreDecodedInOrder | affinity.rb:1043-1046 | element `j` of a decoded array is the decoding of wire element `j` |
| Marshal.RoundTrip | affinity.rb:956-1091 | for a value of a kind the driver encodes, whose referenced property the dictionary and the read context agree on, decoding what `_valueRB2PB` wrote, when the write succeeds, gives back the value (a Symbol as its String, a Time as its wall-clock reading taken as UTC) with the Extra of the record under the chosen tag |
| Marshal.IntegerTag | affinity.rb:975-999 | an integer keeps a pinned integer tag and otherwise gets the guessed one; the write succeeds exactly when the integer is in that tag's field range, and the integer then reads back unchanged |
| Marshal.GuessFits | affinity.rb:987-998 | with no integer tag pinned, the write of an integer succeeds exactly on [-2^63, 2^64-1] |
| Marshal.DatetimeSplits | affinity.rb:1030-1032 | the microsecond count `_valueRB2PB` builds from a time splits back into its seconds and microseconds |
| Marshal.IntegerTagExamples | affinity.rb:978-998 | with nothing pinned, 12345 is written VT_INT in `i`, -8589934592 VT_INT64 in `i64`, 3000000000 VT_UINT and 2^63 VT_UINT64; 2^31 under a pinned VT_INT, -1 under a pinned VT_UINT64 and 2^64 with nothing pinned cannot be written |
| Marshal.FloatTag | affinity.rb:1000-1006 | a float keeps a pinned VT_FLOAT in `f`, and is otherwise VT_DOUBLE in `d` |
| Marshal.ReferenceTag | affinity.rb:1007-1028 | a reference with an element id is VT_REFIDELT with its PID, the property's id and the element id; one with only a property is VT_REFIDPROP with element id 0, as a fresh `AffinityPB::Ref` has; a bare one is VT_REFID with its PID |
| Marshal.UriIdFallback | affinity.rb:1080-1086 | a VT_URIID reads back as the name of its id when the read context knows it, and as the raw number exactly when it does not |
| Marshal.UnsupportedIsDropped | affinity.rb:1033-1038 | a value of a kind the driver cannot encode, with no pinned tag, reads back as nothing |
| Marshal.ArrayRoundTrip | affinity.rb:1043-1047 | a VT_ARRAY of written values reads back as a list of exactly as many values, the `k`-th being the `k`-th value read back with the Extra of its record under its chosen tag |
| RbArray.InsertPos | affinity.rb:155 | `Array#insert` counts a negative position from the end (length + pos + 1), and raises before the start |
| RbArray.Insert | affinity.rb:155 | `Array#insert` puts the objects at the position, padding with nil past the end, and does nothing for no objects |
| RbArray.SetAt | affinity.rb:186 | `Array#[]=` replaces the element (a negative index from the end), grows the array past the end, and raises before the start |
| RbArray.DeleteAt | affinity.rb:222 | `Array#delete_at` at a position inside the array removes and returns that element, and past the end returns nil and changes nothing |
| RbArray.PopN | affinity.rb:172 | `Array#pop(n)` splits the array into what stays and the last min(n, length) elements |
| Diff.News | affinity.rb:149 | each inserted element gets a fresh `Extra.new` placeholder |
| Diff.InsertExtra | affinity.rb:143-148 | the anchor of an inserted value is OP_ADD_BEFORE or OP_ADD: OP_ADD_BEFORE EID_FIRST_ELEMENT for the first value at 0, OP_ADD_BEFORE the id of the element at the position inside the collection, and OP_ADD EID_LAST_ELEMENT exactly at the end |
| Diff.InsertOps | affinity.rb:139-152 | one operation per inserted value, each carrying that value and the anchor of its own position (corrected, see Findings) |
| Diff.InsertReplays | affinity.rb:139-155 | the store, replaying the insert operations, ends with the copy of the values and extras after the insert |
| Diff.InsertOpsAsWritten | affinity.rb:139-152 | the insert operations as written: one per value, all anchored at the unadvanced position |
| Diff.InsertOneAsWrittenAgrees | affinity.rb:139-152 | for a single value the code as written and the corrected anchoring emit the same operation |
| Diff.InsertAsWrittenMisorders | affinity.rb:139-152 | `insert(0, 1, 2)` as written leaves the store with [2, 1] while the PIN holds [1, 2]; the correction leaves [1, 2] |
| Diff.RemoveKeepsKeyed | affinity.rb:217 | removing the same position from values and extras keeps them aligned with distinct ids, and matches removing the store's cell |
| Diff.DeleteOp | affinity.rb:219 | the update that removes an element is OP_DELETE with that element's id |
| Diff.DeleteReplays | affinity.rb:216-219 | the single OP_DELETE carrying the element's own id makes the store remove exactly that element |
| Diff.DeleteOps | affinity.rb:167-170 | deleting positions in decreasing order emits one OP_DELETE per position, carrying that position's element id |
| Diff.DeleteAllReplays | affinity.rb:167-170 | the store, replaying deletes at decreasing positions, ends with the copy of what is left |
| Diff.SetOp | affinity.rb:185 | the update of `self[i] = v` is OP_SET carrying the new value and the id of the element at `i` |
| Diff.SetReplays | affinity.rb:185 | the OP_SET with the element's id changes that element's value in the store and nothing else |
| Edits.PositionsExact | affinity.rb:198 | the scan lists exactly the positions that satisfy the test |
| Edits.PositionsDescending | affinity.rb:200 | the scan lists positions below the length, strictly decreasing |
| Edits.WithoutPositions | affinity.rb:248-250 | deleting the listed positions, highest first, leaves exactly the elements at the other positions, in order |
| Edits.InsertF | affinity.rb:133-156 | `insert` (corrected, see Findings): with no values nothing happens; on a tracked collection it raises (nothing changes, nothing is sent) exactly when the normalized position is outside [0, extras.length], and otherwise adds one placeholder and sends one operation per value; the values are always those of `Array#insert`, and an untracked collection sends nothing |
| Edits.InsertSyncs | affinity.rb:133-156 | on a saved collection, `insert` (corrected, see Findings) succeeds exactly for a normalized position in [0, length], splices the values in there, and the store follows its operations |
| Edits.PushF | affinity.rb:157 | `push` is `insert(-1, ...)` |
| Edits.PushSyncs | affinity.rb:157-158 | `push` (corrected, see Findings) always succeeds, appends the values and one placeholder each, and sends one add per value anchored after the last element (in front, for the first value into an empty collection); the store follows. The source anchors every value after the first before the placeholder just added (Diff.InsertAsWrittenMisorders) |
| Edits.ConcatSyncs | affinity.rb:159 | `concat` appends every value with one operation each, and the store follows |
| Edits.ConcatUntracked | affinity.rb:159 | on an untracked collection `concat` only appends |
| Edits.ConcatF | affinity.rb:159 | `concat` of nothing changes nothing and sends nothing, and an untracked collection never sends |
| Edits.DeleteAtF | affinity.rb:209-223 | `delete_at` raises exactly on a negative index or one past the extras; otherwise it sends one OP_DELETE with that element's id and removes the value and the extra |
| Edits.DeleteAtSyncs | affinity.rb:209-223 | on a saved collection `delete_at` succeeds exactly inside the bounds, returns the value, and the store follows |
| Edits.DeleteAtAll | affinity.rb:200 | a run of `delete_at` that succeeds returns one value per position, and an untracked collection sends nothing |
| Edits.DeleteAtAllSyncs | affinity.rb:200 | a run of `delete_at` at decreasing positions succeeds, returns the deleted values in order, and the store follows |
| Edits.PopF | affinity.rb:161-173 | `pop` raises exactly when the count is not positive or, on a tracked collection, exceeds the extras; otherwise what stays plus what is popped is the old array (without a count: one element, or nil on an empty array) |
| Edits.Tail | affinity.rb:167-168 | the positions `pop` deletes are the last `count`, from the last down |
| Edits.WithoutTail | affinity.rb:167-170 | deleting the last `count` positions from the last down leaves the first length - count elements |
| Edits.PopSyncs | affinity.rb:161-173 | on a saved collection `pop(n)` succeeds exactly for 0 < n <= length, keeps the first length - n values, sends OP_DELETEs for the last n from the last down, and the store follows |
| Edits.DeleteValueSyncs | affinity.rb:196-207 | `delete(value)` keeps, in order, exactly the elements that are not `==` to the value (1 == 1.0, Strings by content), keeps the count of every such value, and the store follows |
| Edits.DeleteValueAnswers | affinity.rb:199-203 | `delete(value)` returns the value when some element is `==` to it, and nil otherwise |
| Edits.DeleteValueF | affinity.rb:196-207 | `delete` answers only the value it was given, and on an untracked collection sends nothing |
| Edits.DeleteValueExample | affinity.rb:196-200 | `delete(1.0)` on [1, "b"] leaves ["b"] |
| Edits.DeleteUrlExample | affinity.rb:198-203 | `delete("a")` on [Url("a")] finds the element and returns "a" |
| Edits.KeepSatisfying | affinity.rb:225-243 | keeping the positions whose value fails the test leaves no value that passes it and every other value as often as before |
| Edits.UniqSyncs | affinity.rb:245-252 | `uniq!` keeps, in order, the first element of each Hash key (`"a"` and `Url("a")` collide, 1 and 1.0 do not), so no two kept elements collide, every kept value was there and every removed one collides with a kept one; the store follows |
| Edits.UniqAnswers | affinity.rb:251 | `uniq!` reports a change exactly when two elements collide as Hash keys |
| Edits.UniqF | affinity.rb:245-252 | on an untracked collection `uniq!` sends nothing and leaves it untracked |
| Edits.UniqExample | affinity.rb:245-252 | `uniq!` on ["a", Url("a"), 1, 1.0] leaves ["a", 1, 1.0] |
| Edits.KeepFirsts | affinity.rb:247-250 | keeping the first element of each key leaves no two colliding elements, only old values, and a key for every old value |
| Edits.SliceBounds | affinity.rb:254-266 | `slice!` raises exactly when it is given no argument |
| Edits.SliceF | affinity.rb:267-273 | `slice!` that succeeds returns one value per position of the range inside the collection, and an untracked collection sends nothing |
| Edits.SliceSyncs | affinity.rb:254-274 | `slice!(from..to)` never raises: it deletes the range clipped to the collection (nothing when the clipped range is empty), returns it from the highest position down, and the store follows |
| Edits.PositionsWithin | affinity.rb:268-272 | the positions of `slice!` are the range in the bounds, from the top down |
| Edits.WithoutRange | affinity.rb:268-272 | deleting a range from its top down leaves what is before and after it |
| Edits.SetIndexF | affinity.rb:175-189 | `[i] = v`: an untracked collection raises; on a tracked one the extras never change, the values are those of `Array#[]=`, and an index inside the bounds sends exactly one OP_SET carrying that element id |
| Edits.SetIndexSyncs | affinity.rb:175-189 | on a saved collection `[i] = v` succeeds exactly for an index inside the bounds (negative from the end), changes that value only, and the store follows |
| Edits.SetRangeSyncs | affinity.rb:177-183 | the range form of `[]=` inside the bounds replaces the whole range by the one value, and the store follows |
| Edits.SetRangeF | affinity.rb:177-183 | the range form of `[]=` sends nothing on an untracked collection |
| Edits.SetFromSyncs | affinity.rb:298-300 | `self[i] = gen(i)` for i in [from, to] sends one OP_SET per index in order, changes exactly those values, and the store follows |
| Edits.SetFrom | affinity.rb:298-300 | on an untracked collection a non-empty run of `self[i] =` raises at once and sends nothing |
| Edits.CollectFromSyncs | affinity.rb:311-315 | `self[i] = f(self[i])` from `i` on changes exactly the values from `i`, keeps the extras, and the store follows |
| Edits.CollectFrom | affinity.rb:311-315 | `collect!` with elements left raises on an untracked collection and sends nothing |
| Edits.FillBounds | affinity.rb:278-296 | `fill` without bounds covers the whole collection |
| Edits.FillSyncs | affinity.rb:276-303 | `fill` inside the bounds sets exactly the covered values and keeps the rest and all extras, and the store follows |
| Edits.FillF | affinity.rb:276-303 | `fill` over non-empty bounds raises on an untracked collection and sends nothing |
| Edits.CollectSyncs | affinity.rb:311-316 | `collect!` replaces every value by `f` of it, keeps the extras, and the store follows |
| Edits.PrependF | affinity.rb:307 | `insert(0, v)` puts the value and a placeholder in front and sends one operation |
| Edits.PrependIsInsert | affinity.rb:307 | `unshift`'s step is `insert` at position 0 |
| Edits.PrependReplays | affinity.rb:307 | the store follows `insert(0, v)` |
| Edits.UnshiftSyncs | affinity.rb:305-309 | `unshift` puts the values in front in their order, sends one OP_ADD_BEFORE EID_FIRST_ELEMENT per value from the last to the first, and the store follows |
| Edits.UnshiftFrom | affinity.rb:305-309 | `unshift` on an untracked collection sends nothing |
| Edits.DeleteIfSyncs | affinity.rb:225-243 | `delete_if` (corrected) removes every value satisfying the test and keeps the count of every other, and the store follows |
| Edits.DeleteIfF | affinity.rb:225-233 | `delete_if` (corrected) sends nothing on an untracked collection |
| Edits.DeleteIfAsWrittenSkips | affinity.rb:232 | the code as written leaves one of two adjacent matches; the correction removes both |
| Edits.DeleteIfAsWritten | affinity.rb:232 | `delete_if` as written sends nothing on an untracked collection |
| Reorder.Begin | affinity.rb:366-369 | `_shuffle_begin` pairs each value with its element id and position |
| Reorder.MoveOp | affinity.rb:384-385 | a move carries the element id and the previous element's id as its value, and is OP_MOVE_BEFORE exactly when anchored on EID_FIRST_ELEMENT, OP_MOVE otherwise |
| Reorder.MoveTo | affinity.rb:382 | taking the entry at `j` out and putting it back at `i` shifts the entries between them by one and keeps the rest |
| Reorder.Resync | affinity.rb:372-387 | the corrected re-sync keeps the number of Extras |
| Reorder.ResyncSyncs | affinity.rb:374-387 | after the first loop of `_shuffle_end`, extra `k` carries the id the target wants at `k`, the extras are a permutation of the old ones, and the part past the values is untouched |
| Reorder.ResyncInPlace | affinity.rb:376-380 | positions already in place are left alone and emit nothing |
| Reorder.ResyncMoves | affinity.rb:384-386 | every emitted operation moves a target element, anchored on EID_FIRST_ELEMENT (OP_MOVE_BEFORE) or on the previous element of the target (OP_MOVE) |
| Reorder.MoveStep | affinity.rb:384-385 | one move applied by the store is the same move of its cells |
| Reorder.ReorderingSyncs | affinity.rb:366-369 | a rearrangement of `_shuffle_begin`'s list has its length and only its entries |
| Reorder.ReorderResyncsExtras | affinity.rb:370-387 | after a reorder the extras' ids are the target's ids and the extras are a permutation of the old ones |
| Reorder.ReorderIdentityEmitsNothing | affinity.rb:374-380 | reordering into the current order emits no move and changes no extra |
| Reorder.ReorderReplays | affinity.rb:370-391 | the store, replaying the moves, ends with the target's values paired with the re-synced extras |
| Reorder.ResyncAsWritten | affinity.rb:382 | the re-sync as written, taking each extra from its original position |
| Reorder.ResyncAsWrittenMisaligns | affinity.rb:382 | reversing [1, 2, 3] as written leaves the extras' ids [1, 2, 3] while the values are reversed; the correction leaves [3, 2, 1] |
| Loops.AddAnchor | affinity.rb:143-148 | the anchor of an insert at `i`: OP_ADD_BEFORE EID_FIRST_ELEMENT at 0, OP_ADD_BEFORE the id at `i` inside, OP_ADD EID_LAST_ELEMENT at the end |
| Pins.NonNil | affinity.rb:817-818 | `compact` keeps exactly the non-nil values |
| Pins.AddsAtEnd | affinity.rb:822-824 | each element of a plain list assigned to a property gets OP_ADD EID_LAST_ELEMENT |
| Pins.Assigned | affinity.rb:809-829 | `_assign` stores one value exactly for a plain value or a [value, Extra] pair, with one Extra (the pair's own); a list of pairs keeps one Extra per pair, its own; a plain list becomes a collection of its values with one Extra each |
| Pins.UpdateDoc | affinity.rb:831 | the update PIN `PIN[SK_PID => pid, key => value]` has the pid and the one key, holding what `_assign` would store |
| Pins.OpDoc | affinity.rb:151 | the update PIN of one element operation holds the operation's value and Extra under the property |
| Pins.OpDocs | affinity.rb:151 | one update PIN per element operation, in order |
| Pins.DeleteDoc | affinity.rb:573 | the update PIN of `delete(key)` has the pid and the one key, with OP_DELETE EID_COLLECTION as its Extra |
| Pins.DeleteDocs | affinity.rb:573 | one delete PIN per removed key |
| Pins.AssignDocs | affinity.rb:831 | one update PIN per stored pair |
| Pins.DeleteAbsentKeys | affinity.rb:566 | the second loop of `replace` deletes, in order, the old keys not among the new ones, keeps the entries of the new ones, and sends a delete for each when the PIN has a pid |
| Pins.Pin.constructor | affinity.rb:506-511 | `PIN.new` has no pid, no properties, no Extras |
| Pins.Pin.HandleUpdate | affinity.rb:1093-1095 | an update PIN joins the outbox and nothing else changes |
| Pins.Pin.Put | affinity.rb:813-828 | storing a key keeps it in place or adds it last, and changes only that key's value and Extras |
| Pins.Pin.Assign | affinity.rb:809-833 | `_assign`: stores what the value means (plain, [value, Extra] or a new Collection), records its Extras, keeps the other keys, and sends the update PIN exactly when the PIN has a pid |
| Pins.Pin.Delete | affinity.rb:570-575 | `delete(key)` returns the old value (nil if none), removes the key and its Extras, and sends a delete exactly when the PIN has a pid |
| Pins.Pin.Unput | affinity.rb:571-572 | removing a key drops its value and Extras only |
| Pins.Pin.Clear | affinity.rb:599-602 | `clear` empties the PIN, keeps its pid, and sends one delete per key in key order when it has a pid |
| Pins.Pin.DeleteFirst | affinity.rb:600 | one step of `clear` removes a key and extends the deletes sent by exactly that key, the keys seen so far and those left making up the old order |
| Pins.Pin.Replace | affinity.rb:562-568 | `replace(h)` keeps the old keys that `h` has, then adds its new ones in order, gives every key of `h` its Extras, and sends the stores of `h` followed by the deletes of the keys `h` lacks |
| Pins.Pin.StoreAll | affinity.rb:565 | the first loop of `replace` stores every pair in order and appends the new keys |
| Pins.Pin.DeleteAbsent | affinity.rb:566 | the second loop of `replace` deletes the old keys that are not new, keeping the others' values and Extras |
| Pins.Pin.SetPid | affinity.rb:99 | `pid=` changes the pid and nothing else |
| Pins.Pin.Make | affinity.rb:513-533 | `PIN[...]` builds a PIN with the given keys in order and their Extras, and the pid, set last, sends no update |
| Pins.Pin.GetExtra | affinity.rb:624-637 | `getExtra` finds the FIRST Extra carrying an element id (`extras.index`) when some element has it, the only Extra for EID_COLLECTION when there is exactly one, and raises otherwise |
| Pins.Pin.ClearPin | affinity.rb:782-787 | `clearPIN` unsets the pid before clearing, so it empties the PIN and sends nothing |
| Pins.Pin.LoadPin | affinity.rb:764-773 | `loadPIN` succeeds exactly when every value decodes to something `_assign` takes; it then holds exactly the decoded names, each with what `_assign` stores for its last value and those Extras, its pid set last, and nothing is sent; on failure the pid stays unset |
| Pins.Pin.LoadNext | affinity.rb:766-769 | one value of `loadPIN` stores its name with what `_assign` makes of it, keeps the other names' contents, sends nothing, the pid still unset |
| Pins.Pin.LoadValues | affinity.rb:765-769 | the loop of `loadPIN` runs to the end exactly when every value decodes to something `_assign` takes, and then holds for each name what `_assign` stores for its last value |
| Pins.Pin.AssignTracked | affinity.rb:809-833 | `_assign` on a PIN without a pid stores the key with what the value means and its Extras, keeps every other key's value, Extras and collection elements, and sends nothing |
| Pins.LastInputsKeys | affinity.rb:766-769 | the names `loadPIN` assigns are the names of its values |
| Pins.LastInputsAt | affinity.rb:766-769 | a name ends up with its last value |
| Pins.InputOf | affinity.rb:809-829 | a decoded value is assigned as a [value, Extra] pair and an unknown one as nil; an empty list is a plain list; a list of decoded values is a list of pairs exactly when every element decoded to a value; a list of unknowns is a collection of nils; a list starting with a list raises |
| Pins.Collection.constructor | affinity.rb:123-128 | a collection of a PIN property holds the given values |
| Pins.Collection.Emit | affinity.rb:151 | an element operation becomes one update PIN for the property; nothing else changes |
| Pins.Collection.DeleteAt | affinity.rb:209-223 | `delete_at` on the objects is `Edits.DeleteAtF` on their state, and sends its operations |
| Pins.Collection.DeleteEach | affinity.rb:200 | the `downto` loop of `delete(value)` is `Edits.DeleteAtAll` over the positions |
| Pins.Collection.DeleteWhere | affinity.rb:248-250 | a downward scan deleting the positions that satisfy a test is `Edits.DeleteAtAll` over those positions |
| Pins.Collection.Matches | affinity.rb:198 | the `toDelete` scan lists exactly the positions holding a value `==` to its argument, highest first |
| Pins.Collection.Delete | affinity.rb:196-207 | `delete(value)` on the objects is `Edits.DeleteValueF` (which uses Ruby `==`), sends its operations and leaves the rest of the PIN alone |
| Pins.Collection.Uniq | affinity.rb:245-252 | `uniq!` on the objects is `Edits.UniqF` (Hash-key collision), sends its operations and leaves the rest of the PIN alone |
| Pins.Collection.FirstOccurrences | affinity.rb:247 | the first loop of `uniq!` marks exactly the positions whose Hash key does not occur earlier |
| Pins.UniqueStep | affinity.rb:247 | at each position the `unique` Hash already has the key exactly when the value repeats an earlier key, and it then covers the keys of one more position |
| Pins.Collection.Slice | affinity.rb:254-274 | `slice!` raises with no arguments and is otherwise `Edits.SliceF` on the objects |
| Pins.Collection.DeleteIf | affinity.rb:225-233 | `delete_if`/`reject!` (corrected) on the objects is `Edits.DeleteIfF` |
| Pins.Collection.KeepIf | affinity.rb:235-243 | `keep_if`/`select!` (corrected) is `delete_if` of the negated test |
| Pins.Collection.Insert | affinity.rb:133-156 | `insert` (corrected, see Findings) on the objects is `Edits.InsertF`, and sends its operations |
| Pins.Collection.AddPlaceholders | affinity.rb:137-153 | the loop of `insert` adds one placeholder per value and sends `Diff.InsertOps` |
| Pins.Collection.Push | affinity.rb:157-158 | `push` and `<<` (corrected, see Findings) on the objects are `Edits.PushF` |
| Pins.Collection.Concat | affinity.rb:159 | `concat` on the objects is `Edits.ConcatF`, stopping at the first push that raises |
| Pins.Collection.ConcatOne | affinity.rb:159 | one push of `concat` either advances the loop or, if it raises, ends it with the outcome of the whole `concat` |
| Pins.Collection.Pop | affinity.rb:161-173 | `pop` on the objects is `Edits.PopF` |
| Pins.Collection.DropLast | affinity.rb:167-170 | the `downto` loop of `pop` drops the last `count` Extras and sends their deletes, last first |
| Pins.Collection.SetIndex | affinity.rb:175-189 | `[i] = v` on the objects is `Edits.SetIndexF` |
| Pins.Collection.SetRange | affinity.rb:175-183 | the range form of `[]=` on the objects is `Edits.SetRangeF` |
| Pins.Collection.Fill | affinity.rb:276-303 | `fill` on the objects is `Edits.FillF` |
| Pins.Collection.Collect | affinity.rb:311-316 | `collect!`/`map!` on the objects is `Edits.CollectFrom` from 0 |
| Pins.Collection.Prepend | affinity.rb:307 | `insert(0, v)` on the objects is `Edits.PrependF` |
| Pins.Collection.Unshift | affinity.rb:305-309 | `unshift` on the objects is `Edits.UnshiftFrom` |
| Pins.Collection.Clear | affinity.rb:191-194 | `clear` deletes the property from the PIN (sending a delete when the PIN has a pid) and empties the values |
| Pins.Collection.Replace | affinity.rb:320 | `replace` is `clear` then `concat`, which no longer sends updates once the property is gone |
| Pins.Collection.ShuffleBegin | affinity.rb:366-369 | `_shuffle_begin` pairs each value with its element id and position (it raises when the extras are missing or short) |
| Pins.Collection.ShuffleEnd | affinity.rb:370-392 | `_shuffle_end` (corrected) on the objects: the values become the target's, the extras are `Reorder.Resync`'s, and its moves are sent |
| Pins.Collection.ResyncExtras | affinity.rb:372-387 | the first loop of `_shuffle_end` is `Reorder.Resync` |
| Pins.Collection.StoreOrder | affinity.rb:389-391 | the second loop of `_shuffle_end` stores the target's values in order |
| Saving.Register | affinity.rb:886-894 | `prepid` gives a missing name the id SP_MAX + 1 + size and leaves every existing entry alone |
| Saving.RegisterAll | affinity.rb:903-915 | after registering names the last of them is in the dictionary |
| Saving.Announced | affinity.rb:891-892 | registering names announces at most one entry per name |
| Saving.RegisterAllKeeps | affinity.rb:903-915 | registering names keeps every entry and adds exactly the names visited |
| Saving.RegisterAllAllocates | affinity.rb:886-894 | registering names keeps ids distinct and above SP_MAX and grows the dictionary by the number of entries announced |
| Saving.AnnouncedAdds | affinity.rb:891-892 | each announced entry is a name that was new, with the id it was given |
| Saving.RegisterAllSpec | affinity.rb:883-916 | after `_preparePBPropIDs` the dictionary keeps its entries, holds exactly the old and the visited names, ids stay distinct and above SP_MAX, and each announced entry is a new name with its id |
| Saving.RegisterAllocates | affinity.rb:890 | one registration keeps ids distinct and above SP_MAX and grows the dictionary by one exactly for a new name |
| Saving.RegisterKnown | affinity.rb:887 | registering known names changes nothing and announces nothing |
| Saving.RefName | affinity.rb:897-899 | a value names a property exactly when it is a reference with one |
| Saving.RefNames | affinity.rb:907-915 | the visited reference names are exactly those of the values' references |
| Saving.KeysRegistered | affinity.rb:903-905 | every key of a PIN is in the dictionary afterwards |
| Saving.PrepValue | affinity.rb:920-938 | `prep` copies operation, element id and meta from the Extra, picks the tag, takes the Extra's property id when set and otherwise the dictionary's, and fails when neither is available |
| Saving.ElemValues | affinity.rb:944-948 | a collection gives one value per element, each `prep` of its element and Extra, and fails when Extras are missing |
| Saving.EntryValues | affinity.rb:939-953 | a scalar gives one value (none without its Extra), a collection one per element |
| Saving.DocValuesBuilds | affinity.rb:918-954 | the values of a PIN can be prepared exactly when those of every property can |
| Saving.InsertsElements | affinity.rb:843-850 | `_insertsCollectionElements` holds exactly when some value's operation is OP_ADD or OP_ADD_BEFORE |
| Saving.PinMessage | affinity.rb:863-876 | a PIN message, when there is one, is an update exactly for a PIN with a pid, carries that pid, and counts its values |
| Saving.PinMessageChoice | affinity.rb:863-876 | a PIN with a pid is sent as an update with that pid, one without as an insert, with RT_PINS exactly when some value adds an element, and `nValues` the number of values |
| Saving.OpDocReturnType | affinity.rb:874 | the update PIN of one collection operation asks for RT_PINS exactly for an add, and carries the element id |
| Saving.PinMessages | affinity.rb:863-877 | the messages exist exactly when every PIN's does, one per PIN in order |
| Saving.PrepareIds | affinity.rb:855-858 | the registration loop computes `RegisterAll` and the announced entries |
| Saving.BuildMessages | affinity.rb:863-877 | the serialization loop builds one message per PIN, or stops at the first PIN that fails |
| Saving.FillPid | affinity.rb:694-698 | a PIN without a pid takes the returned one; one with a pid keeps it and raises when the returned local id differs |
| Saving.FillScalar | affinity.rb:710-712 | a single add takes the returned element id; other operations are left alone |
| Saving.FillValue | affinity.rb:700-716 | one returned value changes at most the Extras of the property it names, and an empty array changes nothing |
| Saving.FillValues | affinity.rb:700-716 | the back-fill of every value of a PIN keeps the set of properties |
| Saving.FillValuesFails | affinity.rb:700-716 | once one value of a PIN fails to back-fill, the back-fill of the whole PIN fails |
| Saving.DocExtras | affinity.rb:813-828 | the Extras of a PIN value hold exactly its keys, the last entry of a key winning |
| Saving.FillEidsSpec | affinity.rb:703-709 | each Extra still holding a reserved id takes the returned element id; every other Extra and field is unchanged; too many elements raise |
| Saving.FillEids | affinity.rb:703-709 | the element-id back-fill keeps the number of Extras |
| Tx.ExpectAfter | affinity.rb:1163-1171 | `capture` expects output exactly when the segment's PINs include an insert, always with statements, and otherwise keeps the flag |
| Tx.HasContent | affinity.rb:1162-1174 | a segment carries something exactly when it is not the empty segment |
| Tx.InsertsPin | affinity.rb:1165 | a segment that inserts a PIN holds at least one PIN |
| Tx.InsertsPinAppend | affinity.rb:1165 | a run of PIN messages inserts a PIN exactly when one of its two parts does |
| Tx.ModeFlags | affinity.rb:1160-1161 | for modes 0 to 3, MODE_IGNORE_OUTPUT and MODE_IMMEDIATE_UPDATES are set exactly as their bits say |
| Tx.HasMode | affinity.rb:1160-1161 | a flag that is set is at most the mode |
| Tx.BitAndPow2 | affinity.rb:1160-1161 | for every mode and every power-of-two flag, `mode & flag` keeps exactly that bit, so `HasMode` is `(mode & flag) != 0` |
| Tx.SaveSegments | affinity.rb:852-881 | `_savePINsi` adds the new property entries to the current segment, captures it when there are any, and puts the messages in the segment after |
| Tx.SavedSegments | affinity.rb:855-881 | the segments `_savePINsi` leaves, with or without new property entries, are those `SaveSegments` names, the last one holding the PIN messages |
| Tx.SavedFlag | affinity.rb:1163-1165 | capturing nothing keeps the expect-output flag |
| Tx.Marked | affinity.rb:1179-1181 | an explicit `flush` adds one flush marker and nothing else |
| Tx.Captured | affinity.rb:1162-1174 | `capture` keeps a segment exactly when it carries something |
| Tx.Sent | affinity.rb:1291-1314 | `_pushData` posts nothing for an empty message and one post otherwise |
| Tx.Posts | affinity.rb:654-662 | a flush after `_savePINsi` posts exactly one message, which starts with the segments captured before the save |
| Tx.Ended | affinity.rb:1224-1227 | `_terminate` ends the long post exactly when one is open |
| Tx.UpdateSegments | affinity.rb:1269-1276 | `_applyPINUpdates` adds nothing without updates, and otherwise succeeds exactly when every update serializes, ending with a segment of PINs |
| Tx.BackFillPin | affinity.rb:693-716 | one PIN of the answer back-fills the pid and each value in turn, succeeding exactly when all of them do |
| Tx.FillAll | affinity.rb:700-716 | the loop over one PIN's values is `Saving.FillValues` |
| Tx.BackFillAll | affinity.rb:686-717 | the `i`-th PIN of the answer back-fills the `i`-th PIN, and an answer with more PINs than were sent fails |
| Tx.ConnectionStack.constructor | affinity.rb:1111-1112 | no stack exists until the first use |
| Tx.ConnectionStack.Started | affinity.rb:1111-1112 | the first use starts the stack with the default connection |
| Tx.ConnectionStack.Current | affinity.rb:1110-1116 | `getCurrentDbConnection` starts the stack on first use and answers its top |
| Tx.ConnectionStack.Push | affinity.rb:1117-1125 | `pushDbConnection` puts the connection on top and returns the one it covers |
| Tx.ConnectionStack.Pop | affinity.rb:1126-1132 | `popDbConnection` pops exactly when the connection is on top, and raises otherwise |
| Tx.TxCtx.constructor | affinity.rb:1143-1156 | a new context is empty, outside any transaction |
| Tx.TxCtx.IsOutputIgnored | affinity.rb:1160 | the ignore-output flag of the mode |
| Tx.TxCtx.PerformImmediateUpdates | affinity.rb:1161 | the immediate-updates flag of the mode |
| Tx.TxCtx.Capture | affinity.rb:1162-1177 | `capture` keeps the segment when it carries something, updates the expect-output flag, and starts a fresh segment |
| Tx.TxCtx.PushData | affinity.rb:1279-1315 | `_pushData` posts the segments (nothing when there are none), clears them, resets rc and output from the reply, and drops the dictionary outside a transaction |
| Tx.TxCtx.RegisterNames | affinity.rb:883-916 | the names are registered in the dictionary and the new entries pushed on the current segment |
| Tx.TxCtx.PrepareNames | affinity.rb:855-861 | the first loop of `_savePINsi` registers the names and captures the segment exactly when the dictionary grew |
| Tx.TxCtx.SavePinsI | affinity.rb:852-881 | `_savePINsi` registers every name, then adds the PIN messages and captures, succeeding exactly when every PIN serializes |
| Tx.TxCtx.ApplyPinUpdates | affinity.rb:1269-1276 | `_applyPINUpdates` saves the deferred updates and empties them, doing nothing without any |
| Tx.TxCtx.Flush | affinity.rb:1178-1185 | `flush` marks the stream, captures it, appends the deferred updates and posts everything as one message, failing exactly when a deferred update cannot be serialized; afterwards nothing is pending and the dictionary is dropped outside a transaction |
| Tx.TxCtx.StartTx | affinity.rb:1190-1198 | `startTx` opens a long post only once, captures a TX_START segment and increments the count |
| Tx.TxCtx.Terminate | affinity.rb:1217-1230 | `_terminate` applies the deferred updates, posts, ends the long post, drops the dictionary and has the connection reset |
| Tx.TxCtx.EndLongPost | affinity.rb:1224-1229 | the end of `_terminate` closes the long post and resets |
| Tx.TxCtx.EndTx | affinity.rb:1199-1216 | `commitTx`/`rollbackTx` capture the tx operation and decrement the count; at zero they terminate |
| Tx.TxCtx.RecordPinUpdate | affinity.rb:1263-1268 | `recordPINUpdate` defers the update, and raises in immediate mode |
| Tx.TxCtx.SaveAndFlush | affinity.rb:654-662 | `_savePINsi` then `flush`: one post whose message starts with the segments held before |
| Tx.TxCtx.SaveDocs | affinity.rb:648-679 | `savePINs` of update PINs: nothing changes for no PINs; otherwise one post whose message starts with the segments held before, nothing left pending, and the answer consumed |
| Tx.TxCtx.HandlePinUpdate | affinity.rb:1093-1101 | `_handlePINUpdate` defers exactly when the mode is not immediate and a transaction is open, and otherwise saves at once |
| Tx.TxCtx.SavePins | affinity.rb:648-720 | `savePINs`: nothing changes for no PINs; otherwise one post; when the answer is processed, the `i`-th PIN is back-filled from the `i`-th PIN of the answer, and otherwise no PIN changes |

## Left out

- The HTTP transport, the long-post loop, sockets and the logger: the connection is an event log and a `Reply` parameter.
- Protobuf serialization and parsing: a segment is a record of what it carries (PIN messages, statement count, tx operations, flush markers, property entries), and the answer is a parsed `Output` value.
- Floating point: a float is a `real`, and only its tag choice is modelled.
- `Time` conversion: the `1000000.0 * ...` and `/ 1000000.0` arithmetic (affinity.rb:1031, 1071) is modelled with exact integers. The write adds the UTC offset to the seconds, and `Time.at` on the read builds a local time; the model fixes the local zone to UTC, so a time reads back as the same wall-clock reading with offset 0, and the time zone of the original is not recovered.
- `sort!`, `shuffle!`, `sort_by!`, `reverse!`, `rotate!`: their target order comes from randomness or a user block, so `_shuffle_end` is modelled for any rearrangement of `_shuffle_begin`'s list.
- Enumerator forms (`delete_if` without a block etc.), `compact!`/`flatten!` (no-ops), `define_method` delegation, `yaml_initialize`, `PIN.delete_if` (unfinished), `update`/`merge!` and `shift`: no state logic beyond what `_assign` and `delete` already model.
- The argument parsing of `PIN.[]` (hash, flat list or list of pairs): `Pins.Pin.Make` takes the pairs directly.
- The `raise` of `_savePINsi` for a nil context, and a PIN key that is not a String: both are ruled out by the types.
- The `raise "Unexpected type"` of `insert` for an Array value (affinity.rb:142): a `Native` value has no array kind, so the case cannot be written.
- The block of `delete(value) { ... }` (affinity.rb:204-205), whose value is returned when nothing matches: Edits.DeleteValueF takes no block and answers nil (`None`) there.
- Saving.FillScalar: line 710 tests `extra[0].op` against the enum constants `OP_ADD`/`OP_ADD_BEFORE` without `.value`, while the Extras hold the integer values (affinity.rb:143, 823). Whether the protobuf library's constants compare equal to those integers is not part of this model. The model reads the test as matching, as the same test with `.value` at line 845 does.
- `_queryPB1`/`_queryPB2`/`_parsePBStr`, `@@nextCID`, `deletePINs`, `loadPINs` and `refreshPIN`: queries and transport, not bookkeeping.
- Thread-local storage of the connection stack: `Tx.ConnectionStack` is one stack object.
- The aliasing of Extras between a PIN and the transient update PIN `_handlePINUpdate` builds: update PINs are values.
- Pins.Pin.DeleteAbsent: works on copies of the key order and maps, which it then stores, rather than deleting key by key in place; its contract states the result.
- Pins.Pin.LoadPin: a Collection is stated through its values and Extras (`HeldOf`), not as the object `_assign` allocates.
- Pins.InputOf: a decoded list whose first entry is nil but which also holds decoded values or lists, where Ruby would build a collection whose elements are raw [value, Extra] pairs or lists, is not represented, and is taken as a failure.
- Ruby `==` and `eql?` (Marshal.RubyEq, Marshal.KeyEq) follow Ruby 1.8/1.9, where `Comparable#==` turns the error of comparing a `Ref` with a non-`Ref` into false; on Ruby 2.3 and later that comparison raises out of `delete`, and the model does not raise.
- Marshal.RubyEq: a `ByteArray` is equal to a text only when both hold the same 7-bit characters; the encoding rules of non-ASCII Strings are not modelled. Objects of an unsupported kind are compared structurally.
- Edits.UniqSyncs: a reference has Object's identity hash, and every element is taken to be a distinct object, so the same `Ref` object stored twice is not collapsed.
- Marshal.ValueToPB: an integer outside the range of its field is modelled as a failed write (no record), standing for the protobuf field setter refusing it; the exception itself is not modelled.
- Ids.RefTextReadsBack: a property whose name contains `[` is not covered, since its text is then ambiguous.
- Saving.RegisterAll, Saving.Announced, Saving.DocValues: their own contracts are kept small; what they compute is stated by Saving.RegisterAllSpec, Saving.AnnouncedAdds and Saving.DocValuesBuilds.
- Tx.BackFillPin: when a value fails part-way, the Extras hold an unspecified partial back-fill (Ruby would have raised by then).
- Tx.BackFillAll: the back-fill is stated only for a list of distinct PIN objects.
- Tx.TxCtx.SaveAndFlush: states the one post and its prefix, not the whole message.
- Tx.TxCtx.SaveDocs: states the one post and the emptied buffers, not the whole message.
- Tx.TxCtx.HandlePinUpdate: on the immediate path it states the post, not the whole message.
- Tx.TxCtx.SavePins: states the post and the back-fill, not the whole message.

## Findings

| source | as written | input that shows it | evidently intended | confidence | as-written member | corrected member |
|---|---|---|---|---|---|---|
| affinity.rb:382 | `_shuffle_end` re-syncs the Extras with `extras.delete_at(iTuple[2])`, the element's ORIGINAL index, in a list already partly re-synced | reversing three elements with ids [1, 2, 3]: the values become reversed but the Extras' ids stay [1, 2, 3] | move the Extra from where it currently is, so Extra `k` carries the id of value `k` | not executed | Reorder.ResyncAsWrittenMisaligns | Reorder.ReorderResyncsExtras |
| affinity.rb:232, 242 | `_delete_if_impl`/`_keep_if_impl` call `delete_at(i)` inside `each_index`, so the element that moves into position `i` is never tested | `delete_if { \|v\| v == 1 }` on [1, 1] leaves [1] | remove every element satisfying the test | not executed | Edits.DeleteIfAsWrittenSkips | Edits.DeleteIfSyncs |
| affinity.rb:139-152 | `insert` with several values anchors each on the same position `i`, which now holds the placeholder just inserted | `insert(0, 1, 2)` on an empty collection: the store ends with [2, 1] while the PIN holds [1, 2] | anchor the k-th value at position `i + k` | not executed | Diff.InsertAsWrittenMisorders | Diff.InsertReplays |
