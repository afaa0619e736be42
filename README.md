# Combat tracker session reducer, in Dafny

This project models the session reducer of the combat tracker (`reducer` in
`src/App.js`): the pure function that takes the state of one tabletop
combat session and one dispatched action and returns the next state. The
state holds the turn order (`initiatives`, a list of characters with
initiative `value`, `name`, `hitpoints`, `id`, `monster` flag and
`conditions`), the `selected` character id and three input buffers
(`inputInitiative`, `inputName`, `inputHitpoints`).

Modules, one per concern of the reducer:

- `Wrappers` (`wrappers.dfy`): `Option` for `null`, `Result` for the one failing action.
- `Sequences` (`sequences.dfy`): JavaScript's `slice` (negative, clamped indices) and `filter`, with the facts about filters the reducer needs.
- `Decimal` (`decimal.dfy`): `String(n)` for integers, `parseInt`, and the buffer append `parseInt(n + d)`.
- `StableSort` (`stable_sort.dfy`): `sort((a, b) => b.value - a.value)` as a stable insertion sort into non-increasing key order, and the proof that sortedness plus stability determine the result.
- `TurnOrder` (`turn_order.dfy`): the `next` and `back` rotations, written with `slice` and `concat` as in the source.
- `Reducer` (`reducer.dfy`): the data model, the action datatype (one constructor per `case` label, so the `default: throw` cannot be reached) and `Reduce`.
- `Properties` (`properties.dfy`): what each action does, one lemma per property.
- `Invariants` (`invariants.dfy`): unique ids and a present selection are kept by every action and by any run of dispatches.
- `Scenarios` (`scenarios.dfy`): worked sessions with concrete values.

`Date.now()` at `src/App.js:19` is the parameter `now` of `Reduce`. Selecting
an id that no character carries throws in the source (`character.id` of
`undefined`, `src/App.js:79`); the model returns `Err(SelectionNotFound(id))`.
The model follows the code in four places a reader might not expect:

- `addInitiative` keeps the selection (it does not clear it).
- `loadState` and `sortInitiatives` accept any payload, so unique ids and a
  present selection hold only when the payload has them (`Invariants.Admissible`).
- `next` and `back` leave the empty list empty, so they undo each other there too.
- `addInitiative` sorts the whole list again (`src/App.js:23`), so it undoes any
  rotation made by `next` or `back`: adding Bob (10) to [Ana (10), Orc (15)]
  gives [Orc, Ana, Bob] (`Scenarios.AddUndoesRotation`).

## Model

| member | source | states |
|---|---|---|
| Reducer.Reduce | src/App.js:12-124 | every action succeeds except `select` of an id no character carries, which fails with `SelectionNotFound` of that id |
| Reducer.Find | src/App.js:76 | `find` returns the first character carrying the id, or nothing exactly when none carries it |
| Reducer.UpdateSelected | src/App.js:86-93 | the `map` keeps the length, applies the edit to exactly the characters whose id is the selected one and leaves every other character as it was |
| Reducer.NewCharacter | src/App.js:15-22 | the character built from the buffers, with id `now`, the `monster` flag and no conditions; its contents are stated by `Properties.AddInitiativeInserts` |
| Reducer.AddHitpoints | src/App.js:89 | the `editHitpoints` callback adds `delta` to the hit points of the copy; stated by `Properties.EditHitpointsOnlySelected` |
| Reducer.AppendCondition | src/App.js:100 | the `editCondition` callback appends the condition to the copy's conditions; stated by `Properties.EditConditionAppends` |
| Reducer.DropCondition | src/App.js:111 | the `removeCondition` callback filters the copy's conditions by label; stated by `Properties.RemoveConditionFilters` |
| Sequences.Filter | src/App.js:36 | `filter` never yields more elements than its input; what it keeps is stated by `FilterMembers` and `FilterMultiset` |
| Sequences.FilterConcat | src/App.js:36 | a filter of a concatenation is the concatenation of the filters (original order kept) |
| Sequences.FilterMembers | src/App.js:36 | every element the filter keeps is in the input and satisfies the predicate, and every input element that satisfies it is kept |
| Sequences.FilterMultiset | src/App.js:36 | the filter keeps each value satisfying the predicate as often as the input holds it, and no other value |
| Sequences.FilterCommute | src/App.js:36 | two filters can be applied in either order |
| Sequences.FilterIdempotent | src/App.js:111 | filtering twice by the same predicate equals filtering once |
| Sequences.SliceDropLast | src/App.js:58 | `slice(0, -1)` drops exactly the last element and maps the empty sequence to itself |
| Sequences.SliceIndex | src/App.js:58 | a relative `slice` index becomes a position in `0..len`: negative indices count from the end, and out-of-range ones are clamped |
| Sequences.Slice | src/App.js:58 | `slice(start, end)` never yields more elements than its input; its behaviour on the indices the reducer uses is stated by `SliceDropLast`, `TurnOrder.NextShape` and `TurnOrder.BackShape` |
| Sequences.SliceFrom | src/App.js:66 | `slice(start)` never yields more elements than its input; `TurnOrder.NextShape` and `TurnOrder.BackShape` state it for `slice(1)` and `slice(-1)` |
| Decimal.ShowNat | src/App.js:40 | the decimal text of a natural number is non-empty, all digits, without leading zero, and denotes that number |
| Decimal.Show | src/App.js:40 | the text of an integer starts with a minus sign exactly when it is negative |
| Decimal.ParseInt | src/App.js:40 | `parseInt` without a radix: an optional sign, then the longest digit run; `None` for `NaN`. What it reads is stated by `ParseDigits`, `ParseNegatedDigits` and `ShowRoundTrip` |
| Decimal.ShowRoundTrip | src/App.js:40 | `parseInt(String(n)) == n` for every integer |
| Decimal.ParseShowAppend | src/App.js:40 | parsing the text of `n` with a digit appended gives `10n + d` for `n >= 0` and `10n - d` for `n < 0` |
| Decimal.ParseNatAppend | src/App.js:40 | parsing the text of a natural `k` with a digit appended gives `10k + d` |
| Decimal.ParseNegatedAppend | src/App.js:40 | parsing the text of `-k` with a digit appended gives `-(10k + d)` |
| Decimal.AppendDigit | src/App.js:40 | the concatenate-then-parse append equals the arithmetic `10n + d` (`n >= 0`) or `10n - d` (`n < 0`) |
| Decimal.ShowNatAppend | src/App.js:40 | the text of `10n + d` for positive `n` is the text of `n` followed by `d` |
| Decimal.ShowNegatedAppend | src/App.js:40 | the text of `-(10k + d)` for positive `k` is the text of `-k` followed by `d` |
| Decimal.AppendDigitText | src/App.js:40 | for non-zero `n`, the text of the appended number is the text of `n` followed by the digit, so the arithmetic append and the text concatenation agree |
| Decimal.ParseDigits | src/App.js:40 | `parseInt` of a non-empty digit string is the number it denotes |
| Decimal.ParseNegatedDigits | src/App.js:40 | `parseInt` of a minus sign and a non-empty digit string is the negated number |
| StableSort.Insert | src/App.js:23 | inserting into a sorted list keeps it sorted and adds exactly the one element |
| StableSort.Sort | src/App.js:23 | the sort result is in non-increasing key order and a permutation of the input |
| StableSort.InsertStable | src/App.js:23 | insertion places the new element last among the elements with its key and keeps every key class in order |
| StableSort.SortStable | src/App.js:23 | sorting keeps the relative order of elements with equal keys |
| StableSort.SortAppended | src/App.js:23 | sorting a list with one element appended gives a sorted permutation in which that element is last among those with its key |
| StableSort.SortedUnique | src/App.js:23 | two sorted lists with the same classes of equal keys are equal |
| StableSort.SortCharacterization | src/App.js:23 | a list is the sort's result if and only if it is sorted and every class of equal keys is as in the input |
| TurnOrder.NextShape | src/App.js:66 | `slice(1).concat(slice(0, 1))` moves the head to the tail and leaves the empty list empty |
| TurnOrder.BackShape | src/App.js:72 | `slice(-1).concat(slice(0, -1))` moves the tail to the head and leaves the empty list empty |
| TurnOrder.Next | src/App.js:66 | `next` written as `slice(1).concat(slice(0, 1))`; stated by `NextShape`, `BackNext` and `RotationsPermute` |
| TurnOrder.Back | src/App.js:72 | `back` written as `slice(-1).concat(slice(0, -1))`; stated by `BackShape`, `NextBack` and `RotationsPermute` |
| TurnOrder.BackNext | src/App.js:63-74 | `back` after `next` is the identity on every list |
| TurnOrder.NextBack | src/App.js:63-74 | `next` after `back` is the identity on every list |
| TurnOrder.RotationsPermute | src/App.js:63-74 | both rotations keep the length and the multiset of elements |
| Properties.AddInitiativeInserts | src/App.js:14-24 | the new list is sorted, holds the old characters plus exactly the one built from the buffers with id `now` and no conditions, keeps the order of equal initiatives with the new one last among them; buffers reset to 0, '' and 0; selection unchanged |
| Properties.AddInitiativeDetermined | src/App.js:23 | any sorted list whose classes of equal initiative match old list plus new character is the list `addInitiative` produces |
| Properties.DeleteAllResets | src/App.js:26-28 | `deleteAll` yields the empty list, no selection and zeroed buffers from any state |
| Properties.CleanClearsBuffers | src/App.js:118-120 | `clean` zeroes the buffers and clears the selection, keeps the list; `deleteAll` equals `clean` of the emptied list |
| Properties.ReplacementsAreVerbatim | src/App.js:29-34 | `loadState` returns its payload as it is; `sortInitiatives` replaces only the list |
| Properties.RemoveCharacterFilters | src/App.js:35-38 | after `removeCharacter(v)` each character not carrying `v` occurs as often as before and none carrying `v` remains; the length drops by the number removed; the selection becomes null exactly when it was `v`; buffers unchanged |
| Properties.RemovedCount | src/App.js:36 | kept and removed characters together number the whole list |
| Properties.RemoveCharacterKeepsOrder | src/App.js:36 | removing from a concatenation equals concatenating the removals from both parts |
| Properties.RemoveCharacterIdempotent | src/App.js:35-38 | removing an id twice equals removing it once, selection included |
| Properties.RemoveAbsentIsNoop | src/App.js:35-38 | removing an id nobody carries and nobody selected leaves the state unchanged |
| Properties.AbsentId | src/App.js:36 | when no character is kept by the id filter, no character carries that id |
| Properties.WriteDigitAppends | src/App.js:39-50 | `writeInputInitiative(d)` and `writeInputHitpoints(d)` turn the buffer `n` into `10n + d` (`n >= 0`) or `10n - d` (`n < 0`) and change nothing else |
| Properties.WriteDigitIsConcatenation | src/App.js:39-50 | for a non-zero initiative or hit-points buffer, the text of the new value is the old text followed by the digit |
| Properties.WriteNameAppends | src/App.js:43-46 | `writeInputName(t)` appends `t` to the name and changes nothing else |
| Properties.DeleteNameDropsLast | src/App.js:57-59 | `deleteInputName` removes exactly the last character, keeps an empty name empty and changes nothing else |
| Properties.NegateInvolutive | src/App.js:60-62 | `negativeInputInitiative` flips the sign of the buffer only, and applying it twice restores the state |
| Properties.DeleteNumbersZero | src/App.js:51-56 | `deleteInputInitiative` and `deleteInputHitpoints` set their buffer to 0 and nothing else, and each is idempotent |
| Properties.BackUndoesNext | src/App.js:63-74 | `back` after `next` restores the whole state |
| Properties.NextUndoesBack | src/App.js:63-74 | `next` after `back` restores the whole state |
| Properties.NextRotates | src/App.js:63-67 | `next` moves the head to the tail, keeps length and multiset, changes only the list and leaves an empty list unchanged |
| Properties.BackRotates | src/App.js:69-74 | `back` moves the tail to the head, keeps length and multiset, changes only the list and leaves an empty list unchanged |
| Properties.SelectCopies | src/App.js:75-84 | `select(v)` fails exactly when no character carries `v`; otherwise it selects `v`, copies value, name and hit points of the first such character into the buffers and keeps the list |
| Properties.UpdateNoMatch | src/App.js:86-93 | with no selection, or a selection no character carries, the edit map is the identity |
| Properties.EditHitpointsOnlySelected | src/App.js:85-95 | `editHitpoints(delta)` adds `delta`, unclamped, to the hit points of the selected characters only, every other field and character unchanged, length and order kept; a no-op without a match |
| Properties.EditConditionAppends | src/App.js:96-106 | `editCondition(c)` appends `c` to the conditions of the selected characters only, duplicates allowed; a no-op without a match |
| Properties.RemoveConditionFilters | src/App.js:107-117 | `removeCondition(c)` makes the conditions of each selected character the order-preserving filter of its old conditions by label different from `c.condition`: each kept condition has another label and was present, each such old condition is kept, and each value keeps its count; no other character or field changes; a no-op without a match |
| Properties.RemoveConditionAbsentIsNoop | src/App.js:107-117 | removing a label the selected characters do not carry leaves the state unchanged |
| Properties.RemoveConditionIdempotent | src/App.js:107-117 | removing the same label twice equals removing it once |
| Invariants.PermutationKeepsIds | src/App.js:23 | rearranging the list keeps, for each id, the number of characters carrying it |
| Invariants.UpdateKeepsIds | src/App.js:85-117 | the three edits keep, for each id, the number of characters carrying it |
| Invariants.AddKeepsIds | src/App.js:14-24 | adding a character with a fresh id keeps ids unique and keeps every present id present |
| Invariants.RemoveKeepsIds | src/App.js:35-38 | after removing `v` no character carries `v` and every other id is carried by the same characters |
| Invariants.RearrangePreservesValid | src/App.js:63-74 | replacing the list by a rearrangement of it keeps the invariant |
| Invariants.AddPreservesValid | src/App.js:14-24 | `addInitiative` with an id no character carries keeps ids unique and the selection present |
| Invariants.RemovePreservesValid | src/App.js:35-38 | `removeCharacter` keeps the invariant, because a selection of the removed id is cleared |
| Invariants.NextPreservesValid | src/App.js:63-68 | `next` keeps the invariant |
| Invariants.BackPreservesValid | src/App.js:69-74 | `back` keeps the invariant |
| Invariants.SelectPreservesValid | src/App.js:75-84 | a successful `select` keeps the invariant, since it selects an id that a character carries |
| Invariants.EditPreservesValid | src/App.js:85-117 | the three edits of the selected character keep the invariant, since none changes an id |
| Invariants.ReducePreservesValid | src/App.js:12-124 | every action keeps ids unique and the selection present, given a fresh `now` for `addInitiative` and valid payloads for `loadState` and `sortInitiatives` |
| Invariants.RunPreservesValid | src/App.js:12-124 | any run of admissible dispatches from a valid state ends in a valid state |
| Invariants.EmptyIsValid | src/App.js:26-28 | the state `deleteAll` produces satisfies the invariant |
| Scenarios.EnterAna | src/App.js:14-50 | typing 1, 0, "Ana", 8 into the empty session gives buffers 10, "Ana", 8; adding gives the one-character list |
| Scenarios.EnterOrc | src/App.js:14-50 | typing 1, 5, "Orc" and adding a monster puts it ahead of the character with initiative 10 |
| Scenarios.PlayRound | src/App.js:63-117 | `next` on [Orc, Ana] gives [Ana, Orc]; selecting Ana copies her fields; `editHitpoints(-5)` changes only her hit points; removing an absent condition changes nothing |
| Scenarios.AddUndoesRotation | src/App.js:14-24 | adding Bob (10) to the rotated list [Ana (10), Orc (15)] gives [Orc, Ana, Bob]: the sort puts the orc back in front and Bob after Ana |
| Scenarios.DigitEntryConcatenates | src/App.js:39-50 | appending 2 to 1 gives 12, to -5 gives -52, to 0 gives 2 |
| Scenarios.NegatedZeroLosesSign | src/App.js:39-62 | negating a zero buffer (`negativeInputInitiative`, lines 60-62) and typing 5 (`writeInputInitiative`, lines 39-42) gives 5: zero's text has no minus sign |

## Left out

- The `App` component (`src/App.js:126-160`): `useReducer` dispatch, the tab state, the effect that writes the state to `localStorage` and the effect that resets the tab. They are user interface and browser storage; `Invariants.Run` stands in for successive dispatches.
- The imported interface components (`CharactersList`, `AddCharacter`, `Settings`, `HitPointsConditionsManager`) are not part of this model; they only render the state and dispatch actions.
- `Date.now()` (`src/App.js:19`): a clock read, taken as the parameter `now`. The source does not guarantee distinct ids; `Invariants.Admissible` asks for a fresh one.
- `cloneDeep` (`src/App.js:88`, `99`, `110`): Dafny values cannot alias, so the copy is the record update itself.
- The digit actions carry one decimal digit character (`Decimal.Digit`). `parseInt` of other payloads, leading white space and radix prefixes, `NaN` buffers, precision beyond 2^53 and the exponential form `String` uses from 1e21 on are not modelled; integers are unbounded.
- `Decimal.ParseInt`: models the optional sign and the longest digit run of `parseInt`, not white space skipping or `0x` prefixes, which the texts built by the reducer never contain.
- The `??` and `?.` fallbacks for absent buffers (`src/App.js:16-17`, `58`): every field of the modelled state is always present. The `?.` guards at `src/App.js:80-82` cannot take effect, because `character.id` at line 79 already throws for an absent character, which the model returns as `Err(SelectionNotFound(id))`.
- Names are Dafny strings, sequences of Unicode scalar values. JavaScript strings are sequences of UTF-16 code units, so `slice(0, -1)` on a name ending in a character outside the Basic Multilingual Plane (`src/App.js:58`) drops only half of its surrogate pair; the model drops the whole character and cannot represent a lone surrogate. UTF-16 code-unit slicing is not modelled.
- `monster` is a boolean; an absent `action.monster` is not modelled.
- Condition objects: the `condition` label plus the other properties as a map from names to text; JSON values other than text are not modelled.
- `loadState` and `sortInitiatives` payloads are trusted and returned as they are, as in the source; no validation is modelled because there is none.
