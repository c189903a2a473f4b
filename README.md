# Travel packing list: a verified model of the list store

The app keeps a packing list: entries `{ id, description, quantity, packed }`
held as React state in `App`. Four handlers replace that list: add appends an
entry, remove filters out an id, toggle flips `packed` on an id, and reset
empties the list once the user confirms. Two views are derived from the list.
`PackingList` shows it in input order, by description, or unpacked-first.
`Stats` shows the footer with the totals, the rounded percentage and the
singular or plural nouns. `Form` holds the description and quantity fields. It
ignores an empty description. Otherwise it hands a new unpacked entry to `App`
and resets its fields.

The Dafny project has five modules:

- `Items` (items.dfy): the `Item` datatype and the three list transformations
  as functions (`Added`, `Removed`, `Toggled`). It also has the packed and
  unpacked filters, and a `Command`/`Run` fold that proves ids stay unique
  over any run of commands.
- `StableSort` (stable_sort.dfy): `Array.prototype.sort` with a comparator, as
  ECMA-262 (10th edition, section 22.1.3.27) requires it: stable, and `a` stays
  before `b` unless `compare(a, b) > 0`. It is modelled as an insertion sort.
  The module proves that this sort is a stable sort, and that every stable sort
  by a consistent comparator returns the same sequence. So the algorithm chosen
  does not matter.
- `PackingList` (packing_list.dfy): the three sort modes and what each view is.
- `Stats` (stats.dfy): the footer, with `Math.round` computed exactly.
- `TravelApp` (travel_app.dfy): the classes `App` (field `items`, the four
  handlers) and `Form` (fields `description`, `quantity`, and `HandleSubmit`,
  which calls `App.HandleAddItem`). Two verified client methods walk through
  scenarios using only these contracts. `PassportAndSocks` adds two entries,
  packs one, and obtains the footer "2 items, 1 item, 50%". `ShoesTwice`
  submits an empty form, which adds nothing, then adds "Shoes" twice, which
  gives two entries with different ids.

src/components/App.js repeats the four handlers of src/App.js. Likewise,
src/components/Stats.js repeats `Stats` from src/App.js. One member models each
pair, and the rows below cite whichever copy carries the property.

Two details of the code shape the model:

- The add form rejects only the empty string (`if (!description) return;`). A
  description made only of spaces is accepted and becomes an entry.
- Remove drops every entry carrying the id, not just one. This only matters if
  ids repeat.

## Model

| member | source | states |
|---|---|---|
| Items.Added | src/App.js:13-15 | the new entry is appended as the last one, the list grows by one, and every earlier entry stays at its index |
| Items.AddedKeepsUniqueIds | src/components/App.js:10-12 | adding an entry whose id is fresh keeps all ids distinct |
| Items.Removed | src/App.js:17-19 | an entry is in the result iff it was in the list and its id differs from the argument; the list never grows |
| Items.RemovedMultiplicity | src/App.js:18 | every entry with another id is kept as many times as it occurred; every entry with the id is dropped |
| Items.RemovedIsSubsequence | src/components/App.js:14-16 | the remaining entries keep their relative order (the result is a subsequence of the list) |
| Items.RemovedAbsent | src/App.js:17-19 | removing an id that no entry carries leaves the list unchanged |
| Items.RemovedIdempotent | src/components/App.js:14-16 | removing the same id twice equals removing it once |
| Items.RemovedAppend | src/components/App.js:15 | removal distributes over concatenation, so order is preserved segment by segment |
| Items.RemovedUndoesAdded | src/components/App.js:10-16 | removing the id of an entry just added with a fresh id restores the previous list |
| Items.RemovedKeepsUniqueIds | src/components/App.js:14-16 | removal never creates duplicate ids |
| Items.Toggled | src/App.js:21-27 | same length and order; every id, description and quantity kept; `packed` flipped exactly on entries with the id |
| Items.ToggledTwice | src/components/App.js:18-24 | toggling the same id twice is the identity |
| Items.ToggledAbsent | src/App.js:23-25 | toggling an id that no entry carries leaves the list unchanged |
| Items.ToggledKeepsUniqueIds | src/components/App.js:18-24 | toggling never creates duplicate ids |
| Items.PackedItems | src/components/Stats.js:13 | exactly the packed entries; the count is at most the total, equals it iff all are packed, and is 0 iff none is |
| Items.UnpackedItems | src/App.js:103-106 | exactly the unpacked entries; with the packed ones they account for the whole list |
| Items.PackedMultiplicity | src/components/Stats.js:13 | each packed entry is kept exactly as often as it occurs and no unpacked one is kept, so the length is the packed count the footer shows |
| Items.UnpackedMultiplicity | src/App.js:103-106 | each unpacked entry is kept exactly as often as it occurs and no packed one is kept |
| Items.PackedIsSubsequence | src/components/Stats.js:13 | the packed entries keep their list order |
| Items.UnpackedIsSubsequence | src/App.js:103-106 | the unpacked entries keep their list order |
| Items.Apply | src/App.js:13-34 | one handler call: add grows the multiset by the entry; remove keeps exactly the entries with another id; toggle keeps length and the id at every index; reset empties the list iff confirmed (or it was empty) and otherwise leaves it unchanged |
| Items.ApplyKeepsUniqueIds | src/components/App.js:10-31 | each of the four commands keeps ids distinct, provided an added id is fresh |
| Items.RunKeepsUniqueIds | src/components/App.js:8-31 | any sequence of commands whose additions bring fresh ids never yields two entries with the same id |
| StableSort.Sort | src/App.js:98-106 | the sorted copy is a permutation of the list |
| StableSort.SortSorted | src/App.js:98-101 | with a consistent comparator, each element may stay before every later element |
| StableSort.SortStable | src/App.js:103-106 | elements that compare equal keep their input order |
| StableSort.SortIsStableSort | src/App.js:98-106 | the sort is a stable sort: permutation, sorted, ties in input order |
| StableSort.StableSortIsUnique | src/App.js:98-106 | any stable sort of the list by a consistent comparator equals the model's sort |
| PackingList.DescriptionCompare | src/App.js:101 | the comparator depends on the two descriptions alone (entries with the same descriptions compare alike), and it is consistent (a total preorder) whenever `localeCompare` is |
| PackingList.PackedCompare | src/App.js:106 | the result is -1, 0 or 1; positive (swap) exactly for a packed entry before an unpacked one; zero exactly when both have the same `packed` |
| PackingList.SortedItems | src/App.js:94-106 | every view is a permutation of the list; the "input" view is the list itself |
| PackingList.DescriptionCompareConsistent | src/App.js:101 | a consistent `localeCompare` makes the description comparator consistent |
| PackingList.DescriptionView | src/App.js:98-101 | the "description" view is a permutation, non-decreasing under `localeCompare`, entries whose descriptions `localeCompare` ranks equal kept in input order, and is the only such sequence |
| PackingList.PackedView | src/App.js:103-106 | the "packed" view is all unpacked entries in input order followed by all packed entries in input order |
| PackingList.PackedViewUnpackedFirst | src/App.js:103-106 | in the "packed" view no packed entry comes before an unpacked one |
| Stats.RoundedPercentage | src/components/Stats.js:14-16 | the nearest integer to 100·packed/total, halves rounded up; within 0..100; 100 iff at least 99.5% packed; 0 iff under 0.5% packed |
| Stats.Noun | src/components/Stats.js:24-27 | "items" exactly when the count exceeds 1, "item" otherwise (also for 0) |
| Stats.Stats | src/components/Stats.js:1-33 | empty list gives the start message with no percentage; 100% gives "You got everything"; otherwise total, packed count (below total), percentage (below 100) and nouns, "items" exactly when the count exceeds 1 |
| Stats.AllPackedReadyToGo | src/App.js:163-172 | when every entry is packed the footer is "You got everything" |
| Stats.NonePackedIsZero | src/App.js:163-166 | when no entry is packed the footer shows 0 packed and 0% |
| Stats.ReadyToGoThreshold | src/components/Stats.js:21 | "You got everything" appears iff 199·total ≤ 200·packed, so also for 199 packed of 200 |
| Stats.OneOfTwoPacked | src/components/Stats.js:13-28 | two entries with one packed give "2 items", "1 item" and 50% |
| TravelApp.App.constructor | src/components/App.js:8 | the list starts empty |
| TravelApp.App.HandleAddItem | src/App.js:13-15 | the new list is the old one with the entry appended; a fresh id keeps ids unique |
| TravelApp.App.HandleRemoveItem | src/App.js:17-19 | the new list is the old one filtered on the id; an absent id changes nothing; ids stay unique |
| TravelApp.App.HandleToggleItem | src/App.js:21-27 | the new list is the old one with `packed` flipped on the id; an absent id changes nothing; ids stay unique |
| TravelApp.App.HandleResetItem | src/App.js:29-34 | the list becomes empty iff the user confirmed, and is unchanged otherwise |
| TravelApp.Form.constructor | src/App.js:52-53 | the form starts with description "" and quantity 1 |
| TravelApp.Form.SelectQuantity | src/App.js:70-79 | the quantity becomes the chosen option, one of 1..20 |
| TravelApp.Form.TypeDescription | src/App.js:80-85 | the description becomes the typed text; the quantity is unchanged and stays in 1..20 |
| TravelApp.Form.HandleSubmit | src/App.js:55-65 | an empty description adds nothing and changes nothing; any other, even all spaces, appends an unpacked entry with the description, the quantity (1..20) and the id `now`, then resets the form to "" and 1 |

## Left out

- JSX rendering, CSS and the line-through style, `Logo`, and the select and input markup are presentation only. The footer is modelled as the `Footer` datatype, not as its exact text with emoji.
- `window.confirm` is user-interface I/O. Its answer is the `confirmed` argument of `HandleResetItem` and of the `Reset` command.
- `Date.now()` is a clock read. It becomes the `now` argument of `HandleSubmit`. The source never checks that ids are fresh, so the model does not require it either: uniqueness is proved conditionally, for runs where each added id is fresh.
- `localeCompare` is a locale-dependent host call. It is a parameter. Properties of the description view assume it is consistent (a total preorder on strings).
- StableSort.Sort: for a comparator that is not consistent, ECMA-262 leaves the order implementation-defined. The model returns its insertion-sort order and claims only that the result is a permutation.
- Stats.RoundedPercentage: `Math.round` on the floating-point value `(packed / total) * 100` is computed exactly as `(200·packed + total) / (2·total)`. IEEE rounding near half-way points is not modelled: with 23 of 40 packed, `(23 / 40) * 100` is 57.49999999999999 in double precision, so the app shows 57% where the model gives 58%.
- React state mechanics are not modelled: `useState`, update batching, and the difference between the functional update in `handleAddItem` and the captured `items` in the other handlers. Each handler is a method that runs to completion.
- The `sortBy` state of `PackingList` and its `setSortBy` are not a class. The selected mode is the `sortBy` argument of `SortedItems`, and the select offers only the three modes of `SortBy`.
- The views never change the stored list. In the model, each view is a function of the list's value, so the list cannot be modified by computing a view. Copying with `slice()` and sorting the copy in place are not modelled separately.
- `Number(e.target.value)` parsing is not modelled. `SelectQuantity` takes the chosen option as an integer in 1..20.
- The unused `initialItems` constant (src/App.js:4-8) is not modelled.
- Ids are JavaScript numbers compared with `===` and `!==`. They are modelled as integers with equality.
