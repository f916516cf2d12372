# Ordered to-do list: a Dafny model

The page `app/page.tsx` keeps the client's copy of the user's `Todo` records
(`id`, optional `content`, optional integer `order`) sorted by `order`, and on every
structural change computes what to write back to the record store:

- **Ingest**: each live-query snapshot is copied, sorted ascending by
  `order ?? 0` and replaces the local list wholesale.
- **Create**: text that is blank after `trim()` is dropped; otherwise one
  create with the trimmed text and `order = (n + 1) * 1000`, `n` the current
  number of items.
- **Move**: find the item, pick its neighbour above or below, do nothing when
  either is missing, otherwise `splice` it out and back in next door and
  renumber every item to `(position + 1) * 1000`.
- **Delete**: delete the id, drop it from the local list and renumber the
  rest the same way.
- **Row colour**: row `index` gets `colors[index % 8]` from an 8-class palette.

The store calls are modelled as returned write intents (`StoreCall`:
`Create(content, order)`, `Update(id, order)`, `Delete(id)`), not as effects.
The component's `todos` state is the field of class `Page.TodoList`;
`Ingest` replaces it, the three handlers read it and return their calls.

Files:

- `wrappers.dfy` — `Option`, for the optional `order` field.
- `todos.dfy` — module `Todos`: the record, the store calls, the sort key,
  renumbering, `findIndex`, the remove-then-insert reordering and the
  `filter` of delete, with their lemmas.
- `sorting.dfy` — module `Sorting`: the snapshot sort (an in-place sort of a
  fresh copy, as `[...items].sort(...)` is) and the lemmas that sorted
  arrangements of one snapshot agree.
- `jsstring.dfy` — module `JsString`: ECMAScript `trim` over the WhiteSpace and
  LineTerminator characters.
- `page.dfy` — module `Page`: the row colour, the `TodoList` class (the page
  state and its handlers), the in-array `splice` pair, lemmas about what the
  next snapshot renders, and the two worked scenarios of three items.

Behaviour of the code worth noting, which the model follows:

- `deleteTodo` awaits the delete before it issues any renumbering update
  (app/page.tsx:73-81), so the delete comes first in the returned calls; the
  renumbering is not issued in parallel with it.
- `deleteTodo` filters out every record with the id and never checks that the
  id is present: an absent id still issues the delete and renumbers every item.
- The comparator has no tie-break. The model promises only "sorted and a
  permutation"; `Sorting.SortedPermutationsShareKeys` shows that this already
  fixes the sequence of keys, and `Sorting.SortedPermutationUnique` that it
  fixes the whole sequence when keys are unique.

## Model

| member | source | states |
|---|---|---|
| `Todos.SortKey` | app/page.tsx:32 | `a.order ?? 0`: the record's `order` when present, 0 when it is missing |
| `Todos.Renumber` | app/page.tsx:62-67 | the `map` of updates (also lines 75-80): one `Update` per item, in sequence order, naming that item's id |
| `Todos.RenumberOrders` | app/page.tsx:62-67 | one update per item, the k-th naming the k-th item with order (k+1)*1000; orders positive multiples of 1000, strictly increasing |
| `Todos.RenumberedMatchesUpdates` | app/page.tsx:62-67 | applying the renumbering updates changes only `order`; ids and contents stay in place |
| `Todos.RenumberedIsOrdered` | app/page.tsx:62-67 | after renumbering the records are sorted, keys are unique and all below the key the next create uses |
| `Todos.IndexOf` | app/page.tsx:52-53 | -1 exactly when no item has the id; otherwise the first position holding it |
| `Todos.Moved` | app/page.tsx:58-60 | the `splice` pair as a sequence: same length, and the removed item sits at the insertion index |
| `Todos.MovedToNeighbourIsSwap` | app/page.tsx:58-60 | removing the item and re-inserting it at the neighbour index equals exchanging the two positions |
| `Todos.MovedIsPermutation` | app/page.tsx:58-60 | any remove-then-insert keeps length and the same items |
| `Todos.SwappedIsPermutation` | app/page.tsx:55-60 | the exchange puts each item at the other's index, leaves every other position, and keeps the items |
| `Todos.Without` | app/page.tsx:74 | an item survives the filter exactly when it was present and its id differs |
| `Todos.WithoutLength` | app/page.tsx:74 | the remaining count is the original length minus the number of items with the id |
| `Todos.WithoutAppend` | app/page.tsx:74 | filtering a concatenation filters each part |
| `Todos.WithoutPlaces` | app/page.tsx:74 | a kept item lands at the position given by the number of kept items before it |
| `Todos.WithoutKeepsOrder` | app/page.tsx:74 | kept items keep their relative order |
| `Sorting.SortByOrder` | app/page.tsx:32 | the sorted copy is ascending by `order ?? 0` and a permutation of the snapshot |
| `Sorting.InsertLast` | app/page.tsx:32 | one insertion step: afterwards `a[..i + 1]` is sorted and holds exactly the old prefix and `a[i]`, the cells after `i` are unchanged, and the array keeps its items |
| `Sorting.Sink` | app/page.tsx:32 | the exchange loop of the insertion step: it stops where the moving item is no smaller than its left neighbour, keeps the items of `a[..i + 1]` and leaves the cells after `i` alone |
| `Sorting.SinkStep` | app/page.tsx:32 | one adjacent exchange moves the out-of-place item one cell down, keeps the rest in order and keeps the items |
| `Sorting.SinkDone` | app/page.tsx:32 | once the moving item is no smaller than its left neighbour, the prefix is sorted |
| `Sorting.SortedIntsEqual` | app/page.tsx:32 | two ascending sequences with the same values are equal |
| `Sorting.PermutationKeys` | app/page.tsx:32 | permuted snapshots have the same multiset of keys |
| `Sorting.SortedPermutationsShareKeys` | app/page.tsx:32 | any two sorted arrangements of one snapshot have the same key sequence |
| `Sorting.SortedPermutationUnique` | app/page.tsx:32 | with unique keys a snapshot has exactly one sorted arrangement |
| `JsString.IsWhitespace` | app/page.tsx:42 | the characters `trim()` removes: exactly the 25 code points of ECMAScript WhiteSpace and LineTerminator |
| `JsString.TrimStart` | app/page.tsx:42 | the result is the suffix left after dropping only leading whitespace, and starts with none |
| `JsString.TrimEnd` | app/page.tsx:42 | the result is the prefix left after dropping only trailing whitespace, and ends with none |
| `JsString.Trim` | app/page.tsx:42-44 | a slice of the input with only whitespace cut off each end and none left at either end; empty exactly for blank input |
| `Page.JsRemainder` | app/page.tsx:22 | JavaScript's `%`: dividend = divisor × truncated quotient + remainder, with the remainder smaller than the divisor in size and of the dividend's sign |
| `Page.BackgroundColor` | app/page.tsx:17-23 | every non-negative row gets one of the 8 listed classes, `colors[index % 8]`; a negative index reads a class only when it is a multiple of 8, and then the first (`-0` indexes cell 0) |
| `Page.BackgroundColorPeriodic` | app/page.tsx:17-22 | the colour repeats every 8 rows |
| `Page.NeighbourRowsDiffer` | app/page.tsx:18-22 | adjacent rows get different colours |
| `Page.Neighbour` | app/page.tsx:55 | the neighbour index is one below for `up` and one above for `down` |
| `Page.RemoveAt` | app/page.tsx:59 | `splice(from, 1)`: cells before `from` kept, later cells shifted one to the left |
| `Page.InsertAt` | app/page.tsx:60 | `splice(to, 0, item)`: cells before `to` kept, `item` at `to`, later cells shifted one to the right |
| `Page.Reposition` | app/page.tsx:58-60 | the two `splice` calls on the copied array leave it equal to the remove-then-insert sequence |
| `Page.TodoList.constructor` | app/page.tsx:26 | the list starts empty |
| `Page.TodoList.Ingest` | app/page.tsx:31-33 | the new state is sorted by key and a permutation of the snapshot; nothing of the old state is kept |
| `Page.TodoList.CreateTodo` | app/page.tsx:40-49 | no call for blank input; otherwise exactly one create with the trimmed text and order (n+1)*1000 |
| `Page.TodoList.MoveTodo` | app/page.tsx:51-70 | no calls for an absent id or a neighbour off either end; otherwise the renumbering of the list with the item and its neighbour exchanged |
| `Page.TodoList.DeleteTodo` | app/page.tsx:72-82 | the delete first, then the renumbering of the list without that id; length 1 + n minus the matches |
| `Page.IngestDeterminedBySnapshot` | app/page.tsx:31-33 | ingesting one snapshot twice renders the same keys, and the same list when keys are unique |
| `Page.RenumberedSnapshotRendersIntended` | app/page.tsx:62-67 | once the renumbering has landed, every snapshot of it renders exactly the renumbered sequence |
| `Page.CreatedItemRendersLast` | app/page.tsx:45 | for any current list, a created item keyed above every current key renders last once echoed back; when the current list is sorted with distinct keys, the rendered list is exactly the current list followed by the new item |
| `Page.ThreeItemPage` | app/page.tsx:31-33 | a snapshot listing C, A, B keyed 3000, 1000, 2000 renders A, B, C |
| `Page.MoveUpScenario` | app/page.tsx:51-70 | moving B up issues B to 1000, A to 2000, C to 3000; moving A up or C down issues nothing |
| `Page.MoveUpEchoScenario` | app/page.tsx:51-70 | after that move lands, the page renders B, A, C |
| `Page.DeleteScenario` | app/page.tsx:72-82 | deleting B issues the delete and A to 1000, C to 2000; the page then renders A, C |

The `order` field is an optional integer in the data schema
(amplify/data/resource.ts:7), hence `Option<int>` and the default key 0.

## Left out

- Amplify configuration and the generated client (app/page.tsx:12-14): foreign library setup; store calls are returned as intents.
- The live-query subscription and its `unsubscribe` (app/page.tsx:29-38): transport and React effect plumbing; only the `next` handler's sort and state replacement are modelled.
- `Promise.all` and the outcome of each store call (app/page.tsx:69, 81): asynchronous, may fail or land partially or interleave with another handler's calls; the model returns the calls in the order they are issued.
- A rejected delete stops `deleteTodo` before it issues the updates: failures of store calls are not modelled.
- Overlapping handlers, such as two creates issued before the next snapshot arrives, which both use key (n+1)*1000: concurrency is not modelled.
- Clearing the input box after a create (app/page.tsx:47), the form event, the `Authenticator`, sign-out and all rendering (app/page.tsx:84-160): user interface.
- The backend schema and its authorization rules (amplify/data/resource.ts): declarative configuration.
- Tie-breaking among equal keys: the comparator defines none, so the model promises none.
- JavaScript numbers are floating point: keys are unbounded integers here, so the loss of precision past 2^53 is not modelled.
- Strings are sequences of Unicode scalar values here, not UTF-16 code units; no whitespace character of `trim` lies outside the basic plane, so trimming is unaffected.
