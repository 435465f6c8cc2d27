# Order taking for a restaurant: a Dafny model

This project models the order-taking logic of the restaurant page `app/page.tsx`. On that
page, staff pick a waiter, a table, dishes and a payment method. The page keeps a running
total and writes the order to the shared `orders` collection. Other terminals list the
active orders and mark them paid.

The model has four modules:

- `Sequences` (`seqs.dfy`): `Keep`, the order-preserving `Array.prototype.filter`, and
  `IsSubsequence`, the "same order, some elements dropped" relation used to state that
  filters keep order.
- `Menu` (`menu.dfy`): the menu item record, the case-insensitive name search
  (`filteredItems`), and the grouping of the search results by category
  (`itemsGroupedByCategory`). The grouping is an imperative method whose `for` loop pushes
  each item into its category's bucket. It is proved against two specification functions:
  `Categories`, the keys in first-seen order, defined as a left fold like the `reduce`; and
  `ItemsOf`, one bucket, defined as the filter of the items by category.
- `Selection` (`selection.dfy`): the selection map from dish name to count. `Adjust` is
  the copy-and-mutate updater of `handleItemSelectionChange`, specified by the functions
  `Incremented` and `Decremented`. `Total` is the `reduce` over the full catalog.
- `Orders` and `Page` (`page.dfy`): the order record, the active-orders filter, and the
  class `Home`. `Home` holds the page state that the handlers change: the selection, the
  total, the notes, the search text and the order chosen for "mark as paid". It also holds
  the `orders` collection as a `map<int, Order>` from id to document. Its methods
  `ChangeSelection`, `Submit` and `MarkPaid` model the three handlers.

`Home.Valid()` is the page invariant. It has two parts:

- No selected dish has a count below one.
- The displayed total equals `Total` over the catalog.

Every handler preserves it.

The order store may hold any map from id to order. Submission writes the new order under
"number of orders + 1" and replaces whatever is stored under that id, as `setDoc` does.
That id is unused whenever the ids are exactly 1 up to the number of orders, each order
stored under its own id (`Orders.Dense`), and `Submit` and `MarkPaid` keep that property
when it holds beforehand. If another writer deletes an order other than the last, the ids
are 1 .. n without some k < n; the count plus one is then n, so the new order replaces
order n even when submissions happen one at a time (`Orders.DeletionMakesNextIdTaken`).

Prices are whole numbers (cents). Counts are integers, as JS numbers are, so the source's
truthiness tests are modelled as written: `if (m[n])` becomes `Count(m, n) != 0`, and
`m[n] && m[n] > 0` becomes `Count(m, n) != 0 && m[n] > 0`.

Three points about what the code actually does:

- A submission is not checked for a non-empty selection. The code's `!order.items` test
  never fires, because an object is always truthy. The lemma `Selection.PositiveTotal`
  shows that a positive total already implies a selected dish with a positive price, and
  `Page.Home.Submit` states that a placed order's selection is not empty.
- Marking an order paid keeps the chosen order when the update fails. The code awaits
  `updateDoc(...)` without a `try`, so a failed update leaves the handler before
  `setCurrentOrder(null)` runs. An update also fails when the document does not exist, as
  a Firestore `updateDoc` does.
- After a successful submit the code resets the selection to `[]` (an array) rather than
  `{}`. Both read as an empty map, so the model uses `map[]`.

## Model

| member | source | states |
|---|---|---|
| `Sequences.Keep` | app/page.tsx:149-153 | the filtered list is no longer than the input, and every element in it is in the input and passes the test |
| `Menu.Includes` | app/page.tsx:152 | `includes` with an empty query is true, and a true result needs a query no longer than the name |
| `Menu.Matches` | app/page.tsx:150-152 | the search test lower-cases both sides; an empty query matches every dish, and a match needs a query no longer than the name |
| `Menu.Filter` | app/page.tsx:149-153 | `filteredItems` is no longer than the catalog and holds only catalog dishes that match the query |
| `Menu.Categories` | app/page.tsx:230-240 | the key sequence of the grouping has at most one key per item and is empty exactly when there are no items |
| `Menu.Lower` | app/page.tsx:150-152 | lower-casing keeps the length and lower-cases each character (ASCII letters only) |
| `Menu.IncludesIffOccurs` | app/page.tsx:150-152 | `includes` is true exactly when the query occurs at some position of the name |
| `Menu.FilterSpec` | app/page.tsx:149-153 | the filtered items are exactly the catalog items whose lower-cased name contains the lower-cased query, each as often as in the catalog, in catalog order |
| `Menu.FilterEmptyQuery` | app/page.tsx:149-153 | an empty search keeps the whole catalog unchanged |
| `Menu.MatchesIgnoresQueryCase` | app/page.tsx:152 | lower-casing the query first does not change which dishes match |
| `Menu.GroupByCategory` | app/page.tsx:230-240 | the grouping's keys are the categories in first-seen order, it has exactly those keys, and each bucket holds that category's items in item order |
| `Menu.CategoriesAreNonEmptyBuckets` | app/page.tsx:233-236 | a category is a key exactly when some item has it, that is, exactly when its bucket is not empty |
| `Menu.CategoriesDistinct` | app/page.tsx:233-235 | no category is a key twice |
| `Menu.CategoriesInFirstSeenOrder` | app/page.tsx:230-240 | every key has an item, and keys are ordered by the position of their category's first item |
| `Menu.ItemInItsOwnBucket` | app/page.tsx:232-236 | each item is in the bucket of its own category, as often as it occurs, and in no other bucket |
| `Menu.BucketKeepsOrder` | app/page.tsx:236 | the items in a bucket keep their relative order |
| `Menu.GroupsPartitionItems` | app/page.tsx:230-240 | the buckets, concatenated in key order, hold exactly the filtered items with their multiplicities |
| `Menu.NoGroupsIffNoMatch` | app/page.tsx:289 | there are no groups (the "no results" message) exactly when no catalog dish matches the search |
| `Selection.Incremented` | app/page.tsx:114-119 | "+" adds one to the dish's count (1 when it had none) and leaves every other entry as it was; counts stay at least one |
| `Selection.Decremented` | app/page.tsx:120-125 | "-" on a positive count takes one off and deletes the entry when it reaches 0; otherwise the map is unchanged; other entries are untouched; counts stay at least one |
| `Selection.Adjust` | app/page.tsx:112-125 | the in-place updater on the copied map yields exactly the incremented or decremented map |
| `Selection.DecrementUndoesIncrement` | app/page.tsx:114-125 | on a reachable selection, "-" after "+" on the same dish restores the map |
| `Selection.IncrementUndoesDecrement` | app/page.tsx:114-125 | on a reachable selection, "+" after "-" on a selected dish restores the map |
| `Selection.Total` | app/page.tsx:128-131 | the total of a reachable selection is never negative, and an empty selection costs 0 |
| `Selection.TotalDifference` | app/page.tsx:128-131 | two selections that differ only on one dish differ in total by the difference in count times the sum of that dish's catalog prices |
| `Selection.TotalAfterIncrement` | app/page.tsx:114-131 | "+" raises the total by the dish's catalog price, summed over every catalog entry with that name |
| `Selection.TotalAfterDecrement` | app/page.tsx:120-131 | "-" on a selected dish lowers the total by its catalog price; on an unselected dish the total stays |
| `Selection.UnknownNameCostsNothing` | app/page.tsx:129-130 | a selected name that no catalog item carries does not change the total, whatever its count |
| `Selection.TotalAppend` | app/page.tsx:128-131 | the total over a catalog made of two parts is the sum of both totals, so an entry listed twice is paid twice |
| `Selection.PositiveTotal` | app/page.tsx:128-131 | on a reachable selection the total is positive exactly when a selected dish has a catalog entry with a positive price |
| `Orders.ActiveOrders` | app/page.tsx:57-59 | the active-orders view is no longer than the snapshot and holds only active documents of it |
| `Orders.ActiveOrdersSpec` | app/page.tsx:57-59 | the active-orders view holds exactly the snapshot's documents with `isActive` set, each as often as in the snapshot, in snapshot order |
| `Orders.NextIdFresh` | app/page.tsx:161-162 | while the ids are exactly 1 .. n, the id n + 1 is unused, and storing the new order under it keeps the ids 1 .. n + 1 |
| `Orders.DeletionMakesNextIdTaken` | app/page.tsx:161-165 | after order k < n is deleted from ids 1 .. n, "number of orders + 1" is n, the id of an order still stored, so the write replaces it |
| `Orders.PaidOrderNotListed` | app/page.tsx:221-228 | once an order is stored with `isActive` false, no snapshot of the store lists it as active |
| `Page.Home.FilteredItems` | app/page.tsx:149-153 | the page's filtered list holds only catalog dishes that match the current search text |
| `Page.Home.constructor` | app/page.tsx:46-53 | the page starts with an empty selection, a zero total, empty notes and search, and no chosen order |
| `Page.Home.ChangeSelection` | app/page.tsx:107-136 | the selection becomes its incremented or decremented copy, the total is recomputed over the full catalog and moves by the dish's price, the invariant holds, and nothing else changes |
| `Page.Home.EditSearch` | app/page.tsx:284-285 | typing in the search box sets the search text only and keeps the invariant |
| `Page.Home.EditNotes` | app/page.tsx:370-371 | typing in the notes box sets the notes only and keeps the invariant |
| `Page.Home.Submit` | app/page.tsx:155-206 | refused exactly when the waiter, table, payment method or timestamp is empty or the total is 0, and then nothing changes; otherwise a failed write changes nothing; a successful write stores an active order under the id "number of orders + 1", replacing any order stored there (none while the ids are 1 .. n, which it then keeps), with a snapshot of the selection, total and notes, then empties the selection, zeroes the total and clears the notes |
| `Page.Home.ChooseOrder` | app/page.tsx:423 | pressing "mark as paid" on a card sets the chosen order, nothing else, and keeps the invariant |
| `Page.Home.MarkPaid` | app/page.tsx:221-228 | with no chosen order nothing changes; otherwise, if the update succeeds, exactly that order's `isActive` becomes false, it leaves the active set, no other order or field changes, ids 1 .. n stay so, and the choice is cleared; a failed update changes nothing |

## Left out

- The Firestore calls (`onSnapshot`, `getDocs`, `setDoc`, `updateDoc`, `collection`, `doc`) are remote I/O. The `orders` collection is a map owned by `Page.Home`. Whether a write succeeds is a parameter. A failing `getDocs` read before submission is not modelled.
- The mirrors of the `tables`, `items`, `waiters` and `categories` collections are not modelled. The catalog is fixed for the lifetime of a `Page.Home`. In the source, a push of a new catalog does not recompute the total, so `Valid()`'s total clause holds only between catalog changes.
- The `orders` subscription is registered twice (lines 55-66 and 210-219) with the same effect. It is modelled once, as the pure function `Orders.ActiveOrders` over a snapshot sequence. Firestore's document order within a snapshot is taken as given.
- The id race: two terminals that count the same number of orders pick the same id. This is concurrency, and the model is sequential. The sequential overwrite after a gap in the ids is modelled (see above).
- The `orderedAt` timestamp comes from a clock and locale formatting, so it is a string parameter. The `!order.orderedAt` test is kept.
- The `!order.items`, `!order.isActive` and `!order.id` tests can never fire: the items object is truthy, `isActive` is `true`, and the id is at least 1. The model omits them.
- `Number(item.Precio)` is floating point, including `NaN` totals. Prices are natural numbers instead.
- `toLowerCase` is modelled for ASCII letters only. Unicode case mapping is not modelled.
- JS object key order: integer-like category names would be enumerated first. The grouping keeps the plain first-seen insertion order instead.
- Selection.Count, Selection.Total: a dish named like an `Object.prototype` member (`toString`, `constructor`) is not modelled. In the source its lookup finds the inherited function, so every press turns the total into `NaN` and every submit is refused; the model counts it like any other name.
- Menu.GroupByCategory: a category named like an `Object.prototype` member (`constructor`, `__proto__`) is not modelled. In the source the lookup is truthy, no bucket is created and the `push` throws; the model groups it like any other category.
- UI and form plumbing are not modelled: JSX, dialogs, toasts, `FormData`, `e.target.reset()`, `useRouter`, `Image`, and the unused `isChecked` argument of `handleItemSelectionChange`.
- The payment method is kept as the form's string value. Only its emptiness matters to the code.
