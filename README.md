# Repository list: store and view logic in Dafny

This project models the two parts of the repository-browser front end that hold logic:

- **The repository store** (`src/store/RepoStore.ts`). It is a class with four fields:
  - the loaded repository records;
  - a pagination cursor: the next page to request and the server-reported total;
  - a `loading` flag;
  - the last error.

  The asynchronous `fetchData` is split at its `await`:
  - `BeginFetch` raises `loading` and requests the current page.
  - `FetchSucceeded` handles a completed request. It appends the page in server order, takes `total_count` and advances the page.
  - `FetchFailed` handles a failed request. It records the error, and a thrown non-`Error` becomes a generic `Error`.

  `loadMore` is a guard plus a page increment, followed by a fetch. The model keeps the source's double page increment: a successful `loadMore` leaves the page two past where it was (`LoadMoreToCompletion`). `removeRepository` filters by id. `editRepository` overwrites the name and description of the first record with the id.
- **The list view** (`src/components/RepoList.tsx`). Its pure logic is modelled as functions:
  - the sort comparator, and the sorted snapshot as a stable sort;
  - the column-header toggle;
  - the longest-name fold;
  - the infinite-scroll and backfill-after-delete conditions.

  Its handlers are methods of `RepoListView`. They change the view's sort state or call the store.

Modules: `Wrappers` (Option), `StringOrder` (the string comparison the sort uses), `Store` and `RepoList`.

A missing `description` is read by `a[sortField] ?? ''` as `''`, which is then compared as a string (`FieldValue`); it is not treated as equal to everything.

Name lengths in `longestName` are JavaScript `string.length` values, counted in UTF-16 code units (`Utf16Length`): a character outside the Basic Multilingual Plane, such as an emoji, counts twice. A Dafny `char` is a Unicode scalar value, so a name holding an unpaired surrogate (one UTF-16 code unit that JavaScript allows on its own) cannot be represented.

## Model

| member | source | states |
|---|---|---|
| `Store.CaughtError` | src/store/RepoStore.ts:46 | the catch expression as written, with no contract of its own; its effect (the thrown `Error`, or the generic message) is stated by `Store.RepoStore.FetchFailed` |
| `Store.FindIndex` | src/store/RepoStore.ts:69 | `findIndex` by id: the result is the first position holding the id; None (the source's -1) exactly when no record has it |
| `Store.FindIndexSeesOnlyIds` | src/store/RepoStore.ts:69 | the position found depends only on the ids, so edits of name/description never move it |
| `Store.Without` | src/store/RepoStore.ts:61-65 | the filter keeps exactly the records whose id differs, and never grows the list |
| `Store.WithoutAbsent` | src/store/RepoStore.ts:61-65 | removing an id no record carries is the identity |
| `Store.WithoutIdempotent` | src/store/RepoStore.ts:61-65 | removing the same id twice equals removing it once |
| `Store.WithoutAppend` | src/store/RepoStore.ts:63 | removal distributes over concatenation, so kept records keep their relative order |
| `Store.WithoutCounts` | src/store/RepoStore.ts:63 | each record with another id keeps its multiplicity; records with the id occur zero times |
| `Store.EditFirst` | src/store/RepoStore.ts:67-75 | same length, ids and URLs; first record with the id gets the new name and description, all other records unchanged; absent id leaves the list unchanged |
| `Store.EditFirstIdempotent` | src/store/RepoStore.ts:67-75 | saving the same edit twice equals saving it once |
| `Store.AllLoaded` | src/store/RepoStore.ts:54 | `loadMore`'s guard as written, with no contract of its own; its effect is stated by `Store.RepoStore.LoadMore` |
| `Store.AllLoadedMonotone` | src/store/RepoStore.ts:54 | a delete never turns an incomplete list complete, so a `loadMore` refused after a delete was refused before it |
| `Store.RepoStore.constructor` | src/store/RepoStore.ts:17-24 | empty list, not loading, no error, page 1, total 0 |
| `Store.RepoStore.BeginFetch` | src/store/RepoStore.ts:30-36 | `loading` becomes true and the requested page is the current `pagination.page`, never page 0; nothing else changes |
| `Store.RepoStore.FetchSucceeded` | src/store/RepoStore.ts:38-43 | the list is the old list followed by the items in server order; total is `total_count`; page is old + 1; not loading; a previous error is kept |
| `Store.RepoStore.FetchFailed` | src/store/RepoStore.ts:44-49 | the error is the thrown `Error`, or a generic one for any other thrown value; not loading; list and pagination unchanged |
| `Store.RepoStore.FetchData` | src/store/RepoStore.ts:30-50 | an uninterrupted fetch: requests the current page (at least 1) and ends not loading, with the success or failure effect above |
| `Store.RepoStore.LoadMore` | src/store/RepoStore.ts:52-58 | when every reported record is loaded: no request and no change; otherwise page old + 1, loading, and that page (at least 2) requested |
| `Store.RepoStore.LoadMoreToCompletion` | src/store/RepoStore.ts:52-59 | an uninterrupted `loadMore` that fetches: success appends the items and ends at page old + 2; failure keeps the list and ends at page old + 1 |
| `Store.RepoStore.RemoveRepository` | src/store/RepoStore.ts:61-65 | the list becomes `Without(old list, id)`, so no record has the id; the other fields are unchanged |
| `Store.RepoStore.EditRepository` | src/store/RepoStore.ts:67-75 | the list becomes `EditFirst(old list, …)`; an absent id leaves it unchanged; the other fields are unchanged |
| `StringOrder.StrCompare` | src/components/RepoList.tsx:75 | the comparison's result is -1, 0 or 1, and it is 0 exactly when the strings are equal |
| `StringOrder.StrCompareAntisymmetric` | src/components/RepoList.tsx:75 | swapping the strings negates the result, so `bValue.localeCompare(aValue)` reverses the ascending order |
| `StringOrder.StrCompareCommonPrefix` | src/components/RepoList.tsx:75 | a common prefix does not change the comparison, so strings are ordered by their first difference |
| `StringOrder.StrCompareTransitive` | src/components/RepoList.tsx:75 | "sorts no later than" is transitive |
| `RepoList.NextSort` | src/components/RepoList.tsx:57-61 | a click on a header always sorts by that field with some order |
| `RepoList.RepeatedClicksAlternate` | src/components/RepoList.tsx:57-61 | after the first click on a header, each further click on it flips between ascending and descending |
| `RepoList.NextSortToggles` | src/components/RepoList.tsx:57-61 | a click on the current sort field's header flips its order; a click on any other header, or with no order yet, sorts ascending |
| `RepoList.Flip` | src/components/RepoList.tsx:58 | the order toggle as written, with no contract of its own; its effect is stated by `RepoList.NextSortToggles` |
| `RepoList.FieldValue` | src/components/RepoList.tsx:71-72 | the value read is a number exactly for the id field, so every record yields the same kind for one field; a missing description reads as `''` |
| `RepoList.CompareValues` | src/components/RepoList.tsx:74-80 | two values tie exactly when they are equal or of different kinds (a string against a number), in either order |
| `RepoList.Compare` | src/components/RepoList.tsx:68-81 | with no sort field or no order every pair ties; otherwise two records tie exactly when their values in the sort field are equal |
| `RepoList.CompareAntisymmetric` | src/components/RepoList.tsx:68-81 | the comparator is antisymmetric: swapping the records negates it |
| `RepoList.CompareTransitive` | src/components/RepoList.tsx:68-81 | the comparator's "goes no later than" is transitive, so it is a consistent comparator for `sort` |
| `RepoList.CompareTiesAreEquivalent` | src/components/RepoList.tsx:68-81 | ties are an equivalence: two records tying with a third tie with each other |
| `RepoList.Insert` | src/components/RepoList.tsx:68 | insertion adds exactly the one record |
| `RepoList.SortedView` | src/components/RepoList.tsx:68-81 | the sorted view is a permutation of the store's records, of the same length |
| `RepoList.PrependSorted` | src/components/RepoList.tsx:68 | a record sorting no later than every record of an ordered list can be placed in front of it |
| `RepoList.InsertSorted` | src/components/RepoList.tsx:68 | inserting into an ordered list keeps it ordered |
| `RepoList.SortedViewSorted` | src/components/RepoList.tsx:68-81 | the sorted view is ordered by the comparator |
| `RepoList.InsertKeepsTies` | src/components/RepoList.tsx:68 | an inserted record goes before the records it ties with |
| `RepoList.SortedViewStable` | src/components/RepoList.tsx:68-81 | the sort is stable: records that tie keep their store order |
| `RepoList.SortedViewPair` | src/components/RepoList.tsx:68-81 | two records are swapped exactly when the first sorts strictly after the second |
| `RepoList.SortedViewUnsorted` | src/components/RepoList.tsx:63-69 | with no sort field or no order (the state after a reset), the view equals the store order |
| `RepoList.SortedViewOrdersField` | src/components/RepoList.tsx:71-77 | ascending gives non-decreasing field values and descending non-increasing ones; a missing description counts as `''` |
| `RepoList.SortByNameAscending` | src/components/RepoList.tsx:74-75 | sorting by name ascending puts the names in lexicographic order |
| `RepoList.SortByIdDescending` | src/components/RepoList.tsx:76-77 | sorting by id descending puts the ids in non-increasing order |
| `RepoList.Utf16Length` | src/components/RepoList.tsx:84 | `string.length` counts UTF-16 code units: at least one and at most two per character |
| `RepoList.Utf16LengthIsCharCount` | src/components/RepoList.tsx:84 | the code-unit length equals the character count exactly when no character lies outside the Basic Multilingual Plane |
| `RepoList.LongestFrom` | src/components/RepoList.tsx:84 | with lengths in UTF-16 code units, the fold's result is at least as long as the accumulator and every name; it is either the accumulator or the first name strictly longer than everything before it |
| `RepoList.LongestFromStep` | src/components/RepoList.tsx:84 | for any length measure, one step of the strict `>` fold keeps the fold's promise: no shorter than the accumulator and every name, and either the accumulator or the first strictly longer name |
| `RepoList.LongestName` | src/components/RepoList.tsx:84 | `''` for no records; otherwise a name at least as long as every name in UTF-16 code units, and the first one of that length |
| `RepoList.LongestNameCountsCodeUnits` | src/components/RepoList.tsx:84 | a name of two emoji (four code units) is longer than `abc`, although it has fewer characters |
| `RepoList.ShouldLoadOnScroll` | src/components/RepoList.tsx:33 | the scroll condition as written, with no contract of its own; its effect is stated by `RepoList.RepoListView.HandleScroll` and its monotonicity by `RepoList.ScrollTriggerMonotone` |
| `RepoList.ScrollTriggerMonotone` | src/components/RepoList.tsx:33 | scrolling further down keeps the trigger |
| `RepoList.ShouldBackfill` | src/components/RepoList.tsx:41 | the backfill condition as written, with no contract of its own; its effect is stated by `RepoList.RepoListView.HandleDelete` |
| `RepoList.RepoListView.constructor` | src/components/RepoList.tsx:20-23 | no sort field or order, no selected record, dialog hidden |
| `RepoList.RepoListView.SortedRepositories` | src/components/RepoList.tsx:68 | the displayed rows are exactly the store's records, none added or lost |
| `RepoList.RepoListView.TotalRepositories` | src/components/RepoList.tsx:83 | the displayed count equals the number of records in the store |
| `RepoList.RepoListView.LongestNameShown` | src/components/RepoList.tsx:84 | the name shown is `''` for an empty store, else the name of a stored record, no shorter in UTF-16 code units than any stored name |
| `RepoList.RepoListView.Mount` | src/components/RepoList.tsx:25-27 | mounting begins the first fetch for the current page |
| `RepoList.RepoListView.HandleSort` | src/components/RepoList.tsx:57-61 | the sort state becomes `NextSort` of the old one |
| `RepoList.RepoListView.ResetSort` | src/components/RepoList.tsx:63-66 | both sort field and order are cleared, and the displayed rows equal the store order |
| `RepoList.RepoListView.HandleScroll` | src/components/RepoList.tsx:29-36 | a page is requested exactly when the scroll is within 5 of the bottom, the store is not loading, and more records were reported than are loaded; otherwise the store is unchanged |
| `RepoList.RepoListView.HandleDelete` | src/components/RepoList.tsx:38-44 | the id is always removed; `loadMore` requests a page exactly when fewer than 10 records remain, the store was not loading, and more records were reported |
| `RepoList.RepoListView.HandleEditClick` | src/components/RepoList.tsx:46-49 | the record becomes the selected one and the dialog opens |
| `RepoList.RepoListView.HandleEditSave` | src/components/RepoList.tsx:51-55 | with no selected record the store is unchanged; otherwise the store's record with the selected id is edited |

## Left out

- The network request and the URL built for it (`axios.get`) are left out. The response is a parameter of the completion steps. A body without an iterable `items` throws inside the `try`, so it is a `Failed` response. Other malformed bodies are not modelled, because `totalCount` is a `nat` and records have fixed field types. A missing `total_count` leaves `total` undefined, so the guard of `loadMore` (src/store/RepoStore.ts:54) is always false and `loadMore` always fetches. A non-numeric one is stored as it is: `null` compares as 0, so `loadMore` never fetches, and a non-numeric string compares as NaN, so it always fetches. Records of the wrong shape cannot be expressed either.
- MobX reactivity (`makeAutoObservable`, `runInAction`, `observer`) is left out: it only notifies views.
- Interleavings of overlapping fetches are left out. `FetchData` and `LoadMoreToCompletion` describe runs with no other event between start and completion. A caller can still interleave the three steps, but nothing is proved about such runs.
- `localeCompare` is replaced by ordinal lexicographic order on characters (`StrCompare`). Locale collation is not modelled.
- `Array.prototype.sort` is modelled by its result: the stable order under the comparator, computed by insertion (`SortedView`). The engine's own algorithm is not modelled.
- Records are values, not shared objects. In the source, `editRepository` writes into the object itself, so the selected `currentRepo` sees the new name too. In the model `currentRepo` keeps its old copy. Only its id is used by the modelled handlers, and edits never change ids. Its name and description only seed the edit dialog (src/components/RepoList.tsx:168-169), which is left out; in the source they show the edited values after an edit.
- Record fields have fixed types, as the TypeScript interface declares. A response whose JSON gives a field the wrong type is not modelled, so the mixed-type branch of the comparator is reachable only through `CompareValues`.
- Ids are unbounded integers, not JavaScript doubles, so the comparator's `aValue - bValue` is exact. Scroll positions are reals.
- JSX rendering, the loading spinner, link targets, styling and `console.log` calls are left out.
- `src/components/EditModal.tsx` is left out. It is a form whose only logic is calling `onSave` then `onClose`.
- `src/components/Header.tsx`, `src/App.tsx` and `jest.config.ts` are left out: they are markup and build configuration.
- The recorded error is never shown by the view. The model reflects that: no view member reads `error`.
