# Admin console list views and stores, in Dafny

This project models the logic at the core of a small Next.js admin console.
The console has a product list and a berry catalog. Three pieces are modelled:

- **The list-view pipeline** that both tables run over their records. It has
  a case-insensitive substring search on the display name, a stable sort by
  name, a page slice, the page count, the "showing X to Y of N" label, the row
  numbers and the guards of the previous/next buttons. Products sort ascending
  or descending; berries always sort ascending.
- **The two view-state stores.** Each is a small state machine over page, page
  size and search. The product table's store (`useTableStore`) adds sort field and sort direction.
  Setting the search or the page size moves back to page 1, and
  `resetFilters` restores the initial state.
- **The product collection store.** It prepends a product under a new id,
  replaces a product by id while keeping its id, removes by id and finds by id.

Modules:

| file | module | what it holds |
|---|---|---|
| `common.dfy` | `Common` | strings, `Option`, `Min`/`Max` |
| `list_view.dfy` | `ListView` | the pipeline, generic over the record type: filter, stable sort (a functional definition plus the in-place array sort proved equal to it), slice, page count, label, row numbers, button guards, table body |
| `product_store.dfy` | `ProductStore` | the product record, the list operations as functions, and the store as a class whose methods reassign its fields |
| `table_store.dfy` | `TableStore` | the product table's view state, as a class |
| `berry_store.dfy` | `BerryStore` | the berry table's view state, as a class |
| `product_table.dfy` | `ProductTable` | the product table's memo (copy, filter, sort in place) and its properties |
| `berry_table.dfy` | `BerryTable` | the berry table's memo, its pages and labels, and the list handed to the detail dialog |

Both tables call two string primitives whose results follow Unicode and locale
rules: `toLowerCase` and `localeCompare`. Here they are parameters
(`ListView.StringOps`). The sort lemmas only assume that `localeCompare`,
read as "a may stand before b when the result is at most 0", is a total
preorder. `Array.prototype.sort` is stable, and a stable sort by a total
preorder has exactly one possible result. `ListView.StableSort` is an
insertion sort that defines that result. The model proves it sorted, a
permutation and stable; it proves the uniqueness only for lists without ties
(`ListView.SortedUnique`). The tables sort a local array in
place with `ListView.SortInPlace`, which is proved to leave
`StableSort(old(a[..]))` in the array.

`Array.prototype.slice` is modelled with its clamping of negative and
out-of-range indices. The slice is therefore total, and the pagination lemmas
only ask for `page >= 1` and `pageSize > 0`. The stores themselves enforce
neither: `setPage` accepts any number, and the page size comes from a select.

Three behaviours of the code are reproduced as written, each with a lemma:

- The "no data" row tests the unfiltered list. A search that matches nothing
  shows an empty body instead.
- With no matching records, the label on page p reads "(p - 1) * pageSize + 1
  to 0 of 0", which is "1 to 0 of 0" on page 1. The page is not reset when the
  list empties (it is persisted, and the berry list is empty while loading),
  so a later page shows a start above its end.
- The next button is only disabled on `page == totalPages` (or when there are
  no pages). Past the last page it stays enabled and leads to more empty
  pages. This can happen after a delete or with a remembered page.

## Model

| member | source | states |
|---|---|---|
| ListView.KeepMatching | src/components/table/ProductTable.tsx:41-43 | the filter keeps a record iff its lower-cased name contains the lower-cased search, each kept record as often as in the input, and never lengthens the list |
| ListView.SearchFilter | src/components/table/ProductTable.tsx:40-44 | an empty search keeps the list as it is; otherwise a record is in the result iff it is in the input and its lower-cased name contains the lower-cased search |
| ListView.KeepMatchingAppend | src/components/table/ProductTable.tsx:41-43 | the filter keeps the order of what it keeps: filtering a concatenation is concatenating the filtered parts |
| ListView.Insert | src/components/table/ProductTable.tsx:47-52 | one insertion step of the sort adds exactly one element |
| ListView.StableSort | src/components/table/ProductTable.tsx:47-52 | the sort preserves the length of the list |
| ListView.InsertPermutes | src/components/table/ProductTable.tsx:47-52 | an insertion step adds the inserted element and changes nothing else in the multiset |
| ListView.StableSortPermutes | src/components/table/ProductTable.tsx:47-52 | the sort is a permutation: same multiset of elements |
| ListView.InsertInPlace | src/components/table/ProductTable.tsx:47-52 | one in-place pass moves a[i] into place in a[..i + 1] as the insertion step says, and leaves the rest of the array alone |
| ListView.InsertAt | src/components/table/ProductTable.tsx:47-52 | insertion puts the element right after the last element not greater than it |
| ListView.SortInPlace | src/components/table/ProductTable.tsx:47-52 | sorting the array in place leaves exactly the stable sort of its old contents |
| ListView.SortedAppend | src/components/table/ProductTable.tsx:47-52 | appending an element that no element exceeds keeps a sorted list sorted |
| ListView.InsertSorted | src/components/table/ProductTable.tsx:47-52 | for a total preorder, insertion into a sorted list yields a sorted list |
| ListView.StableSortSorted | src/components/table/ProductTable.tsx:47-52 | for a total preorder, every element of the result may stand before every later one |
| ListView.InsertTies | src/components/table/ProductTable.tsx:47-52 | an insertion step appends the inserted element after the elements it ties with |
| ListView.StableSortStable | src/components/table/ProductTable.tsx:47-52 | stability: the elements that tie with any x keep their relative order |
| ListView.StableSortOfSorted | src/components/table/ProductTable.tsx:47-52 | a list already in order is left unchanged |
| ListView.StableSortIdempotent | src/components/table/ProductTable.tsx:47-52 | sorting the sorted list again changes nothing |
| ListView.HeadsTie | src/components/table/ProductTable.tsx:47-52 | two sorted arrangements of the same elements start with tied elements |
| ListView.SortedUnique | src/components/table/ProductTable.tsx:47-52 | without ties between distinct elements, two sorted arrangements of the same elements are equal |
| ListView.Reverse | src/components/table/ProductTable.tsx:47-52 | element i of the reversal is element n - 1 - i of the input |
| ListView.ReversePermutes | src/components/table/ProductTable.tsx:47-52 | reversal keeps the multiset of elements |
| ListView.FlippedPreorder | src/components/table/ProductTable.tsx:48-51 | the comparator with its arguments swapped is again a total preorder |
| ListView.ReverseSortedFlipped | src/components/table/ProductTable.tsx:48-51 | a list sorted by a comparator, reversed, is sorted by the swapped comparator |
| ListView.StableSortFlipped | src/components/table/ProductTable.tsx:47-52 | with no ties between distinct elements, sorting by the swapped comparator gives the reverse of sorting by the comparator |
| ListView.Includes | src/components/table/ProductTable.tsx:42 | `includes`: the needle occurs in the haystack at some offset (the empty needle at offset 0) |
| ListView.Matches | src/components/table/ProductTable.tsx:42 | the filter callback: the lower-cased name includes the lower-cased search |
| ListView.Slice | src/components/table/ProductTable.tsx:60 | `slice(start, end)` is a contiguous run of the list beginning at the normalised start index, and never reaches past the end |
| ListView.PageStart | src/components/table/ProductTable.tsx:58 | the first index of a page, (page - 1) * pageSize, is non-negative for page >= 1 and pageSize >= 0 |
| ListView.SliceBound | src/components/table/ProductTable.tsx:60 | a slice index, after negative indices count from the end and clamping, lies within the list |
| ListView.Paginate | src/components/table/ProductTable.tsx:57-61 | the page is never longer than the list; for page >= 1 and pageSize > 0 it has max(0, min(pageSize, n - (page-1)*pageSize)) elements and is the contiguous run of the sorted list starting at (page-1)*pageSize |
| ListView.TotalPages | src/components/table/ProductTable.tsx:63 | the page count is the least r with n <= r*pageSize: (r-1)*pageSize < n <= r*pageSize, and it is 0 iff n is 0 |
| ListView.PastLastPageIsEmpty | src/components/table/ProductTable.tsx:58-63 | a page after the last one is empty, and no error is raised |
| ListView.FirstPage | src/components/table/ProductTable.tsx:57-61 | page 1 is the first min(pageSize, n) records |
| ListView.LabelMatchesPage | src/components/table/ProductTable.tsx:204-206 | for 1 <= page <= totalPages, 1 <= start <= end <= n and end - start + 1 is the number of rows on the page |
| ListView.RangeStart | src/components/table/ProductTable.tsx:204 | the label's X, (page - 1) * pageSize + 1, is at least 1 for page >= 1 and pageSize >= 0 |
| ListView.RangeEnd | src/components/table/ProductTable.tsx:205 | the label's Y, min(page * pageSize, n), is either n or page * pageSize and exceeds neither |
| ListView.RowNumber | src/components/table/ProductTable.tsx:168 | row i of a page is numbered the label's X plus i |
| ListView.PrevDisabled | src/components/table/ProductTable.tsx:213 | previous is disabled iff page == 1 |
| ListView.NextDisabled | src/components/table/ProductTable.tsx:221 | next is disabled iff page == totalPages or totalPages == 0 |
| ListView.EmptyLabel | src/components/table/ProductTable.tsx:204-206 | with no records, on any page p >= 1 the label reads "(p - 1) * pageSize + 1 to 0 of 0", its start is 1 exactly on page 1 and exceeds its end, and there are no pages |
| ListView.RowNumbers | src/components/table/ProductTable.tsx:168 | row i of a page is numbered start + i, that number is within 1..n, and it is the row's 1-based position in the sorted list |
| ListView.NavigationStaysInRange | src/components/table/ProductTable.tsx:209-224 | from a page between 1 and the page count, an enabled previous or next button leads to a page between 1 and the page count |
| ListView.NextEnabledPastLastPage | src/components/table/ProductTable.tsx:221 | past the last page the next button stays enabled, and this page and the next are both empty |
| ListView.TableBody | src/components/table/ProductTable.tsx:145-182 | skeleton rows iff loading; the "no data" row iff not loading and the unfiltered list is empty; otherwise one row per record of the page, numbered as row numbers say |
| ProductTable.TitleOrder | src/components/table/ProductTable.tsx:47-52 | the sort callback: localeCompare(a.title, b.title) when the direction is ascending, localeCompare(b.title, a.title) otherwise |
| ProductTable.FilteredAndSorted | src/components/table/ProductTable.tsx:36-55 | the memo's value: the stable sort, by the direction's comparator, of the filtered products; never longer than the store's list |
| ProductTable.FilteredAndSortedProducts | src/components/table/ProductTable.tsx:36-55 | the memo, which copies, filters and sorts a local array in place, returns exactly the stable sort of the filtered list by the direction's comparator |
| ProductTable.TitleOrderIsPreorder | src/components/table/ProductTable.tsx:47-52 | in either direction, the product comparator is a total preorder when localeCompare is one |
| ProductTable.FilteredAndSortedContents | src/components/table/ProductTable.tsx:37-52 | filter plus sort is a permutation of the filtered subset: each product occurs as often as in the store's list if its lower-cased title contains the lower-cased search (or the search is empty), else not at all |
| ProductTable.EmptySearchKeepsAll | src/components/table/ProductTable.tsx:40-44 | with an empty search the filter keeps every product in order, and the result is the sorted store list |
| ProductTable.FilteredAndSortedIsOrdered | src/components/table/ProductTable.tsx:47-52 | ascending: localeCompare(a.title, b.title) <= 0 for every earlier a and later b; descending: localeCompare(b.title, a.title) <= 0 |
| ProductTable.FilteredAndSortedIsStable | src/components/table/ProductTable.tsx:47-52 | in both directions, products whose titles tie keep their filtered order |
| ProductTable.DescendingReversesAscending | src/components/table/ProductTable.tsx:47-52 | when no two distinct products that pass the search have tied titles, the descending list is the ascending list reversed |
| ProductTable.SortIsIdempotent | src/components/table/ProductTable.tsx:47-52 | re-sorting the table's list in the same direction changes nothing |
| ProductTable.DeleteHidesProduct | src/components/table/ProductTable.tsx:65-68 | after the delete button's `deleteProduct(id)`, no listed product has that id, and every other product is listed as often as before |
| ProductTable.NoMatchShowsEmptyBody | src/components/table/ProductTable.tsx:159 | when products exist but none matches the search, the body has no rows and no "no data" row |
| BerryTable.NameOrder | src/components/table/BerryTable.tsx:58 | the sort callback: localeCompare(a.name, b.name), ascending whatever the store holds |
| BerryTable.FilteredAndSorted | src/components/table/BerryTable.tsx:49-61 | the memo's value: the stable ascending sort by name of the filtered berries; never longer than the fetched list |
| BerryTable.FilteredAndSortedBerries | src/components/table/BerryTable.tsx:49-61 | the memo, which copies, filters and sorts a local array in place, returns exactly the stable ascending sort by name of the filtered list |
| BerryTable.NameOrderIsPreorder | src/components/table/BerryTable.tsx:58 | the berry comparator is a total preorder when localeCompare is one |
| BerryTable.FilteredAndSortedContents | src/components/table/BerryTable.tsx:50-58 | with an empty search every berry is kept; otherwise a berry is kept iff its lower-cased name contains the lower-cased search; kept berries occur as often as in the fetched list |
| BerryTable.FilteredAndSortedIsAscending | src/components/table/BerryTable.tsx:58 | the list is ascending by name whatever the store state, and berries with tied names keep their filtered order |
| BerryTable.PagesOfBerries | src/components/table/BerryTable.tsx:63-69 | a page has at most pageSize berries and is empty past the last page; the page count is 0 iff the filtered list is empty |
| BerryTable.BerryRowNumbers | src/components/table/BerryTable.tsx:167 | row numbers on a page are consecutive, and each is the berry's 1-based position in the sorted list |
| BerryTable.BerryLabel | src/components/table/BerryTable.tsx:197-199 | the label end never exceeds n, and on a page between 1 and the page count it is the number of the page's last row |
| BerryTable.NoMatchShowsEmptyBody | src/components/table/BerryTable.tsx:158 | when berries exist but none matches the search, the body has no rows and no "no data" row |
| BerryTable.ViewBerry | src/components/table/BerryTable.tsx:71-74 | viewing a berry selects it and opens the dialog |
| BerryTable.DetailDialog | src/components/table/BerryTable.tsx:223-229 | the dialog is rendered iff a berry is selected, opens on that berry, and receives the whole filtered and sorted list, not the page |
| BerryTable.DialogSeesEveryPage | src/components/table/BerryTable.tsx:227 | every berry of any page is in the list the dialog receives |
| BerryTable.ViewOpensDialog | src/components/table/BerryTable.tsx:170 | viewing row i of a page opens the dialog on that berry, with the whole sorted list, which contains it |
| ProductStore.Updated | src/stores/useProductStore.ts:38-41 | length and order are kept; each product with the id becomes the new record under that id, every other product is unchanged |
| ProductStore.Removed | src/stores/useProductStore.ts:42-45 | the result is no longer than the list and holds no product with the id |
| ProductStore.FindById | src/stores/useProductStore.ts:46 | none iff no product has the id; otherwise the first product with the id |
| ProductStore.AddKeepsIdsUnique | src/stores/useProductStore.ts:34-37 | prepending under an id no product has keeps ids unique |
| ProductStore.AddThenFind | src/stores/useProductStore.ts:34-37 | a lookup of the new id finds the product just added |
| ProductStore.AddThenDelete | src/stores/useProductStore.ts:34-45 | deleting a freshly added id restores the old list |
| ProductStore.UpdateAbsentIsNoop | src/stores/useProductStore.ts:40 | updating an id no product has changes nothing |
| ProductStore.UpdateKeepsIds | src/stores/useProductStore.ts:38-41 | an update keeps every id in its place, so unique ids stay unique |
| ProductStore.UpdateThenFind | src/stores/useProductStore.ts:38-46 | after updating a present id, a lookup finds the new record under that id |
| ProductStore.DeleteKeepsOthers | src/stores/useProductStore.ts:42-45 | deleting keeps exactly the products whose id differs, each as often as before |
| ProductStore.DeleteAbsentIsNoop | src/stores/useProductStore.ts:42-45 | deleting an absent id changes nothing |
| ProductStore.DeleteIsIdempotent | src/stores/useProductStore.ts:42-46 | after a delete no product has the id, a second delete changes nothing, and a lookup finds none |
| ProductStore.DeleteKeepsOrder | src/stores/useProductStore.ts:42-45 | deleting keeps the order of what it keeps: it distributes over concatenation |
| ProductStore.Store.constructor | src/stores/useProductStore.ts:21-23 | the store starts with no products, not loading and no error |
| ProductStore.Store.SetProducts | src/stores/useProductStore.ts:33 | the list is replaced wholesale; loading and error are untouched |
| ProductStore.Store.AddProduct | src/stores/useProductStore.ts:34-37 | the new list is the product under the id `now`, followed by the unchanged old list |
| ProductStore.Store.UpdateProduct | src/stores/useProductStore.ts:38-41 | the new list is the old list with the id's products replaced; loading and error are untouched |
| ProductStore.Store.DeleteProduct | src/stores/useProductStore.ts:42-45 | the new list is the old list without the id's products; loading and error are untouched |
| ProductStore.Store.GetProductById | src/stores/useProductStore.ts:46 | none iff no product has the id; otherwise the first product of the list with that id |
| TableStore.Store.constructor | src/stores/useTableStore.ts:14-20 | the initial state: page 1, page size 10, empty search, by name, ascending |
| TableStore.Store.SetPage | src/stores/useTableStore.ts:26 | only the page changes |
| TableStore.Store.SetPageSize | src/stores/useTableStore.ts:27 | the page size is set and the page goes back to 1; search and sort are unchanged |
| TableStore.Store.SetSearch | src/stores/useTableStore.ts:28 | the search is set and the page goes back to 1; page size and sort are unchanged |
| TableStore.Store.SetSortBy | src/stores/useTableStore.ts:29 | only the sort field changes; the page is not reset |
| TableStore.Store.SetSortOrder | src/stores/useTableStore.ts:30 | only the sort direction changes; the page is not reset |
| TableStore.Store.ResetFilters | src/stores/useTableStore.ts:31 | the state becomes the initial state, whatever it was, so a second reset changes nothing |
| TableStore.SearchThenReset | src/stores/useTableStore.ts:26-31 | setters followed by a reset (twice) leave the initial state |
| BerryStore.Store.constructor | src/stores/useBerryStore.ts:14-18 | the initial state: page 1, page size 10, empty search |
| BerryStore.Store.SetPage | src/stores/useBerryStore.ts:24 | only the page changes |
| BerryStore.Store.SetPageSize | src/stores/useBerryStore.ts:25 | the page size is set and the page goes back to 1; the search is unchanged |
| BerryStore.Store.SetSearch | src/stores/useBerryStore.ts:26 | the search is set and the page goes back to 1; the page size is unchanged |
| BerryStore.Store.ResetFilters | src/stores/useBerryStore.ts:27 | the state becomes the initial state, whatever it was, so a second reset changes nothing |
| BerryStore.SettersThenReset | src/stores/useBerryStore.ts:24-27 | after any setters, a reset (and a second one) leaves the initial state |

## Left out

- The async `fetchProducts` (src/stores/useProductStore.ts:24-32), the fetch wrappers in src/services/api.ts and the berry loading effect (src/components/table/BerryTable.tsx:32-47) are left out. They are network I/O; their loading flag enters the model as the `loading` parameter of `ListView.TableBody` and as the `loading` field of `ProductStore.Store`, which the constructor clears and every modelled setter keeps.
- The `persist` middleware of the three stores is browser storage I/O. A persisted page is modelled only as "any page the store may hold".
- `Date.now()` in `addProduct` is a clock read. It is the `now` parameter of `ProductStore.Store.AddProduct`. Two products added in the same millisecond would share an id; the model only shows that an id not yet present keeps ids unique.
- `toLowerCase` and `localeCompare` follow Unicode and locale rules. They are parameters, and the sort lemmas assume only that `localeCompare` is a total preorder.
- Strings are sequences of Dafny `char`, which are Unicode scalar values, while JavaScript strings are sequences of UTF-16 code units. `includes` on strings with lone surrogates, or matches that split a surrogate pair, are not represented.
- JavaScript numbers are modelled as unbounded integers for page and page size, and as reals for price and rating. A page size of 0 or `NaN` makes `Math.ceil(n / pageSize)` infinite or `NaN`, a negative one makes it 0 or negative, and a fractional one makes the slice bounds, label and row numbers fractional; none of this is modelled.
- ListView.TotalPages: requires pageSize > 0, so it does not model the division by zero.
- The product record type file is not part of this model. Its fields follow the product form.
- `sortBy` is stored but never read by the table, which always sorts by title.
- The product form (src/components/form/ProductForm.tsx) is a declarative schema with floats and is not modelled. The berry detail dialog's fetch and rendering are not modelled either; only the props it receives are.
- JSX, translations, the skeleton and `mounted` rendering, layout, routing and cookies are left out. The table body is modelled only as skeleton, "no data" or numbered rows.
- The toast after a delete is a UI notification and is left out.
