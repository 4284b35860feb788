/**
 * The derivations of the product table: the filtered and sorted list the
 * table memoises, and what the list-view pipeline makes of it. The search
 * filter looks at the title; the sort is by title, ascending or descending
 * according to the view state's sort direction.
 */
module ProductTable {
  import opened Common
  import opened ListView
  import ProductStore
  import TableStore

  type Product = ProductStore.Product

  /** The display name the table filters and sorts on. */
  function Title(p: Product): Str {
    p.title
  }

  /** The comparator handed to `result.sort`: localeCompare of the titles,
      with the arguments swapped unless the direction is ascending. */
  function TitleOrder(order: TableStore.SortOrder, compare: (Str, Str) -> int): (Product, Product) -> int {
    (a: Product, b: Product) =>
      if order == TableStore.Asc then compare(a.title, b.title) else compare(b.title, a.title)
  }

  /** `filteredAndSortedProducts`, as a value. */
  function FilteredAndSorted(products: seq<Product>, search: Str, order: TableStore.SortOrder, ops: StringOps): (r: seq<Product>)
    ensures |r| <= |products|
  {
    StableSort(SearchFilter(products, Title, ops.lower, search), TitleOrder(order, ops.compare))
  }

  /** The memo: copy the products, filter the copy when there is a search,
      then sort it in place. */
  method FilteredAndSortedProducts(products: seq<Product>, search: Str, order: TableStore.SortOrder, ops: StringOps)
    returns (result: seq<Product>)
    ensures result == FilteredAndSorted(products, search, order, ops)
  {
    result := products;
    if search != [] {
      result := KeepMatching(result, Title, ops.lower, ops.lower(search));
    }
    var a := new Product[|result|](i requires 0 <= i < |result| => result[i]);
    assert a[..] == result;
    SortInPlace(a, TitleOrder(order, ops.compare));
    result := a[..];
  }

  // ---------------------------------------------------------------------------
  // Filter and sort

  /** The comparator orders products as localeCompare orders their titles. */
  lemma {:induction false} TitleOrderIsPreorder(order: TableStore.SortOrder, compare: (Str, Str) -> int)
    requires TotalPreorder(compare)
    ensures TotalPreorder(TitleOrder(order, compare))
  {
    var cmp := TitleOrder(order, compare);
    forall a, b ensures cmp(a, b) <= 0 || cmp(b, a) <= 0 {
      assert compare(a.title, b.title) <= 0 || compare(b.title, a.title) <= 0;
    }
    forall a, b, c | cmp(a, b) <= 0 && cmp(b, c) <= 0 ensures cmp(a, c) <= 0 {
      if order == TableStore.Asc {
        assert compare(a.title, b.title) <= 0 && compare(b.title, c.title) <= 0;
      } else {
        assert compare(c.title, b.title) <= 0 && compare(b.title, a.title) <= 0;
      }
    }
  }

  /** With an empty search every product is kept; otherwise a product is kept
      iff its lower-cased title contains the lower-cased search. Each kept
      product appears as often as in the store's list: the sort adds, drops
      and duplicates nothing. */
  lemma {:induction false} FilteredAndSortedContents(products: seq<Product>, search: Str, order: TableStore.SortOrder, ops: StringOps)
    ensures forall p :: multiset(FilteredAndSorted(products, search, order, ops))[p] ==
              if search == [] || Includes(ops.lower(p.title), ops.lower(search)) then multiset(products)[p] else 0
  {
    var kept := SearchFilter(products, Title, ops.lower, search);
    StableSortPermutes(kept, TitleOrder(order, ops.compare));
  }

  /** With an empty search the filter step passes the list through unchanged. */
  lemma EmptySearchKeepsAll(products: seq<Product>, order: TableStore.SortOrder, ops: StringOps)
    ensures SearchFilter(products, Title, ops.lower, []) == products
    ensures FilteredAndSorted(products, [], order, ops) == StableSort(products, TitleOrder(order, ops.compare))
  {
  }

  /** Ascending: every title may stand before every later one. Descending:
      every title may stand after every later one. */
  lemma {:induction false} FilteredAndSortedIsOrdered(products: seq<Product>, search: Str, order: TableStore.SortOrder, ops: StringOps)
    requires TotalPreorder(ops.compare)
    ensures var r := FilteredAndSorted(products, search, order, ops);
      forall i, j :: 0 <= i < j < |r| ==>
        if order == TableStore.Asc then ops.compare(r[i].title, r[j].title) <= 0
        else ops.compare(r[j].title, r[i].title) <= 0
  {
    var cmp := TitleOrder(order, ops.compare);
    TitleOrderIsPreorder(order, ops.compare);
    var r := FilteredAndSorted(products, search, order, ops);
    StableSortSorted(SearchFilter(products, Title, ops.lower, search), cmp);
    forall i, j | 0 <= i < j < |r|
      ensures if order == TableStore.Asc then ops.compare(r[i].title, r[j].title) <= 0
              else ops.compare(r[j].title, r[i].title) <= 0
    {
      assert cmp(r[i], r[j]) <= 0;
    }
  }

  /** Products whose titles compare equal keep the order the filter left them in. */
  lemma FilteredAndSortedIsStable(products: seq<Product>, search: Str, order: TableStore.SortOrder, ops: StringOps, p: Product)
    requires TotalPreorder(ops.compare)
    ensures var cmp := TitleOrder(order, ops.compare);
      Ties(FilteredAndSorted(products, search, order, ops), p, cmp) == Ties(SearchFilter(products, Title, ops.lower, search), p, cmp)
  {
    TitleOrderIsPreorder(order, ops.compare);
    StableSortStable(SearchFilter(products, Title, ops.lower, search), p, TitleOrder(order, ops.compare));
  }

  /** No two distinct products of the list have titles that compare equal. */
  ghost predicate DistinctTitles(products: seq<Product>, compare: (Str, Str) -> int) {
    forall p, q :: p in products && q in products && Tie(compare, p.title, q.title) ==> p == q
  }

  /** When no two products that pass the search have titles that compare
      equal, descending is ascending reversed. With ties it need not be: both
      directions keep tied products in their filtered order. */
  lemma DescendingReversesAscending(products: seq<Product>, search: Str, ops: StringOps)
    requires TotalPreorder(ops.compare)
    requires DistinctTitles(SearchFilter(products, Title, ops.lower, search), ops.compare)
    ensures FilteredAndSorted(products, search, TableStore.Desc, ops) ==
            Reverse(FilteredAndSorted(products, search, TableStore.Asc, ops))
  {
    var kept := SearchFilter(products, Title, ops.lower, search);
    var asc, desc := TitleOrder(TableStore.Asc, ops.compare), TitleOrder(TableStore.Desc, ops.compare);
    TitleOrderIsPreorder(TableStore.Asc, ops.compare);
    forall x, y | x in kept && y in kept && Tie(asc, x, y) ensures x == y {
      assert Tie(ops.compare, x.title, y.title);
    }
    StableSortFlipped(kept, asc, desc);
  }

  /** Sorting the table's list again, in the same direction, changes nothing. */
  lemma SortIsIdempotent(products: seq<Product>, search: Str, order: TableStore.SortOrder, ops: StringOps)
    requires TotalPreorder(ops.compare)
    ensures var r := FilteredAndSorted(products, search, order, ops);
      StableSort(r, TitleOrder(order, ops.compare)) == r
  {
    TitleOrderIsPreorder(order, ops.compare);
    StableSortIdempotent(SearchFilter(products, Title, ops.lower, search), TitleOrder(order, ops.compare));
  }

  /** The delete button: after `deleteProduct(id)` no product with that id is
      listed, and every other product is listed as often as before. */
  lemma {:induction false} DeleteHidesProduct(products: seq<Product>, id: int, search: Str, order: TableStore.SortOrder, ops: StringOps)
    ensures var after := FilteredAndSorted(ProductStore.Removed(products, id), search, order, ops);
      forall p :: p in after ==> p.id != id
    ensures var after := FilteredAndSorted(ProductStore.Removed(products, id), search, order, ops);
      var before := FilteredAndSorted(products, search, order, ops);
      forall p: Product :: p.id != id ==> multiset(after)[p] == multiset(before)[p]
  {
    var after := FilteredAndSorted(ProductStore.Removed(products, id), search, order, ops);
    FilteredAndSortedContents(ProductStore.Removed(products, id), search, order, ops);
    FilteredAndSortedContents(products, search, order, ops);
    ProductStore.DeleteKeepsOthers(products, id);
    forall p | p in after ensures p.id != id {
      assert multiset(after)[p] > 0;
    }
  }

  // ---------------------------------------------------------------------------
  // Body

  /** The "no data" row looks at the store's list, not at the filtered one:
      when products exist but none matches the search, the body has no rows
      and no "no data" row either. */
  lemma NoMatchShowsEmptyBody(products: seq<Product>, search: Str, order: TableStore.SortOrder, ops: StringOps, page: int, pageSize: int)
    requires products != []
    requires FilteredAndSorted(products, search, order, ops) == []
    ensures TableBody(false, products, Paginate(FilteredAndSorted(products, search, order, ops), page, pageSize), page, pageSize) == Rows([])
  {
  }
}
