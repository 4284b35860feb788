/**
 * The derivations of the berry table: the filtered and sorted list the table
 * memoises, its pages, row numbers and label, and the list handed to the
 * detail dialog. The search filter looks at the name; the sort is always
 * ascending by name, since the berry view state has no sort direction.
 */
module BerryTable {
  import opened Common
  import opened ListView

  /** A berry of the reference catalog; its detail is fetched by name. */
  datatype Berry = Berry(id: Option<int>, name: Str, url: Str)

  /** The display name the table filters and sorts on. */
  function Name(b: Berry): Str {
    b.name
  }

  /** The comparator handed to `result.sort`: localeCompare of the names. */
  function NameOrder(compare: (Str, Str) -> int): (Berry, Berry) -> int {
    (a: Berry, b: Berry) => compare(a.name, b.name)
  }

  /** `filteredAndSortedBerries`, as a value. */
  function FilteredAndSorted(berries: seq<Berry>, search: Str, ops: StringOps): (r: seq<Berry>)
    ensures |r| <= |berries|
  {
    StableSort(SearchFilter(berries, Name, ops.lower, search), NameOrder(ops.compare))
  }

  /** The memo: copy the berries, filter the copy when there is a search,
      then sort it in place. */
  method FilteredAndSortedBerries(berries: seq<Berry>, search: Str, ops: StringOps) returns (result: seq<Berry>)
    ensures result == FilteredAndSorted(berries, search, ops)
  {
    result := berries;
    if search != [] {
      result := KeepMatching(result, Name, ops.lower, ops.lower(search));
    }
    var a := new Berry[|result|](i requires 0 <= i < |result| => result[i]);
    assert a[..] == result;
    SortInPlace(a, NameOrder(ops.compare));
    result := a[..];
  }

  // ---------------------------------------------------------------------------
  // Filter and sort

  lemma {:induction false} NameOrderIsPreorder(compare: (Str, Str) -> int)
    requires TotalPreorder(compare)
    ensures TotalPreorder(NameOrder(compare))
  {
    var cmp := NameOrder(compare);
    forall a, b ensures cmp(a, b) <= 0 || cmp(b, a) <= 0 {
      assert compare(a.name, b.name) <= 0 || compare(b.name, a.name) <= 0;
    }
    forall a, b, c | cmp(a, b) <= 0 && cmp(b, c) <= 0 ensures cmp(a, c) <= 0 {
      assert compare(a.name, b.name) <= 0 && compare(b.name, c.name) <= 0;
    }
  }

  /** With an empty search every berry is kept; otherwise a berry is kept iff
      its lower-cased name contains the lower-cased search, and each kept
      berry appears as often as in the fetched list. */
  lemma {:induction false} FilteredAndSortedContents(berries: seq<Berry>, search: Str, ops: StringOps)
    ensures forall b :: multiset(FilteredAndSorted(berries, search, ops))[b] ==
              if search == [] || Includes(ops.lower(b.name), ops.lower(search)) then multiset(berries)[b] else 0
  {
    StableSortPermutes(SearchFilter(berries, Name, ops.lower, search), NameOrder(ops.compare));
  }

  /** The list is in ascending order of name, and berries whose names compare
      equal keep the order the filter left them in. */
  lemma {:induction false} FilteredAndSortedIsAscending(berries: seq<Berry>, search: Str, ops: StringOps, x: Berry)
    requires TotalPreorder(ops.compare)
    ensures var r := FilteredAndSorted(berries, search, ops);
      forall i, j :: 0 <= i < j < |r| ==> ops.compare(r[i].name, r[j].name) <= 0
    ensures Ties(FilteredAndSorted(berries, search, ops), x, NameOrder(ops.compare)) ==
            Ties(SearchFilter(berries, Name, ops.lower, search), x, NameOrder(ops.compare))
  {
    var kept := SearchFilter(berries, Name, ops.lower, search);
    var cmp := NameOrder(ops.compare);
    NameOrderIsPreorder(ops.compare);
    StableSortSorted(kept, cmp);
    StableSortStable(kept, x, cmp);
    var r := FilteredAndSorted(berries, search, ops);
    forall i, j | 0 <= i < j < |r| ensures ops.compare(r[i].name, r[j].name) <= 0 {
      assert cmp(r[i], r[j]) <= 0;
    }
  }

  // ---------------------------------------------------------------------------
  // Pages

  /** A page holds at most pageSize berries, and a page past the last one is
      empty; there are no pages exactly when nothing matched. */
  lemma {:induction false} PagesOfBerries(sorted: seq<Berry>, page: int, pageSize: int)
    requires 0 < pageSize && 1 <= page
    ensures |Paginate(sorted, page, pageSize)| <= pageSize
    ensures page > TotalPages(|sorted|, pageSize) ==> Paginate(sorted, page, pageSize) == []
    ensures TotalPages(|sorted|, pageSize) == 0 <==> sorted == []
  {
    if page > TotalPages(|sorted|, pageSize) {
      PastLastPageIsEmpty(sorted, page, pageSize);
    }
  }

  /** The rows of a page are numbered consecutively, and each number is the
      berry's 1-based position in the sorted list. */
  lemma {:induction false} BerryRowNumbers(sorted: seq<Berry>, page: int, pageSize: int)
    requires 0 < pageSize && 1 <= page
    ensures var rows := Paginate(sorted, page, pageSize);
      forall i :: 0 <= i < |rows| ==>
        && (i + 1 < |rows| ==> RowNumber(page, pageSize, i + 1) == RowNumber(page, pageSize, i) + 1)
        && rows[i] == sorted[RowNumber(page, pageSize, i) - 1]
  {
    RowNumbers(sorted, page, pageSize);
  }

  /** The label's end never exceeds the number of matching berries, and on a
      page between 1 and the page count it is the number of the last row. */
  lemma {:induction false} BerryLabel(sorted: seq<Berry>, page: int, pageSize: int)
    requires 0 < pageSize
    ensures RangeEnd(page, pageSize, |sorted|) <= |sorted|
    ensures 1 <= page <= TotalPages(|sorted|, pageSize) ==>
              var rows := Paginate(sorted, page, pageSize);
              rows != [] && RangeEnd(page, pageSize, |sorted|) == RowNumber(page, pageSize, |rows| - 1)
  {
    if 1 <= page <= TotalPages(|sorted|, pageSize) {
      LabelMatchesPage(sorted, page, pageSize);
    }
  }

  /** The "no data" row looks at the fetched list, not at the filtered one. */
  lemma NoMatchShowsEmptyBody(berries: seq<Berry>, search: Str, ops: StringOps, page: int, pageSize: int)
    requires berries != []
    requires FilteredAndSorted(berries, search, ops) == []
    ensures TableBody(false, berries, Paginate(FilteredAndSorted(berries, search, ops), page, pageSize), page, pageSize) == Rows([])
  {
  }

  // ---------------------------------------------------------------------------
  // Detail dialog

  /** The table's dialog state: the selected berry (none at first) and
      whether the dialog is open. */
  datatype Selection = Selection(selected: Option<Berry>, open: bool)

  /** `handleViewBerry`: select the berry and open the dialog. */
  function ViewBerry(s: Selection, b: Berry): (r: Selection)
    ensures r.selected == Some(b) && r.open
  {
    Selection(Some(b), true)
  }

  /** What the detail dialog is given: whether it is open, the list it can
      page through, and the berry it starts on. */
  datatype DialogProps = DialogProps(open: bool, berries: seq<Berry>, defaultBerry: Berry)

  /** The dialog is rendered once a berry has been selected, and it receives
      the whole filtered and sorted list, not just the current page. */
  function DetailDialog(selected: Option<Berry>, open: bool, sorted: seq<Berry>): (d: Option<DialogProps>)
    ensures d.Some? <==> selected.Some?
    ensures d.Some? ==> d.value.open == open && d.value.defaultBerry == selected.value
    ensures d.Some? ==> d.value.berries == sorted
  {
    match selected
    case None => None
    case Some(b) => Some(DialogProps(open, sorted, b))
  }

  /** Every berry of every page is in the list the dialog receives. */
  lemma {:induction false} DialogSeesEveryPage(selected: Berry, open: bool, sorted: seq<Berry>, page: int, pageSize: int)
    requires 0 < pageSize && 1 <= page
    ensures forall b :: b in Paginate(sorted, page, pageSize) ==> b in DetailDialog(Some(selected), open, sorted).value.berries
  {
    var rows := Paginate(sorted, page, pageSize);
    forall b | b in rows ensures b in sorted {
      var i :| 0 <= i < |rows| && rows[i] == b;
      assert sorted[PageStart(page, pageSize) + i] == b;
    }
  }

  /** Viewing a berry of the page opens the dialog on that berry, with the
      whole filtered and sorted list to page through. */
  lemma {:induction false} ViewOpensDialog(s: Selection, sorted: seq<Berry>, page: int, pageSize: int, i: int)
    requires 0 < pageSize && 1 <= page
    requires 0 <= i < |Paginate(sorted, page, pageSize)|
    ensures var b := Paginate(sorted, page, pageSize)[i];
      var v := ViewBerry(s, b);
      DetailDialog(v.selected, v.open, sorted) == Some(DialogProps(true, sorted, b))
    ensures Paginate(sorted, page, pageSize)[i] in sorted
  {
    var b := Paginate(sorted, page, pageSize)[i];
    assert sorted[PageStart(page, pageSize) + i] == b;
  }
}
