/**
 * The product table's view state: page, page size, search text, sort field
 * and sort direction. Each setter overwrites its own field; changing the
 * search or the page size also moves back to page 1, so that a shrunken
 * result never leaves the table on a page past its end.
 */
module TableStore {
  import opened Common

  /** The only sort field there is; the store also allows none (`null`). */
  datatype SortField = Name

  datatype SortOrder = Asc | Desc

  datatype TableState = TableState(
    page: int,
    pageSize: int,
    search: Str,
    sortBy: Option<SortField>,
    sortOrder: SortOrder)

  /** `initialState`: page 1 of 10 rows, no search, by name, ascending. */
  const Initial: TableState := TableState(1, 10, "", Some(Name), Asc)

  class Store {
    var page: int
    var pageSize: int
    var search: Str
    var sortBy: Option<SortField>
    var sortOrder: SortOrder

    /** The five fields as one value. */
    function State(): TableState
      reads this
    {
      TableState(page, pageSize, search, sortBy, sortOrder)
    }

    constructor ()
      ensures State() == Initial
      ensures page == 1 && pageSize == 10 && search == [] && sortBy == Some(Name) && sortOrder == Asc
    {
      page, pageSize, search, sortBy, sortOrder := 1, 10, "", Some(Name), Asc;
    }

    /** `setPage`: any number is accepted; nothing else changes. */
    method SetPage(p: int)
      modifies this
      ensures State() == old(State()).(page := p)
    {
      page := p;
    }

    /** `setPageSize`: the new size, and back to page 1. */
    method SetPageSize(size: int)
      modifies this
      ensures State() == old(State()).(pageSize := size, page := 1)
    {
      pageSize := size;
      page := 1;
    }

    /** `setSearch`: the new search text, and back to page 1. */
    method SetSearch(q: Str)
      modifies this
      ensures State() == old(State()).(search := q, page := 1)
    {
      search := q;
      page := 1;
    }

    /** `setSortBy`: the page stays where it is. */
    method SetSortBy(field: Option<SortField>)
      modifies this
      ensures State() == old(State()).(sortBy := field)
    {
      sortBy := field;
    }

    /** `setSortOrder`: the page stays where it is. */
    method SetSortOrder(order: SortOrder)
      modifies this
      ensures State() == old(State()).(sortOrder := order)
    {
      sortOrder := order;
    }

    /** `resetFilters`: all five fields back to `initialState`, whatever they
        were, so a second reset changes nothing. */
    method ResetFilters()
      modifies this
      ensures State() == Initial
    {
      page, pageSize, search, sortBy, sortOrder := 1, 10, "", Some(Name), Asc;
    }
  }

  /** A caller's view of the contracts: whatever page the table was on,
      a new search lands on page 1, and a reset after any setter is back
      at the initial state. */
  method SearchThenReset(s: Store, p: int, q: Str, order: SortOrder)
    modifies s
    ensures s.State() == Initial
  {
    s.SetPage(p);
    s.SetSortOrder(order);
    assert s.page == p;
    s.SetSearch(q);
    assert s.page == 1 && s.search == q && s.sortOrder == order;
    s.ResetFilters();
    s.ResetFilters();
  }
}
