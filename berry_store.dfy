/**
 * The berry table's view state: page, page size and search text. Each setter
 * overwrites its own field; changing the search or the page size also moves
 * back to page 1.
 */
module BerryStore {
  import opened Common

  datatype BerryState = BerryState(page: int, pageSize: int, search: Str)

  /** `initialState`: page 1 of 10 rows, no search. */
  const Initial: BerryState := BerryState(1, 10, "")

  class Store {
    var page: int
    var pageSize: int
    var search: Str

    /** The three fields as one value. */
    function State(): BerryState
      reads this
    {
      BerryState(page, pageSize, search)
    }

    constructor ()
      ensures State() == Initial
      ensures page == 1 && pageSize == 10 && search == []
    {
      page, pageSize, search := 1, 10, "";
    }

    /** `setPage`: any number is accepted; nothing else changes. */
    method SetPage(p: int)
      modifies this
      ensures State() == old(State()).(page := p)
    {
      page := p;
    }

    /** `setPageSize`: the new size, and back to page 1. */
    method SetPageSize(size: int)
      modifies this
      ensures State() == old(State()).(pageSize := size, page := 1)
    {
      pageSize := size;
      page := 1;
    }

    /** `setSearch`: the new search text, and back to page 1. */
    method SetSearch(q: Str)
      modifies this
      ensures State() == old(State()).(search := q, page := 1)
    {
      search := q;
      page := 1;
    }

    /** `resetFilters`: all three fields back to `initialState`. */
    method ResetFilters()
      modifies this
      ensures State() == Initial
    {
      page, pageSize, search := 1, 10, "";
    }
  }

  /** A caller's view of the contracts: a page change followed by a new search
      lands on page 1 with the old page size, and a reset after any setters
      is back at the initial state, as is a second reset. */
  method SettersThenReset(s: Store, p: int, size: int, q: Str)
    modifies s
    ensures s.State() == Initial
  {
    s.SetPageSize(size);
    s.SetPage(p);
    assert s.page == p && s.pageSize == size;
    s.SetSearch(q);
    assert s.page == 1 && s.pageSize == size && s.search == q;
    s.ResetFilters();
    s.ResetFilters();
  }
}
