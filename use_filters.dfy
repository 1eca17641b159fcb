/** The filter tracker: the search term, and the effect that runs whenever
    the debounced search term changes. The debounce itself is not modelled:
    the caller runs `DebouncedTermEffect` when the debounced term would
    change. Calls to the `resetTable`, `setPage` and `callFetchFunction`
    callbacks are recorded, in order, in `calls`. */
module UseFilters {
  import opened JsValues

  class Filters {
    var searchTerm: string      // `searchTerm` state
    var didMount: bool          // `didMountFiltersRef.current`
    var calls: seq<Call>        // every callback call so far
    ghost var fetched: seq<Value>  // the search term of every fetch so far

    /** The log is one reset, `setPage(1)`, fetch run per change reacted to,
        and there is none before the first run of the effect. */
    ghost predicate Valid()
      reads this
    {
      && calls == ChangeRuns("searchTerm", fetched)
      && (!didMount ==> fetched == [])
    }

    /** First render: an empty search term, not yet mounted, no calls. */
    constructor ()
      ensures Valid()
      ensures searchTerm == "" && !didMount && calls == [] && fetched == []
    {
      searchTerm := "";
      didMount := false;
      calls := [];
      fetched := [];
    }

    method SetSearchTerm(term: string)
      modifies this`searchTerm
      ensures searchTerm == term
    {
      searchTerm := term;
    }

    /** `resetTableFilters`: back to the empty search term, nothing else. */
    method ResetTableFilters()
      modifies this`searchTerm
      ensures searchTerm == ""
    {
      SetSearchTerm("");
    }

    /** The effect on the debounced search term. Its first run only records
        that the hook has mounted. Every later run resets the table, goes
        back to page 1 and fetches page 1 with the current search term, which
        may already be newer than the debounced one. */
    method DebouncedTermEffect()
      requires Valid()
      modifies this`didMount, this`calls, this`fetched
      ensures Valid() && didMount
      ensures !old(didMount) ==> calls == old(calls) && fetched == old(fetched)
      ensures old(didMount) ==>
                && calls == old(calls) + [ResetTable, SetPage(1),
                                          CallFetch(map["page" := Num(1), "searchTerm" := Str(searchTerm)])]
                && fetched == old(fetched) + [Str(searchTerm)]
    {
      if didMount {
        calls := calls + [ResetTable];
        calls := calls + [SetPage(1)];
        calls := calls + [CallFetch(map["page" := Num(1), "searchTerm" := Str(searchTerm)])];
        fetched := fetched + [Str(searchTerm)];
        assert fetched[..|fetched| - 1] == old(fetched);
      } else {
        didMount := true;
      }
    }
  }
}
