/** The sort tracker: the list of sort keys, and the effect that runs
    whenever it changes. Calls to the `resetTable`, `setPage` and
    `callFetchFunction` callbacks are recorded, in order, in `calls`. */
module UseTableSorting {
  import opened JsValues

  class TableSorting {
    var sort: seq<Value>        // `sort` state
    var didMount: bool          // `didMountSortsRef.current`
    var calls: seq<Call>        // every callback call so far
    ghost var fetched: seq<Value>  // the sort of every fetch so far

    /** The log is one reset, `setPage(1)`, fetch run per change reacted to,
        and there is none before the first run of the effect. */
    ghost predicate Valid()
      reads this
    {
      && calls == ChangeRuns("sort", fetched)
      && (!didMount ==> fetched == [])
    }

    /** First render: no sort keys, not yet mounted, no calls. */
    constructor ()
      ensures Valid()
      ensures sort == [] && !didMount && calls == [] && fetched == []
    {
      sort := [];
      didMount := false;
      calls := [];
      fetched := [];
    }

    /** `setSort`: the new list replaces the old one whole. */
    method SetSort(sort: seq<Value>)
      modifies this`sort
      ensures this.sort == sort
    {
      this.sort := sort;
    }

    /** The effect on `sort`. Its first run only records that the hook has
        mounted. Every later run resets the table, goes back to page 1 and
        fetches page 1 with the current sort. */
    method SortEffect()
      requires Valid()
      modifies this`didMount, this`calls, this`fetched
      ensures Valid() && didMount
      ensures !old(didMount) ==> calls == old(calls) && fetched == old(fetched)
      ensures old(didMount) ==>
                && calls == old(calls) + [ResetTable, SetPage(1),
                                          CallFetch(map["page" := Num(1), "sort" := Arr(sort)])]
                && fetched == old(fetched) + [Arr(sort)]
    {
      if didMount {
        calls := calls + [ResetTable];
        calls := calls + [SetPage(1)];
        calls := calls + [CallFetch(map["page" := Num(1), "sort" := Arr(sort)])];
        fetched := fetched + [Arr(sort)];
        assert fetched[..|fetched| - 1] == old(fetched);
      } else {
        didMount := true;
      }
    }
  }
}
