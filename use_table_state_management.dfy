/** The table hook that ties pagination, sorting and filters together: the
    parameters of the last fetch, the fetch gate on the selected venue, the
    table reset, and the effect on a venue change. Calls to the caller's
    `fetchFunction` and `resetTableResourceState`, and the table's own calls
    into the pagination hook, are recorded, in order, in `calls`. */
module UseTableStateManagement {
  import opened JsValues
  import opened Coverage
  import opened UsePagination
  import opened UseTableSorting
  import opened UseFilters

  /** `{ ...stored, ...partial }`: every property of `partial` wins, every
      other property of `stored` stays as it was, and nothing else is
      there. */
  function MergeParams(stored: Params, partial: Params): (r: Params)
    ensures r.Keys == stored.Keys + partial.Keys
    ensures forall k :: k in partial ==> r[k] == partial[k]
    ensures forall k :: k in stored && k !in partial ==> r[k] == stored[k]
  {
    stored + partial
  }

  /** Merging the same properties twice is merging them once. */
  lemma MergeIdempotent(stored: Params, partial: Params)
    ensures MergeParams(MergeParams(stored, partial), partial) == MergeParams(stored, partial)
  {
  }

  /** A later merge hides every property of an earlier one that it sets
      again: merging `p` then `q`, where `q` sets all that `p` sets, is
      merging `q` alone. */
  lemma MergeOverridden(stored: Params, p: Params, q: Params)
    requires p.Keys <= q.Keys
    ensures MergeParams(MergeParams(stored, p), q) == MergeParams(stored, q)
  {
    var a := MergeParams(MergeParams(stored, p), q);
    var b := MergeParams(stored, q);
    assert a.Keys == b.Keys;
    forall k | k in a.Keys
      ensures a[k] == b[k]
    {
    }
  }

  class TableState {
    var selectedVenueId: Value   // the `selectedVenueId` argument
    var paramsForFetch: Params   // `paramsForFetch` state
    var didMount: bool           // `didMountTableRef.current`
    var calls: seq<Call>         // `fetchFunction`, `resetTableResourceState` and pagination calls
    const pagination: Pagination?    // `usePagination(...)`, or null without `hasPagination`
    const sorting: TableSorting?     // `useTableSorting(...)`, or null without `hasTableSorting`
    const filters: Filters?          // `useFilters(...)`, or null without `hasFilters`

    /** First render: fetch parameters `{ page: 1, limit: 25, venueId }`,
        not yet mounted, and each feature's hook only when its flag is set. */
    constructor (total: int, selectedVenueId: Value,
                 hasPagination: bool, hasTableSorting: bool, hasFilters: bool)
      requires hasPagination ==> total >= 0
      ensures this.selectedVenueId == selectedVenueId
      ensures paramsForFetch == map["page" := Num(InitialPage), "limit" := Num(InitialLimit),
                                    "venueId" := selectedVenueId]
      ensures !didMount && calls == []
      ensures hasPagination <==> pagination != null
      ensures hasTableSorting <==> sorting != null
      ensures hasFilters <==> filters != null
      ensures pagination != null ==> fresh(pagination) && pagination.Valid()
                                     && pagination.page == InitialPage && pagination.total == total
      ensures sorting != null ==> fresh(sorting) && sorting.Valid() && sorting.sort == []
      ensures filters != null ==> fresh(filters) && filters.Valid() && filters.searchTerm == ""
    {
      this.selectedVenueId := selectedVenueId;
      paramsForFetch := map["page" := Num(InitialPage), "limit" := Num(InitialLimit),
                            "venueId" := selectedVenueId];
      didMount := false;
      calls := [];
      var p: Pagination? := null;
      if hasPagination {
        p := new Pagination(total);
      }
      var s: TableSorting? := null;
      if hasTableSorting {
        s := new TableSorting();
      }
      var f: Filters? := null;
      if hasFilters {
        f := new Filters();
      }
      pagination := p;
      sorting := s;
      filters := f;
    }

    /** A new `selectedVenueId` argument. */
    method SetSelectedVenueId(v: Value)
      modifies this`selectedVenueId
      ensures selectedVenueId == v
    {
      selectedVenueId := v;
    }

    /** `callFetchFunction`: store the merged parameters, and hand them to
        `fetchFunction` exactly when a venue is selected. */
    method CallFetchFunction(params: Params)
      modifies this`paramsForFetch, this`calls
      ensures paramsForFetch == MergeParams(old(paramsForFetch), params)
      ensures Truthy(selectedVenueId) ==> calls == old(calls) + [FetchFunction(paramsForFetch)]
      ensures !Truthy(selectedVenueId) ==> calls == old(calls)
    {
      var newFetchParams := MergeParams(paramsForFetch, params);
      paramsForFetch := newFetchParams;
      if Truthy(selectedVenueId) {
        calls := calls + [FetchFunction(newFetchParams)];
      }
    }

    /** `resetTable`: reset the caller's store, then the coverage array. */
    method ResetTable()
      requires pagination != null && pagination.Valid()
      modifies this`calls, pagination`hasFetched
      ensures calls == old(calls) + [ResetResourceState, ResetHasFetchedPage]
      ensures pagination.Valid()
      ensures pagination.hasFetched == ResetCoverage(pagination.total, pagination.limit)
    {
      calls := calls + [ResetResourceState];
      calls := calls + [ResetHasFetchedPage];
      pagination.ResetHasFetchedPage();
    }

    /** The effect on `selectedVenueId`. Its first run only records that the
        table has mounted. Every later run resets the caller's store, goes
        back to page 1 and stores the new venue id in the fetch parameters,
        all other parameters kept; it does not fetch. */
    method VenueEffect()
      requires didMount ==> pagination != null
      modifies this`didMount, this`calls, this`paramsForFetch, pagination
      ensures didMount
      ensures pagination != null ==>
                && pagination.total == old(pagination.total) && pagination.limit == old(pagination.limit)
                && pagination.prevLimit == old(pagination.prevLimit)
                && pagination.hasFetched == old(pagination.hasFetched)
                && pagination.calls == old(pagination.calls)
      ensures !old(didMount) ==>
                && calls == old(calls) && paramsForFetch == old(paramsForFetch)
                && (pagination != null ==> pagination.page == old(pagination.page))
      ensures old(didMount) ==>
                && calls == old(calls) + [ResetResourceState, SetPage(1)]
                && pagination.page == 1
                && paramsForFetch == old(paramsForFetch)["venueId" := selectedVenueId]
    {
      if didMount {
        calls := calls + [ResetResourceState];
        calls := calls + [SetPage(1)];
        pagination.SetPage(1);
        paramsForFetch := MergeParams(paramsForFetch, map["venueId" := selectedVenueId]);
        assert paramsForFetch == old(paramsForFetch)["venueId" := selectedVenueId];
      } else {
        didMount := true;
      }
    }

    /** The hook's result: page, setPage, limit, setLimit, onClickNext,
        onClickPrevious, sort, setSort, searchTerm, setSearchTerm,
        resetTableFilters. Every output of a feature that is off is
        `undefined`, and none of a feature that is on. */
    function Returned(): (r: seq<Value>)
      reads this, pagination, sorting, filters
      ensures |r| == 11
      ensures pagination == null ==> forall k :: 0 <= k < 6 ==> r[k] == Undefined
      ensures pagination != null ==> forall k :: 0 <= k < 6 ==> r[k] != Undefined
      ensures sorting == null ==> forall k :: 6 <= k < 8 ==> r[k] == Undefined
      ensures sorting != null ==> forall k :: 6 <= k < 8 ==> r[k] != Undefined
      ensures filters == null ==> forall k :: 8 <= k < 11 ==> r[k] == Undefined
      ensures filters != null ==> forall k :: 8 <= k < 11 ==> r[k] != Undefined
      ensures pagination != null ==> r[0] == Num(pagination.page) && r[2] == Num(pagination.limit)
      ensures sorting != null ==> r[6] == Arr(sorting.sort)
      ensures filters != null ==> r[8] == Str(filters.searchTerm)
    {
      var p :=
        if pagination == null then seq(6, _ => Undefined)
        else [Num(pagination.page), Fn("setPage"), Num(pagination.limit), Fn("setLimit"),
              Fn("onClickNext"), Fn("onClickPrevious")];
      var s :=
        if sorting == null then [Undefined, Undefined]
        else [Arr(sorting.sort), Fn("setSort")];
      var f :=
        if filters == null then [Undefined, Undefined, Undefined]
        else [Str(filters.searchTerm), Fn("setSearchTerm"), Fn("resetTableFilters")];
      p + s + f
    }
  }
}
