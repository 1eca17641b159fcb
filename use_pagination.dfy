/** The pagination hook: the current page and page size, the page-coverage
    array, and the three effects that keep them in step. Each effect body is
    a method that the caller runs when React would (the total effect after
    `total` changes, the page effect after `page` changes, the limit effect
    after `limit` changes). Calls to `callFetchFunction` are recorded, in
    order, in `calls`. */
module UsePagination {
  import opened JsValues
  import opened Coverage

  const InitialPage := 1
  const InitialLimit := 25

  /** The state of the inner `while` for old page `i` before each pass:
      on the first pass nothing is written yet; once no credit is left the
      array is `FillPage`; in between (a ratio above 1) the first page is
      topped up, the position reached stands `off` into page `next`, the
      pages from `next` on are empty and `FillRun` finishes the job. */
  ghost predicate InnerLoop(t: seq<real>, i: nat, ratio: real, pageEnd: real,
                            first: bool, next: int, rem: real, temp: seq<real>)
    requires ratio > 0.0 && InUnit(t)
  {
    var c0 := StartPage(i, ratio);
    var off := Times(i, ratio) - c0 as real - Get(t, c0);
    && rem >= 0.0 && next >= 0 && pageEnd == Times(i + 1, ratio)
    && (first ==> rem == ratio && temp == t && next == c0)
    && (rem == 0.0 ==> temp == FillPage(t, i, ratio))
    && (!first && rem > 0.0 ==>
          && 0.0 <= off < 1.0
          && pageEnd - rem == next as real + off
          && FillRun(temp, next, rem) == FillPage(t, i, ratio)
          && forall j :: j >= next ==> Get(temp, j) == 0.0)
  }

  /** The value the loop body writes at `loc`, and the credit it leaves.
      This is the body of the `while` in `DistributeOldPage` as one value:
      the method keeps the source's statements and asserts after them that
      they computed this, so that the pass lemmas can speak of one pass. */
  function PassWrite(temp: seq<real>, loc: nat, rem: real): (seq<real>, real)
  {
    var percentAtLoc := Get(temp, loc);
    var percentToAddAtLoc := if percentAtLoc != 0.0 then 1.0 - percentAtLoc else 1.0;
    (if percentAtLoc != 0.0 then Put(temp, loc, percentAtLoc + percentToAddAtLoc)
     else Put(temp, loc, if rem > 1.0 then 1.0 else rem),
     if rem > 1.0 then rem - percentToAddAtLoc else 0.0)
  }

  /** One pass of the loop body: a page holding a fraction is topped up to 1,
      an empty one receives one page of credit or what is left of it, and no
      other page changes. While more than one page of credit is left, the
      credit drops by exactly what was added; otherwise it is used up. */
  lemma PassWriteSpends(temp: seq<real>, loc: nat, rem: real)
    ensures var w := PassWrite(temp, loc, rem);
            && |w.0| == Max(|temp|, loc + 1)
            && (forall c {:trigger Get(w.0, c)} :: c != loc ==> Get(w.0, c) == Get(temp, c))
            && (Get(temp, loc) != 0.0 ==> Get(w.0, loc) == 1.0)
            && (Get(temp, loc) == 0.0 ==> Get(w.0, loc) == (if rem > 1.0 then 1.0 else rem))
            && (rem > 1.0 ==> w.1 == rem - (Get(w.0, loc) - Get(temp, loc)))
            && (rem <= 1.0 ==> w.1 == 0.0)
  {
  }

  /** The first pass of the inner `while` writes page `floor(i * ratio)`:
      with a ratio of at most 1 that is all of `FillPage`; otherwise that
      page is now 1 and `FillRun` spends the rest from the next page on. */
  lemma FirstPass(t: seq<real>, i: nat, ratio: real, pageEnd: real, next: int)
    requires ratio > 0.0 && InUnit(t)
    requires ratio > 1.0 ==> FrontierAt(t, Times(i, ratio))
    requires InnerLoop(t, i, ratio, pageEnd, true, next, ratio, t)
    ensures next >= 0
    ensures var w := PassWrite(t, next, ratio);
            InnerLoop(t, i, ratio, pageEnd, false, next + 1, w.1, w.0)
  {
    var c0 := StartPage(i, ratio);
    var v0 := Get(t, c0);
    if ratio > 1.0 {
      FloorOf(c0 + 1, Times(i, ratio) - c0 as real - v0);
    }
  }

  /** A later pass writes page `next`, which is still empty: with more than
      one page of credit left it sets that page to 1 and moves on with one
      page less, otherwise it writes what is left and `FillPage` is done. */
  lemma LaterPass(t: seq<real>, i: nat, ratio: real, pageEnd: real,
                  next: int, rem: real, temp: seq<real>)
    requires ratio > 0.0 && InUnit(t)
    requires InnerLoop(t, i, ratio, pageEnd, false, next, rem, temp) && rem > 0.0
    ensures next >= 0
    ensures var w := PassWrite(temp, next, rem);
            && InnerLoop(t, i, ratio, pageEnd, false, next + 1, w.1, w.0)
            && (w.1 > 0.0 ==> w.1.Floor < rem.Floor)
  {
    var c0 := StartPage(i, ratio);
    var off := Times(i, ratio) - c0 as real - Get(t, c0);
    assert Get(temp, next) == 0.0;
    if rem > 1.0 {
      FloorOf(next + 1, off);
    }
  }

  /** The position at which a pass of the inner `while` writes lies on
      page `floor(i * ratio)` on the first pass and on page `next` after. */
  lemma InnerLoc(t: seq<real>, i: nat, ratio: real, pageEnd: real,
                 first: bool, next: int, rem: real, temp: seq<real>)
    requires ratio > 0.0 && InUnit(t)
    requires InnerLoop(t, i, ratio, pageEnd, first, next, rem, temp) && rem > 0.0
    ensures (pageEnd - rem).Floor == if first then StartPage(i, ratio) else next
  {
    var c0 := StartPage(i, ratio);
    if first {
      FloorOf(c0, Times(i, ratio) - c0 as real);
    } else {
      FloorOf(next, Times(i, ratio) - c0 as real - Get(t, c0));
    }
  }

  /** The inner `while` of the limit effect, for one old page `i` whose entry
      is exactly 1: its credit of `ratio` new pages (`changeAmountRemaining`)
      is written page by page from position `i * ratio` on. The loop ends for
      every positive ratio: with a ratio of at most 1 after one write, and
      otherwise because every page it reaches holds less than the position
      already reached on it (`FrontierAt`), so each write spends some credit
      and moves to a later page. */
  method DistributeOldPage(t: seq<real>, i: nat, ratio: real) returns (r: seq<real>)
    requires ratio > 0.0 && InUnit(t)
    requires ratio > 1.0 ==> FrontierAt(t, Times(i, ratio))
    ensures r == FillPage(t, i, ratio)
  {
    var tempHasFetchedArray := t;
    var changeAmountRemaining := ratio;
    // `(i + 1) * (prevLimitRef.current / limit)`, the same on every pass
    // (`Times` is the product, by `TimesIsProduct`)
    var pageEnd := Times(i + 1, ratio);
    ghost var first := true;
    ghost var next := StartPage(i, ratio);
    while changeAmountRemaining > 0.0
      invariant InnerLoop(t, i, ratio, pageEnd, first, next, changeAmountRemaining, tempHasFetchedArray)
      decreases if first then 1 else 0,
                if changeAmountRemaining > 0.0 then changeAmountRemaining.Floor + 1 else 0
    {
      InnerLoc(t, i, ratio, pageEnd, first, next, changeAmountRemaining, tempHasFetchedArray);
      if first {
        FirstPass(t, i, ratio, pageEnd, next);
      } else {
        LaterPass(t, i, ratio, pageEnd, next, changeAmountRemaining, tempHasFetchedArray);
      }
      ghost var w := PassWrite(tempHasFetchedArray, next, changeAmountRemaining);
      var loc := (pageEnd - changeAmountRemaining).Floor;
      var percentAtLoc := Get(tempHasFetchedArray, loc);
      var percentToAddAtLoc := if percentAtLoc != 0.0 then 1.0 - percentAtLoc else 1.0;
      if percentAtLoc != 0.0 {
        tempHasFetchedArray := Put(tempHasFetchedArray, loc, percentAtLoc + percentToAddAtLoc);
      } else {
        tempHasFetchedArray := Put(tempHasFetchedArray, loc,
                                   if changeAmountRemaining > 1.0 then 1.0 else changeAmountRemaining);
      }
      changeAmountRemaining := if changeAmountRemaining > 1.0
                               then changeAmountRemaining - percentToAddAtLoc
                               else 0.0;
      assert tempHasFetchedArray == w.0 && changeAmountRemaining == w.1;
      next := loc + 1;
      first := false;
    }
    r := tempHasFetchedArray;
  }

  class Pagination {
    var total: int             // the `total` prop: how many items there are
    var page: int              // `page` state, 1-based
    var limit: int             // `limit` state: items per page
    var prevLimit: int         // `prevLimitRef.current`: the limit before the last limit effect
    var hasFetched: seq<real>  // `hasFetchedPage` state: the coverage array
    var calls: seq<Call>       // every `callFetchFunction` call so far

    ghost predicate Valid()
      reads this
    {
      total >= 0 && limit > 0 && prevLimit > 0 && InUnit(hasFetched)
    }

    /** First render: page 1, 25 items per page, and an empty coverage array. */
    constructor (total: int)
      requires total >= 0
      ensures Valid()
      ensures this.total == total && page == InitialPage && limit == InitialLimit
      ensures prevLimit == InitialLimit && hasFetched == [] && calls == []
    {
      this.total := total;
      page := InitialPage;
      limit := InitialLimit;
      prevLimit := InitialLimit;
      hasFetched := [];
      calls := [];
    }

    /** A new `total` prop. */
    method SetTotal(total: int)
      requires Valid() && total >= 0
      modifies this`total
      ensures Valid() && this.total == total
    {
      this.total := total;
    }

    method SetPage(page: int)
      modifies this`page
      ensures this.page == page
    {
      this.page := page;
    }

    /** A new page size; the caller keeps it positive. */
    method SetLimit(limit: int)
      requires Valid() && limit > 0
      modifies this`limit
      ensures Valid() && this.limit == limit
    {
      this.limit := limit;
    }

    /** `resetHasFetchedPage`, which is also the whole body of the effect on
        `total`: a fresh array of `ceil(total / limit)` entries (at least
        one) with only the first page marked fetched. */
    method ResetHasFetchedPage()
      requires Valid()
      modifies this`hasFetched
      ensures Valid()
      ensures hasFetched == ResetCoverage(total, limit)
    {
      var tempHasFetched := Zeros(PageCount(total, limit));
      tempHasFetched := Splice(tempHasFetched, 0, 1.0);
      hasFetched := tempHasFetched;
    }

    /** The effect on `page`: fetch the page unless its entry is exactly 1,
        and then mark it with `splice(page - 1, 1, 1)`. For a page up to one
        past the end of the array the page is then marked, so running the
        effect again for it fetches nothing. */
    method PageEffect()
      requires Valid()
      modifies this`hasFetched, this`calls
      ensures Valid()
      ensures Get(old(hasFetched), page - 1) != 1.0 ==>
                && calls == old(calls) + [CallFetch(PageParams(page, limit))]
                && hasFetched == MarkFetched(old(hasFetched), page)
      ensures Get(old(hasFetched), page - 1) == 1.0 ==>
                calls == old(calls) && hasFetched == old(hasFetched)
      ensures 1 <= page <= |old(hasFetched)| + 1 ==> Get(hasFetched, page - 1) == 1.0
    {
      if !(Get(hasFetched, page - 1) == 1.0) {
        calls := calls + [CallFetch(PageParams(page, limit))];
        var tempHasFetched := hasFetched;
        tempHasFetched := Splice(tempHasFetched, page - 1, 1.0);
        hasFetched := tempHasFetched;
      }
    }

    /** The effect on `limit`: back to page 1, spread the coverage of the old
        page size over pages of the new size, fetch, and remember the limit.
        The fetch goes out with the page the effect was rendered with, not
        with 1: `setPage(1)` does not change the effect's own `page`. */
    method LimitEffect()
      requires Valid()
      modifies this`page, this`hasFetched, this`calls, this`prevLimit
      ensures Valid()
      ensures page == 1 && prevLimit == limit
      ensures hasFetched == Redistribute(old(hasFetched), old(prevLimit), limit, total)
      ensures calls == old(calls) + [CallFetch(PageParams(old(page), limit))]
    {
      var renderedPage := page;
      page := 1;
      // `prevLimitRef.current / limit`: how many new pages one old page makes
      var ratio := prevLimit as real / limit as real;
      ghost var n := PageCount(total, limit);
      var tempHasFetchedArray := Zeros(PageCount(total, limit));
      var i := 0;
      while i < |hasFetched|
        invariant 0 <= i <= |hasFetched|
        invariant page == 1 && hasFetched == old(hasFetched) && prevLimit == old(prevLimit)
        invariant calls == old(calls)
        invariant tempHasFetchedArray == Spread(hasFetched, ratio, n, i)
      {
        if hasFetched[i] == 1.0 {
          if ratio > 1.0 {
            SpreadFrontier(hasFetched, ratio, n, i);
          }
          tempHasFetchedArray := DistributeOldPage(tempHasFetchedArray, i, ratio);
        }
        i := i + 1;
      }
      hasFetched := tempHasFetchedArray;
      calls := calls + [CallFetch(PageParams(renderedPage, limit))];
      prevLimit := limit;
    }

    method OnClickNext()
      modifies this`page
      ensures page == old(page) + 1
    {
      SetPage(page + 1);
    }

    /** Goes below page 1 as readily as above the last page: nothing clamps. */
    method OnClickPrevious()
      modifies this`page
      ensures page == old(page) - 1
    {
      SetPage(page - 1);
    }
  }
}
