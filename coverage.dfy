/** The page-coverage array of the pagination hook (`hasFetchedPage`), as a
    value: entry j is the fraction of page j + 1 already fetched.

    A JavaScript array here may have holes and may be read past its end or at
    a negative index; every such read yields `undefined`, which the hook
    treats exactly like 0 (falsy, and `!== 1`). So the array is a `seq<real>`
    whose holes are 0.0, and `Get` reads it the way the hook does. */
module Coverage {

  function Max(a: int, b: int): int
  {
    if a < b then b else a
  }

  /** Every entry is a fraction of a page, between 0 and 1. */
  ghost predicate InUnit(s: seq<real>)
  {
    forall j :: 0 <= j < |s| ==> 0.0 <= s[j] <= 1.0
  }

  /** `s[j]`, with a hole, an index past the end or a negative index reading as 0:
      a read that is not 0 comes from an entry of the array, and a read of a
      fraction array is a fraction. */
  function Get(s: seq<real>, j: int): (r: real)
    ensures r != 0.0 ==> 0 <= j < |s| && r == s[j]
    ensures InUnit(s) ==> 0.0 <= r <= 1.0
  {
    if 0 <= j < |s| then s[j] else 0.0
  }

  /** `new Array(n)`: n holes. */
  function Zeros(n: nat): (r: seq<real>)
    ensures |r| == n
    ensures forall j :: Get(r, j) == 0.0
  {
    seq(n, _ => 0.0)
  }

  /** `s[j] = v`: an index at or past the end grows the array to j + 1,
      leaving holes between the old end and j. */
  function Put(s: seq<real>, j: nat, v: real): (r: seq<real>)
    ensures |r| == Max(|s|, j + 1)
    ensures forall c {:trigger Get(r, c)} :: Get(r, c) == if c == j then v else Get(s, c)
    ensures InUnit(s) && 0.0 <= v <= 1.0 ==> InUnit(r)
  {
    if j < |s| then s[j := v] else s + Zeros(j - |s|) + [v]
  }

  /** `s.splice(start, 1, v)`, the way the hook marks a page fetched: a
      negative start counts from the end (and stops at 0), a start at or past
      the end appends, and one element at the start position, if there is
      one, is replaced by v. So it either replaces one entry by v or appends
      v, and it appends exactly when the start is at or past the end or the
      array is empty. */
  function Splice(s: seq<real>, start: int, v: real): (r: seq<real>)
    ensures r == s + [v] || (|r| == |s| && exists j :: 0 <= j < |r| && r[j] == v && r == s[j := v])
    ensures r == s + [v] <==> start >= |s| || |s| == 0
    ensures 0 <= start < |s| ==> r == s[start := v]
    ensures start < 0 && |s| > 0 ==> r == s[Max(|s| + start, 0) := v]
    ensures InUnit(s) && 0.0 <= v <= 1.0 ==> InUnit(r)
  {
    if start >= |s| || |s| == 0 then s + [v]
    else
      var at := if start >= 0 then start else Max(|s| + start, 0);
      assert s[at := v][at] == v;
      s[at := v]
  }

  /** What the page effect leaves after deciding to fetch `page`:
      `splice(page - 1, 1, 1)`. For a page inside the array that entry, and
      only that one, becomes 1, so a second visit fetches nothing. For the
      page just past the end the splice appends, which is again that page.
      For a page further out the splice still appends at the end: the page
      itself stays unmarked (every visit fetches it again) and the entry of
      page `|h| + 1`, which was never fetched, becomes 1. For page 0 or
      below the splice counts from the end and marks a page from there,
      stopping at the first page; on an empty array it appends. */
  function MarkFetched(h: seq<real>, page: int): (r: seq<real>)
    ensures 1 <= page <= |h| + 1 ==> Get(r, page - 1) == 1.0
    ensures 1 <= page <= |h| ==> |r| == |h| && forall j :: j != page - 1 ==> Get(r, j) == Get(h, j)
    ensures page == |h| + 1 ==> r == h + [1.0]
    ensures page > |h| + 1 ==> r == h + [1.0] && Get(r, page - 1) == 0.0
    ensures page - 1 < -|h| && |h| > 0 ==> r == h[0 := 1.0]
    ensures page <= 0 && |h| == 0 ==> r == [1.0]
    ensures page <= 0 && |h| + page - 1 >= 0 ==> r == h[|h| + page - 1 := 1.0]
    ensures InUnit(h) ==> InUnit(r)
  {
    Splice(h, page - 1, 1.0)
  }

  /** `Math.ceil(total / limit)`: the number of pages of `limit` items that
      hold `total` items. */
  function PageCount(total: int, limit: int): (n: nat)
    requires total >= 0 && limit > 0
    ensures n * limit >= total
    ensures (n - 1) * limit < total || n == 0
  {
    (total + limit - 1) / limit
  }

  /** `resetHasFetchedPage`: `PageCount` holes, then `splice(0, 1, 1)` marks
      the first page, which the caller has already loaded. With no items the
      splice appends, so the array is never empty. */
  function ResetCoverage(total: int, limit: int): (r: seq<real>)
    requires total >= 0 && limit > 0
    ensures |r| == Max(PageCount(total, limit), 1)
    ensures r[0] == 1.0
    ensures forall j :: 1 <= j < |r| ==> r[j] == 0.0
    ensures InUnit(r)
  {
    Splice(Zeros(PageCount(total, limit)), 0, 1.0)
  }

  /** The number of whole pages a credit of `rem` pages fills before the
      page that receives what is left. */
  function RunLength(rem: real): (k: nat)
    requires rem > 0.0
    ensures 0.0 < rem - k as real <= 1.0
    decreases rem.Floor
  {
    if rem > 1.0 then 1 + RunLength(rem - 1.0) else 0
  }

  /** The inner `while` of the limit effect once it has left the first page it
      writes, on pages that are still empty: while more than one page of
      credit remains, the page at `c` is set to 1 and the credit drops by 1;
      the last page receives what remains. */
  function FillRun(t: seq<real>, c: nat, rem: real): (r: seq<real>)
    requires rem > 0.0
    ensures |r| == Max(|t|, c + RunLength(rem) + 1)
    ensures forall j {:trigger Get(r, j)} :: Get(r, j) ==
                        if c <= j < c + RunLength(rem) then 1.0
                        else if j == c + RunLength(rem) then rem - RunLength(rem) as real
                        else Get(t, j)
    ensures InUnit(t) ==> InUnit(r)
    decreases rem.Floor
  {
    if rem > 1.0 then FillRun(Put(t, c, 1.0), c + 1, rem - 1.0) else Put(t, c, rem)
  }

  /** `n * r`, as `n` steps of `r`: the position, counted in new pages, at
      which the credit of old page `n` starts when one old page makes `r`
      new ones. */
  function Times(n: nat, r: real): (p: real)
    ensures r >= 0.0 ==> p >= 0.0
  {
    if n == 0 then 0.0 else Times(n - 1, r) + r
  }

  /** `Times` is the product. */
  lemma {:induction false} TimesIsProduct(n: nat, r: real)
    ensures Times(n, r) == n as real * r
  {
    if n > 0 {
      TimesIsProduct(n - 1, r);
      assert (n - 1) as real * r + r == n as real * r;
    }
  }

  /** The new page on which the credit of old page `i` starts:
      `floor(i * ratio)`. */
  function StartPage(i: nat, ratio: real): nat
    requires ratio > 0.0
  {
    Times(i, ratio).Floor
  }

  /** A position `off` into page `n` lies on page `n`. */
  lemma FloorOf(n: int, off: real)
    requires 0.0 <= off < 1.0
    ensures (n as real + off).Floor == n
  {
  }

  /** What the inner `while` of the limit effect does for one fully fetched
      old page `i`, whose credit is `ratio` new pages and starts at position
      `i * ratio`.  With a ratio of at most 1 it makes one write, at page
      `floor(i * ratio)`: a page that already holds a fraction is topped up to
      exactly 1, an empty one receives `ratio`.  With a ratio above 1 the
      first page it reaches is set to 1 (a fraction `v0` already there is
      topped up, which costs `1 - v0` of the credit) and `FillRun` spends the
      rest on the pages after it. */
  function FillPage(t: seq<real>, i: nat, ratio: real): (r: seq<real>)
    requires ratio > 0.0 && InUnit(t)
    ensures InUnit(r)
    ensures |r| >= |t|
  {
    var c0 := StartPage(i, ratio);
    var v0 := Get(t, c0);
    if ratio <= 1.0 then Put(t, c0, if v0 != 0.0 then 1.0 else ratio)
    else FillRun(Put(t, c0, 1.0), c0 + 1, ratio - 1.0 + v0)
  }

  /** Every page whose entry the credit of one old page changes ends up
      holding a positive fraction of at most 1. */
  lemma FillPageWrites(t: seq<real>, i: nat, ratio: real)
    requires ratio > 0.0 && InUnit(t)
    ensures forall j :: Get(FillPage(t, i, ratio), j) != Get(t, j) ==> 0.0 < Get(FillPage(t, i, ratio), j) <= 1.0
  {
  }

  /** The new array after the first `i` old pages have been spread: it starts
      as `n` holes, and each old page whose entry is exactly 1 is spread in
      turn; any other entry, whole, fractional or a hole, contributes
      nothing. */
  function Spread(h: seq<real>, ratio: real, n: nat, i: nat): (r: seq<real>)
    requires ratio > 0.0 && i <= |h|
    ensures InUnit(r)
    ensures |r| >= n
  {
    if i == 0 then Zeros(n)
    else
      var t := Spread(h, ratio, n, i - 1);
      if h[i - 1] == 1.0 then FillPage(t, i - 1, ratio) else t
  }

  /** The array the limit effect installs when the page size goes from
      `oldLimit` to `newLimit`: every old page spread over
      `PageCount(total, newLimit)` holes, at `oldLimit / newLimit` new pages
      per old page. */
  function Redistribute(h: seq<real>, oldLimit: int, newLimit: int, total: int): (r: seq<real>)
    requires oldLimit > 0 && newLimit > 0 && total >= 0
    ensures InUnit(r)
    ensures |r| >= PageCount(total, newLimit)
  {
    Spread(h, oldLimit as real / newLimit as real, PageCount(total, newLimit), |h|)
  }

  /** With a ratio above 1, the page at position `p` is filled no further
      than `p` itself and every page after it is still empty. */
  ghost predicate FrontierAt(t: seq<real>, p: real)
  {
    && Get(t, p.Floor) <= p - p.Floor as real
    && forall j :: j > p.Floor ==> Get(t, j) == 0.0
  }

  /** With a ratio above 1, after the first `i` old pages the new array is
      filled exactly up to position `i * ratio`: this is what makes every
      write of the inner loop land on a page that is empty or partly filled
      below that position, so the credit strictly shrinks and the loop ends. */
  lemma {:induction false} SpreadFrontier(h: seq<real>, ratio: real, n: nat, i: nat)
    requires ratio > 1.0 && i <= |h|
    ensures FrontierAt(Spread(h, ratio, n, i), Times(i, ratio))
  {
    if i > 0 {
      var k := i - 1;
      SpreadFrontier(h, ratio, n, k);
      var t := Spread(h, ratio, n, k);
      var p := Times(k, ratio);
      var e := Times(i, ratio);
      assert e == p + ratio;
      assert p >= 0.0;
      var c0 := StartPage(k, ratio);
      assert c0 == p.Floor;
      assert e.Floor > c0;
      if h[k] == 1.0 {
        var v0 := Get(t, c0);
        assert 0.0 <= v0 <= p - c0 as real;
        var t1 := Put(t, c0, 1.0);
        var rem := ratio - 1.0 + v0;
        var run := RunLength(rem);
        var last := c0 + 1 + run;
        var r := FillRun(t1, c0 + 1, rem);
        assert r == Spread(h, ratio, n, i);
        assert 0.0 < e - last as real < 2.0;
        assert e.Floor == last || e.Floor == last + 1;
        forall j | j > e.Floor
          ensures Get(r, j) == 0.0
        {
          assert Get(t, j) == 0.0;
        }
        if e.Floor == last + 1 {
          assert Get(t, last + 1) == 0.0;
        }
      }
    }
  }

  /** The number of fully fetched old pages before `i` whose credit starts
      on new page `c`. */
  function Hits(h: seq<real>, ratio: real, c: int, i: nat): (k: nat)
    requires ratio > 0.0 && i <= |h|
    ensures k <= i
  {
    if i == 0 then 0
    else Hits(h, ratio, c, i - 1) + if h[i - 1] == 1.0 && StartPage(i - 1, ratio) == c then 1 else 0
  }

  /** With a ratio of at most 1 (the page size does not shrink), each fully
      fetched old page `i` makes exactly one write, at new page
      `floor(i * ratio)`: a new page that one old page lands on holds
      `ratio`, one that two or more land on holds 1, and all others are
      empty. */
  lemma {:induction false} SmallRatioCells(h: seq<real>, ratio: real, n: nat, i: nat)
    requires 0.0 < ratio <= 1.0 && i <= |h|
    ensures forall c :: Get(Spread(h, ratio, n, i), c) ==
                        if Hits(h, ratio, c, i) == 0 then 0.0
                        else if Hits(h, ratio, c, i) == 1 then ratio
                        else 1.0
  {
    if i > 0 {
      var j := i - 1;
      SmallRatioCells(h, ratio, n, j);
      var t := Spread(h, ratio, n, j);
      var r := Spread(h, ratio, n, i);
      var c0 := StartPage(j, ratio);
      if h[j] == 1.0 {
        assert r == Put(t, c0, if Get(t, c0) != 0.0 then 1.0 else ratio);
      } else {
        assert r == t;
      }
      forall c
        ensures Get(r, c) == if Hits(h, ratio, c, i) == 0 then 0.0
                             else if Hits(h, ratio, c, i) == 1 then ratio
                             else 1.0
      {
        assert Hits(h, ratio, c, i) == Hits(h, ratio, c, j) + if h[j] == 1.0 && c == c0 then 1 else 0;
      }
    }
  }

  /** Multiplying by a non-negative factor keeps the order. */
  lemma MulMonotone(a: int, b: int, k: int)
    requires a <= b && k >= 0
    ensures a * k <= b * k
  {
    assert b * k - a * k == (b - a) * k;
  }

  /** `c / k < i` exactly when `c < i * k`, for a non-negative `c`. */
  lemma DivBelow(c: int, i: int, k: int)
    requires k >= 1 && c >= 0
    ensures c / k < i <==> c < i * k
  {
    var q, r := c / k, c % k;
    assert c == q * k + r && 0 <= r < k;
    if q < i {
      MulMonotone(q + 1, i, k);
      assert (q + 1) * k == q * k + k;
    } else {
      MulMonotone(i, q, k);
    }
  }

  /** The old page that new page `c` belongs to when one old page makes `k`
      new ones. */
  function OldPage(c: int, k: int): (q: int)
    requires k >= 1
    ensures c >= 0 ==> q >= 0
  {
    c / k
  }

  lemma MulSucc(j: int, k: int)
    ensures (j + 1) * k == j * k + k
  {
  }

  /** With a whole ratio `k` the credit of old page `j` starts at new page
      `j * k`. */
  lemma WholeStart(j: nat, ratio: real, k: nat)
    requires k >= 1 && ratio == k as real
    ensures StartPage(j, ratio) == j * k
  {
    TimesIsProduct(j, ratio);
    assert j as real * ratio == (j * k) as real;
  }

  /** With a whole ratio `k`, the credit of old page `j`, spread where
      nothing was written yet, sets new pages `j * k` to `j * k + k - 1` to 1
      and nothing else. */
  lemma WholeFill(t: seq<real>, j: nat, ratio: real, k: nat)
    requires k >= 1 && ratio == k as real && InUnit(t) && Get(t, j * k) == 0.0
    ensures forall c :: Get(FillPage(t, j, ratio), c) ==
                        if j * k <= c < j * k + k then 1.0 else Get(t, c)
    ensures |FillPage(t, j, ratio)| == Max(|t|, j * k + k)
  {
    WholeStart(j, ratio, k);
    if k > 1 {
      assert RunLength(ratio - 1.0) == k - 2;
    }
  }

  /** New page `c` belongs to one of the first `j + 1` old pages of `k` new
      pages when it belongs to one of the first `j`, or to old page `j`. */
  lemma WholeCell(c: int, j: nat, k: nat)
    requires k >= 1 && c >= 0
    ensures OldPage(c, k) < j + 1 <==> OldPage(c, k) < j || j * k <= c < j * k + k
    ensures j * k <= c < j * k + k ==> OldPage(c, k) == j
  {
    DivBelow(c, j, k);
    DivBelow(c, j + 1, k);
    MulSucc(j, k);
  }

  /** The inductive step of `WholeRatioCells`, on the cells alone: if old
      page `j` adds new pages `j * k` to `j * k + k - 1` exactly when its
      entry is 1, the first `j + 1` old pages are covered as stated. */
  lemma WholeStep(h: seq<real>, k: nat, j: nat, t: seq<real>, r: seq<real>)
    requires k >= 1 && j < |h|
    requires forall c :: Get(t, c) == if 0 <= c && OldPage(c, k) < j && h[OldPage(c, k)] == 1.0 then 1.0 else 0.0
    requires forall c :: Get(r, c) ==
                         if h[j] == 1.0 && j * k <= c < j * k + k then 1.0 else Get(t, c)
    ensures forall c :: Get(r, c) == if 0 <= c && OldPage(c, k) < j + 1 && h[OldPage(c, k)] == 1.0 then 1.0 else 0.0
  {
    forall c
      ensures Get(r, c) == if 0 <= c && OldPage(c, k) < j + 1 && h[OldPage(c, k)] == 1.0 then 1.0 else 0.0
    {
      if 0 <= c {
        WholeCell(c, j, k);
      } else {
        MulMonotone(0, j, k);
      }
    }
  }

  /** When the old page size is `k` times the new one, old page `i` fully
      fetched fills new pages `i * k` to `i * k + k - 1` with 1 and writes
      nothing else: new page `c` is fetched exactly when old page `c / k` was. */
  lemma {:induction false} WholeRatioCells(h: seq<real>, ratio: real, k: nat, n: nat, i: nat)
    requires k >= 1 && ratio == k as real && i <= |h|
    ensures forall c :: Get(Spread(h, ratio, n, i), c) ==
                        if 0 <= c && OldPage(c, k) < i && h[OldPage(c, k)] == 1.0 then 1.0 else 0.0
    ensures |Spread(h, ratio, n, i)| <= Max(n, i * k)
  {
    if i > 0 {
      var j := i - 1;
      WholeRatioCells(h, ratio, k, n, j);
      var t := Spread(h, ratio, n, j);
      var r := Spread(h, ratio, n, i);
      DivBelow(j * k, j, k);
      assert Get(t, j * k) == 0.0;
      MulSucc(j, k);
      if h[j] == 1.0 {
        WholeFill(t, j, ratio, k);
      } else {
        assert r == t;
      }
      WholeStep(h, k, j, t, r);
    }
  }

  /** Only whether an old entry is exactly 1 matters: two coverage arrays
      that agree on which old pages are fully fetched spread to the same new
      array, whatever fractions or holes the other entries hold. */
  lemma {:induction false} OnlyFullPagesCount(h: seq<real>, g: seq<real>, ratio: real, n: nat, i: nat)
    requires ratio > 0.0 && i <= |h| && i <= |g|
    requires forall j :: 0 <= j < i ==> (h[j] == 1.0 <==> g[j] == 1.0)
    ensures Spread(h, ratio, n, i) == Spread(g, ratio, n, i)
  {
    if i > 0 {
      OnlyFullPagesCount(h, g, ratio, n, i - 1);
    }
  }

  /** Halving the page size from 10 to 5 with the first two of three pages
      fetched: the first four new pages are fetched and the other two of the
      six new pages are empty. */
  lemma HalvingExample()
    ensures Redistribute([1.0, 1.0, 0.0], 10, 5, 30) == [1.0, 1.0, 1.0, 1.0, 0.0, 0.0]
  {
    var h := [1.0, 1.0, 0.0];
    var r := Redistribute(h, 10, 5, 30);
    assert 10 as real / 5 as real == 2 as real;
    assert PageCount(30, 5) == 6;
    WholeRatioCells(h, 2 as real, 2, 6, 3);
    assert |r| == 6;
    forall c | 0 <= c < 6
      ensures r[c] == [1.0, 1.0, 1.0, 1.0, 0.0, 0.0][c]
    {
      assert Get(r, c) == r[c];
    }
  }

  /** The new array can grow past `ceil(total / limit)`: with 30 items, two
      fully fetched pages of 20 become four fetched pages of 10, although 30
      items make only three pages of 10. */
  lemma OutgrowExample()
    ensures PageCount(30, 10) == 3
    ensures |Redistribute([1.0, 1.0], 20, 10, 30)| == 4
    ensures forall c :: 0 <= c < 4 ==> Redistribute([1.0, 1.0], 20, 10, 30)[c] == 1.0
  {
    var h := [1.0, 1.0];
    var r := Redistribute(h, 20, 10, 30);
    assert 20 as real / 10 as real == 2 as real;
    WholeRatioCells(h, 2 as real, 2, 3, 2);
    assert Get(r, 3) == 1.0;
    forall c | 0 <= c < 4
      ensures r[c] == 1.0
    {
      assert Get(r, c) == 1.0;
    }
  }

  /** Growing the page size from 10 to 30 with pages 1 and 2 of three
      fetched: both land on new page 1, whose first write holds 1/3 and whose
      second tops it up to 1, so the new page counts as fully fetched
      although only 20 of its 30 items were. */
  lemma OverCreditExample()
    ensures Redistribute([1.0, 1.0, 0.0], 10, 30, 30) == [1.0]
  {
    var h := [1.0, 1.0, 0.0];
    var ratio := 10 as real / 30 as real;
    var r := Redistribute(h, 10, 30, 30);
    assert PageCount(30, 30) == 1;
    assert StartPage(0, ratio) == 0 && StartPage(1, ratio) == 0;
    SmallRatioCells(h, ratio, 1, 3);
    assert Hits(h, ratio, 0, 1) == 1;
    assert Hits(h, ratio, 0, 2) == 2;
    assert Hits(h, ratio, 0, 3) == 2;
    assert Get(r, 0) == 1.0;
    forall c | c >= 1
      ensures Get(r, c) == 0.0
    {
      assert StartPage(0, ratio) != c && StartPage(1, ratio) != c;
      assert Hits(h, ratio, c, 1) == 0;
      assert Hits(h, ratio, c, 2) == 0;
      assert Hits(h, ratio, c, 3) == 0;
    }
    assert |Spread(h, ratio, 1, 1)| == 1;
    assert |Spread(h, ratio, 1, 2)| == 1;
    assert |r| == 1;
  }

  /** With a ratio that is not whole the credit shifts: page 2 of 15 items
      covers items 16 to 30, which are new pages 2 (items 11 to 20) and 3
      (items 21 to 30) of 10 items; new page 2 is set to 1 although half of
      it, items 11 to 15, was never fetched, and new page 3 holds 1/2. */
  lemma ShiftExample()
    ensures Redistribute([0.0, 1.0], 15, 10, 30) == [0.0, 1.0, 0.5]
  {
    var h := [0.0, 1.0];
    var ratio := 15 as real / 10 as real;
    assert ratio == 1.5;
    assert PageCount(30, 10) == 3;
    var t := Spread(h, ratio, 3, 1);
    assert t == Zeros(3);
    assert StartPage(1, ratio) == 1;
    assert Get(t, 1) == 0.0;
    assert RunLength(0.5) == 0;
    var r := Redistribute(h, 15, 10, 30);
    assert r == FillRun(Put(t, 1, 1.0), 2, 0.5);
    assert |r| == 3;
    forall c | 0 <= c < 3
      ensures r[c] == [0.0, 1.0, 0.5][c]
    {
      assert Get(r, c) == r[c];
    }
  }
}
