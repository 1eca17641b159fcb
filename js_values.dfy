/** The JavaScript values the table hooks pass around, and the calls they make
    to the callbacks they were given and to the outside world. */
module JsValues {

  /** A JavaScript value, as far as these hooks look at it. Numbers that the
      hooks use (pages, limits, ids) are whole, so `Num` holds an `int`. */
  datatype Value =
    | Undefined
    | Null
    | Bool(b: bool)
    | Num(n: int)
    | Str(s: string)
    | Arr(items: seq<Value>)
    | Fn(name: string)

  /** JavaScript truthiness, as used by `if (selectedVenueId)`: every value
      is truthy except the falsy ones `undefined`, `null`, `false`, `0` and
      the empty string. */
  function Truthy(v: Value): (r: bool)
    ensures r <==> v !in {Undefined, Null, Bool(false), Num(0), Str("")}
  {
    match v
    case Undefined => false
    case Null => false
    case Bool(b) => b
    case Num(n) => n != 0
    case Str(s) => s != ""
    case Arr(_) => true
    case Fn(_) => true
  }

  /** A plain object of fetch parameters: property name to value. */
  type Params = map<string, Value>

  /** The `{ page, limit }` object the pagination hook fetches with. */
  function PageParams(page: int, limit: int): Params
  {
    map["page" := Num(page), "limit" := Num(limit)]
  }

  /** One call a hook makes, in the order it makes them. */
  datatype Call =
    | ResetTable                     // the `resetTable` callback given to sorting and filters
    | SetPage(page: int)             // the `setPage` callback, or the table's own call to it
    | CallFetch(params: Params)      // the `callFetchFunction` callback given to every tracker
    | ResetResourceState             // the caller's `resetTableResourceState`
    | ResetHasFetchedPage            // the pagination hook's `resetHasFetchedPage`
    | FetchFunction(params: Params)  // the caller's network `fetchFunction`

  /** What the sort and filter trackers do on each change after the first
      run: reset the table, go back to page 1, then fetch page 1 with the new
      value under `key`. */
  function ChangeRun(key: string, v: Value): seq<Call>
  {
    [ResetTable, SetPage(1), CallFetch(map["page" := Num(1), key := v])]
  }

  /** The calls a tracker has made after reacting to the values `vs`, in
      order: three per change, always reset, then `setPage(1)`, then the
      fetch of page 1 with that change's value. */
  function ChangeRuns(key: string, vs: seq<Value>): (r: seq<Call>)
    ensures |r| == 3 * |vs|
    ensures forall k :: 0 <= k < |vs| ==>
              && r[3 * k] == ResetTable
              && r[3 * k + 1] == SetPage(1)
              && r[3 * k + 2] == CallFetch(map["page" := Num(1), key := vs[k]])
  {
    if vs == [] then [] else ChangeRuns(key, vs[..|vs| - 1]) + ChangeRun(key, vs[|vs| - 1])
  }

  /** In a tracker's log the fetches are exactly every third call, each one
      of page 1 with the value of its change, right after a reset and a
      `setPage(1)`. */
  lemma FetchFollowsReset(key: string, vs: seq<Value>, j: int)
    requires 0 <= j < |ChangeRuns(key, vs)|
    ensures ChangeRuns(key, vs)[j].CallFetch? <==> j % 3 == 2
    ensures j % 3 == 2 ==>
              && ChangeRuns(key, vs)[j - 2] == ResetTable
              && ChangeRuns(key, vs)[j - 1] == SetPage(1)
              && ChangeRuns(key, vs)[j] == CallFetch(map["page" := Num(1), key := vs[j / 3]])
  {
    var r := ChangeRuns(key, vs);
    var k, m := j / 3, j % 3;
    assert j == 3 * k + m && 0 <= m < 3;
    assert 0 <= k < |vs|;
    if m == 0 {
      assert r[j] == r[3 * k] == ResetTable;
    } else if m == 1 {
      assert r[j] == r[3 * k + 1] == SetPage(1);
    } else {
      assert r[j - 2] == r[3 * k] && r[j - 1] == r[3 * k + 1] && r[j] == r[3 * k + 2];
    }
  }
}
