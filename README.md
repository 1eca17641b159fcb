# Pagination, sorting and filter hooks for paginated tables

This project models the table-state hooks of a React front end, in Dafny:

- `usePagination` keeps the current page, the page size (`limit`) and the
  page-coverage array `hasFetchedPage`. Entry j of that array is the fraction
  of page j + 1 already fetched. The hook uses it to skip fetching pages it
  already has. When the page size changes, it spreads the coverage of the old
  pages over pages of the new size.
- `useFilters` and `useTableSorting` each track one value (the search term,
  the sort). After the first run, every change resets the table, goes back to
  page 1 and fetches page 1 with the new value.
- `useTableStateManagement` composes the three. It merges partial fetch
  parameters into its stored ones. It calls the caller's fetch function only
  when a venue is selected. It resets the table and reacts to a change of the
  selected venue.

Each effect body is a method that the caller runs where React would run the
effect. Each tracker records the calls it makes to its callbacks and to the
outside world (fetch, store reset, `setPage`) in order, in a `calls` log.
The mount guards (`didMount…Ref`) are boolean fields.

Files:

- `js_values.dfy` (module `JsValues`): JavaScript values, fetch parameters,
  the call log entries, and the reset → `setPage(1)` → fetch runs of the two
  trackers.
- `coverage.dfy` (module `Coverage`): the coverage array as a value. It reads
  holes, out-of-range and negative indices as 0, the way the hook does.
  It models JavaScript `splice`, assignment past the end, and
  `Math.ceil(total / limit)`. It gives a closed form of the redistribution
  (`Spread`, `Redistribute`) and proves its properties.
- `use_pagination.dfy` (module `UsePagination`): class `Pagination` with the
  three effects. The limit effect runs the source's `for`/`while` loops and is
  proved equal to `Redistribute`.
- `use_filters.dfy`, `use_table_sorting.dfy`: classes `Filters` and
  `TableSorting`.
- `use_table_state_management.dfy`: the merge, and class `TableState`.

With exact arithmetic, the inner `while` of the redistribution ends for every
positive ratio of old to new page size. For a ratio of at most 1 it makes one write. For a larger
ratio the proof rests on `SpreadFrontier`: the pages already written never
reach past position `i * ratio`. So every write spends credit and moves to a
later page.

The model keeps these behaviours of the code, which a reader might not
expect:

- The limit effect fetches with the page the effect was rendered with. It
  does not fetch page 1 (`setPage(1)` does not change the effect's `page`).
- The coverage array is not always `ceil(total / limit)` long:
  - with no items, `splice(0, 1, 1)` appends, so the reset array has one
    entry;
  - redistribution can write past the new length (`OutgrowExample`);
  - a page effect for a page beyond the end appends.
- Fractional entries are not transient: they stay after a redistribution.
  A partial page is topped up to exactly 1 even when less credit remains
  (`OverCreditExample`).

## Model

| member | source | states |
|---|---|---|
| Coverage.Get | hooks/usePagination.js:38 | reading `arr[j]` at a hole, past the end or at a negative index gives `undefined`, which the hook treats as 0: a read that is not 0 comes from an entry of the array, and reads of a fraction array are fractions |
| Coverage.Zeros | hooks/usePagination.js:25 | `new Array(n)` has length n and every entry reads as 0 |
| Coverage.Put | hooks/usePagination.js:70-73 | assigning entry j changes only entry j; past the end it grows the array to j + 1 with holes; fractions stay in [0,1] |
| Coverage.Splice | hooks/usePagination.js:45 | `splice(start, 1, v)` either replaces one entry by v or appends v, and appends exactly when the start is at or past the end or the array is empty; a start inside the array replaces entry `start`, a negative start replaces entry `max(length + start, 0)`; fractions stay in [0,1] |
| Coverage.MarkFetched | hooks/usePagination.js:44-46 | for pages 1 to length + 1 the visited page's entry becomes 1; inside the array every other entry is unchanged; for page length + 1 and any page further out the array is kept and 1 is appended, so a page further out stays unmarked; for page 0 or below an entry counted from the end is marked, entry 0 when the count passes the start, and an empty array gets `[1]` |
| Coverage.PageCount | hooks/usePagination.js:25 | `Math.ceil(total / limit)`: the least number of pages of `limit` items that hold `total` items |
| Coverage.ResetCoverage | hooks/usePagination.js:23-29 | the reset array has entry 0 equal to 1 and all other entries 0; its length is `ceil(total / limit)`, or 1 when that is 0 |
| Coverage.RunLength | hooks/usePagination.js:76-78 | a credit of `rem` pages fills `k` whole pages and leaves a last remainder in (0, 1] |
| Coverage.FillRun | hooks/usePagination.js:60-79 | on empty pages from `c` on, the loop writes 1 to `RunLength(rem)` pages and the remainder to the next; nothing else changes |
| Coverage.TimesIsProduct | hooks/usePagination.js:63 | `Times(n, r)`, the position `n * r` built from n steps of r, is the product |
| Coverage.FillPage | hooks/usePagination.js:57-79 | the credit of one fully fetched old page keeps every entry in [0,1] and never shrinks the array |
| Coverage.FillPageWrites | hooks/usePagination.js:66-74 | every entry the credit of one old page changes ends up in (0, 1] |
| Coverage.Spread | hooks/usePagination.js:53-81 | spreading the first i old pages over n holes keeps entries in [0,1] and at least n entries |
| Coverage.Redistribute | hooks/usePagination.js:50-82 | the installed array has entries in [0,1] and at least `ceil(total / newLimit)` entries |
| Coverage.SpreadFrontier | hooks/usePagination.js:60-79 | with a ratio above 1, after i old pages nothing is written beyond position i * ratio, so the inner loop always finds credit to spend |
| Coverage.SmallRatioCells | hooks/usePagination.js:57-78 | with old limit / new limit at most 1, each fully fetched old page i makes one write, at new page floor(i * ratio): a page hit once holds the ratio, hit twice or more holds 1, otherwise 0 |
| Coverage.WholeRatioCells | hooks/usePagination.js:60-79 | with old limit = k * new limit, new page c is 1 exactly when old page c / k was exactly 1, else 0; the array is no longer than needed for that |
| Coverage.WholeFill | hooks/usePagination.js:60-79 | with old limit = k * new limit, one fully fetched old page j sets new pages j * k to j * k + k - 1 to 1 and changes nothing else |
| Coverage.OnlyFullPagesCount | hooks/usePagination.js:58 | old entries that are not exactly 1 (fractions, holes) contribute nothing to the redistribution |
| Coverage.HalvingExample | hooks/usePagination.js:50-88 | limit 10 to 5 with `[1,1,0]` and 30 items gives `[1,1,1,1,0,0]` |
| Coverage.OutgrowExample | hooks/usePagination.js:53 | limit 20 to 10 with `[1,1]` and 30 items gives four fetched pages although there are only three |
| Coverage.OverCreditExample | hooks/usePagination.js:69-70 | limit 10 to 30 with `[1,1,0]` gives `[1]`: a partial page is topped up to 1 though only 20 of its 30 items were fetched |
| Coverage.ShiftExample | hooks/usePagination.js:62-74 | limit 15 to 10 with `[0,1]` gives `[0,1,0.5]`: page 2 counts as fetched though items 11 to 15 were not |
| JsValues.Truthy | hooks/useTableStateManagement.js:41 | `if (selectedVenueId)`: every value is truthy except `undefined`, `null`, `false`, `0` and `""` |
| JsValues.ChangeRuns | hooks/useFilters.js:24-37 | a tracker's log is three calls per change: reset, `setPage(1)`, fetch of page 1 with that change's value |
| JsValues.FetchFollowsReset | hooks/useTableSorting.js:21-34 | in a tracker's log the fetches are exactly every third call, each of page 1 with its change's value, right after a reset and a `setPage(1)` |
| UsePagination.InnerLoc | hooks/usePagination.js:62-64 | `floor((i + 1) * ratio - changeAmountRemaining)` is page floor(i * ratio) on the first pass and the page after the last write on every later pass |
| UsePagination.FirstPass | hooks/usePagination.js:60-79 | the first pass writes page floor(i * ratio): with a ratio of at most 1 the page is done; otherwise that page becomes 1, the credit left is positive, and the pages after it are still empty |
| UsePagination.LaterPass | hooks/usePagination.js:60-79 | a later pass writes an empty page: 1 and one page less credit while more than one page remains, otherwise the rest, which completes `FillPage` |
| UsePagination.PassWriteSpends | hooks/usePagination.js:66-78 | one pass of the `while` body (`PassWrite`): a page holding a fraction is topped up to 1, an empty page receives `min(credit, 1)`, no other page changes; with more than one page of credit the credit drops by exactly what was added, otherwise it is used up |
| UsePagination.DistributeOldPage | hooks/usePagination.js:57-79 | the inner `while` for one fully fetched old page ends and leaves exactly `FillPage` |
| UsePagination.Pagination.constructor | hooks/usePagination.js:16-21 | first render: page 1, limit 25, previous limit 25, empty coverage array |
| UsePagination.Pagination.SetTotal | hooks/usePagination.js:13 | a new `total` prop |
| UsePagination.Pagination.SetPage | hooks/usePagination.js:16 | `setPage` stores the page as given |
| UsePagination.Pagination.SetLimit | hooks/usePagination.js:17 | `setLimit` stores the (positive) limit |
| UsePagination.Pagination.ResetHasFetchedPage | hooks/usePagination.js:23-33 | `resetHasFetchedPage` and the total effect install `ResetCoverage(total, limit)` |
| UsePagination.Pagination.PageEffect | hooks/usePagination.js:35-48 | fetch `{page, limit}` once and mark the page exactly when its entry is not 1, otherwise no call and no change; afterwards a page up to one past the end reads 1, so a second visit fetches nothing |
| UsePagination.Pagination.LimitEffect | hooks/usePagination.js:50-88 | page becomes 1; the array becomes `Redistribute(old array, previous limit, limit, total)`; one fetch with the pre-reset page and the new limit; the previous limit becomes the limit |
| UsePagination.Pagination.OnClickNext | hooks/usePagination.js:90-92 | page + 1, no upper clamp |
| UsePagination.Pagination.OnClickPrevious | hooks/usePagination.js:94-96 | page - 1, no lower clamp (page 1 gives 0) |
| UseFilters.Filters.constructor | hooks/useFilters.js:19-20 | the search term starts empty and the hook is not mounted |
| UseFilters.Filters.SetSearchTerm | hooks/useFilters.js:19 | `setSearchTerm` stores the term |
| UseFilters.Filters.ResetTableFilters | hooks/useFilters.js:39-41 | the term becomes empty and nothing else changes |
| UseFilters.Filters.DebouncedTermEffect | hooks/useFilters.js:24-37 | the first run only sets the mounted flag; later runs log reset, `setPage(1)`, fetch `{page: 1, searchTerm}` with the current term; the flag stays set and the log stays a sequence of such runs |
| UseTableSorting.TableSorting.constructor | hooks/useTableSorting.js:17-19 | the sort starts empty and the hook is not mounted |
| UseTableSorting.TableSorting.SetSort | hooks/useTableSorting.js:17 | `setSort` replaces the sort whole |
| UseTableSorting.TableSorting.SortEffect | hooks/useTableSorting.js:21-34 | the first run only sets the mounted flag; later runs log reset, `setPage(1)`, fetch `{page: 1, sort}`; the flag stays set and the log stays a sequence of such runs |
| UseTableStateManagement.MergeParams | hooks/useTableStateManagement.js:39 | `{...stored, ...partial}`: keys of both; partial's values win; other stored values unchanged |
| UseTableStateManagement.MergeIdempotent | hooks/useTableStateManagement.js:39 | merging the same params twice equals merging them once |
| UseTableStateManagement.MergeOverridden | hooks/useTableStateManagement.js:39 | a later merge that sets every key of an earlier one hides it completely |
| UseTableStateManagement.TableState.constructor | hooks/useTableStateManagement.js:28-36 | initial params `{page: 1, limit: 25, venueId}`, not mounted, and each feature's hook exists exactly when its flag is set; `total` only matters with pagination |
| UseTableStateManagement.TableState.SetSelectedVenueId | hooks/useTableStateManagement.js:21 | a new `selectedVenueId` argument |
| UseTableStateManagement.TableState.CallFetchFunction | hooks/useTableStateManagement.js:38-44 | stores the merge; calls `fetchFunction` once with the merged params exactly when the venue id is truthy, otherwise no call |
| UseTableStateManagement.TableState.ResetTable | hooks/useTableStateManagement.js:59-64 | resets the store, then the coverage array, in that order |
| UseTableStateManagement.TableState.VenueEffect | hooks/useTableStateManagement.js:85-95 | the first run only sets the mounted flag; later runs reset the store, set page 1, and change only `venueId` in the params; never fetches |
| UseTableStateManagement.TableState.Returned | hooks/useTableStateManagement.js:97-109 | eleven outputs; all of a feature's outputs are undefined exactly when its flag is off; the page, limit, sort and term outputs carry the hooks' state |

## Left out

- `useDebounce` (timers and their cancellation) is not part of this model.
  The caller runs `DebouncedTermEffect` when the debounced term would change.
- React's scheduling and batching: effects run only when the caller calls
  them. Deferred `setState`, and the mount-time interplay of the three
  pagination effects on one shared array object, are not modelled.
- Stale closures: each method reads the current state. The source's
  callbacks read the state of the render that created them.
- The array the page effect mutates in place is also the state. Aliasing is
  not modelled: the model replaces the state with the spliced copy, which
  holds the same contents.
- Tracker callbacks are not wired to the table: `resetTable`, `setPage` and
  `callFetchFunction` calls of the trackers and of the pagination hook are
  log entries. The caller's `fetchFunction` and `resetTableResourceState`
  are log entries too. The Redux store and the network are outside the model.
- JavaScript numbers are exact rationals (`real`) in the coverage array.
  IEEE-754 rounding is not modelled: neither in the `=== 1` tests nor in
  `(i + 1) * ratio - changeAmountRemaining`, whose rounding can move `loc`.
  Termination of the inner `while` is proved for exact arithmetic only.
- UsePagination.Pagination.SetLimit: requires a positive limit. The source
  does not check this; a zero limit gives a non-finite array length there.
- UsePagination.Pagination.constructor: requires `total >= 0`, the only kind
  of total the callers pass.
- UsePagination.Pagination.SetTotal: requires `total >= 0`. The source's total
  effect also runs for a negative total: with `-limit < total < 0`,
  `Math.ceil` gives -0 and the array is empty; a lower total makes
  `new Array` throw. Neither case is modelled.
- UseTableStateManagement.TableState.constructor: requires `total >= 0` when
  pagination is enabled, for the same reason; without pagination `total` is
  never read and any value is accepted.
- UseTableStateManagement.TableState.ResetTable: requires pagination to be
  enabled. Without it, the source calls an undefined `resetHasFetchedPage`.
- UseTableStateManagement.TableState.VenueEffect: requires pagination to be
  enabled for runs after the first, for the same reason with `setPage`.
- Conditional hook calls (the rules of hooks) are not modelled. Each
  feature's state object exists for the table's whole life or not at all.
- Values are modelled only as far as the hooks inspect them: numbers in
  parameters are integers, and functions are named placeholders.
