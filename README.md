# ERCOT API client: connection state, paged fetch and grid normalizer

A Dafny model of the core of the `ERCOTAPI` class in `ercot_api.py`. The
class wraps ERCOT's public-reports REST API and has three parts that hold
the logic:

- **Connection state** (`connection.dfy`, module `Connection`). The class
  `ErcotApi` holds the credentials, the bearer token, the authentication
  header and the connection cutoff.
  - A status check answered with 200 moves the cutoff 50 minutes past the
    clock. Any other answer leaves it where it was.
  - A fetch refreshes the connection once the clock has reached the cutoff.
  - The setters replace one credential and, on request, set the connection
    up again.
  - `set_api_key` without a reset leaves the header carrying the old key
    until the next refresh. The model keeps that behaviour.
- **Paged fetch** (`query.dfy` and `fetch.dfy`, modules `Query` and
  `Fetch`).
  - The request link is the base link, `?`, then `name=value&` for every
    parameter whose value is not None, in map order. The discovery request
    drops the last character. A page request appends `page=N`.
  - `Parse` reads a query string back. Building then parsing returns exactly
    the parameters that have a value, provided no name holds `=` or `&` and
    no value holds `&` (`Query.Clean`): the source does no URL-encoding, so
    such a parameter is split differently on the way back.
  - The server is a sequence of pages. The outcome of each request (answer,
    or `KeyError`) is a script of booleans.
  - `Fetch`/`PageLoop` follow the mutual recursion of `__get_data`: a failed
    discovery restarts from scratch, and a failed page resumes at that page
    with the rows gathered so far.
  - Every retry is a recursive call made inside the `except`, so it nests
    one more stack frame. A `depth` parameter counts the nested retries the
    interpreter's recursion limit still allows; one retry more raises
    `RecursionError` (`TooDeep`), even when successes would follow
    (`Fetch.RecursionLimitBites`). The limit only ever aborts a fetch: it
    never changes the rows of one that completes (`Fetch.FetchDepth`).
  - The method `GetData` runs the page loop as a `while` loop and is proved
    equal to that definition.
  - Whatever failures the script holds, a fetch that completes returns every
    page exactly once, later pages first.
- **Decoders and normalizer** (`decoders.dfy`, `grid.dfy`, `sorting.dfy`,
  `normalizer.dfy`, `reports.dfy`).
  - The decoders cover Python slicing and `int` on the hour-ending and SCED
    timestamp texts.
  - `replace` is modelled on arrays. The loop `for hour in range(1, 25)`
    shifts each hour-ending 1-24 down by exactly one: it runs in ascending
    order, and the descending order would cascade. The interval codes map
    to minutes.
  - The normalizer is generic over the grid shape: hourly for the
    day-ahead reports, 15-minute for the real-time ones.
    - The grid is the cross product of days × hours (× quarters). It has
      `days × 24 (× 4)` rows, in ascending order, whatever data arrived.
    - Each unit becomes one column, in order of first appearance.
    - Each unit's frame gets its gap fill, keep-first dedup, sort by key and
      left join.
    - The result is that every cell holds the value of the first raw record
      for that unit and slot, or NaN when there is none.
  - `reports.dfy` builds the day-ahead, real-time and SCED decoders from
    these pieces, and composes each with the fetch.

Values that pandas keeps as floats are an opaque type `V`, and NaN is
`None` in `Option<V>`. Dates are day numbers. A raised exception shows in
the model's results: the decoders return `None`, the fetch ends
`TooDeep` on `RecursionError`, `Connection.Open` returns `null`, and
`SetApiConnection`, `RefreshIfExpired` and the three setters return
`ok == false`.

The gap fill of the real-time reports has two branches, chosen by whether
the date holds exactly 24 rows. A day of 15-minute data has 96 rows, so the
test decides nothing: both branches add the slots a (date, hour) lacks when
it does not hold 4 rows (`Reports.FillBranchesAgree`). The fill counts rows
on the frame as it grows, and so does the body of `Normalizer.FillGaps`.
Its contract is stated on the frame as it arrived; the two counts are
proved equal (`Normalizer.CountIgnoresEarlierFills`).

The count-based fill can leave a slot unfilled when a block holds
duplicate rows. The left join still reads NaN there, so the table is the
same either way (`Normalizer.ColumnIsFirstValue`).

A left merge emits one row per matching row of the unit's frame. The table
keeps one row per slot only because the keep-first dedup leaves each key
once: `Normalizer.LeftJoin` requires distinct keys, and
`Normalizer.ColumnIsFirstValue` proves that the deduplicated, sorted frame
has them.

For an empty fetch, the day-ahead decoders' `drop(4)` and the real-time
decoders' `raw_data[4]` raise `KeyError`, because an empty frame has no
columns. The model follows the code and returns no table.

## Model

| member | source | states |
|---|---|---|
| Connection.BearerHeader | ercot_api.py:145 | the authorization entry is `Bearer ` followed by exactly the token; the subscription key is the API key |
| Connection.RefreshExactlyAfterWindow | ercot_api.py:191-192 | after a 200 check at `now`, a fetch at `later` refreshes if and only if 50 minutes or more have passed |
| Connection.FailedCheckKeepsDecision | ercot_api.py:248-251 | a check answered with anything but 200 leaves every later refresh decision as it was |
| Connection.NeedsRefresh | ercot_api.py:191 | the refresh test `now >= cutoff`; `RefreshExactlyAfterWindow` proves it holds exactly 50 minutes or more after a 200 check |
| Connection.ErcotApi.constructor | ercot_api.py:141-149 | the credentials are stored; the header is built from the token and the key; the cutoff starts at `now` and moves 50 minutes ahead only on a 200 |
| Connection.ErcotApi.GetConnectionStatus | ercot_api.py:232-251 | returns the status code; a 200 sets the cutoff to `now` plus 50 minutes, any other code leaves it unchanged |
| Connection.ErcotApi.SetApiConnection | ercot_api.py:1213-1227 | with a token reply: new token, header rebuilt with the current API key, status check applied; a reply without `id_token` changes nothing |
| Connection.ErcotApi.RefreshIfExpired | ercot_api.py:190-192 | refreshes exactly when `now >= cutoff`; otherwise the token, header and cutoff are untouched |
| Connection.ErcotApi.SetUsername | ercot_api.py:1150-1169 | stores the new username, the other credentials unchanged; the connection is set up again only with `reset`, and then a token reply without `id_token` makes the setter raise (`ok == false`) after the store |
| Connection.ErcotApi.SetPassword | ercot_api.py:1171-1190 | stores the new password, the other credentials unchanged; the connection is set up again only with `reset`, and then a token reply without `id_token` makes the setter raise (`ok == false`) after the store |
| Connection.ErcotApi.SetApiKey | ercot_api.py:1192-1211 | stores the new key; with `reset` the header carries it, or the setter raises (`ok == false`) on a token reply without `id_token`; without `reset` the header keeps the old key |
| Connection.Open | ercot_api.py:141-149 | a client exists exactly when the token reply has `id_token`, and then has its header built from that token |
| Query.Rendered | ercot_api.py:198-200 | the query string: `name=value&` per parameter with a value, in map order; `BuildRequestLink` builds it by the loop, `RenderedShape` gives its shape and `ParseRendered` reads it back |
| Query.NatText | ercot_api.py:221 | `str(page)` is a non-empty string of decimal digits |
| Query.NatTextValue | ercot_api.py:221 | the page text reads back as the page number: `int(str(n)) == n` |
| Query.BuildRequestLink | ercot_api.py:194-200 | the loop builds the base link, `?`, and one `name=value&` per parameter with a value, in map order |
| Query.ParseRendered | ercot_api.py:198-200 | the built query string followed by any tail parses to the present parameters followed by the tail's pairs |
| Query.QueryRoundTrip | ercot_api.py:195-200 | parsing the built query string gives exactly the parameters whose value is not None, each once, in map order |
| Query.PageQueryRoundTrip | ercot_api.py:221 | the part of a page request after the base link and `?` parses to the present parameters followed by the page segment, whose value reads back as the page number |
| Query.RenderedShape | ercot_api.py:198-200 | the query string is empty if and only if no parameter has a value, and otherwise ends in `&` |
| Query.DiscoveryDropsSeparator | ercot_api.py:207 | the discovery request is the bare link when no parameter has a value, and otherwise the request link without its final `&` |
| Fetch.Fetch | ercot_api.py:170-230 | the reference for one `__get_data` call: a discovery request when the page count is unknown, a failed discovery retried from scratch one frame deeper, then the page loop; `GetData` is proved equal to it, and `FetchIsFailureTransparent` and `FetchDepth` state what it returns |
| Fetch.PageLoop | ercot_api.py:217-224 | the page loop: each answered page is put before the rows gathered so far, and a failed page is retried at that page with those rows, one frame deeper; `PageLoopResult` states its result |
| Fetch.GetData | ercot_api.py:170-230 | the loop-and-recursion method returns what the fetch definition returns, for every failure script and stack depth |
| Fetch.PageLoopResult | ercot_api.py:217-224 | with stack room for every failure, the page loop from `cur` to `n` puts pages `n` down to `cur` before the rows already gathered when the script has enough successes, and stalls otherwise |
| Fetch.FetchFromScratch | ercot_api.py:204-223 | with stack room for every failure, a fetch retries discovery until its first success and then returns all pages exactly once, later first, or stalls when the script runs out |
| Fetch.FetchDepth | ercot_api.py:209-223 | the recursion limit only aborts: a fetch that does not overflow gives the same outcome with a deeper stack |
| Fetch.PageLoopDepth | ercot_api.py:217-223 | the same for the page loop: a loop that does not overflow gives the same outcome with a deeper stack |
| Fetch.FailedDiscoveries | ercot_api.py:206-210 | `k` failed discoveries in a row use up `k` nested frames, and overflow when fewer are left |
| Fetch.RecursionLimitBites | ercot_api.py:209-210 | `depth + 1` failed discoveries followed by a clean run raise `RecursionError`, while one more frame lets the same script complete with every page |
| Fetch.StackedIsReverseFlatten | ercot_api.py:217-221 | prepending pages 1..n one at a time gives the pages concatenated from the last to the first |
| Fetch.FetchIsFailureTransparent | ercot_api.py:209-223 | every fetch that completes returns the same rows, all pages once, whatever failures it met and whatever the stack depth |
| Fetch.FaultFreeFetch | ercot_api.py:204-224 | with no failures, one discovery and one request per page return every page once, later pages first, at any stack depth |
| Decoders.PySlice | ercot_api.py:282 | Python slicing: negative indices count from the end and bounds are clamped, so the slice is never longer than the text |
| Decoders.ParseHourEnding | ercot_api.py:282 | `int(x[:-3])`; `HourEndingRoundTrip` proves it gives the hour of `HH:MM` back and `HourEndingRejectsShortText` that short text raises |
| Decoders.ScedFields | ercot_api.py:622-624 | the date, hour and minute slices of a SCED timestamp; `ScedFieldsRoundTrip` proves they give back the fields of `date HH:MM:SS` |
| Decoders.ReplaceAll | ercot_api.py:286 | `Series.replace(from, to)` on a column, same length; `ReplaceValue` proves the in-place update equal to it |
| Decoders.IntervalMinutes | ercot_api.py:672-675 | the minute offset of an interval code; `IntervalStepsPointwise` proves the four replaces compute it and `IntervalMinutesInjective` that it loses no code |
| Decoders.ParseInt | ercot_api.py:282 | `int` succeeds exactly on a non-empty string of digits |
| Decoders.HourEndingRoundTrip | ercot_api.py:282 | `int(x[:-3])` on the text `HH:MM` gives `HH` back |
| Decoders.HourEndingRejectsShortText | ercot_api.py:282 | a text of three characters or fewer leaves nothing to parse and raises |
| Decoders.ScedFieldsRoundTrip | ercot_api.py:622-624 | `x[:10]`, `int(x[-8:-6])` and `int(x[-5:-3])` give back the date, hour and minute of the timestamp text |
| Decoders.AscendingStepsShift | ercot_api.py:285-286 | after the replaces up to hour `k`, each value in 1..k is decremented once and every other value is untouched |
| Decoders.HourEndingRemapShifts | ercot_api.py:285-286 | the loop maps every hour-ending 1-24 to one less and leaves all other values alone |
| Decoders.DescendingOrderCascades | ercot_api.py:285-286 | the same replaces in descending order would turn hour-ending 2 into 0, while the ascending order gives 1 |
| Decoders.IntervalStepsPointwise | ercot_api.py:672-675 | the four replaces map each value independently: 1, 2, 3, 4 to 0, 15, 30, 45, others unchanged |
| Decoders.IntervalMinutesInjective | ercot_api.py:672-675 | distinct codes 1-4 give distinct quarter-hour offsets, and the code can be read back from the offset |
| Decoders.ReplaceValue | ercot_api.py:286 | `replace(from, to)` rewrites every occurrence of `from` in the column and nothing else |
| Decoders.RemapHourEnding | ercot_api.py:285-286 | the in-place loop leaves the column equal to the chain of replaces, each value shifted from 1-24 to 0-23 |
| Decoders.RemapIntervals | ercot_api.py:672-675 | the in-place replaces leave each interval code turned into its minute offset |
| Grid.GridSize | ercot_api.py:689 | the grid has `days × 24` rows, times 4 for the 15-minute reports |
| Grid.GridMembership | ercot_api.py:689 | the grid holds exactly the (day in range, hour 0-23, allowed minute) keys |
| Grid.GridAscending | ercot_api.py:295 | the grid is strictly ascending, so every slot appears once |
| Sorting.SortBy | ercot_api.py:727 | the sort returns a permutation of its input |
| Sorting.SortBySorted | ercot_api.py:727 | the sort's result is in non-decreasing key order |
| Sorting.SortByDistinct | ercot_api.py:727 | sorting keeps distinct keys distinct |
| Sorting.SortByStable | ercot_api.py:632 | the sort is stable: for every key, the elements with that key come out in their input order, as a sort on several columns does in pandas |
| Sorting.SortedDistinctAscending | ercot_api.py:724-727 | a deduplicated and sorted frame is strictly ascending by key |
| Normalizer.Units | ercot_api.py:299 | `unique()` lists every unit of the records, each exactly once, and nothing else |
| Normalizer.UnitsInOrder | ercot_api.py:299 | the units come in the order of their first records |
| Normalizer.Project | ercot_api.py:300 | the unit's rows in raw order; `ProjectLookup` proves that the first row of a slot carries the first record's value |
| Normalizer.CountBlock | ercot_api.py:308 | the rows of a block that the fill counts; `CountIgnoresEarlierFills` proves that earlier fills leave it alone |
| Normalizer.Dedup | ercot_api.py:318 | the dedup keeps the same set of keys, makes them distinct, and only keeps rows of the input |
| Normalizer.DedupLookup | ercot_api.py:318 | after `keep="first"`, the row found for a key is the first row with that key in the input |
| Normalizer.SortLookup | ercot_api.py:321 | sorting a frame with distinct keys does not change what any key looks up |
| Normalizer.SortByKey | ercot_api.py:321 | the sort by key: a permutation in key order (`Sorting.SortBy`) that leaves every lookup of a deduplicated frame unchanged (`SortLookup`) |
| Normalizer.LeftJoin | ercot_api.py:328 | on a frame with distinct keys, one cell per grid slot: the value of the frame's row with that key, or NaN when the frame lacks the key; the keep-first dedup is what makes the keys distinct (`ColumnIsFirstValue`) |
| Normalizer.CountIgnoresEarlierFills | ercot_api.py:307-316 | rows filled for earlier blocks do not change the row count of the block being checked |
| Normalizer.FillBlock | ercot_api.py:309-311 | the slot loop keeps the incoming frame as a prefix and appends, with NaN, only slots of this block that are still missing, until every slot of the block is present |
| Normalizer.FillGaps | ercot_api.py:306-316 | the original rows stay first; each added row is a NaN for a new grid slot of a block whose count is not full; every slot of such a block ends up present |
| Normalizer.ColumnIsFirstValue | ercot_api.py:318-328 | the fill, dedup, sort and left join together give each grid slot the unit's first raw value, or NaN |
| Normalizer.UnitColumn | ercot_api.py:300-328 | one pass of the unit loop (rows of the unit, gap fill, keep-first dedup, sort, left join) yields the unit's expected column: per slot the first raw value, or NaN |
| Normalizer.Normalize | ercot_api.py:295-330 | the table built unit by unit is the grid with one column per unit holding the first value per slot |
| Normalizer.TableShape | ercot_api.py:295-330 | the table has the grid's size and order, one full-length column per unit, no unit twice, and the columns in the order their units first appear |
| Normalizer.FirstRecordWins | ercot_api.py:318 | a slot with records for the unit holds the first such record's value |
| Normalizer.MissingSlotIsNaN | ercot_api.py:312-314 | a slot with no record for the unit holds NaN |
| Reports.DamTable | ercot_api.py:280-332 | the day-ahead table: none for an empty frame, an unparsable hour-ending or a missing date, else the normalized table of the decoded rows; `DamTableIndex`, `DamTableColumns`, `DamColumnOrder` and `DamCell` state its contents |
| Reports.HourEndings | ercot_api.py:282 | the list comprehension succeeds exactly when every hour-ending parses, and gives each row's number |
| Reports.DecodeDamHourly | ercot_api.py:280-332 | get_dam_lmp (and get_dam_spp, 361-413): no table for an empty frame, an unparsable hour-ending or a missing date, else the normalized hourly table |
| Reports.DamTableIndex | ercot_api.py:290-297 | a day-ahead table has `days × 24` rows, ascending, holding exactly the (day, hour 0-23) slots |
| Reports.DamTableColumns | ercot_api.py:299-328 | a day-ahead table has one full-length column for each unit of the frame, none twice, and none for a unit the frame lacks |
| Reports.DamColumnOrder | ercot_api.py:299 | the columns come in the order their units first appear: every row of a later column's unit comes after some row of an earlier column's unit |
| Reports.DamCell | ercot_api.py:282-328 | each cell holds the price of the first row with the column's unit, the slot's day and an hour-ending that the parse-and-replace turns into the slot's hour (1-24 to one less; 0 and any other value unchanged), or NaN |
| Reports.RtmTable | ercot_api.py:665-738 | the real-time table: none for an empty frame or a missing date, else the normalized table of the rows of the type; `RtmTableIndex`, `RtmTableColumns`, `RtmColumnOrder` and `RtmCell` state its contents |
| Reports.OfKind | ercot_api.py:665 | the type filter keeps only rows of the type, and keeps every such row |
| Reports.DecodeRtm | ercot_api.py:665-738 | no table for an empty frame or a missing date, else the normalized 15-minute table of the rows of the type |
| Reports.GetRtmSppLz | ercot_api.py:638-738 | the load-zone report is the 15-minute table of the `LZ` rows |
| Reports.GetRtmSppHub | ercot_api.py:740-842 | the hub report is the 15-minute table of the `HU` rows |
| Reports.GetRtmSppRn | ercot_api.py:844-944 | the resource-node report is the 15-minute table of the `RN` rows |
| Reports.OfKindFirst | ercot_api.py:665 | filtering keeps the first matching row of the type first |
| Reports.OfKindMissing | ercot_api.py:665 | with no matching row of the type, the filtered records have no value for the slot |
| Reports.RtmCell | ercot_api.py:665-736 | each cell holds the price of the first row with the type, the column's point and the cell's (day, hour, quarter), or NaN |
| Reports.RtmTableIndex | ercot_api.py:684-691 | a real-time table has `days × 96` rows, ascending, holding exactly the (day, hour, quarter) slots |
| Reports.RtmTableColumns | ercot_api.py:693-736 | one full-length column per settlement point of the requested type, none twice |
| Reports.RtmColumnOrder | ercot_api.py:693 | the columns come in the order the points first appear among the rows of the type |
| Reports.RtmColumnsOfKind | ercot_api.py:665 | every column belongs to a settlement point that has a row of the requested type |
| Reports.FillBranchesAgree | ercot_api.py:700-721 | the source's branches of the 15-minute fill add the same slots as the single per-block rule |
| Reports.ScedEntries | ercot_api.py:620-624 | the slicing succeeds exactly when every timestamp slices to numbers, and gives each row's date, hour and minute |
| Reports.DecodeSced | ercot_api.py:618-636 | get_rtm_sced_lambda (and the same slicing in get_rtm_sced_shadow, 572-591): no result for an empty frame or a bad timestamp, else the rows in (date, hour, interval) order, as a permutation in which rows of equal time keep their input order |
| Reports.ScedKeepsTimes | ercot_api.py:620-624 | a row stamped `date HH:MM:SS` appears at (day of date, HH, MM) |
| Reports.DamReport | ercot_api.py:253-332 | a day-ahead report end to end: no table when the fetch stalls or overflows the stack, else the table of all pages, whatever failures the fetch met |
| Reports.RtmReport | ercot_api.py:638-738 | a real-time report end to end: no table when the fetch stalls or overflows the stack, else the table of all pages of the type |
| Reports.ScedReport | ercot_api.py:597-636 | a SCED report end to end: no result when the fetch stalls or overflows the stack, else the sorted permutation of all pages' decoded rows, rows of equal time in fetched order |

## Left out

- HTTP `get`/`post`, JSON decoding, `verify=False`, `time.sleep` and `print`. The token reply, the status code and the page outcomes are parameters.
- The token POST itself (the resource-owner password grant of section 4.3 of RFC 6749). The model receives its reply as an optional opaque token.
- Exceptions other than `KeyError` from a page or discovery request (network errors, non-JSON bodies). They propagate in the source and are not modelled.
- Fetch.GetData: the refresh check at the head of each `__get_data` call is modelled separately (`ErcotApi.RefreshIfExpired`) and is not interleaved with the page requests.
- Fetch.Fetch: a failure script that runs out yields `Stalled`, an outcome the source does not have: the script says nothing about the next reply. The recursion limit is the parameter `depth` (the nested retries still allowed, about 1000 by default less the caller's frames); frames taken by `get`, `pd.concat` and the refresh inside one call are not counted.
- Decoders.ParseInt: Python's `int` also accepts a sign, surrounding whitespace and underscores. The model accepts digits only, which covers the texts the API sends.
- Floating point: `astype(float)` conversions are not modelled; cell values are an opaque `V` and NaN is `None`.
- The hub average column `HB_HUBAVG` of get_rtm_spp_hub (ercot_api.py:838) is left out: it is a floating-point row mean.
- pandas date parsing (`pd.to_datetime`, `strptime`, `pd.date_range`): dates are day numbers and the range is `from..to`. An unparsable or missing date is a missing day number. The SCED date text becomes a day through a parameter `dayOf`.
- The `str` of a timestamp with fractional seconds, where `x[-8:-6]` would not hit the hour, is not modelled: SCED timestamps are taken as `YYYY-MM-DD HH:MM:SS` text.
- Column renames, dropped columns (the DST flag, the settlement point type after filtering), the endpoint URLs and the request parameters' names are not modelled, beyond the generic query builder.
- The endpoints that do no normalizing are modelled only through the pieces they share with the modelled reports:
  - `get_7day_load_studyarea`, `get_7day_load_weatherzone`, `get_solar_production_geo`, `get_wind_production_geo`, `get_solar_production_lz` and `get_wind_production_lz` return the fetched frame unchanged (ercot_api.py:980, 1016, 1049, 1082, 1115, 1148). The fetch is `Fetch.GetData`.
  - `get_dam_shadow_prices` and `get_dam_system_lambda` decode the hour-ending with the same `int(x[:-3])` and replace loop (ercot_api.py:443-446, 489-492), which `Decoders.RemapHourEnding` models. They then convert columns to float, rename them, and sort by (date, hour-ending).
  - `get_dam_tot_as` decodes the hour-ending the same way (ercot_api.py:531-534), then converts and renames columns. It does not sort.
- Concurrency: the client is single-threaded and the model is sequential.
- The Streamlit dashboard is a UI consumer of the client and is not part of this model.
