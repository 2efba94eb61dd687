# Device-data range query, modelled in Dafny

The Device Data API serves a device telemetry dataset. Each row is one instant
with temperature, humidity, wind, precipitation, air pressure and consumption. At
start-up the service reads the rows once and keeps them in the order it read them.
From them it derives the covered days `data_start` and `data_end`: the calendar
day of the earliest timestamp and the calendar day of the latest one. Two
endpoints read this store:

- `data_info` reports the covered days and the number of rows.
- `get_data_range` takes two dates, `from_date` and `to_date`. It rejects a request
  that starts before `data_start` or ends after `data_end`. Otherwise it keeps,
  in stored order, every row whose timestamp truncated to its calendar day lies
  in `[from_date, to_date]`, both ends included.

The model works on integers. A timestamp is seconds since an epoch. A day is
`Day(t) = t / 86400`. Dafny's division is floor division for a positive divisor,
which is what truncating a naive datetime to its date does, before the epoch too.
The date parser is a parameter, `parse: string -> Option<int>`, that yields a day
or fails. Measurements are carried as an opaque `map<string, real>` and never
computed on.

Modules, one per component:

- `Calendar` (calendar.dfy): days and midnights.
- `Options` (options.dfy): an optional value, for parsing and loading.
- `Dataset` (dataset.dfy): rows, minimum and maximum timestamp, the store and
  its validity, loading, `data_info`.
- `RangeQuery` (range_query.dfy): the mask, the selection, the bounds check,
  parsing, and the laws of the query.
- `Endpoint` (endpoint.dfy): the reply of `get_data_range` as written and as
  intended (see Findings).

Three facts about the code shape the model:

- The code never sorts the rows. They stay in file order, the bounds are the
  minimum and maximum over all rows, and the mask keeps rows in stored order
  whether or not they are sorted.
- The bounds check compares days, not instants, and nothing checks
  `from_date <= to_date`. A reversed range inside the bounds selects nothing
  and is not an error.
- Selection is one boolean mask over every row; there is no search for a
  contiguous block.

## Model

| member | source | states |
|---|---|---|
| Calendar.Day | FASTAPI_s4.py:45 | the day of an instant is the unique `d` with `d*86400 <= t < d*86400 + 86400`; this is truncation to the date |
| Dataset.MinTs | FASTAPI_s4.py:11 | the earliest timestamp is at most every row's timestamp and is some row's timestamp |
| Dataset.MaxTs | FASTAPI_s4.py:12 | the latest timestamp is at least every row's timestamp and is some row's timestamp |
| Dataset.ValidEnvelope | FASTAPI_s4.py:11-12 | the covered days of a loaded store bracket every row's day, each is attained by some row, and `data_start <= data_end` |
| Dataset.Load | FASTAPI_s4.py:7-12 | loading fails exactly when there are no rows; otherwise the store keeps the rows as read and its bounds are the tightest envelope of their days |
| Dataset.Info | FASTAPI_s4.py:21-28 | `total_records` is the row count; `start <= end`; both bracket every row's day and are attained |
| RangeQuery.Select | FASTAPI_s4.py:45-46 | every selected row passes the day test and is stored; every stored row that passes it is selected; the selection is never longer than the store |
| RangeQuery.Positions | FASTAPI_s4.py:45 | the mask's true positions, strictly ascending, each in range and passing the test, and every passing position among them |
| RangeQuery.SelectIsMaskedRows | FASTAPI_s4.py:45-46 | the selection is the stored rows read off at the mask's true positions in ascending order: no reordering, duplication, loss or invention |
| RangeQuery.SelectKeepsMultiplicity | FASTAPI_s4.py:45-46 | a row occurs in the selection as often as it is stored if its day is in range, and never otherwise |
| RangeQuery.Query | FASTAPI_s4.py:41-46 | out of range exactly when `from` is before the first covered day or `to` after the last, carrying both covered days; otherwise a selection holding exactly the stored rows whose day is in `[from, to]` |
| RangeQuery.GetDataRange | FASTAPI_s4.py:37-46 | malformed exactly when either date string fails to parse; otherwise the query on the two parsed days |
| RangeQuery.InBoundsIsSelected | FASTAPI_s4.py:41-46 | a request inside the covered days always reaches selection |
| RangeQuery.WholeDaysIncluded | FASTAPI_s4.py:41-45 | a stored row at any second of the last requested day, or at the same second of the first, is returned |
| RangeQuery.NeighbouringDaysExcluded | FASTAPI_s4.py:45 | a row one second before the first requested day, or at midnight after the last, is not returned |
| RangeQuery.ReversedRangeIsEmpty | FASTAPI_s4.py:41-46 | a reversed range inside the bounds gives an empty selection, not an error |
| RangeQuery.SingleDayQuery | FASTAPI_s4.py:45-46 | a one-day request inside the bounds is a selection holding exactly the stored rows on that day, each as often as it is stored, possibly none |
| RangeQuery.FullRangeReturnsAll | FASTAPI_s4.py:41-46 | asking for exactly the covered days returns every stored row in stored order |
| Endpoint.HandleAsWritten | FASTAPI_s4.py:35-76 | as written, a body (with no data) is returned only for an empty selection; every non-empty selection gets status 500 for the undefined name `timestamp`; an out-of-range request gets status 500 carrying the covered days; a parse failure gets status 400 |
| Endpoint.Handle | FASTAPI_s4.py:35-76 | as intended, a body is returned exactly for a selection and its data is that selection: the matching rows in stored order, each as often as stored; every error is a 400, and an out-of-range one carries the covered days |
| Endpoint.HandlersAgreeOffDefects | FASTAPI_s4.py:62-74 | for a malformed request, or an in-range request matching nothing, both handlers reply the same |
| Endpoint.UndefinedNameWitness | FASTAPI_s4.py:50-52 | a one-row store asked for its only day selects the row, yet the written handler replies 500; the intended one returns the row |
| Endpoint.OutOfRangeWitness | FASTAPI_s4.py:41-76 | a request past the last covered day gets 500 from the written handler and a 400 carrying the covered days from the intended one |

## Left out

- Reading the CSV file with pandas, and turning a missing file into a start-up error (lines 6-14). This is file I/O through a foreign library. The model starts from the parsed rows. A date column that pandas parses to a missing value is not modelled.
- Date-string parsing with `datetime.strptime` (lines 37-38). It is a parameter that yields a day or fails; its format rules are not modelled.
- Formatting days and timestamps as text with `strftime` (lines 11-12, 52). Days stay integers in the model.
- Rounding each measurement to two decimals with `round` (lines 53-59). This is floating-point arithmetic, and as written it is never reached.
- Endpoint.Handle: returns the selected rows unshaped, because the rounding and formatting of each record are left out as above.
- The `KeyError` clause (lines 71-72). A boolean mask never raises it, and the column lookups that could are never reached as written.
- FastAPI routing, query-parameter declaration, the app title and uvicorn start-up (lines 1-3, 16-20, 30-34, 78-80). This is transport plumbing. Status codes appear only in `Endpoint`, to state the two findings.
- Time zones. Timestamps are naive instants counted in seconds.

## Findings

| source | as written | input that shows it | evidently intended | confidence | as-written member | corrected member |
|---|---|---|---|---|---|---|
| FASTAPI_s4.py:50-52 | the output loop formats `timestamp`, a name that is never bound (the loop variable is `date`), so the first selected row raises `NameError`, which the catch-all turns into status 500 | a store with one row at 01:00 on day 0, and a request for day 0 to day 0 | format the row's own instant `date`, and return every selected row | high; not executed | Endpoint.UndefinedNameWitness | Endpoint.Handle |
| FASTAPI_s4.py:41-76 | the out-of-range `HTTPException(400)` is raised inside the `try`, and the catch-all `except Exception` re-raises it as status 500 | the same store, and a request for day 0 to day 1 | a client error (400) carrying the covered days | high; not executed | Endpoint.OutOfRangeWitness | Endpoint.Handle |
