# Google Trends pull: the merge of a fresh pull into the saved table

`pull.py` fetches monthly interest-over-time values for a fixed set of
queries. It stamps every fetched row with one `Pull Date`. It then keeps a
single spreadsheet table of all months seen so far. On the first run the
stamped batch becomes the table. On later runs the batch is merged into the
saved table: concatenate, sort by `Pull Date` descending, keep the first row
of each `Month`, sort by `Month`. An empty fetch ends the run with failure
before anything is written. A cosmetic pass then sizes each column to its
longest cell text plus two, capped at 50.

This Dafny project models those rules as pure functions over immutable
sequences and proves what they promise:

- `rows.dfy`, module `Rows`: observations, stamped rows, the months of a table,
  stamping a batch and taking the stamps off again.
- `merger.dfy`, module `Merger`: the three pandas steps of the merge
  (`SortByPulled`, `KeepFirstPerMonth`, `SortByMonth`) and their composition
  `Combine`. `Freshest` is an independent reference definition: for one month,
  the row with the latest stamp, the first one in concatenation order on a
  tie. The lemmas show that the three steps keep exactly the freshest row of
  every month present, in strictly increasing month order. Merging the same
  batch twice gives the same table.
- `pull_trends.dfy`, module `PullTrends`: the update path `Update` (stamp, then
  merge) and one run `Run`: empty fetch, first run, or update.
- `pull_stamp.dfy`, module `PullStamp`: the `'%Y-%m-%d %H:%M:%S'` stamp. It
  proves that comparing stamps as strings, which is what the sort on
  pull.py:77 does, is chronological order. It also proves that this order is
  the order of `Key`, the number the stamp's digits spell. Rows carry that
  number as `pulled`.
- `column_width.dfy`, module `ColumnWidth`: the width rule
  `min(longest text + 2, 50)`, the cell-by-cell loop that computes it, and
  the loop over all columns.
- `wrappers.dfy`, module `Wrappers`: `Option`.

Modelling choices:

- A `Month` is an integer period ordinal, for instance `year * 12 + month - 1`.
  Trend values are integers and are never inspected.
- The clock reading `datetime.now()` is the parameter `now` of `Run`. The
  fetched batch and the table read from the spreadsheet are parameters too:
  `saved` is `None` when the file does not exist.
- Ties on `Pull Date`: pandas' default `sort_values` is not a stable sort, so
  for two rows of one month with the same stamp the source does not say
  which survives. The model sorts stably. So the surviving row is the first
  of the latest-pulled rows in concatenation order, the saved row before a
  fetched one. This is a refinement of the source. The properties that do not
  depend on it hold for any choice: one row per month, every month covered,
  no row pulled later than the kept one. Idempotence (`UpdateIdempotent`)
  relies on it.
- The first-run path (pull.py:88-91) writes the batch exactly as fetched,
  without sorting or deduplicating it. `Run` does the same. `RunKeepsDataset` states
  when the table is nevertheless well formed: the fetched batch must be in
  increasing month order on the first run, and any update produces a
  well-formed table.

## Model

| member | source | states |
|---|---|---|
| Rows.StampBatch | pull.py:70 | every row of the stamped batch carries the one `Pull Date` of this run, comes from a fetched row, and the batch's months are exactly the fetched months |
| Rows.UnstampStamp | pull.py:88-91 | stamping loses nothing: removing the stamps gives back the fetched batch, same rows in the same order |
| Rows.MonthsAtMostRows | pull.py:76-81 | a table never has more distinct months than rows, so the number of removed duplicates is never negative |
| Merger.FreshestSpec | pull.py:75-78 | the reference `Freshest` finds a row exactly for the months present; that row belongs to the month, no row of the month is pulled later, and it precedes every other row of the month with an equal stamp |
| Merger.FreshestAppend | pull.py:73-78 | the freshest row of the concatenation of the saved table and the batch is the later-pulled of the two parts' freshest rows, the saved one on a tie |
| Merger.SortByPulled | pull.py:77 | the `Pull Date` sort returns a permutation of its input ordered latest-first |
| Merger.InsertByPulled | pull.py:77 | inserting one row into a latest-first table adds exactly that row and keeps the table latest-first |
| Merger.FirstAfterInsert | pull.py:77-78 | after inserting a row into a latest-first table, the first row of a month is the new row exactly when no row of that month already there is pulled later |
| Merger.SortedFirstIsFreshest | pull.py:77-78 | after the latest-first sort, the first row of every month is that month's freshest row of the unsorted input |
| Merger.FirstWithMonth | pull.py:78 | the row of a month is found exactly when the month occurs; it is a row of that month and no earlier row has that month |
| Merger.KeepFirstPerMonth | pull.py:78 | keeping the first row per month leaves no repeated month, keeps every month not yet seen, and each kept row is the first row of its month |
| Merger.InsertByMonth | pull.py:79 | inserting a row of a new month into a month-ascending table adds exactly that row and keeps months strictly increasing |
| Merger.SortByMonth | pull.py:79 | the `Month` sort of a table without repeated months is a permutation with strictly increasing months |
| Merger.DistinctMonthsCount | pull.py:78-81 | after the dedup there are as many rows as distinct months |
| Merger.DistinctIffCountsAgree | pull.py:76-82 | a table has as many distinct months as rows exactly when no month repeats |
| Merger.AscendingUnique | pull.py:79 | two month-ascending tables holding the same rows are the same table, so the merged table is determined by which rows it keeps |
| Merger.Combine | pull.py:73-81 | the merged table has strictly increasing months, covers exactly the months of both inputs, keeps for each month that month's freshest input row, and reports concatenated length minus distinct months as removed (never negative) |
| Merger.CombineKeeps | pull.py:73-79 | a row is in the merged table exactly when its month occurs in the inputs and it is that month's freshest row |
| Merger.CombineIdempotent | pull.py:73-79 | merging the same incoming rows into the merged table again returns the merged table unchanged |
| Merger.UntouchedRowsSurvive | pull.py:73-79 | a row of a saved table without repeated months, whose month the incoming rows lack, is kept unchanged |
| PullTrends.Update | pull.py:69-83 | the update path gives strictly increasing months covering the saved and fetched months; every row is a saved row or a fetched row stamped with this run; no saved row of a month is pulled later than the kept one; a fetched month's row is pulled no earlier than this run; removed count = rows in minus months out, never negative |
| PullTrends.UpdateIdempotent | pull.py:69-79 | updating again with the same batch and the same stamp leaves the table unchanged |
| PullTrends.LatestPullWins | pull.py:70-78 | when this run's stamp is later than every saved stamp and the batch repeats no month, every fetched period appears in the table exactly as fetched with this run's stamp |
| PullTrends.DuplicatesReportedIffRepeats | pull.py:76-83 | the removed-duplicates message is due exactly when some month occurs twice among the saved and stamped rows |
| PullTrends.UnfetchedMonthsKept | pull.py:73-79 | a saved row of a month the batch does not mention stays in the table as it was, whenever the saved table repeats no month (a first-run table in fetch order included) |
| PullTrends.UpdateExample | pull.py:69-79 | a saved month fetched again with a new value and a later stamp is replaced by the fetched row; the following new month is appended after it; the result has exactly those two rows |
| PullTrends.Run | pull.py:41-91 | the run succeeds exactly when the fetch is non-empty; on an empty fetch the file is untouched; on the first run the file is the fetched batch in order, stamped with this run; on an update the file is the merged table; in every case its months are the saved months plus the fetched ones |
| PullTrends.RunKeepsDataset | pull.py:86-91 | after a successful run the file has strictly increasing months, provided the first run's batch came in increasing month order |
| PullStamp.Pad | pull.py:70 | a zero-padded field has exactly its width |
| PullStamp.Format | pull.py:70 | the formatted stamp is 19 characters long |
| PullStamp.LexAppend | pull.py:77 | strings beginning with parts of equal length compare as those parts first and the remainders on a tie |
| PullStamp.PadOrder | pull.py:70 | zero-padded numbers of one width compare as strings as they compare as numbers, and are equal only when the numbers are |
| PullStamp.FieldOrder | pull.py:70 | a separator, a two-digit field and the rest compare field first, rest on a tie |
| PullStamp.FormatOrder | pull.py:70-77 | comparing two stamps as strings is chronological order of the clock readings, and equal strings mean equal readings |
| PullStamp.Base100 | pull.py:70 | appending a two-digit field to a number preserves order and distinctness field by field |
| PullStamp.KeyOrder | pull.py:70 | the number spelled by the stamp's digits orders readings chronologically and differs for different readings |
| PullStamp.StringOrderIsKeyOrder | pull.py:70-77 | sorting rows by the stamp's string and by its number give the same order, so the merge may order by `pulled` |
| ColumnWidth.Shown | pull.py:110 | a cell counts with the length of its text; an empty cell counts as the four characters of `None` |
| ColumnWidth.Longest | pull.py:106-113 | the longest cell text bounds every cell's text and is the length of some cell's text, or 0 for an empty column |
| ColumnWidth.Width | pull.py:114 | the width lies between 2 and 50, fits every cell's text plus two unless capped, and is 2, 50 or some cell's text length plus two; it is 50 only if some cell needs it |
| ColumnWidth.ColumnWidthOf | pull.py:105-115 | the cell-by-cell loop over one column computes the width rule |
| ColumnWidth.LongestSnoc | pull.py:110-111 | one more cell raises the longest length to its own length when that is larger and leaves it otherwise |
| ColumnWidth.SheetWidths | pull.py:105-115 | the loop over all columns gives each column the width rule's width |
| ColumnWidth.WidthMonotone | pull.py:114 | adding cells to a column never makes it narrower |

## Left out

- The trends service client (`TrendReq`, `build_payload`, `interest_over_time`) and the pause before the request (pull.py:23-39). They are network I/O. Their result is the `fetched` parameter, which may be empty.
- Reading and writing the spreadsheet and the check that the file exists (pull.py:58-67, 86, 91, 95, 117). They are file I/O in a foreign library. The saved table is the `saved` parameter, and the table written is part of `Run`'s result.
- Type changes on the spreadsheet round trip. Keys are assumed to read back unchanged.
- Dropping `isPartial`, `reset_index` and renaming `date` to `Month` (pull.py:47-55). These are column plumbing; observations carry only the month and the query values.
- Bold, centred headers (pull.py:98-102). They are cosmetic and do not change the content.
- Logging, the clock, the catch-all exception handler, the date-range and record-count messages and the exit status (pull.py:10-13, 119-134). The clock reading is `Run`'s `now` parameter and success is `RunResult.success`. An exception from a foreign call cannot be seen from the model.
- Rendering cell values to text with `str` for numbers and dates. Cells are given as their text, except an empty cell, whose text is `None`. The `try`/`except` around it (pull.py:109-113) is not modelled, since `str` and `len` do not fail on these values.
- Trend values as floating point. They are opaque integers, because nothing depends on them.
- Concurrent runs against one file. The source does not guard against them.
- Calendar checks on the clock reading: readings are limited to four-digit years and do not check the number of days in a month. `Format` and `Key` need only fixed-width fields.
