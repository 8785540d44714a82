# Sumner Tunnel ridership analysis, modelled in Dafny

This project models the analysis pipeline in `main.py`, which measures subway ridership
before and after the closure of Boston's Sumner Tunnel (2023-07-05). The pipeline works on the
fare-gate exports of the Orange and Blue Lines. A record has:

- a service date;
- a stop name;
- a route label;
- an entry count;
- a day type.

The model has one module per stage of the pipeline:

- **Config** (`config.dfy`): the closure windows and the station lists.
  - The before window is 2023-06-01 .. 2023-07-04; the after window is 2023-07-05 .. 2023-09-01.
  - Dates are day numbers (days since 1970-01-01). The windows are inclusive integer ranges.
  - Each line has an ordered station list and a list of stops it shares with another line.
- **RecordFilter** (`record_filter.dfy`), modelling `get_line_entries`. It relabels the
  records of a line's shared stops with the line, keeps the northern stations for the Orange
  Line, can keep weekdays only, and returns the records labelled with the line.
  - The pure function `LineEntries` is the specification.
  - The method `GetLineEntries` works on an `array`. For the Blue Line it relabels the caller's
    table in place, as the source does to its data frame. For the Orange Line it works on a
    filtered copy.
- **DailyAggregator** (`daily_aggregator.dfy`), modelling `daily_ridership`: one row per
  (date, stop), holding the sum of its entries.
- **LineStatistics** (`line_statistics.dfy`), modelling `overall_stats`. It computes:
  - the line's total on its latest date;
  - the rounded mean of the daily line totals over the before window;
  - the rounded percent change between the two.
- **Completeness** (`completeness.dfy`), modelling `check_missing`. It lists the after-window
  dates on which fewer stations reported than the line has, each with the set of missing
  stations. The method `CheckMissing` is proved equal to the specification `MissingReport`.
- **StationStatistics** (`station_statistics.dfy`), modelling `station_stats`. It builds the
  per-station table:
  - rounded Before and After means;
  - a line total row that sums the rounded means;
  - Differential and "% Change" columns;
  - a reindex to the line's station list with the total last.
  The method `StationStats` is proved equal to the specification `StationTable`.

Supporting modules:

- **Grouping** (`grouping.dfy`): the group-by-sum-and-count behind every aggregation.
- **Rounding** (`rounding.dfy`): exact rational means, rounded half to even as Python's
  `round` and numpy's `.round()` do.
- **Decimal** (`decimal.dfy`): integer-to-text and its inverse, for the "% Change" cells.
- **SetSums** (`set_sums.dfy`): order-independent sums over station names.

Where the source raises an exception, the model returns an `Err` value:

- `UnknownLine`: a line label without a stop list. `get_line_entries` then fails on the
  unbound `stops` variable.
- `NoData`: the latest day of an empty table.
- `EmptyWindow`: an empty window. The mean is NaN, or the window's first date is NaT and
  `strftime` fails.
- `StationMissingWindow`: a station with data in only one window. Its other mean is NaN and
  `int(round(nan))` fails.
- `ZeroBaseline`: a Before value of 0. The percent change is inf or NaN, and the integer
  conversion fails.

Behaviours of the code that the model keeps:

- The total row of the station table adds up the rounded means of every station that has
  data, including stations the reindex then drops (`TableTotal`).
- The reindex finds the total row only when the second word of the line label is exactly
  "Line". All four labels the analysis uses pass this test (`AnalysisLabels`). A label such as
  "Orange Line(weekdays)" would display a blank total row.

## Model

| member | source | states |
|---|---|---|
| Config.ClosureWindowsAdjacent | main.py:24-29 | the before window ends the day before the after window starts; no day is in both; they span 34 and 59 days |
| Config.StationList | main.py:229-234 | a label starting "Orange Line" or "Blue Line" selects a station list and no other label does; a selected list is non-empty and names no station twice |
| Common.WindowRows | main.py:274-275 | the rows kept are exactly the rows dated inside the window, each as many times as in the input (a mask keeps every selected row once) |
| Rounding.RoundHalfEven | main.py:199 | the result is within half a unit of num/den, and is even when exactly half a unit away |
| Rounding.RoundHalfEvenUnique | main.py:203 | at most one integer satisfies the half-to-even rounding specification |
| Decimal.IntTextRoundTrip | main.py:304 | the decimal text of an integer (Python `str`) reads back as that integer |
| Decimal.PercentTextRoundTrip | main.py:303-305 | a "% Change" cell ends in '%' and reads back as the integer it was made from |
| Grouping.GroupSum | main.py:101-102 | one group per distinct key; the group sums add up to the total of the items |
| Grouping.GroupSumLookup | main.py:101-102 | each key's group holds the sum and the number of that key's items |
| Grouping.GroupSumFilter | main.py:198 | selecting groups by key equals grouping the items selected by key |
| RecordFilter.SharedStops | main.py:56-62 | exactly the labels "Blue Line" and "Orange Line" have shared stops; each shared stop is one of that line's stations |
| RecordFilter.LineEntries | main.py:40-81 | fails exactly for a label with no stop list; otherwise every output record has the line's label, and only weekdays when asked |
| RecordFilter.LineEntriesSound | main.py:57-79 | every output record is an input record the filter retains, with only its route label replaced |
| RecordFilter.LineEntriesComplete | main.py:57-79 | every retained input record appears in the output, relabelled |
| RecordFilter.LineEntriesExact | main.py:56-81 | the output is exactly the retained input records, each once and in input order, relabelled with the line |
| RecordFilter.SharedStopRetained | main.py:57-67 | a record at one of the line's shared stops is kept whatever its original label |
| RecordFilter.OrangeStopsOnly | main.py:59-61 | every Orange Line output record is at one of the northern stations |
| RecordFilter.WeekdaysOnlyIsRestriction | main.py:73-79 | the weekdays-only output is the full output with non-weekday records removed, in order |
| RecordFilter.RelabelInPlace | main.py:66-67 | the array afterwards holds the records relabelled position by position |
| RecordFilter.GetLineEntries | main.py:57-81 | returns LineEntries of the original table; the caller's table is relabelled for the Blue Line and unchanged otherwise |
| DailyAggregator.DailyRidership | main.py:101-103 | one row per distinct (date, stop) of the records; each row's total is that key's entries; the grand total is conserved |
| DailyAggregator.DailyRidershipSize | main.py:101-102 | there are exactly as many rows as distinct (date, stop) pairs |
| LineStatistics.LatestIndex | main.py:193 | the chosen day has the largest date |
| LineStatistics.OverallStats | main.py:190-203 | a non-zero before average and a percent change that rounds 100 * (recent - average) / average half to even |
| LineStatistics.OverallStatsRecent | main.py:190-194 | the recent date is the latest date present and the recent value is the line's total on it |
| LineStatistics.OverallStatsBefore | main.py:198-199 | the average is the window's total entries over its number of distinct dates, rounded half to even |
| LineStatistics.OverallStatsErrors | main.py:193-203 | no rows, no before-window row, and an average that rounds to 0 are exactly the error cases |
| Completeness.CheckMissing | main.py:209-247 | the loop's report equals MissingReport |
| Completeness.MissingReport | main.py:227-247 | an unknown label reports nothing; a reported missing set holds only listed stations |
| Completeness.MissingReportSpec | main.py:227-247 | a date is reported iff it has fewer rows than the line has stations; its missing set is the list minus the stops present; no date twice; an unknown label reports nothing |
| Completeness.NothingMissing | main.py:227-237 | when every date has a row per station, nothing is reported |
| Completeness.ReportedDatesLackAStation | main.py:227-247 | every reported date lacks at least one listed station |
| SetSums.SumAsSetSum | main.py:299 | a column sum over rows with distinct names does not depend on the rows' order |
| StationStatistics.Derive | main.py:301-305 | Differential is After - Before and "% Change" reads back as 100 * Differential / Before rounded half to even |
| StationStatistics.DeriveColumns | main.py:301-305 | fails exactly when some Before value is 0; otherwise yields the derived row of every row |
| StationStatistics.StationStats | main.py:255-313 | runs the completeness check on the after rows and returns StationTable |
| StationStatistics.TotalRowKept | main.py:298-313 | a bare line name keeps the total row; a line name followed directly by "(" loses it |
| StationStatistics.Reindex | main.py:310-313 | one row per listed station, then the total row; the rows' contents are stated by TableStations and TableTotal |
| StationStatistics.Table | main.py:274-313 | a table comes only from two non-empty windows and a label with a station list, and has one row per listed station plus the total; the error cases are stated by TableErrors |
| StationStatistics.StationTable | main.py:274-313 | fails with EmptyWindow exactly when the daily table has no row in the before window or none in the after window |
| StationStatistics.MeanRowsFacts | main.py:287-297 | one row per station with data, holding its rounded Before and After means; the columns sum to the sums of those means |
| StationStatistics.ZeroBeforeSpec | main.py:296-305 | a zero Before value arises exactly from a station mean or the total rounding to 0 |
| StationStatistics.TableErrors | main.py:274-305 | the empty-window, station-in-one-window, zero-Before and unknown-label cases are exactly the errors |
| StationStatistics.TableStations | main.py:309-313 | one row per listed station in list order, then the total; a station's row is filled iff it has data and then holds its rounded means |
| StationStatistics.TableTotal | main.py:296-313 | the total row is displayed iff the label's second word is "Line", and it sums the rounded means of every station with data |
| StationStatistics.TableDerived | main.py:301-305 | every filled row, total included, has Before != 0, Differential = After - Before and a matching "% Change" |
| StationStatistics.TotalIsColumnSum | main.py:296-313 | when every station with data is listed, the total row is the column sum of the displayed rows in Before, After and Differential |
| StationStatistics.AnalysisLabels | main.py:298-313 | the analysis's four labels select a station list and keep their total row; "Orange Line(weekdays)" loses it |
| StationStatistics.DeriveExamples | main.py:301-305 | 200 to 150 gives -50 and "-25%"; 8 to 9 gives 1 and "12%" (12.5 rounds to even) |
| StationStatistics.ClosureWindowsShareNoRow | main.py:274-275 | no daily row falls in both closure windows |

## Left out

- CSV reading, the hard-coded file paths, pandas display options and the `Main` driver. These
  are I/O and glue. The model's inputs are sequences of records.
- `plot_ridership`: rendering only.
- Printing and `strftime` formatting. `check_missing` returns its (date, missing set) pairs;
  `overall_stats` returns its three numbers; `station_stats` returns its table.
- Floating point. Means and percent changes are exact rationals, rounded half to even.
  - A float quotient can land on the other side of a rounding boundary from the exact value.
    This case is not modelled.
- `pd.to_datetime` parsing. Dates are already day numbers.
- 64-bit integer overflow. Entry counts are unbounded integers.
- The `.round()` and `astype(int)` in `daily_ridership`. Entry counts are integers, so both
  steps change nothing.
- Group order:
  - The model's group-by emits groups in first-appearance order. pandas sorts the keys, and
    `value_counts` orders dates by count.
  - So the order of the daily table and of the reported missing dates may differ from the
    source's.
  - The displayed station table is unaffected, because the reindex fixes its order.
- Grouping.GroupSum: rows with a missing (NaN) key, which pandas' `groupby` drops, are not
  modelled. Every record has a key.
- StationStatistics.Table: a label that starts with neither line name returns
  `Err(UnknownLine)`.
  - The source then prints the table without reindexing, in pandas' order.
  - For a one-word label, the source instead fails at `line.split()[1]`.
- StationStatistics.Table: a station literally named like the total label is not modelled.
  In the source, the total assignment would overwrite that station's row.
- RecordFilter.GetLineEntries: the Blue Line also rewrites the caller's date column in place.
  Dates are already day numbers, so this is not modelled.
