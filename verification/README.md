# The tidy-and-join pipeline of the Olin utility / weather study, in Dafny

This project models the table-wrangling core of `functions/functions_manage_data.py`:

- **`tidy_data`**: reshaping the utility workbook. One sheet per fiscal year, FY13 to FY23, each transposed, narrowed to five variables, relabelled in snake case, stacked, with incomplete rows dropped.
- **`join_dataframes`**: the `YYYY-MM` period key of the billing start date and of the weather date, and the inner join on it.
- **`SEASONS`** and **`filter_season`**.
- **`merge_all_df`**:
  - the left fold that merges the weather series on `date`, narrowing and relabelling after each merge;
  - the join with the utility table;
  - the dropped date columns;
  - the two derived columns: the peak-demand time as a fractional hour, and the month number.

pandas is given an explicit meaning over immutable values:
- A `Frame` is a sequence of column labels and a sequence of rows.
- A cell is `None` where pandas holds NaN or NaT.
- Row order is significant.
- An inner merge gives, for every left row in order, every right row with an equal key. Two missing keys are equal, as they are in pandas.
- A merge key must label exactly one column on each side, and shared non-key labels get `_x` / `_y`.
- A boolean mask (`df[mask]`, `.loc[:, mask]`, `filter(regex=…)`, `dropna`) keeps order.
- `df.columns = labels` fails with a length mismatch unless the counts agree.

The exceptions the pipeline raises on the inputs modelled here are `Fault` values in a `Result`:
- `KeyError`, `IndexError` and `LengthMismatch(axis, labels)`;
- `MissingSheet` (the `ValueError` of `read_excel` on a sheet the workbook lacks);
- `NotUnique` (merge key);
- `ParseError` (`to_datetime`);
- `NotDatetimeLike` (`.dt` on a column that is not datetime);
- `BadLabel` (a datatype cell that is not text, so not a label of this model; see Left out);
- `Unbound` (a local read before it is assigned).

Modules, in dependency order:

| module | file | contents |
|---|---|---|
| `Wrappers` | wrappers.dfy | `Option`, `Result`, `Fault` |
| `Seqs` | seqs.dfy | order-preserving masks, counting, concatenation |
| `Text` | text.dfy | digit strings, zero padding, substring search, the `[A-Z]{k}` search |
| `Dates` | dates.dfy | timestamps, ISO parsing as `to_datetime` does it, `%Y-%m` / `%m` renderings, fractional hours |
| `Frames` | frames.dfy | frames and the pandas operations used |
| `MergeLaws` | merge_laws.dfy | what the inner join means, and its cardinality bounds |
| `Seasons` | seasons.dfy | `SEASONS`, `filter_season` |
| `Join`, `JoinLaws` | join.dfy | `join_dataframes` and its laws |
| `Tidy`, `TidyLaws` | tidy.dfy, tidy_laws.dfy | `tidy_data` and a direct description of its result |
| `MergeAll` | merge_all.dfy | `merge_all_df`: fold, join, drop, derived columns |
| `MergeAllLaws` | merge_all_laws.dfy | one pass of the weather fold on NOAA-shaped tables |
| `WeatherFoldLaws` | weather_fold_laws.dfy | the whole weather fold, by induction over the passes |

## Model

| member | source | states |
|---|---|---|
| Seasons.SeasonsPartitionMonths | functions/functions_manage_data.py:19-24 | The four season names are the only keys. Every listed string is the zero-padded code of a month 1..12 of that season by the calendar (December to February is winter, then runs of three). A month's code is listed under a season exactly when it is the month's calendar season. So the lists are pairwise disjoint and cover all twelve months. |
| Seasons.MonthListed | functions/functions_manage_data.py:19-24 | Every month 1..12, zero-padded, is listed under its calendar season. |
| Seasons.ListedMonth | functions/functions_manage_data.py:19-24 | Every listed string is the zero-padded code of some month 1..12 that the calendar places in that season. |
| Seasons.FilterSeason | functions/functions_manage_data.py:108-123 | Succeeds exactly when the frame has a `date` column of timestamps or NaT and the season is a key. Without `date` it is `KeyError("date")`; an unknown name such as "winter" is an error. On success the labels are unchanged. A row is kept exactly when it is an input row whose date month is listed for the season. The kept rows are those of an independent recursive list filter, so input order is preserved. |
| Seasons.FilterSeasonIdempotent | functions/functions_manage_data.py:120-122 | Filtering a season's rows by the same season again changes nothing. |
| Join.JoinDataframes | functions/functions_manage_data.py:70-87 | A utility table without `start_read_date` is a `KeyError`, and so is a weather table without `date`. The mutated utility table has only `start_read_date` replaced and `year-month` added; likewise the weather table with `date`. Every other cell of both arguments is unchanged. |
| JoinLaws.KeySide | functions/functions_manage_data.py:82-85 | After parsing and keying, `year-month` is the new last label. Each row is the input row with its date parsed by `to_datetime`, followed by the `%Y-%m` key of that parsed date. |
| JoinLaws.JoinShape | functions/functions_manage_data.py:82-86 | For argument tables with disjoint labels, the joined labels are the utility labels, `year-month`, then the weather labels. The joined rows are the inner join of the two keyed tables. |
| JoinLaws.JoinPairsSameMonth | functions/functions_manage_data.py:82-86 | A row is in the join exactly when it is a utility row (with its key) followed by a weather row (without its key) whose parsed dates fall in the same calendar month, or are both missing. |
| JoinLaws.CountByMonth | functions/functions_manage_data.py:82-86 | Keyed rows join into one row for every pair of a utility row and a weather row whose dates share a month or are both missing. |
| JoinLaws.JoinCountSameMonth | functions/functions_manage_data.py:82-86 | The joined table has one row for every pair of a utility row and a weather row whose parsed dates share a month (or are both missing): a billing month with three weather days gives three rows. |
| JoinLaws.JoinCardinalityByMonth | functions/functions_manage_data.py:82-86 | With at most one date per month on each side, the join has no more rows than either table. |
| JoinLaws.PeriodKeyIsPrefix | functions/functions_manage_data.py:82-83 | For a billing date given as ISO text, the period key is the text's first seven characters. |
| JoinLaws.FilterSeasonAfterJoin | tests/test_functions_manage_data.py:62-67 | The property the season test asserts: a row `filter_season` keeps from the join has a seven-character `year-month` whose month part is listed for the season. |
| MergeLaws.JoinRowsMember | functions/functions_manage_data.py:86 | A row is in the inner join exactly when it combines a left row and a right row with equal keys. |
| MergeLaws.MatchRowsMasked | functions/functions_manage_data.py:86 | The matches of one left row are its combinations with exactly the right rows of equal key, in right-row order, one per matching right row. |
| MergeLaws.JoinRowsCount | functions/functions_manage_data.py:86 | The inner join has as many rows as there are pairs of a left row and a right row with equal keys. |
| MergeLaws.JoinKeyInBoth | functions/functions_manage_data.py:86 | Every key in the join occurs in both inputs. |
| MergeLaws.JoinCardinality | functions/functions_manage_data.py:86 | With unique keys on both sides, the join has at most min(n, m) rows. |
| MergeLaws.JoinUniqueRight | functions/functions_manage_data.py:86 | With unique right keys, the join is the left rows that have a partner, in order, each extended by that partner. |
| Dates.ParseTimestamp | functions/functions_manage_data.py:82-84 | `to_datetime` on text succeeds exactly when the text has an ISO layout whose fields name a real instant, and then gives that instant. Anything else is a `ParseError` naming the text. |
| Dates.ParsedPeriodKey | functions/functions_manage_data.py:82-83 | The `%Y-%m` key of a parsed date is the text's first seven characters, whatever the day and time. |
| Dates.PeriodKeySameMonth | functions/functions_manage_data.py:83-85 | Two instants have the same period key exactly when they share year and month. |
| Dates.ParsePeriodKey | functions/functions_manage_data.py:244 | Parsing a period key back gives midnight on the first of that month, so the month number read from `year-month` is the key's month. |
| Dates.ParseIsoText | functions/functions_manage_data.py:82-84 | Parsing the `YYYY-MM-DDTHH:MM:SS` or `YYYY-MM-DD HH:MM:SS` text of an instant gives the instant back. |
| Dates.ParseDateText | functions/functions_manage_data.py:82-84 | Parsing the `YYYY-MM-DD` text of a day gives midnight of that day. |
| Dates.FractionalHour | functions/functions_manage_data.py:240-243 | `hour + minute / 60` lies in [0, 24) and between the hour and the next hour. |
| Dates.FractionalHourInjective | functions/functions_manage_data.py:240-243 | The fractional hour determines hour and minute. |
| Text.PadDigitsValue | functions/functions_manage_data.py:83 | Reading a digit string as a number and zero-padding it back to its width gives the string. |
| Text.ContainsSpec | functions/functions_manage_data.py:215 | The substring search behind `date` and `value` in the regular expression holds exactly when the text occurs somewhere. |
| Text.HasUpperRunSpec | functions/functions_manage_data.py:215 | The search for `[A-Z]{k}` holds exactly when the label has k upper-case ASCII letters in a row. |
| Tidy.Transpose | functions/functions_manage_data.py:156 | The transposed block has swapped dimensions, and cell (j, i) is the block's cell (i, j). |
| TidyLaws.TransposeInvolution | functions/functions_manage_data.py:156 | Transposing twice gives the block back. |
| Tidy.KeepPresent | functions/functions_manage_data.py:156-158 | The first loop's body fails (`IndexError`) exactly when the sheet has no columns. Otherwise every kept header cell is present. |
| Tidy.KeepUseful | functions/functions_manage_data.py:171-180 | The second loop's body succeeds exactly when five header cells are useful. Otherwise it is `LengthMismatch(n, 5)` with n the useful count. On success there is one five-cell row per data column, with the header row gone. |
| Tidy.ReadSheets | functions/functions_manage_data.py:151-159 | The first loop succeeds exactly when every named sheet exists and has a column. Each result is that sheet's `KeepPresent`, in order. A failure is `MissingSheet` naming a listed sheet the workbook lacks, or an `IndexError`. |
| Tidy.FilterSheets | functions/functions_manage_data.py:162-180 | The second loop succeeds exactly when every sheet's body does. Each result is that body's, and a failure is the fault of one of the sheets. |
| Tidy.TidyData | functions/functions_manage_data.py:149-186 | Succeeds exactly when every sheet FY13..FY23 exists and has exactly five useful headers. The result has the five snake-case labels and no missing cell. A missing or empty sheet is reported in preference to a length mismatch, and a mismatch names the useful count of a sheet that does not fit. |
| Tidy.TidyFaults | functions/functions_manage_data.py:152-180 | Because the first loop ends before the second starts, a missing or empty sheet wins over any length mismatch. A length mismatch is that of a sheet that does not fit. |
| Frames.DropNA | functions/functions_manage_data.py:186 | `dropna` keeps the labels, and its rows are the complete rows of the input. |
| Frames.CompleteRowsFilter | functions/functions_manage_data.py:186 | The complete rows are those of a head-first list filter: the first row is kept exactly when it has no missing cell, followed by the complete rows of the rest. So order is kept and nothing else is added. |
| TidyLaws.SheetDirect | functions/functions_manage_data.py:152-180 | The two loop bodies on one sheet give its reference reshape, computed without transposing: for every column after the header column, the cells of the rows with a useful header. |
| TidyLaws.CompleteRowsFlatten | functions/functions_manage_data.py:183-186 | Dropping incomplete rows after stacking equals stacking the blocks with their incomplete rows dropped. |
| TidyLaws.TidyDirect | functions/functions_manage_data.py:149-186 | The saved table is the complete rows of the sheets' reference reshapes, sheet by sheet in FY13..FY23 order. |
| TidyLaws.TidyMember | functions/functions_manage_data.py:149-186 | A row is saved exactly when it is complete and is the useful cells of some billing column of one of the eleven sheets. |
| TidyLaws.LabelsFaithful | functions/functions_manage_data.py:164-179 | The positional relabelling gives every kept column its intended name exactly when the sheet lists the five variables in the order start, end, consumption, peak time, cost. |
| Frames.Merge | functions/functions_manage_data.py:212 | `pd.merge` succeeds exactly when the key labels one column on each side, and a missing key is a `KeyError`. |
| Frames.SetLabels | functions/functions_manage_data.py:221 | Relabelling succeeds exactly when the counts agree; otherwise `LengthMismatch(columns, labels)`. |
| Frames.FilterColumns | functions/functions_manage_data.py:215 | A label survives `filter` exactly when it satisfies the predicate. The survivors keep their order, and rows keep their number. |
| Frames.FilterColumnsCells | functions/functions_manage_data.py:215 | Every cell of the narrowed frame is the input's cell in the same row under the same label. |
| Frames.DropColumns | functions/functions_manage_data.py:235-237 | `drop` succeeds exactly when every named label is present. A missing one is a `KeyError` naming it. The result has exactly the other labels, in their order, and each of its cells is the input's cell under the same label. |
| MergeAll.DatatypeCodes | functions/functions_manage_data.py:219 | A merged frame without rows is an `IndexError`. Otherwise the codes are the text cells of the first row under the labels containing `datatype`, in column order. |
| MergeAll.DatatypeCodesOk | functions/functions_manage_data.py:219 | The codes are read exactly when there is a first row and every cell of it under a `datatype` label is text. |
| MergeAll.StepWith | functions/functions_manage_data.py:210-222 | A pass keeps the names so far as a prefix of the labels. Its faults are a missing or non-unique `date`, no rows, a non-text code, or a label count that does not fit. |
| MergeAll.MergeStep | functions/functions_manage_data.py:212-222 | The pass as written (regular-expression filter alone) keeps the running names as a label prefix. |
| MergeAll.IntendedStep | functions/functions_manage_data.py:212-222 | The corrected pass (see Findings) keeps the running names as a label prefix. |
| MergeAll.MergeWeather | functions/functions_manage_data.py:208-232 | No tables is an `IndexError` at `list_df_weather[0]`. One table leaves `df_filtered` unbound at the join. A success is well formed with `date` first. |
| MergeAllLaws.FirstStep | functions/functions_manage_data.py:209-222 | The first pass over two NOAA tables behaves the same with either filter. It fails (`IndexError`) exactly when they share no date. Otherwise the labels are `date` and the two codes, and the rows are exactly the date/value/value triples the two tables agree on. |
| MergeAllLaws.NextStep | functions/functions_manage_data.py:210-222 | A later corrected pass fails exactly when no date is shared. Otherwise it appends the new code, and extends each running row by the value of every new row on the same date. |
| MergeAllLaws.WrittenNextAgrees | functions/functions_manage_data.py:215 | A later pass as written equals the corrected one when every running code matches the regular expression, or when no date is shared. |
| MergeAllLaws.WrittenNextBreaks | functions/functions_manage_data.py:215-221 | A later pass as written, with a shared date and a running code the expression misses, is `LengthMismatch(kept + 1, running + 1)`. |
| WeatherFoldLaws.FoldShape | functions/functions_manage_data.py:210-222 | From any stage, the rest of the corrected loop fails only when no date is shared by all tables. Otherwise it labels `date` and the codes and holds exactly the matching rows. |
| WeatherFoldLaws.MergeWeatherNoaa | functions/functions_manage_data.py:208-232 | On NOAA tables, the corrected merge behaves as follows. No tables is an `IndexError`, one is unbound. From two tables on, it fails (`IndexError`) exactly when no date is in every table. Otherwise its labels are `date` followed by the codes in table order, and its rows are exactly a date followed by one value of each table on that date. |
| WeatherFoldLaws.MergeWeatherWrittenAgrees | functions/functions_manage_data.py:215 | The merge as written equals the corrected one when every code but the last has four upper-case letters in a row. |
| WeatherFoldLaws.MergeWeatherWrittenBreaks | functions/functions_manage_data.py:215-221 | With three or more tables sharing a date and an earlier code the expression misses, the corrected merge succeeds. The written one fails with fewer columns than labels. |
| WeatherFoldLaws.ThirdPassBreaks | functions/functions_manage_data.py:215-221 | With a shared date and one of the first two codes missed, the written loop fails at the third table with `LengthMismatch(kept + 1, 4)`. |
| WeatherFoldLaws.Dx90Breaks | functions/functions_manage_data.py:215-221 | Tables for `TAVG`, `DX90` and `PRCP` on one day: as written the merge is `LengthMismatch(3, 4)`, while the corrected merge holds that day under `date, TAVG, DX90, PRCP`. |
| MergeAll.PeakHour | functions/functions_manage_data.py:240-243 | NaN stays NaN. A timestamp becomes `hour + minute / 60`. Text converts exactly when it parses as an ISO timestamp or a time of day, and becomes `hour + minute / 60` of that timestamp, or else of that time of day. Every result lies in [0, 24). |
| MergeAll.MonthOf | functions/functions_manage_data.py:244 | Converts exactly when `to_datetime` does. NaT stays missing, and a month is 1..12, the month of the parsed text. |
| MergeAll.ConvertColumn | functions/functions_manage_data.py:240-244 | A missing source column is a `KeyError`. The target column holds the converted cells, appended when new. Every other cell is unchanged. |
| MergeAll.AddDerived | functions/functions_manage_data.py:240-244 | Requires the peak-demand column. The labels become the old ones plus `time_of_peak_demand` and `month`, and the row count is kept. |
| MergeAll.DerivedCells | functions/functions_manage_data.py:240-244 | Row by row, the peak cell is `PeakHour` of the input's peak cell and the `month` cell is `MonthOf` of its `year-month` cell. Every other cell is unchanged, and the peak column keeps its position. So each row holds an hour of the day in [0, 24) or NaN, and a month 1..12 or NaN. |
| MergeAll.Finish | functions/functions_manage_data.py:232-244 | After join, drop and conversion, `start_read_date`, `end_read_date` and `date` are gone, and `time_of_peak_demand` and `month` are present. There is one row per row of the joined table. |
| MergeAll.FinishCells | functions/functions_manage_data.py:232-244 | Each saved row is the joined row without the three date columns. Its peak cell is the fractional hour of the joined peak cell, and its `month` cell is the month of the joined `year-month`. |
| MergeAll.MergeAllDf | functions/functions_manage_data.py:192-246 | `merge_all_df` fails with an `IndexError` on no tables and `Unbound` on one. A fault of the weather loop is the result's fault. A result lacks the three date columns and has the two derived ones. |
| MergeAll.MergeAllDfCells | functions/functions_manage_data.py:192-246 | A result means the weather loop and the join both succeeded. Each result row is a joined row without the three date columns, with the fractional hour of its peak demand and the month of its `year-month`. |
| WeatherFoldLaws.MergeAllDfDx90 | functions/functions_manage_data.py:208-246 | `merge_all_df` as written fails with `LengthMismatch(3, 4)` on tables for `TAVG`, `DX90` and `PRCP` sharing a day, whatever the utility table. |

Where the code and the repository's own description of it differ, the model follows the code:

- A sheet without exactly five allow-listed headers makes pandas refuse the five new labels. That is `LengthMismatch(n, 5)`, not a dedicated format error, and it is raised only after every sheet has been read.
- `filter_season` reads the month of the `date` column, not of the period key. `JoinLaws.FilterSeasonAfterJoin` shows the two agree after the join.
- The merged weather table has one column per table only when every code but the last has four upper-case letters in a row; see Findings. `MergeAll.MergeAllDf` runs the loop as written when its `intended` flag is false, which is the code's behaviour.
- A single weather table does not give that table: `df_filtered` is unbound at the join.

## Left out

- Fetching from the weather API, reading the JSON, reading the workbook and reading and writing CSV files are I/O and are not modelled. This includes the fallback to the jittered CSV. The sheets, the weather tables and the utility table are parameters, with each sheet as the block `read_excel(header=None, usecols="C:O", nrows=44)` returns.
- `calc_weather_util_corr` is not modelled: it is a floating-point Pearson correlation computed by numpy.
- The F-test, plotting, jittering and the older script variants in the other files are not modelled. They are library wrappers, random noise or duplicates mixed with I/O.
- `to_datetime` is modelled on the inputs the pipeline gives it, and nothing more:
  - ISO text (`YYYY-MM`, `YYYY-MM-DD`, with an optional `T` or space time `HH:MM[:SS]`), timestamps and NaN;
  - for the peak-demand column, also a bare `HH:MM[:SS]`.

  Numbers and other text formats are a `ParseError`, where pandas would guess. Years are 1..9999, not pandas' 1677..2262 nanosecond range.
- pandas' index is not modelled: every frame carries the default positional index, so the column assignments at lines 240-244 align row by row.
- Column dtypes are not modelled. Cells carry their own kind (text, integer, float, timestamp), and the numeric values of weather and cost cells are never inspected.
- MergeAll.DatatypeCodes: a datatype cell that is not text is a `BadLabel` fault. pandas accepts any hashable value, a number say, as a column label. The NOAA tables carry text codes there.
- MergeAll.PeakHour: `hour + minute / 60` is an exact rational here. pandas computes it in float64, so 20 minutes is 0.3333333333333333 there, not one third. The range and the ordering of the hours agree, but equality with pandas' float is not claimed.
- Dates.FractionalHour: the same exact-rational reading of `hour + minute / 60`, where pandas rounds to float64.
- JoinLaws.JoinShape: stated for argument tables with disjoint labels and no `year-month` yet. Shared labels get `_x`/`_y` suffixes in `Frames.Merge`, but the join laws do not describe that case.
- WeatherFoldLaws.MergeWeatherNoaa: the row characterisation of the weather fold is stated for tables with the flattened NOAA layout (`date, datatype, station, attributes, value`, one code per table). It also requires codes that are not themselves NOAA labels and do not contain `datatype`. `MergeAll.MergeWeather` itself runs on any tables.
- WeatherFoldLaws.MergeWeatherWrittenBreaks: states only that the fault has fewer columns than labels. The exact counts are given per pass by `MergeAllLaws.WrittenNextBreaks` and for the third table by `WeatherFoldLaws.ThirdPassBreaks`.

## Findings

| source | as written | input that shows it | evidently intended | confidence | as-written member | corrected member |
|---|---|---|---|---|---|---|
| functions/functions_manage_data.py:215 | After each merge, `filter(regex="date\|value\|[A-Z]{4}")` also decides which earlier code columns survive. A code without four upper-case letters in a row, such as `DX90`, loses its column at the next pass, and the relabelling at line 221 then has one label too many. | Three one-row tables for `TAVG`, `DX90` and `PRCP` on 2023-01-01: the third pass keeps 3 columns for the 4 labels `date, TAVG, DX90, PRCP`, giving `LengthMismatch(3, 4)` (`WeatherFoldLaws.Dx90Breaks`). | Keep the columns already named after a code, so the merge yields `date` plus one column per table and holds the dates every table has (`WeatherFoldLaws.MergeWeatherNoaa`). | not executed | MergeAll.MergeStep | MergeAll.IntendedStep |

`MergeAll.MergeAllDf` takes an `intended` flag. With `false` it runs the loop as written, and `WeatherFoldLaws.MergeAllDfDx90` shows the whole function then fails on the three tables above. With `true` it runs the corrected pass. `WeatherFoldLaws.MergeWeatherWrittenAgrees` shows that the pass as written gives the same result whenever every code but the last matches the expression; `TAVG`, `PRCP`, `TMAX` and the like all do.
