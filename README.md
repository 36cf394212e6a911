# PFO personal-finance core, modelled in Dafny

PFO is a desktop personal-finance organiser. This project models its core in four parts.

- **Ingestion pipeline** (`preprocess_lib/csv.py`, `models/preprocess.py`). It turns a bank's CSV export into the canonical table `Data, Descrição, Valor, Saldo, Categoria`. Its steps:
  - cut the "Extrato Conta Corrente" preamble;
  - rename the `Data Lançamento` header;
  - detect the delimiter;
  - repair the text with three regular-expression passes (thousands dots, decimal commas, `DD/MM/YYYY` dates);
  - synthesise the missing `Saldo`/`Categoria` columns and reorder the columns into the canonical order;
  - convert the card-statement layout (`Tipo`/`Lançamento`/text `Valor`);
  - fall back between readers;
  - tag every row with the bank and drop the card-payment row.
- **Ledger store** `FinanceModel` (`models/finance.py`). A class whose table the methods replace:
  - recomputation (sort by `Data`, then set `Saldo` to the running sum of `Valor`);
  - adding, removing and editing a row;
  - two queries: the per-(date, category) sums, and the closing balance of each day.
- **Schema constants** (`schema/finance.py`, `schema/fatura.py`). The ordered column/type lists.
- **Chart layout helpers** (`chart_lib/functions.py`, `chart_lib/generate_chart.py`):
  - the subplot-spec grid and its in-place population;
  - the schedule labels;
  - the date range;
  - the first-occurrence legend and colour bookkeeping of the bar chart;
  - the collection of the `Aplicacao` (investment) bars.

Files, one module each:

| file | module | models |
|---|---|---|
| `wrappers.dfy` | `Wrappers` | Option/Result with failure propagation |
| `text.dfy` | `Text` | `find`, `split`, `replace`, `split(maxsplit=1)` and `split(':')[0]` on strings |
| `schema.dfy` | `Schema` | `FinanceSchema`, `FaturaSchema` |
| `frames.dfy` | `Frames` | a column-oriented data frame and the column and row operations the pipeline uses |
| `libs.dfy` | `Libs` | the CSV readers, dtype conversion and CSV writer as function values; the ordered fallback between reads |
| `repair.dfy` | `Repair` | `handle_tmp_file`'s three passes, the header rename and the preamble cut |
| `ingest.dfy` | `Ingest` | `check_integrity_with_finance`, `load_csv_df` and `pre_process_csv` of `preprocess_lib/csv.py` |
| `statement.dfy` | `Statement` | `models/preprocess.py` |
| `ledger.dfy` | `Ledger` | specification functions of the ledger: running balance, date sort, per-day and per-group queries |
| `finance_model.dfy` | `Finance` | the `FinanceModel` class |
| `grid.dfy` | `Grid` | `generate_grid_specs` and `populate_grid_specs` (both versions) |
| `chart.dfy` | `Chart` | labels, date range, the bar layout and the bar-trace bookkeeping of `create_plot_bar` |

Modelling conventions:
- A file path stands for the text the file holds.
- Money in the ledger is integer cents; amounts in ingested frames are exact reals.
- A date is a day number.
- Parsers and library readers are parameters, so the model holds for every reader, not for one.
- Polars' `sort` promises no order among rows with the same `Data`. So the ledger methods promise *some* date-sorted permutation ("recomputed"). The per-day query is proved independent of that choice (`Ledger.DayTotalsIgnoreTieOrder`). The per-(date, category) query is not: groups of one date come in the order of their first rows, so only their dates, keys and sums are promised.

Where the code and its accompanying description disagree, the model follows the code:
- The statement amount is the **leftmost** `digits,digits` match. So `R$ 1.234,56` gives `-234.56`, not `-1234.56` (`Statement.GroupedAmountLosesThousands`).
- In `preprocess_lib/csv.py`, the read that follows a first `ComputeError` (lines 41-44) uses the same arguments as the first read (lines 34-38). So for a deterministic reader it fails the same way, and the `Tipo` branch (lines 45-50) is never reached (`Ingest.SecondReadRepeatsFirst`).
- The friendly "missing column" message (lines 123-127) is never produced:
  - a missing `Categoria` without `Histórico` and `Descrição` raises `KeyError` from the `exception_cols` lookup itself;
  - on a table read without rows, pandas' `apply` on line 115 returns a copy of the table rather than a column, and assigning it to `Categoria` raises `ValueError` unless the table has a single column (`Ingest.StepEmptyCategory`, `Ingest.CheckIntegrityEmpty`);
  - a missing `Data`, `Descrição` or `Valor` is skipped by the loop and fails at the reorder on line 129 (`Ingest.CheckIntegrityColumns`).
- The bank/noise filter of line 62 also drops rows whose `Descrição` is null, as a polars comparison with null does.

## Model

| member | source | states |
|---|---|---|
| Schema.FinanceSchema | schema/finance.py:4-13 | without a mapping the columns are Data, Descrição, Valor, Saldo, Categoria in that order; a caller's mapping replaces the default |
| Schema.FinanceTypes | schema/finance.py:7-11 | Data is a Date, Valor and Saldo are Float64, Descrição and Categoria are strings, and the names are distinct |
| Schema.FaturaSchema | schema/fatura.py:4-13 | without a mapping the columns are Data, Lançamento, Categoria, Tipo, Valor in that order; a caller's mapping replaces the default |
| Schema.FaturaTypes | schema/fatura.py:7-11 | no Saldo and no Descrição column, Lançamento is a string, Valor is a String unlike the canonical Float64, Data a Date, Categoria and Tipo strings |
| Repair.CutPreamble | preprocess_lib/csv.py:29-30 | text without the preamble is kept whole; with it, success iff the text splits on the blank line into exactly two parts, the result is the second part, and otherwise it fails with the part count |
| Repair.RenameHeader | preprocess_lib/csv.py:87-89 | fails iff the text has no newline; otherwise it rewrites `Data Lançamento` to `Data` in the first line only and keeps the text after the first newline |
| Repair.RenameHeaderKeepsBody | preprocess_lib/csv.py:87-89 | the body after the header line is the unchanged suffix of the result |
| Repair.RenameHeaderIdentity | preprocess_lib/csv.py:87-89 | a header without `Data Lançamento` leaves the whole text as it was |
| Repair.DropThousandsKeepsTheRest | preprocess_lib/csv.py:147 | the thousands pass outputs, in their original order, exactly the characters at the positions that are not a dot with a digit before it and three digits after it |
| Repair.DecimalPoints | preprocess_lib/csv.py:149 | same length; a comma with a digit before and two digits after becomes a dot, every other character is kept |
| Repair.IsoDatesOnlyTouchesDates | preprocess_lib/csv.py:151 | the date pass keeps the length and changes no character outside a `DD/MM/YYYY` match it rewrites |
| Repair.IsoDatesFirstDate | preprocess_lib/csv.py:151 | the text before the leftmost `DD/MM/YYYY` is kept, that date becomes `YYYY-MM-DD`, and the pass resumes right after it |
| Repair.IsoDatesFromNextDate | preprocess_lib/csv.py:151 | from any position, the output is the text up to the next date, that date rewritten, then the pass from the end of that date, so every leftmost, non-overlapping date is rewritten |
| Repair.IsoDatesFromNoDate | preprocess_lib/csv.py:151 | with no date from a position on, the rest of the text is kept as it is |
| Repair.RepairGroupedAmount | preprocess_lib/csv.py:147-149 | applying the passes in order turns `1.234,56` into `1234.56` |
| Repair.RepairDate | preprocess_lib/csv.py:147-151 | the three passes turn `05/03/2024` into `2024-03-05` |
| Repair.DecimalPassIgnoresDelimiters | preprocess_lib/csv.py:149 | the comma pass merges the two comma-separated fields `1` and `10` into one, `1.10` |
| Ingest.FirstSplitting | preprocess_lib/csv.py:94-98 | the first candidate that occurs in the header, or none when no candidate occurs |
| Ingest.Separator | preprocess_lib/csv.py:92-100 | `,` iff the header has a comma; `;` iff it has no comma but a semicolon; none iff it has neither |
| Ingest.DetectSeparator | preprocess_lib/csv.py:92-98 | the loop with `break` returns `Separator(header)` |
| Ingest.CategoryCells | preprocess_lib/csv.py:115 | succeeds iff every description is text; each category is that description up to its first colon |
| Ingest.SynthStep | preprocess_lib/csv.py:105-122 | one schema column: when it succeeds, the table stays well formed with the same height, gains exactly the column when it is Saldo or Categoria, and no other column changes |
| Ingest.StepConverts | preprocess_lib/csv.py:117-122 | a present column is replaced by its converted cells, and a conversion failure is the step's failure |
| Ingest.StepAddsSaldo | preprocess_lib/csv.py:109-110 | a missing Saldo is added as 0.0 on every row |
| Ingest.StepCopiesHistory | preprocess_lib/csv.py:111-113 | a missing Categoria is copied from Histórico when that column exists |
| Ingest.StepDerivesCategory | preprocess_lib/csv.py:111-115 | on a table with rows and columns, without Histórico a missing Categoria comes from Descrição; without Descrição the step raises KeyError |
| Ingest.StepEmptyCategory | preprocess_lib/csv.py:114-115 | on a table without rows or columns, deriving Categoria succeeds iff the table has exactly one column, adding an empty Categoria, and otherwise raises ValueError |
| Ingest.StepCategoryCells | preprocess_lib/csv.py:115 | with Descrição, a derived Categoria holds, row by row, the Descrição text up to its first colon; without it, success means a table without rows and an empty Categoria |
| Ingest.StepSkips | preprocess_lib/csv.py:108-116 | a missing column other than Saldo and Categoria is skipped and leaves the table unchanged |
| Ingest.SynthesizeColumns | preprocess_lib/csv.py:104-127 | the loop over the schema columns computes `SynthOver(df, FinanceDefault)`, the passes applied in schema order, stopping at the first failure |
| Ingest.SynthKeeps | preprocess_lib/csv.py:104-127 | a column that no pass of the loop is for comes out of the loop unchanged |
| Ingest.SynthKeepsPresent | preprocess_lib/csv.py:104-127 | the loop removes no column |
| Ingest.SynthAdds | preprocess_lib/csv.py:108-115 | after a loop with a Saldo (Categoria) pass, Saldo (Categoria) is always present |
| Ingest.SynthAddsNoOther | preprocess_lib/csv.py:108-116 | any other column is present after the loop iff it was present before it |
| Ingest.SynthSaldo | preprocess_lib/csv.py:109-110 | a Saldo absent before a loop with one Saldo pass is 0.0 on every row after it |
| Ingest.SynthCategoryFromHistory | preprocess_lib/csv.py:111-113 | an absent Categoria equals Histórico after a loop with one Categoria pass and no Histórico pass |
| Ingest.SynthCategoryFromDescription | preprocess_lib/csv.py:114-115 | without Histórico, an absent Categoria is the Descrição prefixes after a loop whose last pass is its only Categoria pass; without Descrição a successful loop means no rows and an empty Categoria |
| Ingest.SynthNeedsDescription | preprocess_lib/csv.py:111-115 | with Categoria, Histórico and Descrição all absent, a loop over a table with rows that reaches a Categoria pass fails |
| Ingest.SynthEmptyFails | preprocess_lib/csv.py:104-115 | a table without rows that has Descrição, and Saldo by the Categoria pass, makes a loop reaching that pass fail |
| Ingest.SynthEmptyTable | preprocess_lib/csv.py:104-115 | over the canonical schema, a table without rows that has Descrição but neither Categoria nor Histórico makes the loop fail |
| Ingest.FinanceFields | schema/finance.py:7-11 | the canonical schema has one Saldo field (fourth), one Categoria field (last) and no Histórico, so the loop lemmas apply to it |
| Ingest.SynthThenSelect | preprocess_lib/csv.py:104-129 | after a successful loop over the canonical schema the reorder succeeds iff Data, Descrição and Valor were in the table read |
| Ingest.CheckIntegrity | preprocess_lib/csv.py:65-131 | fails without a newline; fails when the renamed header has neither separator; the separator returned is the detected one, the reader accepted the repaired text, the loop succeeded on the table read, and the text written is that loop's result reordered into exactly the canonical columns |
| Ingest.CheckIntegrityNeedsSeparator | preprocess_lib/csv.py:99-100 | a header with neither `,` nor `;` raises the not-parsed error |
| Ingest.CheckIntegrityColumns | preprocess_lib/csv.py:104-129 | once the loop succeeds, the check succeeds iff Data, Descrição and Valor were read, and otherwise fails with a KeyError |
| Ingest.CheckIntegrityEmpty | preprocess_lib/csv.py:104-115 | a file read into a table without rows, with Descrição but neither Categoria nor Histórico, fails the check |
| Ingest.LoadCsvDf | preprocess_lib/csv.py:157-186 | a non-empty schema is read as given; no schema or an empty one reads with the default FinanceSchema; the decimal flag is passed through |
| Ingest.KeepMask | preprocess_lib/csv.py:62 | one flag per row, set exactly for non-null descriptions other than the card-payment text |
| Ingest.PickSurviving | preprocess_lib/csv.py:62 | filtering the descriptions by the mask gives the surviving descriptions |
| Ingest.TagAndFilter | preprocess_lib/csv.py:61-62 | fails iff Descrição is missing; the columns are the input's followed by the bank column when it is new, and no others; every row is tagged with the bank; the descriptions left are exactly the kept ones; every other column keeps the same rows, in order |
| Ingest.SecondAttempt | preprocess_lib/csv.py:40-50 | a failing first read makes the retry fail with the same error |
| Ingest.SecondReadRepeatsFirst | preprocess_lib/csv.py:33-56 | the read chain is the first read unless that raised ComputeError, and then the repaired text re-read with the detected separator |
| Ingest.Locate | preprocess_lib/csv.py:27-31 | without the preamble the path and separator are kept; with it the text is cut and the separator comes from the integrity check |
| Ingest.PreProcessCsv | preprocess_lib/csv.py:11-62 | a result is a well-formed table where every row carries the bank and no kept row has the card-payment or a null description, and it is the tagging and filtering of a table read |
| Ingest.PreProcessReadable | preprocess_lib/csv.py:33-38 | a file that reads at once is only tagged and filtered |
| Ingest.PreProcessRepaired | preprocess_lib/csv.py:39-62 | a file whose read raises ComputeError is repaired, re-read with the detected separator, then tagged and filtered |
| Ingest.PreProcessPreamble | preprocess_lib/csv.py:27-62 | a file with the preamble is cut and checked only for the separator; the reads still see the original file, with that separator, and the result is tagged and filtered |
| Libs.Fallback | models/preprocess.py:30-39 | the outcome is the first attempt that did not raise ComputeError, or the last attempt |
| Libs.FallbackOfTwo | models/preprocess.py:30-39 | with two attempts the second is used exactly when the first raised ComputeError |
| Statement.FindAmountIsLeftmost | models/preprocess.py:12 | any `digits,digits` run in the text means a match is found, and it starts no later than that run |
| Statement.FindAmount | models/preprocess.py:12 | a match is a maximal `[0-9]+,[0-9]+` substring |
| Statement.ExtractAmount | models/preprocess.py:12 | text and null cells succeed and other cells fail; the amount is null iff no match exists, and otherwise the negated value of the leftmost match |
| Statement.AmountValueOfParts | models/preprocess.py:12 | `w,f` with digit strings `w` and `f` is read as the number `w` plus `f` divided by ten to the number of digits of `f` |
| Statement.ExtractColumn | models/preprocess.py:12 | succeeds iff every cell is text or null, cell by cell, with the same length |
| Statement.GroupedAmountLosesThousands | models/preprocess.py:12 | `1.234,56` yields -234.56 |
| Statement.AmountOf234 | models/preprocess.py:12 | `234,56` is read as 234.56 |
| Statement.Relabel | models/preprocess.py:10-11 | succeeds iff Tipo and Lançamento exist and Descrição does not; Descrição takes Lançamento's cells; Tipo and Lançamento are gone; other columns are unchanged |
| Statement.WithAmounts | models/preprocess.py:12-13 | succeeds iff Valor exists with extractable cells; Valor is extracted cell by cell; Saldo is 0.0 on every row; other columns are unchanged |
| Statement.SelectCanonical | models/preprocess.py:14 | succeeds iff all five canonical columns exist, otherwise fails naming the missing ones; the columns are exactly the canonical ones, each with its cells unchanged |
| Statement.StatementToCanonical | models/preprocess.py:10-14 | succeeds iff the table has the statement shape; the output columns are exactly Data, Descrição, Valor, Saldo, Categoria; height, Data and Categoria unchanged; Saldo 0.0 |
| Statement.StatementCells | models/preprocess.py:11-12 | the output Descrição is the old Lançamento, and Valor is the extracted amount row by row |
| Statement.LoadStatementCsv | models/preprocess.py:23-39 | a schema is one read with decimal commas; without one, FinanceSchema first and FaturaSchema only after a ComputeError |
| Statement.PreProcessStatement | models/preprocess.py:6-14 | a failing load's error is the result; a loaded table with Tipo gives the transformed table (or the transform's error); one without Tipo gives None, and None only comes from such a table |
| Frames.Select | preprocess_lib/csv.py:129 | reordering fails iff a requested column is missing, naming the missing ones; otherwise exactly the requested columns in the requested order |
| Frames.Drop | models/preprocess.py:10 | fails iff the column is missing; otherwise the column is gone and nothing else changes |
| Frames.Rename | models/preprocess.py:11 | the renamed column keeps its cells and place; a missing source or a clash fails |
| Frames.FilterRows | preprocess_lib/csv.py:62 | every column keeps the flagged rows, in order |
| Ledger.RunningBalance | models/finance.py:215 | balance i is the sum of Valor over rows 0..i |
| Ledger.LastBalanceIsTotal | models/finance.py:215 | the last balance is the total of Valor |
| Ledger.SortByDate | models/finance.py:214 | a date-sorted permutation of the rows |
| Ledger.SumIfPermutation | models/finance.py:214 | conditional sums do not depend on row order |
| Ledger.RecomputedLastBalance | models/finance.py:214-215 | after any recomputation the last balance is the total of the rows before it |
| Ledger.Dates | models/finance.py:227-231 | the distinct dates of the table, strictly ascending |
| Ledger.TotalAmountByDay | models/finance.py:227-231 | one entry per distinct date, strictly ascending, holding the balance of the last row of that date |
| Ledger.DayEndIsCumulative | models/finance.py:227-231 | on a table recomputed by `recalculate_data` a day's closing balance is the sum of Valor over rows dated on or before that day |
| Ledger.DayTotalsIgnoreTieOrder | models/finance.py:227-231 | two `recalculate_data` recomputations of the same rows, however ties were ordered, give the same per-day result |
| Ledger.GroupKeys | models/finance.py:220 | the distinct (Data, Categoria) pairs, each once, sorted by date |
| Ledger.PixData | models/finance.py:219-222 | one entry per distinct (Data, Categoria) pair, sorted by date, holding the sum of that group's Valor |
| Ledger.PixDataAddsUp | models/finance.py:219-222 | the group sums add up to the table total |
| Finance.Derived | models/finance.py:42-46 | only Categoria changes; it is the Descrição prefix before the first colon, or the whole description when there is none |
| Finance.NewEntry | models/finance.py:194-200 | the given date and description, Valor +amount for 'Entrada' and -amount otherwise, Categoria 'Manually added!' |
| Finance.WithoutRow | models/finance.py:153-155 | an index in range removes exactly that row and keeps the others in order; any other index changes nothing |
| Finance.Assign | models/finance.py:83-95 | fails exactly when the column's parse fails; otherwise the edited field takes the parsed date, the text or the parsed amount, only that field changes, and a write to Saldo leaves the row as it was |
| Finance.Editable | models/finance.py:112-115 | a column is editable iff it is not Saldo |
| Finance.AddedRow | models/finance.py:194-203 | after an add there is one more row, the old rows plus the new one, and the last balance is the old total plus its Valor |
| Finance.RemovedRow | models/finance.py:152-159 | after a removal at a valid index there is one row fewer, exactly that row is gone, and the last balance drops by its Valor |
| Finance.FinanceModel.constructor | models/finance.py:41-47 | every loaded row gets its derived Categoria; Saldo stays as loaded |
| Finance.FinanceModel.RowCount | models/finance.py:118-128 | the number of rows |
| Finance.FinanceModel.ColumnCount | models/finance.py:130-140 | the five canonical columns |
| Finance.FinanceModel.RecalculateData | models/finance.py:214-215 | the rows become a date-sorted permutation of themselves and Saldo their running sum |
| Finance.FinanceModel.AddRegistry | models/finance.py:194-203 | returns True; the rows become a recomputation of the old rows plus the new entry |
| Finance.FinanceModel.RemoveRegistry | models/finance.py:152-159 | returns True; the rows become a recomputation of the old rows without the row at the index (all of them when it is out of range) |
| Finance.FinanceModel.SetData | models/finance.py:80-99 | another role returns True and changes nothing; an empty value or a failed parse returns False and changes nothing; otherwise the row written as `Assign` states is put back and the table recomputed |
| Finance.FinanceModel.GetPixData | models/finance.py:219-222 | one entry per distinct (date, category) pair of the current rows, each pair once, holding that pair's sum, sorted by date, adding up to the total |
| Finance.FinanceModel.GetTotalAmountByDay | models/finance.py:227-231 | one entry per distinct date, ascending, holding the Saldo of that date's last row; once recomputed, each is the sum of Valor up to that date |
| Grid.GenerateGridSpecs | chart_lib/functions.py:21 | a fresh r×c grid whose cells are all None |
| Grid.SpecOf | chart_lib/functions.py:30-43 | a rowspan x2−x1+1 ≥ 2 exactly when x2 > x1, a colspan likewise, the title in this version, type domain iff pie, treemap iff treemap, and no type otherwise |
| Grid.SingleCellIsEmpty | chart_lib/generate_chart.py:163-172 | a one-cell object that is neither pie nor treemap gets `{}` |
| Grid.PlacedUntouched | chart_lib/functions.py:26-45 | a cell that is no object's top-left corner keeps what it held |
| Grid.PlacedLastWins | chart_lib/functions.py:26-45 | a cell holds the spec of the last object written at it |
| Grid.Positions | chart_lib/functions.py:44 | the names recorded are exactly the objects' names |
| Grid.PositionsLastWins | chart_lib/functions.py:44 | a name maps to the 1-based position of the last object with that name |
| Grid.PopulateGridSpecs | chart_lib/functions.py:24-45 | in place, every cell becomes what the objects written in order leave in it, and `obj_grid` records each name's 1-based position |
| Chart.BarLabel | chart_lib/generate_chart.py:88-98 | an unknown schedule is labelled Dia |
| Chart.ScatterLabel | chart_lib/generate_chart.py:297-307 | an unknown schedule is labelled diário |
| Chart.LabelsNameTheirSchedule | chart_lib/generate_chart.py:208-218 | each known schedule gets its own label and any other schedule the daily label, for both charts |
| Chart.DataRange | chart_lib/generate_chart.py:50-51 | n consecutive days starting at the first (none when n ≤ 0) |
| Chart.PlotBarLayout | chart_lib/generate_chart.py:182-190 | the 3×4 bar layout: `{}` at [0][0], domain at [1][0], a 3×3 treemap at [0][1], None elsewhere, positions bar (1,1), pie (2,1), treemap (1,2) |
| Chart.FirstOfIsFirst | chart_lib/generate_chart.py:224-231 | an index is its category's first occurrence iff that category does not occur before it |
| Chart.InvestedPairsUp | chart_lib/generate_chart.py:248-250 | the pie gets as many labels as values |
| Chart.InvestedNonNegative | chart_lib/generate_chart.py:248-250 | every investment value is non-negative |
| Chart.BarTraces | chart_lib/generate_chart.py:220-250 | the legend is shown exactly at each category's first index; every bar has the colour drawn at its category's first index; later bars of a category reuse it; the investments are the `Aplicacao` bars' amounts and descriptions, in order |

## Left out

- File I/O: reading the export, the timestamp-named temporary file, its writing and `os.remove` (`preprocess_lib/csv.py` lines 24-25, 58-59, 145-146, 152-154). A path stands for its text, and the text written is returned.
- The polars and pandas readers, dtype conversion (`to_datetime`, `astype`) and `to_csv`. They are function parameters of `Libs.Env`. `Libs.WellBehaved` assumes each returns tables with one cell per row and distinct column names, and that a conversion keeps the length.
- `float()` and `date.fromisoformat` in `setData` are the parameters `parseFloat` and `parseDate`.
- Floating point in the ledger: amounts are integer cents, so rounding of Float64 sums is not modelled.
- Finance.FinanceModel.constructor: takes the rows the `;`-separated, decimal-comma read returned, since the reader is not modelled there; null cells in the ledger table are not modelled.
- Finance.FinanceModel.SetData: requires a row and column inside the table; an index outside it, which Qt never sends, is not modelled.
- Finance.FinanceModel.RemoveRegistry: Qt's `beginRemoveRows`/`endRemoveRows` and `layoutChanged` notifications, like all Qt signals, are left out.
- `data`, `headerData`, the column icons and the rest of the Qt model wiring are presentation only.
- Plotly figures, traces, layout, `make_subplots`, the `:.2f` texts and `legendrank`. These are presentation; the grid specs and positions they consume are modelled.
- Chart.BarTraces: requires a `Y` value for every bar and a description for every `Aplicacao` bar. With shorter lists the source raises `IndexError`, and this error path is not modelled. Two more failures of the loop are not modelled either, because the bar's `x` and `legendrank` are presentation. One is the `IndexError` of an `X` list shorter than the categories (`generate_chart.py:234`). The other is the `ValueError` of `rankdf['Categoria'].index(cat)` for a category missing from the ranking (`generate_chart.py:243`).
- Random colours: `random.randrange` is the parameter `draw` of `Chart.BarTraces`, applied to the index where a colour is first drawn.
- `create_plot_bar_2` repeats the label match and legend loop of `create_plot_bar`. Both are covered by `Chart.BarLabel` and `Chart.BarTraces`, whose investment outputs `create_plot_bar_2` does not have.
- `generate_test_data` and `p_obj` (test data and printing).
- Grid.GenerateGridSpecs: the grid sizes are natural numbers; Python's behaviour for negative sizes (an empty list) is not modelled.
- Grid.PopulateGridSpecs: requires each object's top-left corner to be inside the grid (negative Python indices included); an out-of-range corner, which raises `IndexError`, is not modelled.
- The order polars gives rows of the same date after `sort`, and groups of the same date after `group_by`: the contracts allow any order among them.
