# merge_datasets: a Dafny model of the cricket data-merging pipeline

`merge_datasets.py` builds the training table of a cricket score predictor
from three inputs: ball-by-ball deliveries, match details and per-venue,
per-year geographical data. The model follows the function step by step.

1. **Inning scores.** The deliveries are grouped by `(match_id, inning)` and
   `total_runs` is summed. The aggregated column is renamed to
   `inning_score`. This table is inner-merged into the matches on
   `id = match_id`.
2. **Date, year and venue.** `date` is parsed and `Year` is taken from it.
   Venue names are normalised through the fixed 22-entry `venue_mapping`,
   falling back to the original name. The geographical table's `Stadium`
   column is renamed to `venue`.
3. **Geographical merge.** The matches are left-merged with the
   geographical table on `(venue, Year)`.
4. **Cleaning.** The identifier and leakage columns are dropped. Every
   missing cell of a numeric column is filled with that column's mean.

Tables are values:
- `Tables.Table` holds an ordered column list, the set of numeric (`np.number`) columns and rows.
- A row is a `map` from column name to cell.
- A cell is `None` (NaN) or `Some` value.
- A `pandas` `KeyError` becomes `Err(MissingColumns(..))`.
- A date that `pd.to_datetime` refuses becomes `Err(UnparseableDate(..))`.

The places where the script changes a DataFrame in place are methods of
`Frames.Frame`, a class with `columns`, `numeric` and `rows` fields:
- `rename(..., inplace=True)`;
- `df[col] = ...`;
- the column-by-column `fillna`.

`Pipeline.MergeDatasets` runs the script's steps on frames. It is proved
equal to the pure specification `Pipeline.MergedDataset`, which the
end-to-end lemmas are about.

The per-cell date parser, the year extraction and the averaging are
parameters:
- `toDatetime: Cell -> Option<Cell>`, where `None` means the parse raises;
- `yearOf: Cell -> Cell`;
- `mean: seq<Value> -> Value`.

The modules follow the pipeline:
- `Tables` holds tables, column reads and assignments, and renames.
- `Innings` holds the groupby-sum.
- `Venues` holds the name mapping.
- `Joins` holds the inner and left merges.
- `Cleaning` holds the drop and the fill.
- `Frames` holds the in-place frame.
- `Pipeline` holds the steps and the whole function.

`merge_datasets.py` does not remove duplicate (match, inning) pairs, derive
temporal features, fetch weather or drop a last-match-date column, so neither
does the model. It drops exactly the eight columns listed at lines 89-90.

Merge keys compare by value, as pandas compares numeric keys: an integer key
matches the float of the same number (`2017` matches `2017.0`), and a
missing key matches a missing key.

## Model

| member | source | states |
|---|---|---|
| Innings.InningScores | merge_datasets.py:40 | The groupby-sum, built by folding AddDelivery over the deliveries. InningScoresSorted, InningScoresKeys, InningScoresSums and InningScoresCount specify it: groups in sorted key order, one per played inning, each holding its inning's sum. |
| Innings.InningScoresSorted | merge_datasets.py:40 | The groupby result is strictly increasing in (match_id, inning), which is groupby's sorted group order. |
| Innings.InningScoresUniqueKeys | merge_datasets.py:40 | No two aggregated rows share a (match_id, inning) key. |
| Innings.InningScoresKeys | merge_datasets.py:40 | The keys of the aggregated rows are exactly the (match_id, inning) pairs that have at least one delivery. |
| Innings.MatchHasScores | merge_datasets.py:40 | A match id has an aggregated row if and only if some delivery belongs to that match. |
| Innings.InningScoresRecorded | merge_datasets.py:40 | The runs recorded under any key equal the sum of total_runs over that key's deliveries. For an unplayed key this is 0. |
| Innings.InningScoresSums | merge_datasets.py:40 | Each aggregated row's runs equal the reference sum of total_runs over the deliveries of its inning. |
| Innings.InningScoresCount | merge_datasets.py:40 | There is one aggregated row per played inning. |
| Innings.AddDelivery | merge_datasets.py:40 | Adding one delivery to the running groups. AddDeliveryKeys, AddDeliverySorted and AddDeliveryRecorded specify it: it adds only its own key, keeps the order, and adds its runs to its own group alone. |
| Innings.AddDeliveryKeys | merge_datasets.py:40 | Adding one delivery adds its key to the group keys and no other key. |
| Innings.AddDeliverySorted | merge_datasets.py:40 | Adding one delivery keeps the group table strictly sorted. |
| Innings.AddDeliveryRecorded | merge_datasets.py:40 | Adding one delivery raises its own group's total by its runs and leaves every other group's total unchanged. |
| Innings.RecordedUnique | merge_datasets.py:40 | In a strictly sorted table, the total recorded under a row's key is that row's runs. |
| Innings.RecordedAbsent | merge_datasets.py:40 | A key that precedes every row's key has nothing recorded. |
| Innings.SortedKeysCount | merge_datasets.py:40 | A strictly sorted table has as many distinct keys as rows. |
| Innings.SortedTail | merge_datasets.py:40 | The tail of a strictly sorted group table is strictly sorted and never repeats its head's key. |
| Innings.ScoreTable | merge_datasets.py:40 | `reset_index` gives a well-formed table with columns match_id, inning and total_runs, all numeric, one row per group holding that group's key and sum. |
| Pipeline.InningScoreTable | merge_datasets.py:40-41 | After the rename to inning_score, the table is well formed with columns match_id, inning and inning_score, all numeric. Row i carries the i-th group's key and sum. |
| Pipeline.InningScoreTableSpec | merge_datasets.py:40-41 | The renamed table has one row per played inning, in strictly increasing key order. Each row's inning_score is the total_runs sum of its inning. |
| Pipeline.InningScoreTableShape | merge_datasets.py:41 | Renaming total_runs to inning_score gives the inning-score header, keeps the table well formed and keeps the column numeric. |
| Pipeline.RenamedScoreRow | merge_datasets.py:41 | Renaming one aggregated row moves its sum from total_runs to inning_score and keeps its key cells. |
| Tables.RenameColumn | merge_datasets.py:41 | `rename(columns={from: to})`, which leaves the table as it is when `from` is absent. RenameColumnMoves specifies it. Lines 80 and 41 both go through it, and Frames.Frame.Rename is proved equal to it. |
| Tables.RenameColumnMoves | merge_datasets.py:41 | A rename keeps the table well formed. It replaces `from` by `to` in the column set, carries the dtype, puts each row's old `from` cell under `to`, and leaves every other cell as it was. |
| Frames.Frame.Rename | merge_datasets.py:41 | The in-place rename leaves the frame equal to RenameColumn of its old contents. |
| Joins.SameKeyValue | merge_datasets.py:44 | Two key cells match exactly when they are equal, or when one is an integer and the other a float of the same number. |
| Joins.InnerJoin | merge_datasets.py:44 | The inner merge succeeds if and only if both key columns exist. pandas looks the right key up first, so a missing right key is the one reported, and a missing left key is reported only when the right key exists. On success, the header is the left header followed by the right header, the dtypes are combined, and the rows are the matching pairs in nested-loop order. |
| Joins.InnerJoinCount | merge_datasets.py:44 | The number of output rows is the number of (left row, right row) pairs whose keys match by value. |
| Joins.InnerMatchesCount | merge_datasets.py:44 | One left row yields as many output rows as there are right rows with its key. |
| Joins.InnerJoinSound | merge_datasets.py:44 | Every output row is a left row combined with some right row whose key equals the left row's key. |
| Joins.InnerJoinRowKeys | merge_datasets.py:44 | Every merged row has exactly the columns of both sides. |
| Joins.InnerMatchesSound | merge_datasets.py:44 | Every row produced for one left row is that row combined with a right row that has the same key. |
| Joins.InnerJoinComplete | merge_datasets.py:44 | Every matching pair appears in the output. |
| Joins.InnerMatchesComplete | merge_datasets.py:44 | Every right row matching a left row contributes to that left row's output. |
| Joins.InnerJoinAppend | merge_datasets.py:44 | The merge distributes over concatenation of the left rows. |
| Joins.InnerMatchesNone | merge_datasets.py:44 | A left row that no right row matches yields nothing. |
| Joins.InnerJoinUnmatched | merge_datasets.py:44 | A left row without a match is dropped from the inner merge without affecting the other rows. |
| Joins.DisjointConcat | merge_datasets.py:44 | Concatenating two disjoint duplicate-free headers gives a duplicate-free header whose column set is the union. |
| Pipeline.ParseDates | merge_datasets.py:50 | The parse succeeds if and only if every cell parses, and then yields the parsed cells. On failure, the reported cell is the first one that does not parse. |
| Tables.WithColumn | merge_datasets.py:50-51 | `df[name] = cells`: replaces the column in place in the header, or appends it, and sets its dtype. WithColumnWellFormed, WithColumnShape and ColumnCellsWithColumn specify it. Line 79 goes through it too, and Frames.Frame.Assign is proved equal to it. |
| Tables.WithColumnWellFormed | merge_datasets.py:50-51 | Assignment keeps the table well formed and adds the name to the column set. |
| Tables.WithColumnShape | merge_datasets.py:50-51 | Assignment also keeps the row count, every other column's dtype and every other cell. |
| Tables.ColumnCellsWithColumn | merge_datasets.py:50-51 | Reading back an assigned column returns exactly the assigned cells. Line 51 reads the parsed dates back through it. |
| Frames.Frame.Assign | merge_datasets.py:50-51 | The in-place assignment leaves the frame equal to WithColumn of its old contents. |
| Venues.TargetsAreFixed | merge_datasets.py:55-78 | Every canonical name in the 22-entry `venue_mapping` is either not a key or a key that maps to itself. |
| Venues.MappedNamesAreFixed | merge_datasets.py:55-78 | Key by key: the name a key maps to is no key, or a key that maps to itself. |
| Venues.NormalizeCell | merge_datasets.py:79 | `.map(venue_mapping).fillna(venue)` on one cell. NormalizeCellCases, NormalizeCellCanonical and NormalizeCellIdempotent specify it. |
| Venues.NormalizeCellCases | merge_datasets.py:79 | A string key of the mapping becomes its canonical name. Any other cell comes back unchanged, and a cell is NaN afterwards if and only if it was NaN before. |
| Venues.NormalizeCellCanonical | merge_datasets.py:55-79 | A mapped venue always becomes one of the mapping's canonical names. |
| Venues.NormalizeCellIdempotent | merge_datasets.py:55-79 | Normalising a venue twice gives the same result as normalising it once. |
| Venues.NormalizeVenuesIdempotent | merge_datasets.py:79 | Normalising the whole column is idempotent. |
| Pipeline.PreparedRow | merge_datasets.py:50-79 | A merged row after step 2. PreparedRowCells specifies it, and WithYearAndVenue states that step 2 yields it row by row. |
| Pipeline.PreparedRowCells | merge_datasets.py:50-79 | After step 2, a merged row has its parsed date, the year of that date and its normalised venue. It keeps every other cell and gains only Year. |
| Pipeline.WithYearAndVenue | merge_datasets.py:50-79 | On success, step 2 gives a well-formed table with Year added and the same row count. The date and venue columns exist and every date parses. date becomes non-numeric and Year becomes numeric. Row i is the prepared form of merged row i. |
| Pipeline.WithYearAndVenueYears | merge_datasets.py:50-51 | After step 2, each row's date is the parse of its old date, and its Year is the year of that new date. |
| Pipeline.PreparedRows | merge_datasets.py:50-79 | The row-by-row form of step 2 agrees with the column-by-column assignments. |
| Pipeline.WithYearAndVenueOutcome | merge_datasets.py:50-79 | Step 2 succeeds if and only if date is a column, every date parses and venue is a column. A missing date is reported first, then an unparseable date, then a missing venue. |
| Pipeline.AddYearAndVenue | merge_datasets.py:50-79 | The in-place step 2 on a frame reports exactly the error of WithYearAndVenue. On success, it leaves the frame equal to its result. |
| Pipeline.PreparedMatches | merge_datasets.py:38-79 | On success, steps 1 and 2 give a well-formed table whose columns are those of the matches, the inning-score table and Year. |
| Pipeline.ScoredIffScoreRow | merge_datasets.py:40-44 | A match has a row in the inning-score table if and only if it has deliveries. |
| Pipeline.ScoreMatchIds | merge_datasets.py:40-44 | Every inning-score row has a match_id cell holding its group's match id. |
| Pipeline.MatchColumnsNotScoreColumns | merge_datasets.py:41-50 | date and venue are not inning-score columns. |
| Pipeline.NoDateInScoreRows | merge_datasets.py:41-50 | No inning-score row carries a date. |
| Pipeline.JoinedDateOf | merge_datasets.py:44-50 | A match with deliveries has its date in some merged row. |
| Pipeline.JoinedDateOfPair | merge_datasets.py:44-50 | A matching pair whose score row has no date carries the match's date into the merge. |
| Pipeline.JoinedDatesParseIf | merge_datasets.py:44-50 | If every match with deliveries has a parseable date, every merged date parses. |
| Pipeline.JoinedDatesParse | merge_datasets.py:44-50 | The merged dates all parse if and only if every match that has deliveries has a parseable date. Dates of matches the inner merge drops do not matter. |
| Pipeline.ScoreJoined | merge_datasets.py:44-50 | With an id column, the inner merge succeeds. It has date and venue exactly when the matches do, and its dates all parse exactly when every scored match's date does. |
| Pipeline.PreparedMatchesOutcome | merge_datasets.py:38-79 | Steps 1 and 2 succeed if and only if the matches have id, date and venue and every match with deliveries has a parseable date. A missing id is reported first, then a missing date. |
| Pipeline.PreparedMatchesRowCount | merge_datasets.py:44 | The prepared table has one row per pair of a match and an inning-score row with the same id. |
| Joins.FirstMissingKey | merge_datasets.py:84 | Finds the first key that either table lacks, or none exactly when both tables have every key. |
| Joins.LeftJoin | merge_datasets.py:84 | The left merge succeeds if and only if both tables have every key column. Otherwise the reported key is the first one, in key order, that either table lacks; pandas checks each key in the right table before the left. On success, the header is the left header followed by the non-key right columns, and each left row is joined with each matching right row, or with NaN when it has none. |
| Joins.NullPadding | merge_datasets.py:84 | Padding an unmatched left row keeps every one of its cells and adds exactly the non-key right columns, all missing. |
| Joins.LeftJoinColumnSet | merge_datasets.py:84 | The left merge's column set is the union of both column sets. |
| Joins.LeftJoinCount | merge_datasets.py:84 | The output row count is, summed over the left rows, the number of matches or 1 when there are none. |
| Joins.LeftMatchesCount | merge_datasets.py:84 | One left row matches as many right rows as share its key tuple. |
| Joins.LeftMatchesSound | merge_datasets.py:84 | Every match of a left row is that row combined with a right row that has the same key tuple. |
| Joins.LeftMatchesNone | merge_datasets.py:84 | A left row has no matches if and only if no right row shares its key tuple. |
| Joins.LeftMatchesUnique | merge_datasets.py:84 | With unique right keys, a matched left row yields exactly one combined row. |
| Joins.LeftRowsForOne | merge_datasets.py:84 | With unique right keys, each left row yields exactly one row. |
| Joins.LeftRowsForUnique | merge_datasets.py:84 | With unique right keys, each left row yields exactly one row: combined with its match, or with NaN when it has none. |
| Joins.LeftJoinUnique | merge_datasets.py:84 | With unique right keys, the left merge keeps the row count, and row i comes from left row i. |
| Joins.LeftRowsForKeepLeft | merge_datasets.py:84 | Every row produced for a left row keeps all of that row's cells, its key cells included. |
| Joins.LeftRowsForColumns | merge_datasets.py:84 | Every row produced for a left row has the left columns plus the non-key right columns. |
| Joins.LeftJoinRowsColumns | merge_datasets.py:84 | Every output row has the left columns plus the non-key right columns. |
| Joins.LeftJoinKeepsEveryRow | merge_datasets.py:84 | Every left row, matched or not, appears with all its cells in the output. A left merge never loses a match. |
| Cleaning.DropColumns | merge_datasets.py:89-90 | The drop succeeds if and only if every listed name is a column, and otherwise reports the absent names. On success, the table is well formed and the listed columns are gone from the header, the dtypes and every row. Every other column keeps its order, dtype and cells. |
| Tables.Absent | merge_datasets.py:89-90 | The reported names are exactly the wanted names that are not columns. |
| Tables.Without | merge_datasets.py:89-90 | Removing names from a header leaves exactly the other columns and keeps the header duplicate-free. |
| Tables.WithoutOrder | merge_datasets.py:89-90 | Removal keeps order: on a concatenation it is the concatenation of the two removals. |
| Tables.WithoutSingle | merge_datasets.py:89-90 | One column stays exactly when it is not dropped. |
| Tables.WithoutNothing | merge_datasets.py:89-90 | Removing names that are not columns leaves the header as it was. |
| Cleaning.FillValue | merge_datasets.py:95 | The value `fillna(df.mean())` gives one column: the mean of its present values for a numeric column that has some, nothing otherwise. Imputed and ImputedNoMissing specify it. |
| Cleaning.PresentValuesEmpty | merge_datasets.py:95 | A column has no value to average if and only if every one of its cells is missing. |
| Cleaning.Imputed | merge_datasets.py:94-95 | The fill changes only missing cells of numeric columns. Each such cell gets the mean of its column's present values, or stays missing when the column has none. Header, dtypes, row count, keys and every other cell are unchanged. |
| Cleaning.ImputedNoMissing | merge_datasets.py:94-95 | A numeric column with a present value has no missing cell afterwards. One with none stays entirely missing. |
| Cleaning.ImputedColumnsComplete | merge_datasets.py:94-95 | After the fill, every numeric column is complete or entirely missing. |
| Cleaning.ImputedIdempotent | merge_datasets.py:94-95 | Filling a second time changes nothing. |
| Frames.Frame.FillColumn | merge_datasets.py:95 | Filling one column in place fills exactly its missing cells with the value, and changes nothing else. |
| Frames.Frame.FillNumericMissing | merge_datasets.py:94-95 | The in-place fill, column by column with fill values taken before it starts, leaves the frame equal to the imputed table. |
| Frames.FilledStep | merge_datasets.py:94-95 | Filling one more numeric column extends the set of filled columns by that column. |
| Frames.FilledAll | merge_datasets.py:94-95 | Once every numeric column is filled, the rows are those of the imputed table. |
| Pipeline.FinalTable | merge_datasets.py:80-95 | Steps 3 and 4: the rename of Stadium, the left merge, the drop and the fill. FinalTableOutcome, FinalTableKeyErrors, FinalTableColumns, FinalTableFilled and FinalTableRowCount specify it. |
| Pipeline.FinalTableOutcome | merge_datasets.py:80-95 | Steps 3 and 4 succeed if and only if both tables have venue and Year and every dropped column exists after the merge. Missing keys are reported as missing columns. |
| Pipeline.FinalTableKeyErrors | merge_datasets.py:80-84 | With both keys on the prepared side, a geographical table without venue fails naming venue, and one with venue but without Year fails naming Year. |
| Pipeline.FinalTableColumns | merge_datasets.py:80-95 | On success, the result is well formed, its columns are the union of both tables minus the dropped columns, and no row holds a dropped column. |
| Pipeline.FinalTableFilled | merge_datasets.py:84-95 | On success, every numeric column of the result is complete or entirely missing. |
| Pipeline.FinalTableRowCount | merge_datasets.py:80-95 | With one geographical record per (venue, Year), steps 3 and 4 keep the row count. |
| Pipeline.MergedDataset | merge_datasets.py:38-101 | The whole function on values. MergedDatasetSucceeds, MergedDatasetErrors, MergedDatasetShape and MergedDatasetRowCount specify it, and Pipeline.MergeDatasets is proved equal to it. |
| Pipeline.MergedDatasetSteps | merge_datasets.py:38-95 | Once steps 1 and 2 succeed, their result can be merged and the pipeline is steps 3 and 4 on it. |
| Pipeline.GeoKeysPrepared | merge_datasets.py:79-84 | Both geographical join keys are present after step 2: venue from the matches and Year added. |
| Pipeline.MergedDatasetSucceeds | merge_datasets.py:38-95 | The pipeline succeeds if and only if the matches have id, date and venue, every match with deliveries has a parseable date, the geographical table has venue (or Stadium) and Year, and all eight dropped columns exist. |
| Pipeline.MergedDatasetErrors | merge_datasets.py:38-95 | A missing id is reported by name, then a missing date. Once steps 1 and 2 succeed, a geographical table without venue is reported as missing venue, and one without Year as missing Year. |
| Pipeline.MergedDatasetShape | merge_datasets.py:38-95 | On success, the output is well formed and its columns are those of the matches, the inning scores, Year and the geographical table, minus the eight dropped ones. No row holds a dropped column, and every numeric column is complete or entirely missing. |
| Pipeline.MergedDatasetRowCount | merge_datasets.py:38-95 | With one geographical record per (venue, Year), the output has one row per pair of a match and an inning of that match. |
| Pipeline.PrepareMatches | merge_datasets.py:38-80 | Steps 1 and 2 run on frames give exactly PreparedMatches. |
| Pipeline.MergeDatasets | merge_datasets.py:38-101 | The whole function run on frames returns exactly MergedDataset. |

## Left out

- Loading and saving files, and the "file not found" path (lines 26-36 and 103-118): I/O. The three tables are parameters.
- The progress and shape printing (lines 32, 39, 45, 85 and 97-99): output only.
- `install_excel_lib` (lines 6-12): it runs pip, which is outside the data model.
- The date-parsing rules of `pd.to_datetime(format='mixed', dayfirst=True)` and `.dt.year`: they are the abstract parameters `toDatetime` and `yearOf`. The model keeps where the parse can fail and which cell is reported.
- The floating-point arithmetic of `mean`: it is the abstract parameter `mean`, applied to the column's present values in row order. A column with no present value is left as it is, because pandas' mean of an all-NaN column is NaN.
- The `_x`/`_y` suffixes pandas adds when both sides of a merge share a non-key column name, and frames with two equal labels: they are excluded by `Pipeline.Compatible`, `Pipeline.Joinable` and the requires of `Tables.RenameColumn`. Rows are maps and cannot hold two equal labels.
- The dtype rules of merges, such as coercing an int key to float when NaN appears, and the exact dtype pandas infers for `Year`: `numeric` is a set of column names carried through each step.
- Innings.Delivery: a delivery is typed as three integers. So the model does not have the KeyError of a deliveries file without a `match_id`, `inning` or `total_runs` column. It also does not have groupby's dropping of deliveries whose `match_id` or `inning` is NaN, or a NaN or non-integer `total_runs`. The deliveries are taken as already loaded and complete.
- The ValueError pandas raises when a merge meets a string key column on one side and a numeric key column on the other: whether it raises depends on the dtype pandas infers for each column, which the model does not carry. In the model such keys simply never match.
- Integers are unbounded: the int64 overflow of a run total is not modelled.
- Joins.InnerJoin, Joins.LeftJoin: rows come out in nested-loop order (left rows in order, then their matches in right order). pandas' other orderings are not modelled, and NaN keys match each other as pandas does for object keys.
- Pipeline.AddYearAndVenue: on error, the frame's contents are not stated. pandas has already assigned `date` and `Year` when a missing `venue` raises, and the caller discards the frame.
- Pipeline.MergedDatasetErrors: it does not state the error of an unparseable date or of a failed drop. MergedDatasetSucceeds covers when those fail.
- `train_model.py` is not part of this model.

