# Referral rewards pipeline, modelled in Dafny

`main.py` loads seven tables of a referral programme (referrals, referral
logs, users, referral statuses, rewards, paid transactions, leads), cleans
them, moves timestamps into local time, joins everything onto the referral
table with left merges, derives a source category, title-cases a fixed set
of text columns, decides for every joined record whether it is a valid
referral, and writes the valid records as a 22-column report.

This project models that script from the cleaning step to the report:

- `values.dfy` (`Values`): cells (`Null` for every pandas missing value,
  text, numbers, flags, wall-clock timestamps), rows as maps from label to
  cell, the pandas errors the script can raise (`KeyError`, `MergeError`,
  `TypeError`), plus `DuplicateColumns` for a step whose result would carry
  one label twice, as a `Result`, and a `Library` record standing for the
  library calls whose internals are not modelled (`to_datetime`,
  `to_numeric`, timezone conversion, `str()` of numbers and timestamps).
- `frames.dfy` (`Frames`): a DataFrame as a column list and a sequence of
  rows; `drop_duplicates` (a loop, specified by `Dedup`), column selection,
  renaming and column assignment.
- `joins.dfy` (`Joins`): `merge(how="left")` with pandas' column plan (the
  left columns, then the right ones without a shared `on` key, overlapping
  labels suffixed) and row rule (left order; k matching right rows give k
  rows, none gives one row with missing right-hand cells; missing keys
  match each other). `LeftMerge` is the loop over the left rows with an
  inner scan of the right ones, specified by `Merge`.
- `cleaning.dfy` (`Cleaning`): timestamp parsing of the configured columns
  and per-table de-duplication over the `tables` dictionary.
- `timezones.dfy` (`Timezones`): the per-row conversion with its fallback
  policy, and the column-level conversion with pandas' `KeyError`s.
- `chain.dfy` (`JoinChain`): the seven merges and the renames between them,
  then the final de-duplication.
- `standardize.dfy` (`Standardize`): the source categoriser and the
  `astype(str).str.title()` loop over the listed columns.
- `eligibility.dfy` (`Eligibility`): the validity rule (conditions A and B).
- `report.dfy` (`Report`): reward coercion, classification, the row filter,
  the selection of the report columns and the three renames.
- `pipeline.dfy` (`Pipeline`): the stages in the script's order.

pandas changes frames in place (`inplace=True`, `df[c] = ...`); here each
such step yields a new frame value and the methods reassign their frame
variables. The named frame variables of the script alias the entries of its
`tables` dictionary, so the cleaned frames are read back from the map.

## Model

| member | source | states |
|---|---|---|
| `Frames.Dedup` | main.py:76-77 | reference definition of `drop_duplicates(keep="first")` on rows: a row is kept exactly when no equal row came before it; its properties are stated by `DedupElements`, `DedupNoDup`, `DedupFirstOccurrenceOrder`, `DedupIdempotent` and `DedupCard` |
| `Frames.DropDuplicates` | main.py:76-77 | the loop keeps a row exactly when no equal row came before it (the result is `Dedup` of the rows), with the columns unchanged and well-formedness kept |
| `Frames.DedupElements` | main.py:76-77 | de-duplication loses no row value and invents none |
| `Frames.DedupNoDup` | main.py:222 | no two rows of a de-duplicated frame are equal |
| `Frames.FirstIndex` | main.py:222 | the first occurrence of a value is a position holding it |
| `Frames.FirstIndexMinimal` | main.py:222 | no occurrence comes before the first one |
| `Frames.DedupFirstOccurrenceOrder` | main.py:222 | of two kept rows the earlier one first occurs earlier in the input: kept rows come in first-occurrence order |
| `Frames.DedupOfNoDup` | main.py:222 | a frame without equal rows is left as it is |
| `Frames.DedupIdempotent` | main.py:222 | de-duplicating twice is de-duplicating once |
| `Frames.NoDupCard` | main.py:222 | rows without repetitions are as many as their distinct values |
| `Frames.DedupCard` | main.py:222 | the de-duplicated frame has as many rows as the input has distinct rows |
| `Frames.Absent` | main.py:162 | the label reported missing is wanted and absent; none is reported only when all are present |
| `Frames.Select` | main.py:162 | a successful selection of distinct labels is well formed |
| `Frames.SelectSpec` | main.py:162 | `df[cols]` fails exactly when a label is missing; otherwise it keeps every row, in order, and exactly the selected cells |
| `Frames.Rename` | main.py:193-197 | reference definition of `rename(columns=...)`: every label goes through the mapping and every row's cells move with it; DuplicateColumns when two labels would coincide. Stated by `RenameSpec` and `RenameKeepsDistinctRows` |
| `Frames.RenamedColumns` | main.py:193-197 | each label is replaced by its new name, or kept when the mapping does not name it |
| `Frames.RenamedNoDupInjective` | main.py:193-197 | distinct renamed labels mean the mapping does not send two labels to one |
| `Frames.RenameRowSpec` | main.py:193-197 | a renamed row holds each cell under its column's new label and no other label |
| `Frames.RenamedColumnSet` | main.py:193-197 | the renamed header's labels are the new names of the old labels |
| `Frames.RenameSpec` | main.py:193-197 | a rename succeeds when the new labels are distinct, keeps every row and moves each cell to its column's new label |
| `Frames.RenameRowInjective` | main.py:166 | two rows with the same labels that rename to the same row were equal |
| `Frames.RenameKeepsDistinctRows` | main.py:166 | renaming neither merges nor splits rows: the number of distinct rows is unchanged |
| `Frames.SelectThenRename` | main.py:330-359 | selecting present distinct labels and renaming them apart always succeeds, with the renamed header and every selected cell under its new label |
| `Frames.SetColumnSpec` | main.py:241 | `df[c] = values` writes row i's value into column c (appending the column when new) and keeps every other cell |
| `Frames.CoverCard` | main.py:153-222 | a set covered by another through a relation that never relates one element to two is no larger (the counting argument behind the row-count laws) |
| `Frames.ImageCard` | main.py:166 | mapping a sequence through a function that never merges two of its elements keeps the number of distinct elements |
| `Joins.Merge` | main.py:153-219 | reference definition of `merge(how="left")`: KeyError on a missing right, then left, key; MergeError on a same-side suffix clash; DuplicateColumns on a cross-side one; else the planned columns and `JoinRows`. Computed by `LeftMerge`, stated by `MergeSpec`, `JoinRowsKeepLefts`, `JoinRowsOrder` and the clash examples |
| `Joins.LeftPlan` | main.py:153-158 | one output column per left column, in order, each taking that column's cells |
| `Joins.RightPlan` | main.py:153-158 | every right-hand output column takes its cells from the right table |
| `Joins.RightPlanSpec` | main.py:153-158 | the right-hand plan has one column for each right column other than a shared `on` key, and only those |
| `Joins.RightColumnsKept` | main.py:153-158 | in the merged plan every right column other than a shared `on` key has an output column taking its cells, and every right-hand output column reads such a column |
| `Joins.SameSideClashExample` | main.py:153-158 | a left `a` suffixed to `a_x` beside a left `a_x` raises MergeError |
| `Joins.CrossSideClashExample` | main.py:153-158 | a right `a` suffixed to `a_y` beside a left `a_y` is no MergeError; the doubled label is reported as DuplicateColumns |
| `Joins.SharedKeyDroppedExample` | main.py:153-158 | a shared `on` key is dropped from the right side before the clash check: a right `a` suffixed onto the key's name is no MergeError, only a doubled label (DuplicateColumns) |
| `Joins.Fill` | main.py:153-158 | an output row has a cell for every planned label |
| `Joins.CollectMatches` | main.py:153-158 | the scan of the right table returns exactly `Matches`: the right rows with an equal key, in right-table order |
| `Joins.ExpandRow` | main.py:153-158 | one left row's output is exactly `Expand`: a row per match, or one null-filled row |
| `Joins.JoinLoop` | main.py:153-158 | the row loop yields exactly `JoinRows`: the left rows' outputs in left-table order |
| `Joins.LeftMerge` | main.py:153-158 | the merge computes exactly `Merge`: KeyError on a missing key (the right one is looked up first), MergeError when suffixing gives two columns of one side the same label, DuplicateColumns when a left and a right label coincide, else the planned columns and the joined rows |
| `Joins.MatchesSpec` | main.py:153-158 | the matches of a left row are exactly the right rows with an equal key |
| `Joins.FillSpec` | main.py:153-158 | an output row has exactly the merged labels, each holding the cell its origin names |
| `Joins.FillKeys` | main.py:153-158 | an output row has exactly the merged labels |
| `Joins.FillValues` | main.py:153-158 | each label of an output row holds the cell of its left or right origin |
| `Joins.FillCarries` | main.py:153-158 | every output row carries its left row's cells |
| `Joins.ExpandSpec` | main.py:153-219 | a left row with no match gives one row with missing right-hand cells; one with k >= 1 matches gives k rows, the i-th holding the i-th match; all carry the left row |
| `Joins.FlatMapAppend` | main.py:153-219 | building the output left row by left row distributes over concatenation |
| `Joins.FlatMapAt` | main.py:153-219 | the rows produced for the i-th left row sit right after those of the earlier left rows |
| `Joins.FlatMapFrom` | main.py:153-219 | every output row comes from some left row |
| `Joins.FlatMapLength` | main.py:153-219 | at least one output row per left row gives at least as many rows as left rows |
| `Joins.JoinRowsOrder` | main.py:153-219 | the merge output is the left rows' expansions concatenated in left-table order |
| `Joins.JoinRowsLength` | main.py:153-219 | a left merge never has fewer rows than its left table |
| `Joins.JoinRowsKeepLefts` | main.py:153-219 | every left row is carried by some output row |
| `Joins.JoinRowsFromLefts` | main.py:153-219 | every output row carries some left row |
| `Joins.JoinRowsKeys` | main.py:153-219 | every output row has exactly the merged frame's labels |
| `Joins.LeftColumnsKept` | main.py:153-219 | every left column has an output column taking its cells |
| `Joins.CarriesUnique` | main.py:153-219 | one output row never carries two different rows of a well-formed left table |
| `Joins.MergeDistinctRows` | main.py:153-219 | the merge has at least as many distinct rows as the left table |
| `Joins.JoinedFrame` | main.py:153-219 | the joined rows under a plan with distinct labels that keeps the left columns form a well-formed frame, no shorter than the left one and with at least its distinct rows |
| `Joins.MergeSpec` | main.py:153-219 | a successful merge of a well-formed frame is well formed, no shorter than the left table, and keeps at least its number of distinct rows |
| `Cleaning.ToDateTime` | main.py:71-73 | a parsed cell is a timestamp or missing; a value that is neither is a timestamp exactly when the parser accepts it |
| `Cleaning.ToDateTimeIdempotent` | main.py:71-73 | parsing a parsed cell changes nothing; missing values and timestamps pass through |
| `Cleaning.ParseColumnSpec` | main.py:70-73 | parsing a present column converts that column cell by cell and keeps every other cell and the frame's shape; an absent column is skipped |
| `Cleaning.ParseDatesSpec` | main.py:69-73 | after the inner loop exactly the listed present columns are parsed (once in effect) and the rest is untouched |
| `Cleaning.ParseAll` | main.py:68-73 | the outer loop keeps the dictionary's keys |
| `Cleaning.DedupAll` | main.py:76-77 | the de-duplication loop keeps the dictionary's keys |
| `Cleaning.EntryNames` | main.py:48-56 | the table names of the configuration, in order |
| `Cleaning.ParseAllAt` | main.py:68-73 | each configured table is parsed with its own columns, and no other table is touched |
| `Cleaning.DedupAllAt` | main.py:76-77 | each listed table is de-duplicated once, and no other table is touched |
| `Cleaning.ConfiguredTables` | main.py:48-66 | the configuration lists each of the seven tables once, in dictionary order |
| `Cleaning.CleanFrameSpec` | main.py:68-77 | a cleaned table keeps its columns, has no two equal rows, holds the same row values as after parsing, and only timestamps or missing values in its timestamp columns |
| `Cleaning.CleanedEntryAt` | main.py:68-77 | with each table configured once, the k-th configured table is parsed with its own columns and then de-duplicated |
| `Cleaning.CleanedEntriesSpec` | main.py:68-77 | with each table configured once, every configured table comes out well formed, duplicate-free and parsed |
| `Cleaning.CleanedAt` | main.py:48-77 | cleaning gives each configured table exactly its own parsing and de-duplication |
| `Cleaning.CleanedSpec` | main.py:48-77 | cleaning keeps the dictionary's keys; every configured table is well formed, duplicate-free, and parsed in its timestamp columns |
| `Cleaning.CleanedTablesWellFormed` | main.py:58-77 | all seven tables are present and well formed after cleaning |
| `Cleaning.ParseTable` | main.py:69-73 | the inner loop computes `ParseDates`: each listed column the frame has is parsed in order |
| `Cleaning.ParseTables` | main.py:68-73 | the outer loop computes `ParseAll` over the configuration entries |
| `Cleaning.DedupTables` | main.py:76-77 | the loop over the tables computes `DedupAll`: each table loses its repeated rows |
| `Cleaning.CleanTables` | main.py:68-77 | the two loops compute `Cleaned`: parse every configured column, then de-duplicate every table |
| `Timezones.ToLocal` | main.py:91-97 | reference definition of the per-row conversion and its fallback: missing time or zone, a non-timestamp, or a failed conversion keep the stored value. Stated by `ToLocalSpec` |
| `Timezones.ToLocalSpec` | main.py:91-97 | the stored value comes back unless the time is a timestamp, the zone is present and the conversion succeeds; missing times stay missing and none becomes missing |
| `Timezones.ConvertUtcToLocal` | main.py:87-99 | the apply gives one value per row |
| `Timezones.ConvertColumnSpec` | main.py:87-99 | conversion fails exactly on a missing time column (with rows) or a missing zone column (with a present time); otherwise it rewrites only the time column, row by row, under the fallback policy |
| `Timezones.ConvertIfZonedSpec` | main.py:102-124 | the guarded conversions fail only when the zone column is present, there are rows and the time column is missing; they keep rows and well-formedness |
| `JoinChain.MergeStep` | main.py:153-219 | each merge of the chain keeps the frame well formed and keeps its distinct rows |
| `JoinChain.RenameStep` | main.py:160-211 | each rename of the chain keeps the frame well formed and keeps its distinct rows |
| `JoinChain.JoinTables` | main.py:152-222 | the merge chain either raises or yields a well-formed frame without equal rows and with at least as many rows as the referral table has distinct rows |
| `Standardize.SourceCategory` | main.py:231-239 | reference definition of `get_referral_source_category`, with the KeyErrors of `row[...]`. Stated by `SourceCategorySpec` |
| `Standardize.SourceCategorySpec` | main.py:231-239 | "User Sign Up" gives "Online", "Draft Transaction" "Offline", "Lead" the row's `source_category`, anything else (missing included) nothing; a missing `referral_source`, or a lead without `source_category`, raises KeyError |
| `Standardize.Categorize` | main.py:241 | reference definition of `df["referral_source_category"] = df.apply(...)`: the first row's KeyError, or every row's category in the new column. Stated by `SourceCategoriesSpec` and `SetColumnSpec`; used by `Pipeline.CategorizeAndStandardize` |
| `Standardize.SourceCategories` | main.py:241 | the apply gives one category per row |
| `Standardize.SourceCategoriesSpec` | main.py:241 | the apply succeeds exactly when every row can be categorised, and then gives row i its own category |
| `Standardize.ToUpper` | main.py:258 | upper-casing keeps a character's cased-ness and leaves no lower-case letter |
| `Standardize.ToLower` | main.py:258 | lower-casing keeps a character's cased-ness and leaves no upper-case letter |
| `Standardize.Title` | main.py:258 | reference definition of `str.title` on ASCII letters. Stated by `TitleAt` and `TitleIdempotent` |
| `Standardize.TitleFromAt` | main.py:258 | title-casing keeps the length; each character is upper-cased after a non-letter and lower-cased after a letter |
| `Standardize.TitleAt` | main.py:258 | `str.title` character by character: same length, a letter is upper-case exactly at the start of a run of letters |
| `Standardize.TitleIdempotent` | main.py:258 | title-casing a title-cased string changes nothing |
| `Standardize.StandardSpec` | main.py:258 | a missing cell becomes "Nan"; text is title-cased; standardising twice is standardising once |
| `Standardize.StandardizeColumnSpec` | main.py:255-258 | a present listed column is replaced cell by cell by its standardised text, every other cell is kept; an absent one is skipped |
| `Standardize.Standardized` | main.py:254-258 | reference definition of the loop over the listed string columns, one column after the other. Computed by `StandardizeStrings`, stated by `StandardizedSpec`, `HomeclubUnchanged` and `StandardizedIdempotent` |
| `Standardize.StandardizedSpec` | main.py:254-258 | the loop standardises exactly the listed columns the frame has and leaves every other cell, the columns and the rows' order alone |
| `Standardize.HomeclubUnchanged` | main.py:261-262 | `referrer_homeclub` is left as it is |
| `Standardize.StandardizedIdempotent` | main.py:254-258 | running the standardisation loop twice gives what running it once gives |
| `Standardize.StandardizeStrings` | main.py:254-258 | the loop computes `Standardized` over the seven listed columns |
| `Eligibility.IsValidReferral` | main.py:270-303 | reference definition of `is_valid_referral`: condition B (pending without reward) or condition A (successful with reward and every check). Stated by `PendingWithoutRewardIsValid`, `ValidOtherwiseOnlyBySuccess`, `ConditionsDisjoint`, `InexactFlagsBlockReward`, `DifferentMonthRejected`, `SameMonthOtherYearAccepted` and `SampleRecords` |
| `Eligibility.PendingWithoutRewardIsValid` | main.py:282-284 | a "Menunggu" or "Tidak Berhasil" record with a missing or zero reward is valid whatever its other fields hold |
| `Eligibility.ValidOtherwiseOnlyBySuccess` | main.py:286-303 | outside condition B a record is valid exactly when all checks of condition A pass: positive reward, "Berhasil", a transaction id, "Paid", "New", both timestamps present, transaction strictly later, equal month number, membership missing or later, `is_deleted` exactly false, `is_reward_granted` exactly true |
| `Eligibility.ConditionsDisjoint` | main.py:282-301 | conditions A and B never hold together |
| `Eligibility.InexactFlagsBlockReward` | main.py:298-303 | a missing or non-exact `is_deleted` / `is_reward_granted` blocks condition A, so only condition B can make the record valid |
| `Eligibility.DifferentMonthRejected` | main.py:295-296 | a rewarded record whose transaction falls in another month number is rejected |
| `Eligibility.SameMonthOtherYearAccepted` | main.py:295-296 | only the month number is compared: a transaction a year later in the same month number is accepted |
| `Eligibility.SampleRecords` | main.py:270-303 | 1 March referral with a 15 March paid new transaction is valid; 15 April, or a missing `is_deleted`, is not |
| `Report.CoerceRewards` | main.py:306 | reference definition of `pd.to_numeric(df["reward_value"], errors="coerce")` assigned back: KeyError on a missing column, else every reward coerced. Stated by `CoerceRewardsSpec` |
| `Report.ToNumeric` | main.py:306 | a coerced reward is a number or missing; a value that is neither is a number exactly when the parser accepts it |
| `Report.CoerceRewardsSpec` | main.py:306 | coercion fails exactly on a missing `reward_value`; otherwise every reward is a number or missing, numbers and missing values are kept, other cells untouched |
| `Report.Classify` | main.py:309 | reference definition of `df.apply(is_valid_referral, axis=1)` assigned to the flag column: TypeError on an untyped row, else each row's verdict. Stated by `ClassifySpec`, `ClassifiedFlags` and `ClassifiedRows` |
| `Report.FirstUntyped` | main.py:295-297 | no row is reported exactly when every row's compared cells are numbers, timestamps or missing |
| `Report.ClassifySpec` | main.py:309 | classification succeeds exactly on typed rows and writes each row's verdict into `is_business_logic_valid`, keeping every other cell |
| `Report.ClassifiedFlags` | main.py:309 | after classification every row carries a boolean flag |
| `Report.KeepValid` | main.py:326 | reference definition of the mask `df[df["is_business_logic_valid"] == True]`, keeping row order. Stated by `KeepValidElements`, `KeepValidAppend`, `KeepValidIdempotent` and `KeepValidOfFlagged` |
| `Report.KeepValidElements` | main.py:326 | the filter keeps exactly the rows flagged true |
| `Report.KeepValidAppend` | main.py:326 | the filter distributes over concatenation, so the kept rows stay in upstream order |
| `Report.KeepValidIdempotent` | main.py:326 | filtering twice is filtering once |
| `Report.ReportColumnsDistinct` | main.py:330-353 | the 22 report columns are distinct |
| `Report.ReportHeaderDistinct` | main.py:355-359 | the renamed report header has distinct labels |
| `Report.ReportHeaderRenamed` | main.py:355-359 | the renames turn `id`, `reward_value` and `created_at` into `referral_details_id`, `num_reward_days` and `reward_granted_at` and keep the other 19 labels |
| `Report.FinalReport` | main.py:326-359 | reference definition of the final selection of the 22 columns from the kept rows and the three renames. Stated by `FinalReportSucceeds`, `FinalReportRows`, `FinalReportAllValid`, `FinalReportSpec` and `ReportListsAccepted` |
| `Report.FinalReportSucceeds` | main.py:326-359 | the report fails exactly when one of the 22 columns is missing |
| `Report.FinalReportRows` | main.py:326-359 | the report has the renamed header and, in order, one row per valid record holding that record's cells under their report names |
| `Report.FinalReportAllValid` | main.py:326 | every reported record is flagged valid |
| `Report.Accepted` | main.py:309-326 | independent reference definition of the classify-then-filter result: the typed records `is_valid_referral` accepts, in order. Stated by `AcceptedElements`; tied to the report by `KeepValidOfFlagged` and `ReportListsAccepted` |
| `Report.AcceptedElements` | main.py:309-326 | a record is accepted exactly when it is one of the rows and the rule holds for it |
| `Report.KeepValidOfFlagged` | main.py:309-326 | filtering rows flagged with the rule's verdict keeps, in order, exactly the accepted records, each now flagged true |
| `Report.ClassifiedRows` | main.py:309 | a successful classification means typed rows, and sets each row's flag to the rule's verdict |
| `Report.FlaggedSelectionListsAccepted` | main.py:326-359 | filtering rows flagged with the rule's verdict, selecting columns that include the flag and renaming them lists, in order, the accepted records' cells under their new labels |
| `Report.FlaggedReportListsAccepted` | main.py:326-359 | the report on rows flagged with the rule's verdict lists the accepted records in order |
| `Report.ReportListsAccepted` | main.py:309-359 | classifying and reporting lists, in order, exactly the records the rule accepts: row i holds the i-th accepted record's cells under their report names, flagged true |
| `Report.FinalReportSpec` | main.py:326-359 | a produced report has the report header, is well formed, and lists only records flagged valid |
| `Pipeline.LocalizeTimes` | main.py:102-144 | the timezone stage keeps every table well formed, keeps the row counts of transactions, leads and users, and never shortens the referrals |
| `Pipeline.CategorizeAndStandardize` | main.py:241-258 | the stage fails exactly when categorising fails, with its error; otherwise it yields the categorised frame with every listed string column standardised, well formed and with the same number of rows |
| `Pipeline.Validate` | main.py:306-359 | the classified frame is the coerced frame with each record's verdict; the report is its final selection, with the report header, and lists in order exactly the coerced records the rule accepts |
| `Pipeline.RunPipeline` | main.py:47-359 | a successful run yields the joined frame (well formed, no two equal rows), the classified frame, which is that frame categorised, standardised and coerced with each record's verdict, and the report, which has the report header and lists in order exactly the records the rule accepts |

## Left out

- CSV loading, the profiling report, directory creation, the CSV output and
  all printing (main.py:1-41, 79, 146, 224, 264, 312-325, 327-328, 361-365): pure
  input and output. The seven loaded tables are the input of `RunPipeline`.
- The parsing of `pd.to_datetime` and `pd.to_numeric`, the timezone
  conversion of `tz_localize("UTC").tz_convert(zone)`, and `str()` of
  numbers and timestamps are the uninterpreted functions of `Library`.
- `Cleaning.ToDateTime` parses one cell at a time. pandas 2 `to_datetime`
  infers one format from a column's first non-missing value and turns
  cells in other formats into missing values, so the same text can parse
  in one column and not in another; one per-cell parser cannot express that.
- Timestamps are wall-clock records without a zone. Comparisons are field
  by field, so the model does not capture that pandas compares zone-aware
  timestamps as instants, nor the TypeError pandas raises when a converted
  (zone-aware) timestamp meets one whose conversion fell back (naive).
- `Values.DateTime` has no sub-second field. Two times that agree to the
  second are equal here, so the "transaction strictly later" check, the
  equality of rows in de-duplication and the equality of merge keys treat
  them as equal where pandas may not.
- `Report.Classify` reports a TypeError as soon as any row has a compared
  cell that is neither a number, a timestamp nor missing; pandas raises
  only when the evaluation of such a row reaches the comparison.
- `Eligibility.IsValidReferral` requires those typed cells; pandas'
  behaviour on other cell types is the TypeError above.
- `Standardize.Title` cases only ASCII letters; Python's `str.title` uses
  the Unicode case tables.
- `Frames.Rename` reports a rename that would give two columns one label
  as an error; pandas accepts such a frame, which a map-based row cannot
  represent.
- `Joins.Merge`: pandas raises MergeError only when suffixing gives two
  columns of the same side one label. A left label equal to a suffixed
  right one (left `k, a, a_y` merged on `k` with right `k, a` gives
  `k, a_x, a_y, a_y`) is accepted by pandas; the model stops with
  DuplicateColumns there, because a row cannot hold a label twice.
- The `isinstance(df[col], pd.Series)` guard (main.py:256-257) exists for a
  label the frame holds twice, such as a rename onto an existing
  `referee_name`. pandas then skips that column and carries on; the model
  has already stopped with DuplicateColumns at the rename or merge that
  would create the second label (`Frames.Rename`, `JoinChain.RenameStep`).
- Merge keys are compared as cells: pandas' coercion between integer and
  float key columns, and its refusal to merge incompatible key types, are
  not modelled.
- On a frame with no rows, `df.apply(..., axis=1)` returns an empty frame
  rather than a column; the model assigns an empty column instead.
- pandas' dtype bookkeeping (numpy booleans behind `is False` / `is True`,
  object versus datetime columns) is not modelled: a flag cell is either
  exactly `Flag(false)`, exactly `Flag(true)`, or something else.
- Pipeline.RunPipeline: the join and timezone stages are specified by
  their properties (well-formedness, row counts, kept rows), not by
  specification functions of the input tables. The joined frame is
  therefore returned and described by those properties, and the report is
  stated in terms of it, not as a function of the seven loaded tables.