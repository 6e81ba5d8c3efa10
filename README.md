# Weather data platform: loading, quality gate and table printing

This project is a Dafny model of the storage and validation core of a small
weather-data pipeline. A batch of processed observations is a dataframe: an
ordered list of named, typed columns and a list of rows, in which every row has
a cell, possibly null, for every column. Every observation carries an
`extraction_id` that names it.

- **Loader** (`WeatherLoader`):
  - strips the four deprecated columns from every batch;
  - writes the batch as a snapshot file under an `event_date=` partition;
  - merges it into a cumulative historical file, keeping the last row of each `extraction_id`;
  - upserts it into a DuckDB table after evolving the table's schema. The table gains the batch's new columns and loses the deprecated ones.
- **Quality gate** (`DataQualityValidator`): checks a batch before it is loaded, in this order:
  - it is not empty;
  - the thirteen required columns are present;
  - seven critical columns hold no nulls;
  - temperature and humidity lie within their ranges;
  - precipitation and wind speed are not below their minimums;
  - no `extraction_id` repeats.

  It reports each failure with a fixed message, and `validate_or_raise` joins the messages into one error.
- **Query printer** (`print_table`): renders a query result as an aligned plain-text table.

Modules:

- `Strings` holds the string helpers the core relies on: `join`, `ljust`, repeated characters and `str` of a count.
- `Frames` holds cells, rows and relations. One relation type serves both dataframes and DuckDB tables. It also holds order-preserving column filtering and null padding.
- `Processed` holds the deprecated-column sanitizer, the snapshot path and the historical merge: a diagonal concatenation, then keep-last deduplication by `extraction_id`.
- `Warehouse` holds the DuckDB type mapping, identifier quoting, `schema.relation` splitting, and the table transformations as functions of the old table and the batch: creation, schema evolution, the deprecated-column purge, and the delete-then-insert upsert.
- `Loader` holds the class `WeatherLoader`. Its fields stand for the processed directory (file path to dataframe), the set of DuckDB schemas and the DuckDB tables (keyed by schema and relation). Its methods update them in place. The two schema helpers loop over columns, one `ALTER TABLE` per step, and are proved to reach the table functions of `Warehouse`.
- `Quality` holds the list of issues a batch raises, as a function, with each check's meaning proved about it. `Validate` is the imperative check, proved to produce exactly the messages of that list, in order.
- `Query` holds `PrintTable`, which returns the lines it would print. Its column widths come from a nested loop proved equal to a width function. Every line is proved to have the same length.

The snapshot name uses a one-second timestamp and the batch's first `extraction_id` (src/load.py:63-70). Two saves of the same batch in the same second and format write to the same path, and the second replaces the first. `SaveProcessedData` states that replacement (`processed[path := ...]`).
`SnapshotPathsDistinct` proves that two paths in the same partition and format, with timestamps of the same fixed `%Y%m%d_%H%M%S` width, differ whenever the timestamp or the identity differs. Without the fixed width the underscore separator can be ambiguous: timestamp `1` with identity `2_3` and timestamp `1_2` with identity `3` name the same file.

## Model

| member | source | states |
|---|---|---|
| Processed.DeprecatedListed | src/load.py:14 | the deprecated-column tuple names exactly the four columns `owner_name`, `city_alias`, `profile_style`, `project_signature` |
| Processed.KeyColumnsKept | src/load.py:14 | neither `extraction_id` nor `event_date` is deprecated, so sanitizing never removes the key or the partition column |
| Processed.Sanitize | src/load.py:25-29 | sanitizing drops exactly the deprecated columns present, keeps the order of the others, and yields a well-formed frame whose column set is the old one minus the deprecated set |
| Processed.SanitizeKeeps | src/load.py:25-29 | a column that is not deprecated is in the sanitized frame if and only if it was in the original |
| Processed.SanitizeIdempotent | src/load.py:25-29 | sanitizing twice is the same as sanitizing once |
| Processed.SanitizeKeepsIds | src/load.py:25-29 | sanitizing keeps every row's `extraction_id`, row by row, and so the set of identities |
| Processed.SnapshotPath | src/load.py:62-70 | for a non-empty batch the snapshot path exists exactly when the batch has both an `event_date` and an `extraction_id` column; otherwise the save fails |
| Processed.SnapshotPathsDistinct | src/load.py:63-70 | two snapshot paths in the same partition and format, with timestamps of equal length, are equal only when the timestamp and the first identity are both equal |
| Processed.DiagonalConcat | src/load.py:104 | the diagonal concatenation has the union of both column sets |
| Processed.DiagonalConcatWellFormed | src/load.py:104 | concatenating two well-formed frames diagonally yields a well-formed frame |
| Processed.DedupLast | src/load.py:105 | keep-last deduplication keeps the same set of identities, keeps no identity twice and invents no row |
| Processed.DedupLastMember | src/load.py:105 | a row survives deduplication if and only if it is the last row of its identity |
| Processed.DistinctIdsCount | src/load.py:105 | rows with distinct identities number as many as their identities |
| Processed.MergeHistorical | src/load.py:94-107 | the merge (stored history and batch, both sanitized, concatenated and deduplicated; the batch alone when no history exists) succeeds exactly when the combined columns include `extraction_id`, and yields a well-formed frame |
| Processed.MergeDefined | src/load.py:94-107 | the merge fails exactly when neither the batch nor the stored history has an `extraction_id` column |
| Processed.MergeIdentities | src/load.py:94-107 | after a merge no two rows share an identity, and the identities are exactly those of the history and of the batch |
| Processed.MergeColumns | src/load.py:94-107 | the merged columns are those of the history and of the batch, less the deprecated ones |
| Processed.MergeRowsOrigin | src/load.py:98-107 | every merged row is a row of the history or of the batch, widened with nulls to the merged columns |
| Processed.MergeIncomingWins | src/load.py:104-105 | the last batch row of every identity is in the merge: the incoming row wins a collision |
| Processed.MergeReplacesStored | src/load.py:104-105 | a merged row whose identity the batch carries comes from the batch, so no stored row survives beside an incoming one |
| Processed.MergeKeepsStored | src/load.py:104-105 | the last stored row of an identity the batch does not carry is kept |
| Processed.MergeKnownIds | src/load.py:94-107 | a batch whose identities the history already holds, once each, leaves the history's identities and height unchanged |
| Processed.MergeSameBatchTwice | tests/test_loader.py:61-69 | appending the same batch twice yields as many rows as the batch has identities, the same as after the first append |
| Processed.MergeOneRowTwice | tests/test_loader.py:61-69 | appending a one-row batch twice leaves a one-row history |
| Warehouse.ToDuckDbType | src/load.py:127-134 | integer types map to BIGINT, floating types to DOUBLE, Boolean to BOOLEAN, and every other type to VARCHAR, each if and only if |
| Warehouse.QuoteIdent | src/load.py:137-138 | a quoted identifier starts and ends with a double quote, and un-quoting it gives back the name |
| Warehouse.UndoubleRoundTrip | src/load.py:138 | doubling the embedded double quotes is undone by un-doubling them |
| Warehouse.QuoteIdentInjective | src/load.py:137-138 | distinct names quote to distinct identifiers |
| Warehouse.SplitQualified | src/load.py:141 | splitting at the first dot fails exactly when the name has no dot; otherwise schema, dot and relation give back the name, and the schema has no dot |
| Warehouse.SplitQualifiedFirstDot | src/load.py:141 | any dot-free schema and any relation that rebuild the name around a dot are what the split returns |
| Warehouse.Created | src/load.py:200 | the table created from a batch has the batch's columns in order and no rows |
| Warehouse.WidenedSnoc | src/load.py:163-168 | adding one absent column with its mapped type to a table widened by some new columns is the same as widening it by those columns and that one: an `ADD COLUMN` step extends the additive evolution by exactly that column, with nulls in every existing row |
| Warehouse.EvolvedShape | src/load.py:156-169 | schema evolution appends the batch's new columns in batch order, with their mapped types, and keeps the old types and rows, now padded with nulls |
| Warehouse.PurgedShape | src/load.py:173-185 | the purge removes exactly the deprecated columns present, keeps the order and types of the rest, and strips those cells from every row |
| Warehouse.PaddedBatchMatched | src/load.py:204-209 | once inserted, a batch whose identities are all non-null is entirely matched by its own keys, so a repeated `DELETE` removes every row it inserted |
| Warehouse.Unmatched | src/load.py:205-208 | the rows the delete keeps are exactly the table rows whose identity is not among the batch keys |
| Warehouse.UnmatchedCopies | src/load.py:205-208 | the delete keeps every copy of a row whose identity matches no batch key, and no copy of a matched row: each row's multiplicity is unchanged or zero |
| Warehouse.UpsertedShape | src/load.py:204-209 | the upsert keeps the columns and types; it keeps every unmatched row and inserts every batch row padded to the table's columns, and nothing else; its height is the unmatched rows plus the batch |
| Warehouse.ReconciledShape | src/load.py:200-202 | creation, evolution and purge leave a well-formed table whose columns are the old and batch columns less the deprecated ones, with the old rows widened |
| Warehouse.ReconciledIds | src/load.py:200-202 | schema reconciliation keeps an `extraction_id` column and every row's identity |
| Warehouse.LoadedKeeps | src/load.py:193-209 | after a load the table's columns are the union of the old and batch columns less the deprecated ones; every old row whose identity the batch lacks is kept, widened; every batch row is present |
| Warehouse.LoadedCount | src/load.py:204-209 | the loaded table has the unmatched old rows plus all batch rows, duplicates in the batch included |
| Warehouse.LoadedKeepsExactly | src/load.py:204-209 | when the table already has every batch column and none deprecated, an unmatched old row is kept unchanged |
| Warehouse.LoadIntoNewTable | src/load.py:193-209 | loading into a table that does not yet exist yields exactly the sanitized batch's columns and rows |
| Warehouse.LoadOneRowIntoEmpty | tests/test_loader.py:71-77 | a one-row batch loaded into an empty table leaves one row |
| Warehouse.LoadTwiceSameCount | src/load.py:204-209 | reloading a batch whose identities are all non-null does not change the row count |
| Warehouse.UnmatchedDistinct | src/load.py:205-208 | the delete keeps a table's identities distinct |
| Warehouse.LoadedDistinct | src/load.py:204-209 | a table with one row per identity, loaded with a batch whose identities are distinct and non-null (as the quality gate requires before every load), still has one row per identity |
| Warehouse.LoadedReplaces | src/load.py:204-209 | after a load, every row whose identity the batch names is a batch row widened to the table's columns: no prior row of that identity survives |
| Loader.EvolveStep | src/load.py:163-169 | one step of the column loop adds the column with its mapped type when the table lacks it, and is a no-op otherwise |
| Loader.EvolveEnds | src/load.py:163-169 | the column loop starts from the old table and ends at the evolved table |
| Loader.PurgeStep | src/load.py:180-185 | one step of the deprecated-column loop drops that column when present, and is a no-op otherwise |
| Loader.PurgeEnds | src/load.py:180-185 | the deprecated-column loop starts from the table and ends at the purged table |
| Loader.WeatherLoader.SaveProcessedData | src/load.py:52-82 | succeeds exactly for a non-empty batch in `parquet` or `csv` that has `event_date` and `extraction_id`; on success the sanitized batch is stored at its snapshot path (replacing a same-named file) and nothing else changes; on failure nothing changes |
| Loader.WeatherLoader.AppendToHistorical | src/load.py:84-124 | succeeds exactly for a non-empty batch in a supported format when the batch or the stored history has `extraction_id`; on success the history file holds the merge and nothing else changes; on failure nothing changes |
| Loader.WeatherLoader.EnsureDuckDbSchema | src/load.py:140-169 | the schema exists afterwards; a missing table is left missing; an existing table becomes its evolution by the batch; nothing else changes |
| Loader.WeatherLoader.DropDeprecatedDuckDbColumns | src/load.py:171-185 | the table becomes its purge, and nothing else changes |
| Loader.WeatherLoader.LoadIntoDuckDb | src/load.py:187-218 | succeeds exactly for a non-empty batch, a dotted table name and an `extraction_id` column; an empty batch or an undotted name changes nothing; otherwise the schema is created and the table created or reconciled, then upserted on success; a batch without `extraction_id` leaves the reconciled table behind |
| Quality.Missing | src/quality.py:35 | a column is reported missing if and only if it is required and absent |
| Quality.MissingInOrder | src/quality.py:35-37 | the missing columns appear in the order of the required-column list |
| Quality.NullIssuesExact | src/quality.py:40-51 | a null-values issue for column c with count n is raised if and only if c is checked and has n > 0 nulls |
| Quality.NullIssuesInOrder | src/quality.py:40-51 | null-values issues follow the order of the critical columns, each with that column's null count |
| Quality.NullCheck | src/quality.py:40-51 | among all findings, a null-values issue (c, n) appears if and only if c is critical and has exactly n > 0 nulls |
| Quality.TemperatureCheck | src/quality.py:60-65 | the temperature issue with count k is raised if and only if k > 0 rows lie outside the range; none is raised if and only if every temperature is null or within [min, max] |
| Quality.HumidityCheck | src/quality.py:67-72 | the humidity issue with count k is raised if and only if k > 0 rows lie outside the range; none is raised if and only if every humidity is null or within [min, max] |
| Quality.PrecipitationCheck | src/quality.py:74-78 | the precipitation issue with count k is raised if and only if k > 0 rows are below the minimum; none is raised if and only if every value is null or at least the minimum |
| Quality.WindSpeedCheck | src/quality.py:80-82 | the wind-speed issue with count k is raised if and only if k > 0 rows are below the minimum; none is raised if and only if every value is null or at least the minimum |
| Quality.DuplicateCheck | src/quality.py:84-86 | the duplicate issue with count k is raised if and only if k > 0 rows share their identity with another row; none is raised if and only if identities are distinct |
| Quality.DuplicatesAbsentIffDistinct | src/quality.py:84 | the duplicated count is zero if and only if no two rows share an `extraction_id` |
| Quality.DuplicatesNeverOne | src/quality.py:84 | the duplicated count is never one: a repeated identity marks at least two rows |
| Quality.TwoEqualIdsCountTwice | src/quality.py:84 | two rows with the same identity both count as duplicated |
| Quality.Validate | src/quality.py:29-93 | the messages are exactly those of the issue list, in order; valid if and only if there are none; an absent or empty batch gives only the empty-dataset message; missing columns give only the joined missing-columns message |
| Quality.ValidateOrRaise | src/quality.py:95-98 | raises if and only if the batch has an issue, with every message joined by "; " |
| Quality.RaisedMessageNamesEveryIssue | src/quality.py:95-98 | the raised text contains every issue's message |
| Quality.HumidityAboveMaximumFails | tests/test_transform_quality.py:49-57 | a one-row batch with humidity 140 against a 0-100 range raises the humidity issue, and its message is among the errors |
| Quality.CleanRowPasses | tests/test_transform_quality.py:35-46 | a one-row batch with all required columns, no critical nulls and every value in range raises no issue |
| Query.Widths | query.py:14-17 | every column is at least as wide as its header and every cell, and exactly as wide as one of them |
| Query.ColumnWidths | query.py:14-17 | the nested width loop computes exactly the column widths |
| Query.PrintTable | query.py:7-24 | no rows print `No rows found.`; otherwise a header, a dash separator joined by `-+-`, and one line per row in order, each cell (a null as the empty string, anything else as its `str` text) left-justified to its column's width and joined by ` \| ` |
| Query.LinesAligned | query.py:19-24 | header, separator and every row line have the same length: the widths plus three characters between columns |

## Left out

- Writing and reading files are not modelled. The processed directory is a map from path to dataframe, so Parquet and CSV encoding, zstd compression and read-back type changes are not modelled. A history written in one format and read in the other is one such case.
- Disk, permission and connection failures are not modelled. Neither are the directories created on construction and by `connect`. Failures are modelled only where the data determine them: empty batch, unsupported format, missing column, undotted table name.
- The partition directory is created before a save can fail on a missing `extraction_id`. The model leaves no trace of that empty directory.
- Timestamps come from the wall clock in the source. Here the timestamp is a parameter of `SaveProcessedData`. The history file name is also a parameter, as in the source.
- `save_raw_data`, the extraction, transformation and orchestration scripts, and the `run_query` command line are not part of this model.
- Logging is not modelled.
- Processed.DiagonalConcat: does not model `diagonal_relaxed` supercasting of clashing column types. The merged column type is the history's type when both sides have the column.
- Processed.DedupLast: keeps surviving rows in their original order, although polars does not promise an order for `unique`. Every property is stated over membership, identities and counts, not over positions.
- Warehouse.Created: the types of a freshly created table are recorded as the Arrow types of the batch. DuckDB's own Arrow type mapping is not modelled.
- Casts between DuckDB column types and batch types on insert are not modelled. Neither is the failure of an insert whose values do not fit the column type.
- `CREATE TABLE`, `DELETE` and `INSERT INTO` in `load_into_duckdb` use the table name unquoted. The model takes both parts of the name as the split at the first dot, as the quoted helpers do.
- Loader.WeatherLoader.EnsureDuckDbSchema: requires a dotted table name, which the source would otherwise reject with an unpacking error. It is only ever called after `LoadIntoDuckDb` has split the same name.
- Loader.WeatherLoader.DropDeprecatedDuckDbColumns: requires a dotted name and an existing table, which hold whenever `LoadIntoDuckDb` calls it.
- Loader.WeatherLoader.LoadIntoDuckDb: a failure other than a missing `extraction_id` is not modelled. The missing `extraction_id` leaves the schema changes in place, as in the source.
- Loader.WeatherLoader.LoadIntoDuckDb: table and column names are compared exactly. DuckDB resolves names without regard to case, so a load under a differently cased name of an existing table behaves differently from the model. In DuckDB, `CREATE TABLE IF NOT EXISTS` does nothing, the information-schema lookup by exact name (src/load.py:144-151) skips evolution, and the rows go into the existing table. The model instead creates and loads a second table under the new key. A batch column differing from a table column only in case makes `ADD COLUMN` fail, which is not modelled either.
- Warehouse.LoadTwiceSameCount: proved only for batches whose identities are all non-null. A null identity never matches in the `DELETE`, so such a row is inserted again on every load.
- The validator's thresholds are a record of reals. The configuration dictionary, a missing key in it (`KeyError`) and float conversion are not modelled. Values are reals, so NaN and infinities are not modelled.
- Quality.Validate: requires the four range-checked columns to hold numbers or nulls in a non-empty batch that has every required column. Only such a batch reaches the comparisons, and comparing a text column against a float raises an exception in polars, which the validator does not catch. Quality.ValidateOrRaise inherits the same requirement.
- `DataQualityValidator` is modelled as functions of the thresholds rather than a class, since it never updates its state.
- Query.PrintTable: the printed lines are returned rather than written to standard output. Rows must have one cell per column. Python's `str` of a number is carried as the text inside the `Number` cell, so float formatting is not modelled.
