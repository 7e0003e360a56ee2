# Retail sales ETL: CSV-to-staging load, modelled in Dafny

This project models the load phase of `etl.py`. That phase reads the retail
sales CSV files of an input folder into the SQL Server staging table
`stg.SalesRaw`. The model covers these steps:

- **Schema contract.** The 40-column `EXPECTED_COLUMNS` list and its
  duplicate check. `SourceFile` is the last column.
- **File selection.** The sorted `raw_offline_retail_sales_*.csv` matches are
  used. If there are none, the sorted `sales_*.csv` matches are used. If both
  are empty, the load stops.
- **Header normalisation.** Each header is trimmed, then every byte-order
  mark is removed.
- **Column reconciliation.** A file that lacks a required column is refused.
  Otherwise the file name becomes `SourceFile`, and the columns are projected
  into schema order.
- **Concatenation.** The files' rows are joined in file order.
- **Numeric cleaner.** This is `_clean_numeric_series`, modelled on one value.
  It trims, deletes `,` `$` `%`, rewrites `(x)` as `-x`, and then parses into
  an exact decimal or null.
- **Per-column cleaning.** Numeric columns go through the cleaner and date
  columns through a date parser. All other columns stay text.
- **Insert statement.** The parameterised INSERT, whose column list and
  placeholders are both derived from the schema.
- **`chunked_iterable`.** This uses `range` semantics for every integer step.
- **Batch-then-fallback insert protocol.** Chunks are inserted and committed
  in order. On the first failure the load rolls back and inserts row by row
  from row 0. It commits after a successful row whose number is a multiple of
  1000, and rolls back on every refused row. It stops after ten bad rows and
  always ends in an error.
- **`GO` splitter.** The batch splitter that `run_sql_file` applies to the SQL
  scripts.

The database is abstract. It is a log of committed row numbers and a log of
pending row numbers. Whether the server accepts a chunk or a single row is
given by two oracle functions, one indexed by chunk number and one by row
number. The folder is a map from entry names to already-parsed tables. The
date parser is a function parameter.

The modules follow the program's structure:

| Module | Covers |
|---|---|
| `Wrappers`, `Seqs`, `Text` | Result types, sequence helpers, and Python string semantics: `strip`, `isspace`, ASCII `upper`, `join` |
| `Schema` | The column lists and the duplicate check |
| `SqlScript` | The `GO` splitter |
| `Chunking` | `chunked_iterable` |
| `Numeric` | The numeric cleaner |
| `Sorting` | `sorted` on file names |
| `CsvLoad` | Selection, normalisation, reconciliation and concatenation |
| `Cleaning` | Per-column conversion |
| `InsertSql` | The INSERT text |
| `Staging` | The insert protocol |
| `Pipeline` | The whole load end to end |

## Model

| member | source | states |
|---|---|---|
| Schema.CheckSchema | etl.py:58-61 | The check fails exactly when the list has a repeated name. The reported set is exactly the names that occur more than once. |
| Schema.ExpectedColumnsValid | etl.py:46-61 | The schema has 40 names, all distinct, so the import-time check passes. |
| Schema.SourceFileLast | etl.py:46-56 | `SourceFile` is in the schema, and its first position is the last one (index 39). |
| Schema.DesignatedColumnsInSchema | etl.py:166-175 | Every numeric and every date column is a schema column other than `SourceFile`. No column is both numeric and a date. |
| Text.Strip | etl.py:145 | The result has no whitespace margin. It is the input with whitespace-only margins cut from both ends. |
| Text.StripAbsorbs | etl.py:117 | Extra whitespace around a text never changes what it strips to. |
| Text.WithoutMembers | etl.py:120 | After deleting a set of characters, a character occurs exactly when it occurred before and is not in the set. |
| SqlScript.SeparatorSpellings | etl.py:87 | A line separates batches exactly when, trimmed, it is `GO` in one of its four letter cases. |
| SqlScript.SplitBatches | etl.py:84-94 | Flattening the batches gives exactly the non-separator lines, in order. No batch is empty. |
| SqlScript.SplitSqlBatches | etl.py:84-94 | The loop computes the same batches, so it keeps every non-separator line in order. |
| SqlScript.SplitScriptRoundTrip | etl.py:84-94 | Writing non-empty, separator-free batches with a `GO` line after each and splitting the result gives the same batches back. |
| SqlScript.Statements | etl.py:98-101 | At most one statement per batch, and every statement executed is non-empty and trimmed. |
| SqlScript.StatementsAppend | etl.py:98-101 | The statements of two runs of batches are those of the first run followed by those of the second. |
| SqlScript.StatementsFromBatches | etl.py:98-101 | Every batch whose joined, stripped text is non-empty is executed, and every statement executed is such a batch's text. |
| Chunking.Chunks | etl.py:111-113 | Every chunk is non-empty and at most `size` long. Every chunk but the last is exactly `size` long. |
| Chunking.ChunksFlatten | etl.py:111-113 | Concatenating the chunks gives back the input: no element is lost, repeated or reordered. |
| Chunking.ChunkIsSlice | etl.py:111-113 | Chunk `k` is the slice from `k*size` to `k*size + size`, clamped at the end. |
| Chunking.ChunksPrefix | etl.py:111-113 | The chunks before chunk `k` hold exactly the first `k*size` elements. |
| Chunking.ChunkCount | etl.py:111-113 | There are no chunks exactly when the input is empty. Otherwise the last chunk starts before the end, and the chunks together span the whole input. |
| Chunking.ChunkedIterable | etl.py:111-113 | A zero step is an error. A negative step yields no chunk. A positive step yields chunks that concatenate back to the input. |
| Numeric.RenderRoundTrip | etl.py:123 | Parsing the canonical text of any decimal gives that decimal back. |
| Numeric.RewriteParens | etl.py:122 | A value wrapped in parentheses, with no line break inside, becomes its negation. A value not starting with `(` is unchanged. |
| Numeric.CleanNumeric | etl.py:116-123 | Blank or whitespace-only input gives null. The values of numerals are stated by CleanNumeral and CleanParenNumeral. That everything else gives null is stated by CleanOnlyNumerals. |
| Numeric.CleanMargins | etl.py:117 | Surrounding whitespace never changes the cleaned value. |
| Numeric.CleanDecorated | etl.py:116-123 | Any text that becomes the canonical text of `d` once `,` `$` `%` are deleted cleans to `d`. |
| Numeric.ParseNumeral | etl.py:123 | Every plain numeral parses to the value of its digits. This holds for any spelling: an optional `+` or `-`, leading zeros, and an empty integer or fraction part (`.50`, `5.`), though not both. |
| Numeric.ParseDecimalOnlyNumerals | etl.py:123 | Only numerals parse. Any text the parser accepts is a plain numeral, and its value is that numeral's digit value. Every other text gives null. |
| Numeric.CleanOnlyNumerals | etl.py:116-123 | When the cleaner gives a value, the stripped text with symbols deleted and parentheses rewritten is a plain numeral with that value. Every other value cleans to null. |
| Numeric.TwoPointsExample | etl.py:123 | `"1.2.3"` does not parse. |
| Numeric.LonePointExample | etl.py:123 | `"."` does not parse. |
| Numeric.LoneSignExample | etl.py:123 | `"+"` does not parse. |
| Numeric.CleanNumeral | etl.py:116-123 | Any text that becomes such a numeral once `,` `$` `%` are deleted cleans to the value of its digits. |
| Numeric.CleanParenNumeral | etl.py:116-123 | Any text that becomes an unsigned numeral in parentheses once the symbols are deleted cleans to that value negated. |
| Numeric.CleanParenthesised | etl.py:116-123 | Any text that becomes `(` + a non-negative number + `)` once the symbols are deleted cleans to that number negated. The symbols are deleted before the parentheses are rewritten. |
| Numeric.CleanCurrencyExample | etl.py:116-123 | `"$1,234.50"` cleans to 1234.50. |
| Numeric.CleanParenExample | etl.py:116-123 | `"(50)"` cleans to -50. |
| Numeric.CleanParenCurrencyExample | etl.py:116-123 | `"($1,234)"` cleans to -1234. |
| Numeric.CleanPercentExample | etl.py:116-123 | `"12.5%"` cleans to 12.5. |
| Numeric.CleanSymbolOnlyExample | etl.py:116-123 | `","` cleans to null: it is blank once the symbol is gone. |
| Numeric.CleanEmptyParenExample | etl.py:116-123 | `"()"` cleans to null, because the lone `-` does not parse. |
| Numeric.CleanCentsExample | etl.py:116-123 | `"$.50"` cleans to 0.50. |
| Numeric.CleanLeadingZerosExample | etl.py:116-123 | `"+$007"` cleans to 7. |
| Numeric.CleanTextExample | etl.py:116-123 | Unparseable text such as `"n/a"` cleans to null instead of failing. |
| Sorting.SortSet | etl.py:130-132 | The sorted list holds every matching name once, in strictly increasing string order. |
| Sorting.SortedUnique | etl.py:130-132 | Two strictly increasing lists with the same names are equal, so the sorted order is unique. |
| CsvLoad.NormalizeName | etl.py:145 | A normalised header contains no byte-order mark and is never longer than the raw one. |
| CsvLoad.NormalizeMargins | etl.py:145 | Whitespace around a header name does not matter. |
| CsvLoad.NormalizeLeadingBom | etl.py:145 | A byte-order mark at the front of a name, with trailing whitespace, is removed completely. |
| CsvLoad.NormalizeBomBeforeSpace | etl.py:145 | Trimming happens before removing the byte-order mark. So whitespace between a leading mark and the name survives, and the name does not match. |
| CsvLoad.Missing | etl.py:148 | A name is reported missing exactly when it is a schema column other than `SourceFile` and is absent from the normalised headers. |
| CsvLoad.MissingInSchemaOrder | etl.py:148 | Missing columns are listed in schema order. |
| CsvLoad.ReconcileRefusal | etl.py:148-150 | A file is refused exactly when it lacks some required column. The refusal names every missing column and only those, plus the first 50 normalised headers (all of them if there are fewer). |
| CsvLoad.ReconcileRows | etl.py:152-159 | An accepted file keeps its row count. Every row has exactly the schema's columns in schema order. `SourceFile` holds the file name. Every other cell comes from the first header with that name. |
| CsvLoad.FillLoopNeverFires | etl.py:155-158 | Once the check passes, every schema column is present, so the fill loop adds nothing. |
| CsvLoad.SelectFiles | etl.py:130-136 | Selection fails exactly when neither pattern matches, and then with no-input-files. Otherwise it returns a non-empty, strictly sorted list of folder entries. That list holds the primary matches if any exist, otherwise the `sales_*.csv` matches. |
| CsvLoad.SelectionIsSortedMatches | etl.py:130-133 | The selection equals any strictly sorted listing of the same names. |
| CsvLoad.ConcatFailsAtFirst | etl.py:139-162 | Concatenation fails exactly when some step failed, and then with the first failed step's error. |
| CsvLoad.ConcatIndex | etl.py:162 | Row `j` of step `i` sits right after all rows of the earlier steps. |
| CsvLoad.CombineFailsAtFirstRefusal | etl.py:139-162 | The load stops exactly when some selected file is refused, with the first refused file's error. |
| CsvLoad.CombinedRowCount | etl.py:162 | The combined row count is the sum of the files' row counts. |
| CsvLoad.CombinedRowOrigin | etl.py:152-162 | Row `j` of file `i` sits right after the rows of earlier files. It is that file's reconciled row, with 40 cells, and its `SourceFile` is the file's name. |
| CsvLoad.CombinedRowsShaped | etl.py:159-162 | Every combined row has one cell per schema column. |
| Cleaning.CleanRows | etl.py:165-178 | Cleaning keeps the row count, and every row keeps 40 cells. |
| Cleaning.CleanKeepsSource | etl.py:165-178 | The `SourceFile` cell stays the unchanged file-name text. |
| Cleaning.CleanDesignatedColumns | etl.py:165-175 | Each numeric column holds the cleaner's result for its text. Each date column holds the date parser's result for its text. |
| InsertSql.PlaceholderCount | etl.py:181 | There are exactly `n` placeholders for `n` columns. |
| InsertSql.StatementMarks | etl.py:180-182 | For plain column names, the statement has exactly one `?` per column. |
| InsertSql.ColumnListRoundTrip | etl.py:180 | The bracketed column list reads back as exactly the columns, in order. |
| InsertSql.StagingInsertShape | etl.py:180-184 | The staging INSERT names all 40 schema columns in schema order and has 40 placeholders, one per cell of a row. |
| Staging.Snapshot | etl.py:218 | The debugging snapshot has one entry per numeric column, named in order. Each entry holds the row's cell under that column. |
| Staging.FastPath | etl.py:190-196 | The fast path finishes exactly when no chunk from `k` on is refused. Otherwise it reports the first refused chunk and its error. |
| Staging.FastPathStops | etl.py:190-196 | When chunk `s` is the first refused one, the fast path commits exactly the chunks before it and reports chunk `s` with its error. |
| Staging.FastPathCommits | etl.py:192-194 | Every chunk before the stop is committed in order, and nothing stays pending. |
| Staging.Fallback | etl.py:204-223 | The scan tries rows in order and keeps the earlier records. It collects at most 10. With fewer than 10 it tries every row. With 10 it stops right after the row that gave the tenth. |
| Staging.RowsWhereMembers | etl.py:204-209 | The rows of a range that pass a test (for the fallback: that the server refuses) are exactly the listed ones. |
| Staging.RowsWhereIncreasing | etl.py:204 | The listed rows are in scan order. |
| Staging.FallbackRecordsFailing | etl.py:204-223 | The recorded row numbers are the earlier ones followed by the first refused rows of the rest, as many as fit. |
| Staging.FallbackRecordsMade | etl.py:209-220 | Every record the scan adds names a refused row below the row count, and is the record built from that row number and the server's error for it. |
| Staging.FallbackRecordsDescribe | etl.py:209-220 | Every record of the load's scan holds its row's number, the server's error, the row's `SourceFile` cell and its numeric cells by name. |
| Staging.CommitPoint | etl.py:207-208 | The first row at or after `j` whose success commits: a multiple of 1000, with none before it. |
| Staging.FallbackCommits | etl.py:204-210 | The fallback commits exactly the surviving rows, in order. A surviving row is one whose next commit row was reached and accepted before any refusal rolled it back. |
| Staging.Recover | etl.py:197-229 | The fallback always ends in an error. It reports the first record if there is one, otherwise the original batch failure. |
| Staging.LoadRows | etl.py:186-229 | A successful load has no records and nothing pending. A failed load has at most 10 records, and it tried every row or stopped right after the tenth. |
| Staging.RecoverRecords | etl.py:201-223 | The records are exactly the first (up to 10) refused rows, in strictly increasing order, each describing its row. |
| Staging.RecoverError | etl.py:224-229 | The error names a bad row exactly when some row is refused, and then the first refused row. Otherwise it re-raises the batch failure. |
| Staging.RecoverCommits | etl.py:199-210 | Starting from a rolled-back state, the fallback adds exactly the surviving rows to what was committed. |
| Staging.LoadOutcome | etl.py:190-199 | The load reports success exactly when the step is negative, or positive with every chunk accepted. |
| Staging.LoadAllChunks | etl.py:190-196 | With a positive step and every chunk accepted, every row is committed once, in order, and nothing is pending. |
| Staging.LoadNegativeStep | etl.py:190-196 | A negative step inserts nothing, yet reports success. |
| Staging.LoadZeroStep | etl.py:190-199 | A zero step fails before any chunk. The fallback commits the surviving rows, and a failure without bad rows reports the zero step. |
| Staging.LoadAfterChunkFailure | etl.py:190-210 | After the first refused chunk `s`, chunks before `s` stay committed and the fallback's surviving rows follow them. Without bad rows the error names chunk `s`. |
| Staging.DuplicateCommit | etl.py:192-208 | The fallback restarts from row 0. So when a later chunk is refused and row 0 is acceptable, row 0 is committed twice. |
| Staging.LoadRecords | etl.py:197-229 | Whatever made the load fall back, the records are the first refused rows in scan order. The error names the first refused row when one exists. |
| Staging.ScenarioChunkThenRow | etl.py:190-229 | Five rows in chunks of two, with chunk 1 and row 3 refused, commit rows 0, 1 and 0 again. The only record is row 3, all five rows are tried, and the error names row 3. |
| Pipeline.StagedRows | etl.py:128-178 | The rows reaching the insert phase have one cell per schema column. |
| Pipeline.ReadFailure | etl.py:130-162 | The load fails while reading exactly when selection finds nothing (no-input-files) or some selected file is refused. In the second case the error names a selected file, every file before it was accepted, and the error is that file's refusal. |
| Pipeline.InsertsEveryRow | etl.py:162-196 | The insert phase sees one row per row of the selected files. With all chunks accepted it commits all of them, once each, in order. |
| Pipeline.BadRowNamesItsFile | etl.py:211-216 | Every bad-row record carries the `SourceFile` cell of the combined row it names. |

## Left out

- Reading CSV text: a file is given as its header names and string cells. Quoting, encodings and how `pd.read_csv` renames duplicate raw headers are not modelled.
- CsvLoad.ReconcileRows: when two headers normalise to the same name, the model takes the first. Pandas would keep both under the same label.
- Database access: `executemany`, `execute`, `commit` and `rollback` are abstract.
  - Whether the server accepts a chunk or a row is an oracle input, and the chunk oracle and the row oracle are independent.
  - Commit and rollback never fail.
  - Row values are not converted to SQL parameter types.
- Staging.LoadRows: the rows still pending when the load raises are reported as pending. Their fate when `main` closes the connection is not modelled.
- Numeric.CleanNumeric: parsing is limited to an optional sign followed by digits with at most one point.
  - `pd.to_numeric` also accepts exponents, `inf` and `nan`, which are not modelled.
  - Values are exact decimals, not binary floats.
  - Numeric.CleanNumeric: `pd.to_numeric` skips ASCII whitespace around the number. Whitespace that appears only once symbols are deleted (`"$ 5"`, `"12.5 %"`, `"( 5)"`) is therefore accepted by pandas, but gives null here.
- Date parsing with `pd.to_datetime(dayfirst=True)` is a function parameter of the model.
- Cleaning.CleanDesignatedColumns: the date parser is applied to each cell on its own. `pd.to_datetime` infers one format from a column's first parseable value and applies it to the whole column, so a cell's result can depend on other cells. That dependence is not modelled.
- File selection: `Path.glob` is modelled as prefix and suffix matching on the folder's entry names.
  - `sorted` on paths of one folder is modelled as code-point order of the names.
  - Sorting.SortSet is a ghost definition, so selection is specified but not executable.
- Text.AsciiUpper: `str.upper` is modelled for ASCII letters only. That is enough to decide whether a line reads `GO`.
- The line splitting of `str.splitlines` and the reading of SQL files: a script is given as its lines.
- The database effects of running the SQL scripts, that is `cur.execute`, `commit`, `rollback` and `close` (etl.py:101-109), are not modelled. Which statements are executed is modelled.
- Configuration: `.env` loading, folder-existence checks and connection-string building (etl.py:1-41, 63-75).
- Logging, `run_validation` and `main`.
- Error messages: errors are structured values, not the formatted message strings.
- The `"unknown"` source fallback (etl.py:211-215) is not modelled, because every row has 40 cells and the lookup cannot fail.
