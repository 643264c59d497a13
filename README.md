# Verified model of the data-engineer-challenge import pipeline

This project models the core of the data-engineer-challenge repository in Dafny:

- the chunked CSV import of `csv_to_db.py`: load the file, validate each batch, map the valid rows to model objects, log each batch, commit once;
- the table registry of `util.py`;
- the relational store declared in `models.py`;
- the two report computations `req001.hires_quarter` and `req002.high_performing_departments`.

Modules follow the program's structure:

| module | what it models |
|---|---|
| `Registry` (registry.dfy) | `util.py`: default table, file and chunk size; column names per table |
| `Decimal`, `Dates`, `Cells` | the field coercions (`pd.to_numeric`, `pd.to_datetime` with `errors='coerce'`) and `fillna` on one field |
| `Frames` | the slice of a pandas DataFrame the validators change in place, as a class |
| `Loader` | `load_csv_data` |
| `Validator` | `validate_departments`, `validate_jobs`, `validate_hired_employees` |
| `Mapper` | `create_data_object` |
| `Models` | the six declared tables, the session and commit, `delete_table`, `delete_all_tables`, `initialize_db` |
| `Importer` | `separate_valid_invalid_data`, `insert_data_to_db`, `process_valid_invalid_results` |
| `ReportData`, `HiresQuarter`, `HighPerforming` | `hires_quarter` and `high_performing_departments` |

Modelling choices:

- A CSV line is a sequence of optional strings, where `None` is an empty field. A data frame field is a `Cell`: missing, raw text, an integer or a timestamp.
- Reading follows `read_csv`'s defaults: blank lines give no row, and an empty field or one of its NA tokens (`NA`, `null`, `NaN`, the empty text, …) is missing.
- A line with more fields than the table has columns makes `read_csv` raise. In the program this happens while `separate_valid_invalid_data` iterates the chunks (csv_to_db.py:42). The handler there returns None (csv_to_db.py:63-67), and `len(None)` then raises at csv_to_db.py:271. The model reports it as a load failure. Either way nothing is written.
- Coercion returns a missing cell where pandas gives NaN/NaT.
- The database is a `Database` class with one map field per table. The three imported tables are keyed by the id the data supplies. The three audit tables get store-assigned ids from explicit counters.
- The import driver takes the file's lines, the chunk size and the table name as parameters. It returns the log records it would print.
- The driver also takes, as a parameter, the keyword under which a hire's id is passed to the model. With `employee_id`, as csv_to_db.py:174 writes it, the driver is the program as written: see "## Findings". With `id` it is the corrected program.

Where the code and its documentation differ, the model follows the code (the one evident bug, at csv_to_db.py:174, is modelled both as written and corrected):

- The invalid rows are selected *after* the validator's coercions (csv_to_db.py:86). A field that failed to convert is therefore missing in the invalid set, not its original text. The untouched copy keeps the text.
- There is a single session and a single commit for the whole file (csv_to_db.py:203, 241), not one per batch.
- The log's `file_name` is the module-level constant of `util.py` (csv_to_db.py:229), not the file being imported.

## Model

| member | source | states |
|---|---|---|
| Registry.Columns | util.py:21-25 | defined for exactly departments, jobs and hired_employees, with those column lists in that order; every list starts with id and repeats no name |
| Decimal.ParseInt | csv_to_db.py:80 | text converts to an integer exactly when it is digits, or a sign followed by digits; it converts to their value, negated after a minus sign |
| Decimal.ParseFormatInt | csv_to_db.py:80 | every integer's decimal text converts back to that integer |
| Dates.ParseDateTime | csv_to_db.py:83 | text that converts has the ISO layout, with `T` or a space between date and time, and denotes a real calendar instant inside pandas' timestamp range |
| Dates.ParseFormatDateTime | csv_to_db.py:83 | every representable instant's ISO text converts back to that instant |
| Dates.Quarter | req001.py:51 | the quarter is in 1..4 and its three months contain the timestamp's month |
| Cells.Coerce | csv_to_db.py:80-83 | a raw field becomes a value exactly when its text converts, that value being the parsed one; otherwise, or when missing, it becomes missing |
| Frames.RowsWithMissing | csv_to_db.py:86 | selects exactly the rows of the frame that have a missing field |
| Frames.RowsCompleteOn | csv_to_db.py:89 | keeps exactly the rows of the frame with a value in every listed column |
| Frames.SplitIsMerge | csv_to_db.py:86-89 | when "has a missing field" means "lacks a required one", the two selections interleave the rows: each row in exactly one, order kept |
| Frames.MergeCounts | csv_to_db.py:232-233 | an interleaving keeps every row once: the two counts add up and the multisets recombine |
| Frames.DataFrame.constructor | csv_to_db.py:42 | the frame holds the batch's columns and rows |
| Frames.DataFrame.AssignColumnCopy | csv_to_db.py:77 | the target column is appended, or overwritten, with the source column's fields in every row |
| Frames.DataFrame.CoerceColumn | csv_to_db.py:80-83 | only the named column changes, each field coerced |
| Frames.DataFrame.RowsWithAnyMissing | csv_to_db.py:86 | returns the rows with a missing field, in order, under the frame's columns; the frame is unchanged |
| Frames.DataFrame.DropMissing | csv_to_db.py:89 | the frame keeps exactly the rows complete on the subset, in order |
| Frames.DataFrame.FillMissing | csv_to_db.py:227 | every missing field becomes the fill value; every other field is unchanged |
| Loader.FieldCell | csv_to_db.py:23 | a field is missing exactly when it is empty or one of read_csv's NA tokens; any other field keeps its text |
| Loader.NonBlank | csv_to_db.py:23 | the lines that become rows are exactly the file's non-blank lines, each as often as it occurs |
| Loader.NonBlankConcat | csv_to_db.py:23 | dropping blank lines works line by line: on two files joined it gives the two results joined, so file order is kept |
| Loader.NameFields | csv_to_db.py:23 | a line gives one raw field per column name: its own fields as read, then missing fields past its end |
| Loader.Batches | csv_to_db.py:23 | the batches concatenate to the rows; each has 1..size rows; all but the last have exactly size rows; their number is the rows divided by size, rounded up |
| Loader.LoadCsvData | csv_to_db.py:20-25 | an unknown table fails at the registry lookup; a chunk size below 1 fails; a line longer than the columns fails; otherwise the batches carry the registry's columns, hold the rows of the non-blank lines in order named by position, hold only raw fields, and are empty exactly when every line is blank |
| Loader.LoadedFields | csv_to_db.py:23 | each loaded field comes from the matching non-blank line: its field at that position as read, or missing past the end of a short line |
| Loader.FormChunkSizes | app.py:94-96 | of the chunk sizes the upload form lets through, loading succeeds exactly for those from 1 up, including the default of util.py:17; the rest fail at read_csv; no batch exceeds the form's cap |
| Validator.ValidateDepartments | csv_to_db.py:95-113 | the frame becomes the valid rows after coercion; the returned table is the invalid rows |
| Validator.ValidateJobs | csv_to_db.py:115-133 | the frame becomes the valid rows after coercion; the returned table is the invalid rows |
| Validator.ValidateHiredEmployees | csv_to_db.py:69-93 | the frame gains datetime_str, becomes the valid rows after coercion; the returned table is the invalid rows |
| Validator.CoerceRow | csv_to_db.py:77-83 | the id columns are coerced to integers and the datetime to a timestamp; the text columns are kept; datetime_str holds the datetime's text from before its coercion |
| Validator.CoerceHiredEmployeeColumns | csv_to_db.py:77-83 | the five column assignments, in the source's order, give the coerced rows |
| Validator.DepartmentsRule | csv_to_db.py:104-110 | a departments row is valid iff its id converts to an integer and its department is present |
| Validator.JobsRule | csv_to_db.py:124-130 | a jobs row is valid iff its id converts to an integer and its job is present |
| Validator.HiredEmployeesRule | csv_to_db.py:77-89 | a hire row is valid iff id, department_id and job_id convert, the datetime parses and the name is present; datetime_str keeps the original datetime text |
| Validator.MissingIffInvalid | csv_to_db.py:86-89 | the any-column missing test and the required-column dropna test agree on every row |
| Validator.ValidationSplitsBatch | csv_to_db.py:86-89 | every row of a batch is in exactly one of valid and invalid, order kept, so the counts add up to the batch size |
| Validator.ValidationMatchesRowRule | csv_to_db.py:86-89 | the valid and invalid rows are exactly the batch's rows that pass or fail the row rule, in batch order |
| Importer.ValidateBatch | csv_to_db.py:45-53 | one batch gives its valid rows, its invalid rows and the batch as loaded |
| Importer.SeparateValidInvalidData | csv_to_db.py:27-67 | one result per batch in batch order for a known table; None for an unknown table with batches; an empty list with no batches |
| Importer.FirstUnmappable | csv_to_db.py:220-222 | for the given id keyword, every batch before the index maps entirely; the batch at the index has a row that maps to nothing |
| Importer.AddRows | csv_to_db.py:220-222 | for the given id keyword, succeeds iff every valid row maps; the session then gains each row's object in row order |
| Importer.LogBatch | csv_to_db.py:226-235 | batch number i+1, the valid and invalid counts, and the invalid rows with missing fields filled with 0 |
| Importer.AddBatches | csv_to_db.py:210-237 | for the given id keyword, logs exactly the batches before the first unmappable one; when all map, the session holds every valid row's object, batch after batch |
| Importer.InsertDataToDb | csv_to_db.py:198-246 | for the given id keyword, an unmappable row stops the import with the store untouched; otherwise one commit that either stores all added objects or changes nothing |
| Importer.LoadedBatchesMap | csv_to_db.py:220-222 | with the corrected key, every valid row of every loaded batch maps to a model object |
| Importer.LogsAccountForEveryRow | csv_to_db.py:231-233 | logs are numbered 1, 2, …; each accounts for its batch's rows; together they account for every loaded row |
| Importer.LogsAccountForEveryLine | csv_to_db.py:228-235 | over a whole file the logs account for every non-blank line exactly once |
| Importer.FirstWithValid | csv_to_db.py:220-222 | the index of the first batch with a valid row: none before it has one, the batch at it does |
| Importer.AsWrittenMapsNoHire | csv_to_db.py:174 | as written, a batch of hires maps exactly when it has no valid row |
| Importer.AsWrittenStopsAtFirstValidHire | csv_to_db.py:174 | as written, the hire import stops exactly at the first batch with a valid row |
| Importer.ImportBatches | csv_to_db.py:265-281 | for the given id keyword: zero batches give False and write nothing; otherwise the batches are logged up to the first unmappable one, which raises with the store untouched, and when all map the commit decides the outcome |
| Importer.ProcessValidInvalidResults | csv_to_db.py:251-281 | a failed load writes nothing; a file with only blank lines gives False; otherwise the batches are logged up to the first unmappable one, which raises with the store untouched, and when all map True comes exactly when the commit goes through, with every valid row stored. With the `id` keyword every batch maps; with the `employee_id` keyword as written, a hires file with a valid row fails at the first batch holding one and stores no hire |
| Mapper.Get | csv_to_db.py:150 | `row[key]` gives the field under the first such label, and on a well-formed row it is defined exactly for the row's labels |
| Mapper.Construct | csv_to_db.py:154 | a keyword that is not a mapped attribute of the model gives no object; an object built is of the requested model |
| Mapper.CreateDataObjectKeyed | csv_to_db.py:146-196 | invalid-data calls and unknown tables give None; an object built belongs to the named table |
| Mapper.CreateDataObjectAsWritten | csv_to_db.py:173-182 | with the employee_id keyword no hire is ever built |
| Mapper.CreateDataObject | csv_to_db.py:135-196 | the mapping with the id keyword: invalid-data calls and unknown tables give None; an object built belongs to the named table |
| Mapper.ValidRowTyped | csv_to_db.py:80-89 | a row that survives validation has integers, text and a timestamp in the columns the model needs |
| Mapper.ValidRowsTyped | csv_to_db.py:89 | every row a validator keeps from raw input is typed that way |
| Mapper.MapsValidRow | csv_to_db.py:148-182 | every validated row maps to the object built column by column, keyed by its id field |
| Mapper.HireWithoutTextColumn | csv_to_db.py:169-171 | a hire row without a datetime_str column is stored with an empty datetime_str |
| Mapper.EmployeeIdKeyLosesHires | csv_to_db.py:174 | as written a well-formed hire row maps to nothing, while the corrected mapping builds it |
| Models.TableNamed | models.py:59 | a name finds the declared table that carries it, or none when no table does |
| Models.TableNameRoundTrip | models.py:13-53 | each declared table is found under its own name |
| Models.InsertedKeys | models.py:15-30 | after inserting, a key is present iff it was before or an added row of that table carries it |
| Models.CanCommitExtend | models.py:15-30 | one more row can be committed iff its table exists and its key is free after the earlier rows |
| Models.CommitStoresAddedRows | csv_to_db.py:241 | a commit that goes through stores every added row under its id, keeps every earlier row, and adds nothing else |
| Models.CommitKeepsLayout | models.py:15-30 | after a commit every row still sits under its own id, and a table that does not exist stays empty |
| Models.PlanCommit | csv_to_db.py:241 | succeeds iff the added rows can be committed, giving the store with them inserted in order |
| Models.Database.constructor | models.py:63-64 | a database with no tables yet |
| Models.Database.InitializeDb | models.py:68-69 | every declared table exists afterwards; tables that existed keep their rows, and the id counters are unchanged |
| Models.Database.DeleteAllTables | models.py:55-56 | no table exists afterwards, every table is empty, and each audit table's id counter restarts at 1 |
| Models.Database.DeleteTable | models.py:58-60 | a name not in the metadata is an error; a declared but absent table is an error; otherwise only that table goes and every other table and counter is unchanged |
| Models.Database.DropTable | models.py:60 | the table and its rows go; an audit table's id counter restarts; nothing else changes |
| Models.Database.Commit | csv_to_db.py:241 | all added rows are inserted or, on a missing table or a repeated primary key, none; the audit tables are untouched |
| Models.Database.InsertBackupFile | models.py:32-37 | a backups_files row gets a fresh id, and the other tables are untouched |
| Models.Database.InsertTransaction | models.py:39-44 | a transactions row gets a fresh id, and the other tables are untouched |
| Models.Database.InsertReport | models.py:46-53 | a reports row gets a fresh id, and the other tables are untouched |
| Models.Session.Add | csv_to_db.py:222 | the object joins the end of the session's added objects |
| HiresQuarter.YearKeys | req001.py:58-61 | the pivot's index: strictly ascending (department_id, job_id) pairs, exactly those with a hire in the year |
| HiresQuarter.PresentQuarters | req001.py:61 | the pivot's columns: in ascending order, exactly the quarters some hire of the year falls in |
| HiresQuarter.GroupIdsAreQuarterIds | req001.py:58 | gathering ids group by group over the hires gives each group exactly the ids of the year's hires in it, and no group forms without a hire |
| HiresQuarter.Pivot | req001.py:58-61 | the pivot of the gathered group counts has a row per key of the year and a column per quarter present, and every cell is the number of distinct employee ids with that key in that quarter |
| HiresQuarter.AbsentQuarterIsZero | req001.py:65-67 | a quarter nobody was hired in counts 0 for every key |
| HiresQuarter.WithZeroColumn | req001.py:66-67 | adding a zero column for such a quarter keeps every cell a correct count |
| HiresQuarter.SelectedCounts | req001.py:72 | selecting columns by position keeps every cell a correct count |
| HiresQuarter.InQuarterOrder | req001.py:70-72 | the quarter columns come in order 1, 2, 3, 4, each with its counts |
| HiresQuarter.HiresQuarter | req001.py:36-79 | one row per key hired in the year, ascending, four quarter columns 1..4, and every cell the distinct-employee count |
| HiresQuarter.OtherYearsDoNotCount | req001.py:54-55 | a hire outside the year changes no count |
| HiresQuarter.RepeatedEmployeeCountsOnce | req001.py:58 | the same employee hired twice under one key in one quarter counts once |
| HighPerforming.YearDepartments | req002.py:55 | the groupby keys: strictly ascending, exactly the departments with a hire in the year |
| HighPerforming.HiredInCountsRows | req002.py:55 | a department's hired is the number of its hire rows in the year |
| HighPerforming.CountsFor | req002.py:55 | one row per listed department with its hired count |
| HighPerforming.HiresPerDepartment | req002.py:55 | one row per department hired in the year, each exactly once, ascending, with its number of hire rows, which is at least 1 |
| HighPerforming.TotalIsYearHires | req002.py:58 | the counts the mean is taken over add up to the year's hires |
| HighPerforming.Above | req002.py:61 | keeps exactly the counts strictly above the mean, taking nothing outside the input |
| HighPerforming.HighPerformers | req002.py:58-61 | exactly the departments whose count, times the number of departments, exceeds the year's hires: above the mean |
| HighPerforming.Joined | req002.py:64-67 | one row per count in the same order, keeping hired; a department in the table brings its id and name, any other empty fields |
| HighPerforming.SortByHired | req002.py:70 | descending by hired and a permutation of its input |
| HighPerforming.ResultIsTheDepartmentsAboveTheMean | req002.py:50-72 | the result is descending by hired, holds the joined row of every department above the mean, and only such rows |
| HighPerforming.HighPerformingDepartments | req002.py:36-72 | descending by hired, one row per department above the mean, each above the mean |
| HighPerforming.EqualCountsGiveNoResult | req002.py:58-61 | when every department hired the same number, none is above the mean |
| HighPerforming.UnequalCountsGiveAResult | req002.py:58-61 | when two departments hired different numbers, some department is above the mean |
| HighPerforming.NoneAboveExactlyWhenEqual | req002.py:58-61 | no count is above the mean exactly when all counts are the same |
| HighPerforming.EmptyExactlyWhenCountsEqual | req002.py:50-72 | the report is empty exactly when every department hired in the year hired the same number |

## Left out

- Console output: every `print` and traceback string. The log records `insert_data_to_db` builds are returned instead of printed.
- The module-level run of the pipeline (csv_to_db.py:283), and the unreachable `session.close()` after `return` (csv_to_db.py:246-248).
- File I/O: `read_csv` is modelled on the file's lines, already split into fields. CSV quoting and the encoding of the file are not modelled.
- `read_csv` raising on an empty file: an empty file gives zero batches.
- Loader.LoadCsvData: when the first line is longer than the columns, pandas takes its extra leading fields as the row index instead of raising. The model fails for it as for any other over-long line.
- Loader.LoadCsvData: the NA tokens are matched on the field's exact text, and a blank line is one with nothing but spaces and tabs. Options that change either are not modelled.
- Cells.Coerce: does not model the 64-bit width of `Int64`. An id outside that range makes `astype('Int64')` raise inside the validator, so the whole import fails as in the over-long line case; the model keeps every integer exactly. It also does not model that `to_numeric` goes through 64-bit floats in a column that holds a missing value, which rounds ids above 2^53.
- Decimal.ParseInt: accepts only an optional sign followed by digits. `pd.to_numeric` also accepts surrounding whitespace, decimal points and exponents, and `astype('Int64')` raises on a non-integral number. That dtype behaviour is pandas-internal.
- Dates.ParseDateTime: accepts only the `YYYY-MM-DDTHH:MM:SS` layout, with `T` or a space as separator and an optional `Z`, at whole seconds. `pd.to_datetime` infers many more layouts, time zones and sub-second parts.
- Dates.ParseDateTime: converts each field on its own. pandas 2 infers one format from the column's first value and applies it to the whole column, so a field in another layout, or a column that mixes `Z` and plain times, is not modelled.
- The `invalid_data` of a log is a table of cells. `to_dict(orient="records")` is not modelled.
- `create_data_object` with `is_valid_data=False`: `DepartmentFailed`, `JobFailed` and `HiredEmployeeFailed` are never defined, so that call gives None. The driver never makes it.
- Mapper.Construct: the declarative constructor is modelled as needing a value of its column's type for every attribute, although SQLAlchemy would accept any value and leave type checks to the database. Only validated rows reach it, so the difference does not show in the driver.
- The database engine, connection handling, SQL types and column widths (`String(255)`).
- The binding of the session to the engine, and `session.close()`.
- A commit that fails for reasons other than a missing table or a repeated primary key. The model's commit fails only on those two.
- `backups.py`, `reports.py`, `config.py`, and the web layer `app.py` / `main.py`: Flask routes, uploads, templates and file serving. The chunk size limit of app.py:95 appears only as the constant `Registry.MaxChunkSize`, which `Loader.FormChunkSizes` uses.
- The report loaders `req001.load_data` and `req002.load_data`, the plots, CSV/HTML files and `Report` inserts of `process_requirement2`, and the module-level test runs.
- HiresQuarter.HiresQuarter: the `quarter` column that `hires_quarter` writes into the caller's frame (req001.py:51) is not modelled. Only the returned table is.
- HiresQuarter.HiresQuarter: the final `sort_values` (req001.py:77) is the identity here, because the pivot's index is already sorted ascending. The shape of a pivot over no rows at all (an empty year) is pandas-specific and is modelled as a table with no rows and the four quarter columns.
- HighPerforming.SortByHired: the model sorts stably, by insertion. The order pandas' default sort gives to rows with equal `hired` is not specified, and the model promises nothing about it.
- The default argument `year=2021` of `hires_quarter` and `high_performing_departments` (req001.py:36, req002.py:36): the model always takes the year as a parameter.
- The `except` path of `high_performing_departments` (req002.py:74-78): with typed hire records no step can raise, so it is unreachable in the model.
- The float mean of req002.py:58: the test `hired > mean` is written without division as `hired * n > total`, with n ≥ 1 departments.
- Concurrency: nothing in the core is concurrent.

## Findings

| source | as written | input that shows it | evidently intended | confidence | as-written member | corrected member |
|---|---|---|---|---|---|---|
| csv_to_db.py:174 | the hire's id is passed to `HiredEmployee(**obj)` under the keyword `employee_id`, which the model (models.py:25) does not map, so the constructor raises, `create_data_object` returns None, and `session.add(None)` fails | any valid hired_employees row, e.g. `4535,Marcelo Gonzalez,2021-07-27T16:02:08Z,1,2` | pass it as `id`, the primary key column the model declares | not executed | Mapper.CreateDataObjectAsWritten | Mapper.CreateDataObject |

The driver carries both halves through its id keyword parameter. As written (`employee_id`), `Mapper.EmployeeIdKeyLosesHires` and `Importer.AsWrittenStopsAtFirstValidHire` show that the import of a hires file fails at the first batch with a valid row, with no hire stored; `Importer.ProcessValidInvalidResults` states that outcome. Corrected (`id`), `Mapper.MapsValidRow` and `Importer.LoadedBatchesMap` show that every valid row maps, and the same method states that the commit alone then decides the outcome.
