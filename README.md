# async-provider-etl: a verified model of the incremental ETL run

This project models the orchestration core of `async-provider-etl`. The program
downloads CMS provider datasets whose theme is "Hospitals", normalises their
column names, loads them into a SQLite "hospital" database and records, in a
SQLite "metadata" database, the day each dataset was last processed. On the next
run it skips a dataset whose catalog `modified` date is not later than the date
recorded for its title.

The model is sequential. Every external service is a value or a parameter:

- the HTTP server is `Config.fetch` (URL to status and body);
- polars, which the transform reads and writes with, is `Config.codec` (parse and render);
- pandas, which the load reads with, is `Config.loadParse`, a separate parse;
- the clock is the `today` parameter;
- the catalog JSON is the `catalog` parameter.

State that the program changes in place is a class with `modifies` clauses:

- the local disk is `LocalDisk.files`;
- the metadata table is `MetadataDb.records`, a map from `file_name` to the stored `last_modified` text;
- the hospital database is `HospitalDb.tables`, a map from table name to table.

Modules, one per concern of the program:

- `Dates`: `strptime`/`strftime` with the `%Y-%m-%d` format, on the `full-date` form of section 5.6 of RFC 3339.
- `PathLib`: `Path.name`, `.stem`, `.suffix` and `/` on the text of a path. `.name`, `.stem` and `.suffix` agree with CPython's `PurePosixPath` on every path the program builds. The joined text itself is not normalised (see `PathLib.Join` under "## Left out").
- `PyStr`: ASCII `str.lower` and `str.replace` (leftmost, non-overlapping, all occurrences).
- `Environment`: bytes, files, tables, responses, the errors that end a run, and the local disk.
- `FileProcessing`: `process_and_write_file`.
- `FileLoad`: `read_csv` and `write_to_sqlite`.
- `MetadataProcessing`: `update_metadata_for_files` and `update_sqlite_metadata`.
- `AsynchronousProcessing`: `assemble_concurrent_awaitables`, `download_and_save_file` and `process_files_in_parallel`.
- `Pipeline`: `main`.
- `Wrappers` and `Seqs`: `Option`/`Result` and generic sequence facts.

Each imperative routine is a method proved equal to a specification function of
the old state. For example, `RunPipeline` ends in the state `Run` computes. The
reference definitions and lemmas about those functions state what the program
promises. Examples: the skip-or-fetch rule, key agreement between lookup and
commit, the character set of derived names, and an idempotent rerun on the same day.

## Model

| member | source | states |
|---|---|---|
| Dates.ParseDate | src/async_provider_etl/util/asynchronous_processing.py:42 | a text accepted by the `%Y-%m-%d` parse always denotes a valid calendar date |
| Dates.FormatDate | src/async_provider_etl/util/metadata_processing.py:49 | the `%Y-%m-%d` text of a date is ten characters with `-` at positions 4 and 7 |
| Dates.ParseFormatted | src/async_provider_etl/util/metadata_processing.py:49 | the text the committer writes parses back, under the scheduler's parse, to the same date |
| Dates.FormatParsed | src/async_provider_etl/util/asynchronous_processing.py:58 | on the exact `DDDD-DD-DD` shape the parse loses nothing: formatting the parsed date gives the text back |
| Dates.ParseShortMonthAndDay | src/async_provider_etl/util/asynchronous_processing.py:42 | the parse also accepts a one-digit month and day (`2024-1-5`) |
| Dates.ParseBlankPaddedDay | src/async_provider_etl/util/asynchronous_processing.py:58 | a blank in place of the day's leading zero is accepted |
| Dates.ParseRejectsDayOutOfRange | src/async_provider_etl/util/asynchronous_processing.py:58 | day 35 is rejected |
| Dates.ParseRejectsNonLeapFebruary29 | src/async_provider_etl/util/asynchronous_processing.py:58 | 29 February of a non-leap year is rejected |
| Dates.ParseRejectsYearZero | src/async_provider_etl/util/asynchronous_processing.py:42 | year 0000 is rejected |
| PathLib.StemOfCsvFile | src/async_provider_etl/util/asynchronous_processing.py:107 | the stem of `raw_dir/(title + ".csv")` is the title exactly when the title is non-empty and has no `/`; the suffix is then `.csv` |
| PathLib.EmptyTitleFile | src/async_provider_etl/util/asynchronous_processing.py:107 | an empty title gives the file `.csv`, whose stem is `.csv` and whose suffix is empty |
| PathLib.Join | src/async_provider_etl/util/file_processing.py:36 | a name that is non-empty, not `.` and free of `/`, joined to a directory, is the `.name` of the result |
| PathLib.Name | src/async_provider_etl/util/file_processing.py:36 | `.name` never holds a `/` |
| PathLib.DotSplit | src/async_provider_etl/util/file_load.py:15 | the name splits at its last `.` only when that dot neither leads nor ends the name; no `.` follows the split |
| PathLib.Suffix | src/async_provider_etl/__main__.py:127 | the stem followed by the suffix is the name |
| PathLib.StemHasNoSlash | src/async_provider_etl/util/file_load.py:15 | a stem never holds a `/` |
| PyStr.Lower | src/async_provider_etl/util/file_processing.py:30 | the result has the input's length, and each character is that of the input lowered |
| PyStr.LowerConcat | src/async_provider_etl/util/file_processing.py:30 | lowering distributes over concatenation |
| PyStr.Replace | src/async_provider_etl/util/file_load.py:34-40 | a replacement no longer than its pattern never lengthens the text |
| PyStr.ReplaceChars | src/async_provider_etl/util/file_load.py:34-40 | every character of the result comes from the input or from the replacement |
| Environment.CreatableCsvName | src/async_provider_etl/util/asynchronous_processing.py:107 | appending `.csv` to a title makes a creatable name exactly when the title is one |
| Environment.LocalDisk.OpenForWrite | src/async_provider_etl/util/asynchronous_processing.py:109 | opening in `"wb"` mode succeeds exactly for a name without `/` or NUL, and then creates or truncates that one file; a failed open changes nothing |
| Environment.LocalDisk.Append | src/async_provider_etl/util/asynchronous_processing.py:113 | a write appends the chunk to the open file |
| Environment.LocalDisk.WriteFile | src/async_provider_etl/util/file_processing.py:38 | the whole file is replaced by the new content |
| FileProcessing.KeepValid | src/async_provider_etl/util/file_processing.py:23-31 | every character kept is an ASCII letter, a digit or `_` |
| FileProcessing.NormalizeColumn | src/async_provider_etl/util/file_processing.py:29-31 | every character of a normalised column name is an ASCII letter, a digit or `_` |
| FileProcessing.ColumnMapping | src/async_provider_etl/util/file_processing.py:28-33 | the keys are exactly the header's columns, and each maps to its normalised name |
| FileProcessing.RenameColumns | src/async_provider_etl/util/file_processing.py:34 | the rename keeps the number of columns and the rows |
| FileProcessing.ProcessAndWriteFile | src/async_provider_etl/util/file_processing.py:9-43 | the disk and the result are those of `Transformed`: an unreadable raw file fails, and so does a rename that gives two columns one name; otherwise the renamed table is written under the transformed path and the raw path is returned |
| FileProcessing.TransformedSpec | src/async_provider_etl/util/file_processing.py:25-43 | a transform gets through exactly when the raw file exists, polars parses it and the normalised names are pairwise different; it then writes only the transformed file, and a failure writes nothing |
| FileProcessing.CollidingHeaderFails | src/async_provider_etl/util/file_processing.py:28-34 | columns `"A B"` and `"a_b"` both normalise to `a_b`, so the rename raises `DuplicateError` and nothing is written |
| FileProcessing.KeepValidSubsequence | src/async_provider_etl/util/file_processing.py:29-31 | the filter only deletes characters and keeps the order of the rest |
| FileProcessing.NormalizedHasNoSpaceOrCapital | src/async_provider_etl/util/file_processing.py:30 | a normalised name holds no blank and no upper-case ASCII letter |
| FileProcessing.SpacesBecomeUnderscores | src/async_provider_etl/util/file_processing.py:30 | the underscores of the result are the input's blanks plus its underscores: no blank is dropped |
| FileProcessing.NormalizedIsSubsequence | src/async_provider_etl/util/file_processing.py:29-31 | the name is a subsequence of the lower-cased, blank-to-underscore input, so it is never longer than the column |
| FileProcessing.NormalizeIdempotent | src/async_provider_etl/util/file_processing.py:29-31 | normalising a normalised name changes nothing |
| FileProcessing.MappingHasOneKeyPerColumn | src/async_provider_etl/util/file_processing.py:28-33 | with distinct column names the mapping has exactly one key per column (injectivity is not claimed) |
| FileProcessing.RenamedHeader | src/async_provider_etl/util/file_processing.py:28-34 | the transformed header is the raw header normalised position by position |
| FileProcessing.TransformReturnsInput | src/async_provider_etl/util/file_processing.py:43 | a successful transform returns its input path unchanged |
| FileProcessing.TransformKeepsName | src/async_provider_etl/util/file_processing.py:36 | the transformed file has the raw file's base name, when that name is neither empty nor `.` |
| FileProcessing.NormalizeConcat | src/async_provider_etl/util/file_processing.py:29-31 | normalisation works character by character, so it distributes over concatenation |
| FileProcessing.TrailingBlankKept | src/async_provider_etl/util/file_processing.py:30 | a trailing blank becomes a trailing underscore |
| FileProcessing.FacilityIdExample | src/async_provider_etl/util/file_processing.py:30 | `"Facility ID "` becomes `"facility_id_"` |
| FileProcessing.OverallRatingExample | src/async_provider_etl/util/file_processing.py:29-31 | `"Hospital Overall Rating!"` becomes `"hospital_overall_rating"` |
| FileLoad.StripPunctuation | src/async_provider_etl/util/file_load.py:33-37 | lower-casing and four deletions never lengthen the name |
| FileLoad.SanitizeTableName | src/async_provider_etl/util/file_load.py:32-41 | no call of the chain has a replacement longer than its pattern, so the table name is never longer than the stem |
| FileLoad.ReadCsv | src/async_provider_etl/util/file_load.py:10-21 | the read gives `(stem of the path, table)` exactly when the file exists and pandas parses it, and `None` otherwise |
| FileLoad.ReadRawFileName | src/async_provider_etl/util/file_load.py:15 | a raw file `title.csv` whose title is non-empty without `/` loads under the name `title` |
| FileLoad.HospitalDb.ToSqlReplace | src/async_provider_etl/util/file_load.py:56 | `to_sql(..., if_exists="replace")` replaces the whole table under the name |
| FileLoad.WriteToSqlite | src/async_provider_etl/util/file_load.py:24-56 | the table under the sanitised name becomes the frame; every other table is unchanged |
| FileLoad.StripPunctuationChars | src/async_provider_etl/util/file_load.py:33-37 | after the first five calls no `:`, `-`, `(`, `)` or capital letter is left |
| FileLoad.StripPunctuationKeepsPlain | src/async_provider_etl/util/file_load.py:33-37 | a text free of those characters passes the first five calls unchanged |
| FileLoad.DashSpaceStepIsNoop | src/async_provider_etl/util/file_load.py:35-38 | the `" - "` to `" "` call never changes anything, because every `-` is removed one call earlier |
| FileLoad.SanitizedCharset | src/async_provider_etl/util/file_load.py:32-41 | a sanitised table name holds no `:`, `-`, `(`, `)`, blank or upper-case ASCII letter |
| FileLoad.CollapseRun | src/async_provider_etl/util/file_load.py:39-40 | the single `"__"` to `"_"` pass turns a maximal run of k underscores into ⌈k/2⌉ of them |
| FileLoad.SanitizeKeepsCleanNames | src/async_provider_etl/util/file_load.py:32-41 | a name of lower-case letters, digits and non-adjacent single underscores is unchanged |
| FileLoad.BlankRunExample | src/async_provider_etl/util/file_load.py:39-40 | `"a   b"` sanitises to `"a__b"`: a double underscore survives |
| FileLoad.DashExample | src/async_provider_etl/util/file_load.py:32-41 | `"A - B"` sanitises to `"a_b"` |
| MetadataProcessing.Lookup | src/async_provider_etl/util/asynchronous_processing.py:49-54 | the row fetched for a key exists exactly when the key is in the table, and then holds its text |
| MetadataProcessing.MetadataDb.SelectLastModified | src/async_provider_etl/util/asynchronous_processing.py:49-54 | the `SELECT` plus `fetchone()` returns the stored text exactly when the key is present, and changes nothing |
| MetadataProcessing.MetadataDb.InsertOrReplace | src/async_provider_etl/util/metadata_processing.py:44-50 | `INSERT OR REPLACE` writes the row under the key whether or not it existed; the table stays one row per key |
| MetadataProcessing.UpdateSqliteMetadata | src/async_provider_etl/util/metadata_processing.py:30-54 | the row for the file name now holds today's date as `%Y-%m-%d` text; nothing else changes |
| MetadataProcessing.UpdateMetadataForFiles | src/async_provider_etl/util/metadata_processing.py:9-27 | the table after the update is the one `CommitFiles` gives: one upsert per processed file, keyed by its stem |
| MetadataProcessing.Committed | src/async_provider_etl/util/metadata_processing.py:21-27 | reference definition: the keys are the old ones plus the stems; committed stems hold today, all other rows are as they were |
| MetadataProcessing.CommitFilesIsCommitted | src/async_provider_etl/util/metadata_processing.py:21-27 | the upserts in list order give exactly the reference table |
| MetadataProcessing.CommitClosedForm | src/async_provider_etl/util/metadata_processing.py:23 | after the update each processed file's stem maps to today's text, no other key is added and other rows are kept |
| MetadataProcessing.CommitOrderIndependent | src/async_provider_etl/util/metadata_processing.py:21-27 | two file lists with the same stems give the same table, whatever the order of the upserts |
| MetadataProcessing.CommitIdempotent | src/async_provider_etl/util/metadata_processing.py:21-27 | repeating the update on the same files the same day changes nothing |
| MetadataProcessing.CommitOneFile | src/async_provider_etl/util/metadata_processing.py:21-27 | committing one file upserts its stem with today's text |
| MetadataProcessing.CommittedDateParses | src/async_provider_etl/util/metadata_processing.py:49 | the text committed for a processed file parses back to the day of the run |
| AsynchronousProcessing.AssembleConcurrentAwaitables | src/async_provider_etl/util/asynchronous_processing.py:16-76 | the nested loops build the schedule `Schedule` defines (datasets, then distributions, in order; the first unreadable date raises) and only read the metadata table |
| AsynchronousProcessing.Decide | src/async_provider_etl/util/asynchronous_processing.py:56-67 | a title without a record is fetched; only a stored record can raise, and the error carries that record's text |
| AsynchronousProcessing.DecideIff | src/async_provider_etl/util/asynchronous_processing.py:56-67 | a pair is fetched exactly when the title has no record or its record is strictly earlier than `modified`; a record on or after `modified` skips; only an unreadable record raises |
| AsynchronousProcessing.SameDaySkipsNextDayFetches | src/async_provider_etl/util/asynchronous_processing.py:58-61 | a record of `2024-01-01` skips a dataset modified that day and fetches one modified on `2024-01-02` |
| AsynchronousProcessing.ScheduleUrlsUniform | src/async_provider_etl/util/asynchronous_processing.py:40-54 | all distributions of one dataset get the same decision, because the lookup key is the title |
| AsynchronousProcessing.ScheduleIsFreshTasks | src/async_provider_etl/util/asynchronous_processing.py:36-76 | the schedule succeeds exactly when every dataset's dates are readable, and then equals the reference list `FreshTasks` |
| AsynchronousProcessing.FreshTasksMembers | src/async_provider_etl/util/asynchronous_processing.py:56-74 | a `(title, url)` pair is in the reference list exactly when it is a distribution of a dataset that needs fetching |
| AsynchronousProcessing.FreshTasksInCatalogOrder | src/async_provider_etl/util/asynchronous_processing.py:36-76 | the scheduled pairs keep catalog order, and there are at most as many as there are distributions |
| AsynchronousProcessing.ScheduleSplit | src/async_provider_etl/util/asynchronous_processing.py:49-54 | the schedule of two catalogs one after the other is the two schedules joined: no decision depends on another |
| AsynchronousProcessing.Chunks | src/async_provider_etl/util/asynchronous_processing.py:112 | the chunks concatenated in order are the body, and each holds 1 to 1024 bytes |
| AsynchronousProcessing.DownloadAndSaveFile | src/async_provider_etl/util/asynchronous_processing.py:79-124 | the chunk-by-chunk write leaves the disk and the result of `Downloaded`: on status 200 with a creatable name the raw file holds the body and its path is returned; any other status, or an `open` that fails, raises and writes nothing |
| AsynchronousProcessing.DownloadedSpec | src/async_provider_etl/util/asynchronous_processing.py:105-124 | a download succeeds exactly on status 200 for a title without `/` or NUL, then returns the raw path of the title, which holds the body; another status raises `HTTPError`, a failed `open` raises; a failure leaves the disk as it was, and no other file ever changes |
| AsynchronousProcessing.SubdirectoryTitleFails | src/async_provider_etl/util/asynchronous_processing.py:107-109 | the title `A/B` points into a sub-directory that is never created, so its `open` fails even on status 200 |
| AsynchronousProcessing.SameTitleSameFile | src/async_provider_etl/util/asynchronous_processing.py:107 | two distributions of one title target the same path, so the later download replaces the earlier one's file |
| AsynchronousProcessing.ProcessFilesInParallel | src/async_provider_etl/util/asynchronous_processing.py:127-172 | the disk and the result list are those of `ExtractAll`: every download is awaited first, stopping at the first that raises; then the transforms are collected in order, stopping at the first that raises |
| AsynchronousProcessing.DownloadAllReturnsRawPaths | src/async_provider_etl/util/asynchronous_processing.py:153-163 | downloads that all get through return each task's raw path, in order, and every title was creatable |
| AsynchronousProcessing.TransformAllReturnsInput | src/async_provider_etl/util/asynchronous_processing.py:165-170 | transforms that all get through hand back the paths they were given |
| AsynchronousProcessing.DownloadErrorWins | src/async_provider_etl/util/asynchronous_processing.py:153-170 | a failed download ends the stage with its own error, before any transform's error is collected |
| AsynchronousProcessing.ExtractReturnsRawPaths | src/async_provider_etl/util/asynchronous_processing.py:166-172 | a run that gets through returns, task by task, the raw path each download wrote, and every title was creatable |
| AsynchronousProcessing.CommitEmptyTitle | src/async_provider_etl/util/metadata_processing.py:23 | an empty title's file is `.csv`, so the commit writes the key `.csv` |
| AsynchronousProcessing.EmptyTitleNotRecorded | src/async_provider_etl/util/asynchronous_processing.py:49-56 | that commit leaves the decision for the empty title as it was, because the lookup key is `""` |
| Pipeline.ThemeFilter | src/async_provider_etl/__main__.py:82-84 | what is kept are catalog datasets listing `"Hospitals"`, never more than the catalog holds; a failure names a dataset without a theme |
| Pipeline.ThemeFilterSpec | src/async_provider_etl/__main__.py:82-84 | the filter fails exactly when some dataset has no theme; otherwise it keeps exactly the datasets listing `"Hospitals"`, in catalog order |
| Pipeline.ThemeFilterCounts | src/async_provider_etl/__main__.py:82-84 | each dataset listing `"Hospitals"` is kept as many times as the catalog holds it, every other dataset never |
| Pipeline.CsvPaths | src/async_provider_etl/__main__.py:127 | only paths with suffix `.csv` are kept, never more than were given |
| Pipeline.CsvPathsSpec | src/async_provider_etl/__main__.py:127 | exactly the paths with suffix `.csv` are kept, in their order |
| Pipeline.CsvPathsCounts | src/async_provider_etl/__main__.py:127 | each `.csv` path is kept as many times as it occurs, every other path never |
| Pipeline.CsvPathsKeepRawPaths | src/async_provider_etl/__main__.py:127 | every raw path of a well-formed title passes the `.csv` filter |
| Pipeline.ReadAll | src/async_provider_etl/__main__.py:134-140 | one read result per path, in path order |
| Pipeline.TransformedFileMayFailToLoad | src/async_provider_etl/__main__.py:134-170 | a raw file polars transforms can still be one pandas rejects: the transform succeeds and the load's read gives `None`, so the load skips it |
| Pipeline.StemList | src/async_provider_etl/util/metadata_processing.py:23 | the keys the commit writes are the stems of the processed files, in order |
| Pipeline.WriteReadResults | src/async_provider_etl/__main__.py:155-172 | the loop leaves the store `WriteAll` gives and submits one write per non-`None` result, in order |
| Pipeline.WriteEffectsCount | src/async_provider_etl/__main__.py:155-170 | a `None` result gets no write and every other result exactly one |
| Pipeline.WriteAllKeys | src/async_provider_etl/__main__.py:150-172 | the store keeps its tables and gains exactly the written names; a table not written is unchanged |
| Pipeline.WriteAllValues | src/async_provider_etl/__main__.py:150-172 | with distinct sanitised names each written result's table is in the store under its name |
| Pipeline.WriteOrderIndependent | src/async_provider_etl/__main__.py:150-172 | with distinct sanitised names the final store does not depend on the order of the writes |
| Pipeline.OneTablePerWrite | src/async_provider_etl/__main__.py:150-172 | with distinct sanitised names there is one table per written result |
| Pipeline.RunPipeline | src/async_provider_etl/__main__.py:60-184 | `main` leaves the disk, the metadata table and the hospital store, and reports the outcome and effect log, that `Run` computes from the state before it |
| Pipeline.EmptyScheduleChangesNothing | src/async_provider_etl/__main__.py:94-117 | the run reports no new files exactly when the schedule is empty, and then nothing is downloaded, transformed, committed or loaded |
| Pipeline.AbortKeepsDatabases | src/async_provider_etl/__main__.py:90-113 | a run that raises leaves the metadata table and the hospital store as they were |
| Pipeline.LoadEffects | src/async_provider_etl/__main__.py:105-172 | the load's effect log is the metadata commit followed only by table writes |
| Pipeline.CommitPrecedesWrites | src/async_provider_etl/__main__.py:105-172 | a run has effects exactly when it completes, and then the metadata commit precedes every table write |
| Pipeline.StemsOfRawPaths | src/async_provider_etl/util/metadata_processing.py:23 | for well-formed titles the stems of the raw paths are the titles: the key committed is the key looked up |
| Pipeline.CompletedRunCommitsTitles | src/async_provider_etl/__main__.py:90-113 | for a catalog of non-empty titles, after a completed run every scheduled title holds a record that parses to today |
| Pipeline.SkipAfterCommit | src/async_provider_etl/util/asynchronous_processing.py:56-67 | a dataset modified on or before today whose title was committed today, or whose record is already late enough, has every distribution skipped |
| Pipeline.RescheduleAfterCommit | src/async_provider_etl/util/asynchronous_processing.py:36-76 | after such a commit, a catalog modified on or before today schedules nothing |
| Pipeline.ScheduledOrUpToDate | src/async_provider_etl/util/asynchronous_processing.py:56-74 | each dataset with distributions was either scheduled or already had a late-enough record |
| Pipeline.RescheduleAfterRun | src/async_provider_etl/__main__.py:90-113 | the metadata a completed run commits for non-empty titles without `/` makes the same catalog's schedule empty |
| Pipeline.IdempotentRerun | src/async_provider_etl/__main__.py:90-113 | for a catalog of non-empty titles, running again after a completed run, on the same catalog the same day with every `modified` on or before today, downloads nothing and changes nothing |

## Behaviour of the code

The model follows the code in every case below, including where the code's own
comments suggest another intent.

- The metadata is committed before the load: lines 105-113 of `src/async_provider_etl/__main__.py` run before lines 125-178, so a run whose load fails has already recorded its titles. `Pipeline.CommitPrecedesWrites` states this order.
- The load reads the paths handed back by `process_files_in_parallel`. Those are the raw download paths, because `process_and_write_file` returns its input (`src/async_provider_etl/util/file_processing.py:43`). The transformed files under the transformed directory are written but never loaded (`AsynchronousProcessing.ExtractReturnsRawPaths`).
- The comment at `src/async_provider_etl/util/asynchronous_processing.py:152` says files are processed as they are downloaded. Every transform's result, and so its error, is collected at `src/async_provider_etl/util/asynchronous_processing.py:166-170`, after the `as_completed` loop has awaited every download. A failed download therefore ends the stage before a transform's error is seen (`AsynchronousProcessing.DownloadErrorWins`), and any raise ends the run: there is no per-file isolation. The model's `Aborted` outcome follows the code.
- Column names keep a trailing blank as `_` and turn every blank into `_` (`src/async_provider_etl/util/file_processing.py:30`). So `"Facility ID "` gives `facility_id_` (`FileProcessing.FacilityIdExample`) and `"Hospital Overall Rating!"` gives `hospital_overall_rating` (`FileProcessing.OverallRatingExample`).
- The table-name chain (`src/async_provider_etl/util/file_load.py:32-41`) makes a single `"__"` to `"_"` pass. That halves each run of underscores rather than collapsing it, so `"a   b"` becomes `"a__b"` (`FileLoad.CollapseRun`, `FileLoad.BlankRunExample`).
- A dataset with an empty title is downloaded to the file `.csv`. The stem of `.csv` is `.csv` itself, so the commit records the key `.csv` while the lookup asks for `""`. Such a dataset is downloaded again on every run (`AsynchronousProcessing.CommitEmptyTitle`, `AsynchronousProcessing.EmptyTitleNotRecorded`).
- A title holding `/` names a sub-directory of the raw directory that is never created, so its `open` raises and ends the run (`AsynchronousProcessing.SubdirectoryTitleFails`).
- Two columns whose normalised names coincide make `df.rename` (`src/async_provider_etl/util/file_processing.py:34`) raise polars' `DuplicateError`. That raise ends the run before the metadata commit (`FileProcessing.CollidingHeaderFails`).
- The transform reads with polars (`src/async_provider_etl/util/file_processing.py:25`) and the load with pandas (`src/async_provider_etl/util/file_load.py:14`). A raw file the first accepts may be rejected by the second, and the load then skips it with a message (`src/async_provider_etl/__main__.py:169-170`, `Pipeline.TransformedFileMayFailToLoad`).

## Left out

- The HTTP transport (aiohttp session, `response.json()`, connection pooling). The catalog is a parameter, and each URL's response is `Config.fetch(url)`. A connection error or timeout in mid-stream is not modelled.
- The SQLite engine (aiosqlite, sqlite3, `CREATE TABLE IF NOT EXISTS`, `PRAGMA journal_mode=WAL`, `commit`, `close`). The two databases are maps. A map holds at most one row per key, which is what the `file_name` primary key gives. A failing `to_sql` is not modelled.
- polars and pandas. A table is a header plus opaque rows. polars' `read_csv` and `write_csv` are the abstract `Config.codec`; pandas' `read_csv` is the separate abstract `Config.loadParse`. Every exception of either read becomes a parse that returns `None`.
- All concurrency: `asyncio.as_completed` and `gather`, the multiprocessing pool, both executors and `threading.Lock`. The stages run one after the other in schedule order. The lock only serialises writes, and the model's writes are already serial.
- AsynchronousProcessing.ProcessFilesInParallel: returns the paths in schedule order, not in completion order.
- AsynchronousProcessing.ProcessFilesInParallel: on an abort, the model's disk holds the raw files of the downloads before the failing one and, when a transform fails, the transformed files before it. The concurrent code may also have finished other downloads or transforms by then; those extra files are not modelled. Which error ends the stage is as in the code: a download error if any download fails, otherwise the first failing transform in submission order.
- Pipeline.WriteReadResults: the writes run in result order. With two results whose names sanitise alike, the thread pool may leave either table; `Pipeline.WriteOrderIndependent` covers the distinct-name case.
- AsynchronousProcessing.Chunks: every chunk except the last is exactly 1024 bytes. `iter_chunked` may deliver smaller chunks, but the saved file is the same either way.
- `datetime.now()` is the `today` parameter, read once per run. The code reads the clock at every upsert, so a run that crosses midnight could write two dates.
- Dates.FormatDate: `%Y` is modelled as four zero-padded digits; below year 1000 the platform's `strftime` may not pad.
- PyStr.Lower: only ASCII letters are lower-cased; Python's full Unicode `str.lower` is not modelled.
- Dates.ParseDate: only the ASCII digits `0`-`9` are accepted. Python's `strptime` matches `\d`, which also accepts every other Unicode decimal digit (for example Arabic-Indic digits), so such a text is rejected by the model but parsed by the code.
- AsynchronousProcessing.DownloadedSpec: which names `open("wb")` can create is approximated by `CreatableName` (no `/`, no NUL). A name longer than the file system allows, a permission error, or a directory of that name created outside the program also make `open` raise; a title such as `./x`, whose sub-directory exists, would open. None of these is modelled.
- Environment.LocalDisk.OpenForWrite: the same approximation of which names can be created.
- PathLib.Join: the path is kept as text. `/` does not normalise `.` components, empty components or repeated `/` as `PurePosixPath` does. So the joined text differs from CPython's for a name that is empty or `.`, and for titles holding `//` or `.` components: `raw/a//b.csv` where CPython gives `raw/a/b.csv`, and `raw/./x.csv` where CPython gives `raw/x.csv`. `.name`, `.stem` and `.suffix` agree on these paths. Such titles hold `/`, so the model's `open` refuses them (see `AsynchronousProcessing.DownloadedSpec`).
- PathLib.Stem: carries no contract of its own. Its properties are stated by `PathLib.Suffix` (stem followed by suffix is the name), `PathLib.StemHasNoSlash` and `PathLib.StemOfCsvFile`.
- A catalog entry without a `title`, `modified`, `distribution` or `downloadURL` key raises `KeyError` in the code. The model's `Dataset` always has these fields. Only a missing `theme` raises (`MissingTheme`).
- Pipeline.ThemeFilter: `theme` is modelled as a list of strings, as the catalog provides it. For a plain string theme, Python's `in` would test for a substring.
- The download list holds `(title, url)` pairs rather than coroutine objects. The code's coroutines only start running in `process_files_in_parallel`, which is when the model downloads.
- argparse, `print` and the verbose flag, `mkdir`, and pool-size introspection in `src/async_provider_etl/__main__.py`.
- `src/async_provider_etl/__init__.py` is only a timing wrapper, and `src/async_provider_etl/util/__init__.py` only re-exports. Neither is part of this model.
