# Automated PDF data extraction — a Dafny model of its core

The repository runs a pipeline over research PDFs kept in an S3 bucket:

- Two extraction scripts (Grobid and PyPDF) turn the PDFs into XML and text files.
- A validator cleans the CSV files parsed from them.
- A loader creates warehouse tables and loads the CSVs into Snowflake.
- A small FastAPI service and a Streamlit page let a user browse the tables and run SQL.

This project models the parts of that pipeline that are logic rather than calls to other services. Each source file has its own module:

- `Validation` (`validation.dfy`): the field rules of the `Content` and `Metadata` schemas. Also the clean-and-validate pass, which splits the CSV rows into accepted records and error entries and overwrites the output file with a header and the accepted records.
- `RestApi` (`rest_api.dfy`):
  - the keyword blocklist of `execute_query`;
  - the `dict(zip(columns, row))` shaping of its results;
  - `get_tables` and `get_table_data`;
  - the URL, run id and payload that `trigger_airflow_dag` sends.
- `FetchResult` (`fetch_result.py`'s `extract_sql_query`): the text from the first line containing `SELECT`.
- `SnowflakeTransfer` (`snowflake_transfer.dfy`):
  - the dtype-to-warehouse-type table;
  - the `CREATE OR REPLACE TABLE` statement built from a CSV's columns;
  - the upper-casing done by `upload_csv_to_snowflake`;
  - the three `CREATE ... IF NOT EXISTS` statements.
- `GrobidProcess` (`grobid_process.dfy`):
  - the `.pdf` key filter;
  - the names of the XML and text files;
  - the newline join of the element texts;
  - the loop that writes, for each PDF, the XML reply and its text file.
- `PyPdf` (`pypdf.dfy`):
  - the paginated key listing;
  - the page-by-page text accumulation that stops at the first failing page;
  - the `[:-4] + ".txt"` output name;
  - the loop over the listed PDF keys.

Shared modules:

- `Strings`: the Python `str` operations used: `strip`, `upper`, `lower`, `replace`, `split`, `join`, substring tests, `os.path.basename` and `os.path.join`.
- `Dicts`: `dict(zip(...))`.
- `Storage`: the `.pdf` key test and the record of a file write.
- `Wrappers`: `Option`.

Every outside service becomes a parameter. This covers:

- the S3 listing pages and the Grobid reply;
- the XML parser's element texts;
- the PDF reader's page texts;
- the warehouse cursor, as a function from statement text to result set;
- the clock.

Files a script writes are returned as values: `FileWrite(path, content)` records, in write order, or the lines of the cleaned CSV. The loops of the source are methods with loop invariants. Each is proved equal to a function of its inputs, and the properties are lemmas about those functions.

Character classes are the ASCII parts of Python's Unicode classes:

- `str.isspace()` and the regex `\s`: space, `\t` to `\r`, and 0x1C to 0x1F;
- `str.isalnum()`: ASCII letters and digits;
- `\w`: ASCII letters, digits and `_`.

A CSV row is a map from column name to cell. `csv.DictReader` sets every name the header gives past the end of a short line to `None`. It does this after pairing the names with the cells, so a name the header repeats loses an earlier cell too. The model writes `None` as an absent key, and every field rule treats `None` the same way as a missing key. A line with no cell at all gives no row: `DictReader` skips it. A written line always has one cell per column, since `DictWriter` writes every field of the record.

## Model

| member | source | states |
|---|---|---|
| Strings.Split | streamlit/fetch_result.py:63 | `split('\n')` gives at least one piece and no piece holds the separator |
| Strings.JoinSplit | streamlit/fetch_result.py:63-65 | joining the pieces of a split with the same separator gives the input back |
| Strings.SplitJoin | streamlit/fetch_result.py:63-65 | splitting a join of separator-free pieces gives the pieces back |
| Strings.JoinAt | streamlit/fetch_result.py:65 | a join splits at any inner boundary into the joins of the two halves and the separator |
| Strings.JoinEnds | airflow/dags/Scripts/Pipeline_Scripts/Grobid/grobid_process.py:68 | a join of no parts is empty; otherwise it starts with the first part and ends with the last |
| Strings.Strip | airflow/dags/Scripts/Validation.py:17 | `strip()` is the input with its leading and trailing whitespace cut off: a contiguous slice, with only whitespace before and after it; it is empty exactly when the text is all whitespace, and otherwise starts and ends with non-whitespace |
| Strings.StripNoEdgeSpace | airflow/dags/Scripts/Validation.py:31 | text without whitespace at its ends is unchanged by `strip()` |
| Strings.StripIdempotent | airflow/dags/Scripts/Validation.py:84 | stripping twice is stripping once |
| Strings.Upper | airflow/dags/Scripts/Pipeline_Scripts/SnowflakeTransfer/snowflake_transfer.py:55 | `upper()` keeps the length |
| Strings.UpperChars | airflow/dags/Scripts/Pipeline_Scripts/SnowflakeTransfer/snowflake_transfer.py:62 | upper-casing leaves no lower-case letter, changes only lower-case letters, and each to its own letter |
| Strings.Lower | airflow/dags/Scripts/Pipeline_Scripts/Grobid/grobid_process.py:28 | `lower()` keeps the length |
| Strings.LowerChars | airflow/dags/Scripts/Pipeline_Scripts/Grobid/grobid_process.py:28 | lower-casing leaves no upper-case letter, changes only upper-case letters, and each to its own letter |
| Strings.UpperIdempotent | airflow/dags/Scripts/Pipeline_Scripts/SnowflakeTransfer/snowflake_transfer.py:55 | `upper()` applied twice equals applied once |
| Strings.UpperFixedPoint | airflow/dags/Scripts/Pipeline_Scripts/SnowflakeTransfer/snowflake_transfer.py:64 | a text is its own upper-case form exactly when it has no lower-case letter |
| Strings.ReplaceAllNoMatch | airflow/dags/Scripts/Pipeline_Scripts/Grobid/grobid_process.py:51 | `replace` leaves a text without the pattern unchanged |
| Strings.ReplaceAllPrepend | airflow/dags/Scripts/Pipeline_Scripts/Grobid/grobid_process.py:51 | a prefix holding no first character of the pattern passes through `replace` untouched |
| Strings.ReplaceAllAppend | airflow/dags/Scripts/Pipeline_Scripts/Grobid/grobid_process.py:70 | `replace` distributes over a concatenation whose second part starts with a character foreign to the pattern |
| Strings.RemoveCharChars | airflow/dags/Scripts/Validation.py:29 | `replace(" ", "")` keeps exactly the characters other than the space |
| Strings.ReplaceAllChars | airflow/dags/Scripts/Pipeline_Scripts/Grobid/grobid_process.py:70 | every character of a `replace` result comes from the input or the replacement |
| Strings.Contains | fastapi/restApi.py:93 | the `in` test: a contained text is no longer than the container, and a prefix or a suffix is contained |
| Strings.MissingCharNotContained | fastapi/restApi.py:93 | a text lacking one character of a word does not contain the word |
| Strings.ComponentStart | airflow/dags/Scripts/Pipeline_Scripts/Grobid/grobid_process.py:51 | the last path component starts just after the last '/', or at 0 when there is none |
| Strings.Basename | airflow/dags/Scripts/Pipeline_Scripts/Grobid/grobid_process.py:51 | `os.path.basename` is the longest '/'-free suffix of the path |
| Strings.ComponentStartAt | airflow/dags/Scripts/Pipeline_Scripts/Grobid/grobid_process.py:70 | the component start is the unique position just after a '/' (or 0) with no '/' after it |
| Strings.BasenameAfterSlash | airflow/dags/Scripts/Pipeline_Scripts/Grobid/grobid_process.py:51 | the base name of `<dir>/<name>` is `name` |
| Strings.BasenameOfBareName | airflow/dags/Scripts/Pipeline_Scripts/PyPDF/pypdf.py:59 | a name without '/' is its own base name |
| Strings.BasenameOfJoin | airflow/dags/Scripts/Pipeline_Scripts/Grobid/grobid_process.py:52 | `basename(os.path.join(dir, name)) == name` for a '/'-free name |
| Strings.PathJoin | airflow/dags/Scripts/Pipeline_Scripts/Grobid/grobid_process.py:52 | `os.path.join(a, b)` ends with `b`; it is `b` alone when `b` starts with '/', and otherwise starts with `a` |
| Dicts.ZipDict | fastapi/restApi.py:103 | the keys of `dict(zip(keys, vals))` are the keys paired with a value, up to the shorter list |
| Dicts.ZipDictLast | fastapi/restApi.py:103 | a key maps to the value of its last pairing |
| Dicts.ZipDictDistinct | airflow/dags/Scripts/Validation.py:49 | with distinct keys, each key maps to its own value |
| Storage.IsPdfKeyCases | airflow/dags/Scripts/Pipeline_Scripts/Grobid/grobid_process.py:28 | `key.lower().endswith('.pdf')` holds exactly for the keys ending in '.', p/P, d/D, f/F |
| Storage.PdfKeys | airflow/dags/Scripts/Pipeline_Scripts/PyPDF/pypdf.py:69-70 | the filter keeps only PDF keys drawn from the listing, and keeps every PDF key of it |
| Storage.PdfKeysAppend | airflow/dags/Scripts/Pipeline_Scripts/PyPDF/pypdf.py:69-70 | filtering a concatenation filters each part in turn, so listing order is kept |
| Validation.NotBlank | airflow/dags/Scripts/Validation.py:16-19 | a value passes exactly when it has a non-whitespace character; it comes back unchanged |
| Validation.NoWhiteSquare | airflow/dags/Scripts/Validation.py:100-104 | a value passes exactly when it has no U+25A1; it comes back unchanged |
| Validation.TitleOnlyLettersAndNumbers | airflow/dags/Scripts/Validation.py:27-31 | passes exactly when the title is letters, digits and spaces with at least one letter or digit; the result is the title stripped |
| Validation.ValidateTitle | airflow/dags/Scripts/Validation.py:21-31 | the blank check then the letters-and-digits check: passes exactly when the title is letters, digits and spaces with one alphanumeric; the result is stripped |
| Validation.ValidateContentText | airflow/dags/Scripts/Validation.py:15-37 | the body passes exactly when it has a non-whitespace character and no U+25A1; it comes back unchanged |
| Validation.AlphanumericAndNoTrailingSpaces | airflow/dags/Scripts/Validation.py:80-84 | passes exactly when the raw value is non-empty word characters, whitespace, '-', ':' and ','; the result is stripped |
| Validation.AvailabilityStatusValues | airflow/dags/Scripts/Validation.py:86-91 | passes exactly for "available", "unavailable" and "unknown", compared case-sensitively and untrimmed |
| Validation.BiblicalReferenceFormat | airflow/dags/Scripts/Validation.py:93-98 | a missing or empty reference passes; any other passes exactly when it is letters, whitespace, digits and ':' |
| Validation.ParseContent | airflow/dags/Scripts/Validation.py:10-37 | a row is accepted exactly when all three fields are present, the title and body rules hold and the subtitle is anything; the record has the stripped title and the others unchanged |
| Validation.ParseMetadata | airflow/dags/Scripts/Validation.py:72-104 | a row is accepted exactly when every required field is present and each field rule holds; the three text fields come back stripped, an absent reference as None |
| Validation.StrippedTitleShape | airflow/dags/Scripts/Validation.py:31 | a stripped letters-and-spaces title is non-empty, has an alphanumeric at each end and only letters, digits and spaces |
| Validation.AcceptedTitleShape | airflow/dags/Scripts/Validation.py:27-31 | an accepted `Content` title is non-empty, alphanumeric at both ends, letters, digits and spaces only |
| Validation.AcceptedIndices | airflow/dags/Scripts/Validation.py:50-53 | the accepted positions increase strictly and are exactly the rows the parser accepts |
| Validation.RejectedIndices | airflow/dags/Scripts/Validation.py:54-55 | the rejected positions increase strictly and are exactly the rows the parser rejects |
| Validation.PartitionCounts | airflow/dags/Scripts/Validation.py:50-55 | every row lands in exactly one list: the accepted and rejected counts add up to the row count, each list is as long as its positions, so the valid records and error entries together number the rows |
| Validation.ValidRecordsInOrder | airflow/dags/Scripts/Validation.py:50-53 | the k-th valid record is the parse of the k-th accepted row |
| Validation.ErrorRecordsInOrder | airflow/dags/Scripts/Validation.py:54-55 | the k-th error entry holds the k-th rejected row, so each error entry holds a row the parse refuses |
| Validation.AllAcceptedKept | airflow/dags/Scripts/Validation.py:50-55 | when every row passes, all records are kept in order and there is no error entry |
| Validation.CsvLines | airflow/dags/Scripts/Validation.py:64-68 | the written file is the header followed by one line per valid record, in order |
| Validation.CellLines | airflow/dags/Scripts/Validation.py:49-50 | the lines `DictReader` reads rows from hold at least one cell, and there are no more of them than lines |
| Validation.CellLinesAppend | airflow/dags/Scripts/Validation.py:49-50 | lines with a cell are kept in file order, each as often as it occurs |
| Validation.CellLinesAllFull | airflow/dags/Scripts/Validation.py:49-50 | when every line holds a cell, every line gives a row |
| Validation.LineRow | airflow/dags/Scripts/Validation.py:49-50 | a name is a key of a line's row exactly when the header names it and every position the header gives it has a cell on the line |
| Validation.LineRowValue | airflow/dags/Scripts/Validation.py:49-50 | a name holds the cell at its last position in the header |
| Validation.LineRowFull | airflow/dags/Scripts/Validation.py:49-50 | a line with a cell for every name gives the plain `dict(zip(header, line))` |
| Validation.RepeatedNameUnsetOnShortLine | airflow/dags/Scripts/Validation.py:49-50 | under the header `Title,Title`, the line `x` gives a row without `Title` |
| Validation.ReadCsv | airflow/dags/Scripts/Validation.py:48-50 | `DictReader` gives nothing for an empty file, and otherwise at most one row per line after the header |
| Validation.ReadCsvNextLine | airflow/dags/Scripts/Validation.py:48-50 | one more line adds one row, `DictReader`'s row for that line, when the line holds a cell, and nothing when it holds none |
| Validation.ReadCsvKeys | airflow/dags/Scripts/Validation.py:49-50 | a name is a key of a row read back exactly when the header names it and every position the header gives it has a cell on the row's line |
| Validation.ReadCsvRow | airflow/dags/Scripts/Validation.py:49-50 | the i-th row read back is `DictReader`'s row for the i-th line after the header that holds a cell |
| Validation.ValidRecordAt | airflow/dags/Scripts/Validation.py:50-53 | the k-th valid record is what an accepted row parses to |
| Validation.RereadParses | airflow/dags/Scripts/Validation.py:45-70 | when every record is written as a line with one cell per column and accepted records survive writing and reading back, each line of the cleaned file parses to the record written on it |
| Validation.AllParsedKept | airflow/dags/Scripts/Validation.py:50-55 | rows that each parse to the matching record give exactly those records and no error entry |
| Validation.SplitRows | airflow/dags/Scripts/Validation.py:50-55 | the loop over the reader builds exactly the valid list and the error list |
| Validation.WriteRows | airflow/dags/Scripts/Validation.py:64-68 | the write loop produces the header and then one line per record |
| Validation.CleanAndValidateContentCsv | airflow/dags/Scripts/Validation.py:45-70 | returns the pair of valid records and errors of the `Content` rows and overwrites the output with the field-name header and the valid records |
| Validation.CleanAndValidateMetadataCsv | airflow/dags/Scripts/Validation.py:111-136 | the same for the `Metadata` rows and header |
| Validation.ContentLineReadBack | airflow/dags/Scripts/Validation.py:64-68 | a written `Content` line read back by `DictReader` has each field's value under its name |
| Validation.ContentRoundTrip | airflow/dags/Scripts/Validation.py:45-70 | an accepted `Content` record, written and read back, is accepted again as the same record |
| Validation.RecleanKeepsRecords | airflow/dags/Scripts/Validation.py:45-70 | when every record is written as a line with one cell per column and accepted records survive writing and reading back, cleaning the cleaned file again keeps every record and reports no error |
| Validation.CleanedContentRevalidates | airflow/dags/Scripts/Validation.py:45-70 | cleaning the cleaned `Content` file again keeps every record and reports no error |
| Validation.MetadataLineReadBack | airflow/dags/Scripts/Validation.py:130-134 | a written `Metadata` line read back has each field's value under its name, a missing reference as an empty cell |
| Validation.StrippedTextField | airflow/dags/Scripts/Validation.py:80-84 | a stripped, non-empty text-field value still matches the pattern and strips to itself |
| Validation.MetadataRoundTrip | airflow/dags/Scripts/Validation.py:111-136 | an accepted `Metadata` with non-empty stripped text fields is accepted again on re-reading; only a missing reference comes back as an empty one |
| Validation.EmptyTitleLineRejected | airflow/dags/Scripts/Validation.py:80-84 | a written `Metadata` line with an empty title cell is rejected on re-reading |
| Validation.BlankMetadataTitleNotIdempotent | airflow/dags/Scripts/Validation.py:80-84 | a whitespace-only `Metadata` title passes and is stored as "", and the cleaned line it produces is rejected when read back |
| RestApi.IsBlocked | fastapi/restApi.py:93 | the blocklist holds exactly when the query contains "DELETE", "DROP" or "INSERT" |
| RestApi.ExecuteQuery | fastapi/restApi.py:88-104 | a missing query gives 500; a query is refused with 400 "Query type not allowed" exactly when blocked; otherwise the answer is the shaped result set of running it |
| RestApi.BlockedQueryNotExecuted | fastapi/restApi.py:93-98 | a refused query's answer does not depend on the cursor: it never reaches the warehouse |
| RestApi.LowercaseKeywordsAllowed | fastapi/restApi.py:93 | the match is case-sensitive: a query without a capital D or I (such as "delete from t") is let through |
| RestApi.KeywordInsideIdentifierBlocked | fastapi/restApi.py:93 | the match ignores word boundaries: "SELECT DROPDOWN FROM T" is refused |
| RestApi.ExecuteQueryResults | fastapi/restApi.py:97-104 | an accepted query answers one dictionary per row in row order, keyed by the column names up to the shorter of names and values, a repeated name keeping its last value; no rows gives no results |
| RestApi.ColumnNames | fastapi/restApi.py:102 | one column name per description entry, its first element, in order |
| RestApi.ShapeResults | fastapi/restApi.py:102-103 | one dictionary per row, in row order, keyed by the column names that row has a value for |
| RestApi.GetTables | fastapi/restApi.py:68-72 | the second field of each `SHOW TABLES` row, in order; a row too short for it gives 500 |
| RestApi.GetTableData | fastapi/restApi.py:77-84 | the column names are the first element of each description entry and the rows come back unchanged |
| RestApi.TableDataSql | fastapi/restApi.py:80 | the statement is `SELECT * FROM `, the table name verbatim, then `;` |
| RestApi.TableNameNotGuarded | fastapi/restApi.py:80 | a table name carrying "DROP" puts the keyword into the statement sent to the warehouse, which the blocklist of `execute_query` would refuse |
| RestApi.Digits | fastapi/restApi.py:35 | a zero-padded number has exactly the requested width, all decimal digits |
| RestApi.DigitsRoundTrip | fastapi/restApi.py:35 | reading back a zero-padded number below the width's power of ten gives the number |
| RestApi.FormatTimestampFields | fastapi/restApi.py:35 | `%Y%m%d%H%M%S` is fourteen digits laid out as year, month, day, hour, minute and second |
| RestApi.TimestampRoundTrip | fastapi/restApi.py:35 | the fourteen digits read back as the clock reading |
| RestApi.FormatTimestamp | fastapi/restApi.py:35 | `%Y%m%d%H%M%S` gives fourteen decimal digits |
| RestApi.RunId | fastapi/restApi.py:35 | the run id is `triggered_via_fastapi_` followed by fourteen digits |
| RestApi.DagRunsUrl | fastapi/restApi.py:26 | the URL is the endpoint text, `/api/v1/dags/`, the DAG id verbatim, then `/dagRuns` |
| RestApi.PayloadConf | fastapi/restApi.py:38 | the request's conf, or `{}` when it has none |
| RestApi.BuildTriggerCall | fastapi/restApi.py:26-39 | JSON headers, the dagRuns URL of the endpoint, a run id of the fixed prefix and fourteen digits, and the request's conf or `{}` |
| RestApi.TriggerCallShape | fastapi/restApi.py:25-39 | the call goes to `<endpoint>/api/v1/dags/<dag_id>/dagRuns`; the run id is the fixed prefix and the fourteen-digit time; the conf is the request's, `{}` when unset |
| RestApi.TriggerResult | fastapi/restApi.py:48-51 | 200 and 201 succeed with the scheduler's JSON; any other status is passed on with its text |
| FetchResult.SelectLineIndex | streamlit/fetch_result.py:64 | the first line containing "SELECT", or nothing exactly when no line does |
| FetchResult.ExtractSqlQuery | streamlit/fetch_result.py:62-65 | a result exists exactly when some line contains "SELECT" |
| FetchResult.ExtractSqlQuerySuffix | streamlit/fetch_result.py:62-65 | the result's lines are the input's from the first "SELECT" line on; its first line contains the keyword, no earlier line did, and it is a suffix of the input |
| FetchResult.ExtractSqlQueryFirstLine | streamlit/fetch_result.py:62-65 | a text whose first line contains "SELECT" comes back unchanged |
| FetchResult.SplitChars | streamlit/fetch_result.py:63 | every character of a split piece comes from the input |
| FetchResult.LowercaseSelectIgnored | streamlit/fetch_result.py:64 | text without a capital S (all-lowercase "select") gives nothing |
| SnowflakeTransfer.PandasDtypeToSnowflakeSqlType | airflow/dags/Scripts/Pipeline_Scripts/SnowflakeTransfer/snowflake_transfer.py:43-51 | the result is one of the five warehouse types; any dtype outside the table gives VARCHAR |
| SnowflakeTransfer.DtypeTable | airflow/dags/Scripts/Pipeline_Scripts/SnowflakeTransfer/snowflake_transfer.py:44-50 | int64, float64, bool, datetime64[ns] and object map to NUMBER, FLOAT, BOOLEAN, TIMESTAMP_NTZ and VARCHAR |
| SnowflakeTransfer.LastSpace | airflow/dags/Scripts/Pipeline_Scripts/SnowflakeTransfer/snowflake_transfer.py:55 | the position of the last space of a definition, or nothing when it has none |
| SnowflakeTransfer.ColumnDefinition | airflow/dags/Scripts/Pipeline_Scripts/SnowflakeTransfer/snowflake_transfer.py:55 | a column definition reads back as the upper-cased quoted name and the mapped type, whatever the name holds |
| SnowflakeTransfer.CreateTableShape | airflow/dags/Scripts/Pipeline_Scripts/SnowflakeTransfer/snowflake_transfer.py:54-56 | the statement is `CREATE OR REPLACE TABLE <name> (` + one definition per column in order, joined by ", " + `)` |
| SnowflakeTransfer.CreateTableSql | airflow/dags/Scripts/Pipeline_Scripts/SnowflakeTransfer/snowflake_transfer.py:55-56 | the statement is `CREATE OR REPLACE TABLE <name> (`, the joined column definitions, then `)` |
| SnowflakeTransfer.UploadCsvToSnowflake | airflow/dags/Scripts/Pipeline_Scripts/SnowflakeTransfer/snowflake_transfer.py:60-64 | the columns are upper-cased in order with their dtypes kept; the table is created from them and the rows go to the upper-cased table name |
| SnowflakeTransfer.UploadPlanShape | airflow/dags/Scripts/Pipeline_Scripts/SnowflakeTransfer/snowflake_transfer.py:60-64 | upper-casing the columns first leaves the statement unchanged; the rows go to the upper-cased table name, whose text equals the name in the `CREATE` statement exactly when the name has no lower-case letter |
| SnowflakeTransfer.CreateIfNotExistsSql | airflow/dags/Scripts/Pipeline_Scripts/SnowflakeTransfer/snowflake_transfer.py:26-35 | a set-up statement is `CREATE <kind> IF NOT EXISTS ` followed by the name exactly as given |
| SnowflakeTransfer.CreateWarehouseSql | airflow/dags/Scripts/Pipeline_Scripts/SnowflakeTransfer/snowflake_transfer.py:26-27 | the statement is `CREATE WAREHOUSE IF NOT EXISTS ` followed by the name exactly as given |
| SnowflakeTransfer.CreateDatabaseSql | airflow/dags/Scripts/Pipeline_Scripts/SnowflakeTransfer/snowflake_transfer.py:30-31 | the statement is `CREATE DATABASE IF NOT EXISTS ` followed by the name exactly as given |
| SnowflakeTransfer.CreateSchemaSql | airflow/dags/Scripts/Pipeline_Scripts/SnowflakeTransfer/snowflake_transfer.py:34-35 | the statement is `CREATE SCHEMA IF NOT EXISTS ` followed by the name exactly as given |
| GrobidProcess.ListS3Objects | airflow/dags/Scripts/Pipeline_Scripts/Grobid/grobid_process.py:25-28 | exactly the listed keys whose lower-cased form ends in ".pdf"; a listing without contents gives none |
| GrobidProcess.Stem | airflow/dags/Scripts/Pipeline_Scripts/Grobid/grobid_process.py:51 | the stem put into the XML name holds no '/' |
| GrobidProcess.GrobidName | airflow/dags/Scripts/Pipeline_Scripts/Grobid/grobid_process.py:51 | `Grobid_<stem>_combined<ext>` holds no '/' when its parts hold none |
| GrobidProcess.XmlFilename | airflow/dags/Scripts/Pipeline_Scripts/Grobid/grobid_process.py:51 | the XML name holds no '/', so it lands directly in its directory |
| GrobidProcess.TxtFilename | airflow/dags/Scripts/Pipeline_Scripts/Grobid/grobid_process.py:70 | the text name holds no '/' |
| Strings.PathJoinInside | airflow/dags/Scripts/Pipeline_Scripts/Grobid/grobid_process.py:52 | joining a '/'-free name under a directory gives `<dir>/<name>` |
| GrobidProcess.XmlFilepath | airflow/dags/Scripts/Pipeline_Scripts/Grobid/grobid_process.py:51-52 | the XML file goes to `xml/` followed by the XML name |
| GrobidProcess.TxtFilepath | airflow/dags/Scripts/Pipeline_Scripts/Grobid/grobid_process.py:70-71 | the text file goes to `txt/` followed by the text name |
| GrobidProcess.InsideXmlDir | airflow/dags/Scripts/Pipeline_Scripts/Grobid/grobid_process.py:52 | an XML name lands at `xml/<name>` |
| GrobidProcess.InsideTxtDir | airflow/dags/Scripts/Pipeline_Scripts/Grobid/grobid_process.py:71 | a text name lands at `txt/<name>` |
| GrobidProcess.ElementTexts | airflow/dags/Scripts/Pipeline_Scripts/Grobid/grobid_process.py:68 | the kept texts are non-empty element texts, and every non-empty element text is kept |
| GrobidProcess.ElementTextsSingle | airflow/dags/Scripts/Pipeline_Scripts/Grobid/grobid_process.py:68 | one element contributes its text exactly when the text is present and non-empty |
| GrobidProcess.ElementTextsAppend | airflow/dags/Scripts/Pipeline_Scripts/Grobid/grobid_process.py:68 | the texts of two runs of elements are those of each run in turn, so document order and repeats are kept |
| GrobidProcess.XmlText | airflow/dags/Scripts/Pipeline_Scripts/Grobid/grobid_process.py:68 | no kept text gives the empty file; when no element text holds a newline, the file splits back into the kept texts, one per line |
| GrobidProcess.ConvertXmlToTxt | airflow/dags/Scripts/Pipeline_Scripts/Grobid/grobid_process.py:62-77 | a parse error writes nothing; a parsed file writes its joined element text to the text path |
| GrobidProcess.RenameBetween | airflow/dags/Scripts/Pipeline_Scripts/Grobid/grobid_process.py:70 | replacing an extension in `<pre><stem><mid><ext>` touches only the stem and the extension |
| GrobidProcess.GrobidNameRenamed | airflow/dags/Scripts/Pipeline_Scripts/Grobid/grobid_process.py:70 | renaming ".xml" to ".txt" in an XML name changes only the stem and the extension |
| GrobidProcess.GrobidTxtPath | airflow/dags/Scripts/Pipeline_Scripts/Grobid/grobid_process.py:70-71 | the text path of `xml/Grobid_<stem>_combined.xml` is `txt/Grobid_<stem'>_combined.txt`, with `stem'` the stem with ".xml" renamed |
| GrobidProcess.TxtPathOfPdf | airflow/dags/Scripts/Pipeline_Scripts/Grobid/grobid_process.py:51-52 | a PDF's text file is named after its XML file, and the stem is kept whole when it holds no ".xml" |
| GrobidProcess.PdfExtensionRemoved | airflow/dags/Scripts/Pipeline_Scripts/Grobid/grobid_process.py:51 | removing ".pdf" from `<name>.pdf` with a dot-free name gives the name |
| GrobidProcess.PlainPdfKeyPaths | airflow/dags/Scripts/Pipeline_Scripts/Grobid/grobid_process.py:51-52 | `<dir>/<name>.pdf` gives `xml/Grobid_<name>_combined.xml` and `txt/Grobid_<name>_combined.txt` |
| GrobidProcess.GrobidWritesShape | airflow/dags/Scripts/Pipeline_Scripts/Grobid/grobid_process.py:49-58 | a non-200 reply writes nothing; a 200 reply writes the reply itself to `xml/<XML name>`, then, exactly when it parses, its element text to the matching `txt/` file; at most two files |
| GrobidProcess.GrobidWritesInOutputDirs | airflow/dags/Scripts/Pipeline_Scripts/Grobid/grobid_process.py:49-58 | every file written for one PDF lies under `xml/` or `txt/` |
| GrobidProcess.UpperCaseExtensionListed | airflow/dags/Scripts/Pipeline_Scripts/Grobid/grobid_process.py:28 | a key ending in ".PDF" is listed |
| GrobidProcess.UpperCaseExtensionKept | airflow/dags/Scripts/Pipeline_Scripts/Grobid/grobid_process.py:51 | the removal is case-sensitive: a base name without a lower-case ".pdf" is kept whole in the XML name |
| GrobidProcess.AllGrobidWritesBounds | airflow/dags/Scripts/Pipeline_Scripts/Grobid/grobid_process.py:40-60 | at most two files per listed PDF, all under `xml/` or `txt/` |
| GrobidProcess.AllGrobidWritesAppend | airflow/dags/Scripts/Pipeline_Scripts/Grobid/grobid_process.py:40-60 | the files for two listings run back to back are those of each in turn |
| GrobidProcess.AllGrobidWritesStep | airflow/dags/Scripts/Pipeline_Scripts/Grobid/grobid_process.py:40-60 | one more key adds exactly that key's writes at the end |
| GrobidProcess.ProcessFilesWithGrobid | airflow/dags/Scripts/Pipeline_Scripts/Grobid/grobid_process.py:30-60 | the loop writes, in listing order, the files each listed PDF's reply calls for |
| PyPdf.PagedKeysMembership | airflow/dags/Scripts/Pipeline_Scripts/PyPDF/pypdf.py:29-32 | a key is listed exactly when some page with contents carries it |
| PyPdf.PagedKeysAppend | airflow/dags/Scripts/Pipeline_Scripts/PyPDF/pypdf.py:29-32 | two runs of pages list the first run's keys, then the second's |
| PyPdf.ListS3Objects | airflow/dags/Scripts/Pipeline_Scripts/PyPDF/pypdf.py:24-32 | the nested loops yield every page's keys in page order; pages without contents add nothing |
| PyPdf.ConcatAppend | airflow/dags/Scripts/Pipeline_Scripts/PyPDF/pypdf.py:53 | concatenating two runs of page texts is concatenating their concatenations |
| PyPdf.ConcatEmpty | airflow/dags/Scripts/Pipeline_Scripts/PyPDF/pypdf.py:53 | the accumulated text is empty exactly when every page text is |
| PyPdf.ReadablePrefix | airflow/dags/Scripts/Pipeline_Scripts/PyPDF/pypdf.py:52-55 | the pages before the first failing one all read, and the page after them fails |
| PyPdf.ExtractedTextWhole | airflow/dags/Scripts/Pipeline_Scripts/PyPDF/pypdf.py:47-55 | a document that cannot be opened yields no text; one whose pages all read yields all their text, in page order, with no separator |
| PyPdf.ReadErrorKeepsEarlierText | airflow/dags/Scripts/Pipeline_Scripts/PyPDF/pypdf.py:52-62 | a read error at page k stops the extraction but not the write: the pages before k are written |
| PyPdf.ExtractedTextAppendPage | airflow/dags/Scripts/Pipeline_Scripts/PyPDF/pypdf.py:53 | one more readable page appends its text |
| PyPdf.TextFileName | airflow/dags/Scripts/Pipeline_Scripts/PyPDF/pypdf.py:59 | `base[:-4] + ".txt"` holds no '/' when the base name holds none |
| PyPdf.OutputFilename | airflow/dags/Scripts/Pipeline_Scripts/PyPDF/pypdf.py:59 | the output name holds no '/' |
| PyPdf.OutputFilenameShort | airflow/dags/Scripts/Pipeline_Scripts/PyPDF/pypdf.py:59 | a base name shorter than four characters gives ".txt" |
| PyPdf.OutputFilenameOfPdf | airflow/dags/Scripts/Pipeline_Scripts/PyPDF/pypdf.py:59-70 | for a PDF key the dropped four characters are the extension, in any case: the name is the base name's stem plus ".txt" |
| PyPdf.PdfWriteShape | airflow/dags/Scripts/Pipeline_Scripts/PyPDF/pypdf.py:59-62 | the file written holds the extracted text, its base name is the output name, and it lies directly inside a folder that does not end in '/' |
| PyPdf.DefaultFoldersDiffer | airflow/dags/Scripts/Pipeline_Scripts/PyPDF/pypdf.py:40-72 | called alone, `extract_text_pypdf` writes under `PyPDF_Extracted/`; the pipeline writes the same text to a different file under `PyPDF/` |
| PyPdf.ExtractTextPypdf | airflow/dags/Scripts/Pipeline_Scripts/PyPDF/pypdf.py:40-65 | the loop accumulates page texts up to the first failing page and writes them, error or not, to the output name in the folder |
| PyPdf.PipelineFolder | airflow/dags/Scripts/Pipeline_Scripts/PyPDF/pypdf.py:67-72 | with the pipeline's folder every file lands at `PyPDF/<output name>`, one per PDF key |
| PyPdf.PyPdfWritesStep | airflow/dags/Scripts/Pipeline_Scripts/PyPDF/pypdf.py:69-72 | one more listed key adds its text file exactly when it is a PDF key |
| PyPdf.PyPdfWrites | airflow/dags/Scripts/Pipeline_Scripts/PyPDF/pypdf.py:67-72 | one file per PDF key, so no more files than listed keys |
| PyPdf.WritesForAppend | airflow/dags/Scripts/Pipeline_Scripts/PyPDF/pypdf.py:68-72 | the files for two runs of keys are those of each run in turn |
| PyPdf.WritesForOneKey | airflow/dags/Scripts/Pipeline_Scripts/PyPDF/pypdf.py:69-72 | one listed key gives its text file exactly when it is a PDF key |
| PyPdf.ProcessAllPdfs | airflow/dags/Scripts/Pipeline_Scripts/PyPDF/pypdf.py:67-72 | one text file per listed PDF key, in listing order; other keys are skipped |

## Left out

- S3, Grobid, Airflow, Snowflake and OpenAI are foreign services. Their answers are parameters, and the requests themselves are not modelled. This covers `download_file`, `get_object`, the HTTP post, `cursor.execute` and `write_pandas`.
- Credentials, `load_dotenv`, and the connections and pipeline runs started at import time are set-up, not logic.
- File-system effects are returned as values rather than performed: `os.makedirs`, `os.remove` of the temporary PDF, and the `open`/`write` calls. A failing write is not modelled: the model always writes. In both extraction scripts that failure is caught and printed (`pypdf.py` lines 60-65, and the text write of `convert_xml_to_txt`, `grobid_process.py` lines 73-77). The XML write of `grobid_process.py` lines 53-54 and the write of the cleaned CSV in `Validation.py` would raise.
- The `print` logging is left out.
- GrobidProcess.ProcessFilesWithGrobid: an exception from `get_object` or from the post to Grobid (`grobid_process.py` lines 42-47) is not caught and ends the loop, so later PDFs are not processed. The model's `grobid` parameter always answers, so it does not capture that early end.
- RestApi: when `cursor.execute` raises, because the SQL is bad or the table named in `get_table_data` does not exist (`restApi.py` lines 80 and 98), the service answers 500. The model's cursor functions always return a result set, so `ExecuteQuery`, `GetTables` and `GetTableData` do not model that 500.
- Strings.ReplaceAll: requires a non-empty pattern. Every `replace` in the source passes a non-empty literal, so Python's rule for an empty pattern is not modelled.
- PyPdf: an S3 download error in `extract_text_pypdf` is raised before the `try` and aborts the run. It is not modelled.
- PyPdf.ListS3Objects: the `prefix` parameter is not modelled. The pipeline always uses the default, the empty prefix.
- GrobidProcess.ListS3Objects: takes the one response the source reads. The unpaginated call returns at most 1000 keys, and that limit belongs to the service.
- XML parsing and PDF text extraction are parameters. Element texts are given in document order, and a page text is `None` when its extraction raises. Any exception of `convert_xml_to_txt`, the write included, is modelled as the parse failing.
- Pydantic: the text of validation messages and its coercion of non-string cells are not modelled. `ErrorEntry` keeps only the row.
- CSV quoting and dialects are not modelled: a line is the list of its cells.
- Validation.ReadCsv: the cells of a line beyond the header's length are dropped. `DictReader` keeps them as a list under the key `None`, which no field of `Content` or `Metadata` reads, so the validation outcome is the same.
- Unicode is not modelled. Character classes, `strip`, `upper` and `lower` follow the ASCII rules stated above. Non-ASCII letters, digits and whitespace are classified differently by Python.
- RestApi: `datetime.now()` is a `Timestamp` parameter. The run-id round trip is proved for years 1000 to 9999, the four-digit years `%Y` writes without padding.
- RestApi.ExecuteQuery: the model takes the "query" as an optional string. A missing query makes `in` raise a TypeError on `None`, which the model gives as `HttpError(500, ...)`. A "query" that is neither a string nor missing is not modelled. Such a value passes through the `in` test: a list or object holding "DELETE", "DROP" or "INSERT" is refused with 400, and anything else goes on to the warehouse.
- RestApi: the HTTP Basic credentials of the trigger call and the framework's JSON encoding of the response are not modelled.
- The Streamlit UI, the OpenAI prompt that produces the SQL, `dag.py` (scheduler configuration) and the diagram script are not logic and are not modelled.
- The `__main__` block of `snowflake_transfer.py` is not modelled: it loops over a fixed table of CSV paths and skips missing files.
