# pepper data compare — a Dafny model of the row-comparison engine

The tool compares two files on a list of primary-key columns:

- It loads the source and the target, which may be fixed-width `.dat`, `.csv`, `.xml` or `.json` files, into an in-memory DuckDB database.
- It runs a left join and a few set queries.
- It writes five result sets and a summary.

This project models that engine, `pepper_fusion_filecompare.py`, in Dafny 4.11 and proves its behaviour. It covers:

- **The fixed-width slicer** (`fixed_width.dfy`).
  - The mapping rows become `(start, end, name)` triples, with each field name trimmed.
  - Each line becomes a Python dict. For every triple, the dict maps the name to `line[start:end].strip()`.
  - `ReadLine` and `ReadFixedLengthFile` are loop methods proved equal to the specification functions `LineRecord` and `ReadLines`.
  - Python's lenient slicing (`PyText.Slice`), `str.strip` with Python's whitespace set (`PyText.Strip`) and dict assignment (`Dicts.Put`) are written out in the model.
- **The extension dispatch and the loader** (`loader.dfy`, `pytext.dfy`).
  - A path is dispatched on `os.path.splitext(path)[1].lower()`.
  - Each of the four adapters is modelled. The parsers the model cannot see are given as parameters (`Readers`).
  - DuckDB's catalog on the shared connection is a class, `Catalog`, holding a map from table name to table. Its `LoadData` method changes the catalog only on success.
  - The whole run is covered twice: as written (`RunDataComparison`), and with the mapping files passed through (`RunWithMappings`).
- **The set queries as functions over rows** (`queries.dfy`, `duplicates.dfy`):
  - the left join on all-key equality, where a NULL key never matches;
  - the "only in source" and "only in target" filters;
  - the duplicate-key report;
  - the inner-join count and `COUNT(DISTINCT keys)`.
- **The mismatch report** (`mismatch.dfy`).
  - It covers the compared columns and the `mismatched_columns` dict built for each joined row.
  - A record is kept only when it has more entries than there are keys.
  - `BuildRecord` (with its two inner loops `AssignKeys` and `AssignDifferences`) and `CollectMismatches` are the loops of lines 97-115, proved equal to `MismatchRecord` and `Mismatches`.
- **The comparison and the summary** (`comparison.dfy`).
  - `Compare` holds the checks under which the queries fail and the report they produce.
  - `CompareTables` is the imperative comparison, proved equal to `Compare`.
  - Lemmas relate the summary counts to the result sets and state the content of the data breaks.

A cell is `Option<string>`, where `None` stands for SQL NULL and Python `None`. A table is a list of column names plus rectangular rows. `Result` stands for a raised exception.

Some consequences of the code worth stating plainly:

- **Unmatched source rows are data breaks.** An unmatched source row is joined to NULLs, so each non-NULL compared value differs from `None` and the row yields a record (`Comparison.UnmatchedRowReported`).
- **An empty key list is an error.** The key condition built at line 77 is then empty, so the join of line 87 reads `ON ()`, which DuckDB rejects, and the comparison fails (`CompareError.EmptyKeyList`).
- **"Source/Target Key Duplicate" in the summary is the number of distinct non-NULL key tuples** (`COUNT(DISTINCT keys)`, lines 187-190), not a number of duplicate rows (`Duplicates.DistinctKeyCount`).

## Model

| member | source | states |
|---|---|---|
| PyText.Slice | pepper-fusion-data-compare/pepper_fusion_filecompare.py:32 | `line[start:end]` never fails: inside the line it is the substring, past the end it is clamped, and a start at or past the end (or an empty range) gives "" |
| PyText.Strip | pepper-fusion-data-compare/pepper_fusion_filecompare.py:32 | `strip()` yields the piece of the input between its leading and trailing whitespace runs; the result neither starts nor ends with whitespace, and it is empty exactly when the input is all whitespace |
| PyText.StripIdempotent | pepper-fusion-data-compare/pepper_fusion_filecompare.py:46 | stripping a trimmed field name again changes nothing |
| PyText.Lower | pepper-fusion-data-compare/pepper_fusion_filecompare.py:41 | `lower()` keeps the length, maps each character, and leaves no upper-case ASCII letter |
| PyText.RFind | pepper-fusion-data-compare/pepper_fusion_filecompare.py:41 | the position `splitext` looks for is the last occurrence of the character, or -1 when there is none |
| PyText.ExtShape | pepper-fusion-data-compare/pepper_fusion_filecompare.py:41 | the extension is a suffix of the path; a non-empty one starts with the last '.', holds no other '.' and no '/', and something other than dots precedes it in the last path component |
| PyText.ExtLower | pepper-fusion-data-compare/pepper_fusion_filecompare.py:41 | the extension of the lower-cased path is the lower-cased extension |
| PyText.ExtOfSuffix | pepper-fusion-data-compare/pepper_fusion_filecompare.py:41 | a path whose last component has a non-dot character before a final `.xyz` has `.xyz` as its extension |
| PyText.LowerIdempotent | pepper-fusion-data-compare/pepper_fusion_filecompare.py:41 | lower-casing twice is lower-casing once |
| Dicts.Put | pepper-fusion-data-compare/pepper_fusion_filecompare.py:32 | `d[k] = v` keeps the key order and size when `k` is already a key and appends `(k, v)` otherwise; the new entry is present |
| Dicts.PutNames | pepper-fusion-data-compare/pepper_fusion_filecompare.py:102 | after `d[k] = v` the keys are the old keys plus `k` |
| Dicts.PutKeepsOthers | pepper-fusion-data-compare/pepper_fusion_filecompare.py:112-113 | an assignment leaves every entry under a different key in place |
| Dicts.Get | pepper-fusion-data-compare/pepper_fusion_filecompare.py:50 | reading a present key yields the value of one of its entries |
| Lists.IndexOf | pepper-fusion-data-compare/pepper_fusion_filecompare.py:93 | `list.index` finds the first occurrence, and fails exactly when the element is absent |
| Lists.MapSeq | pepper-fusion-data-compare/pepper_fusion_filecompare.py:29-33 | one output per input, in order, each the function of its input |
| Tables.Positions | pepper-fusion-data-compare/pepper_fusion_filecompare.py:93 | `[cols.index(c) for c in names]` succeeds exactly when every name is a column, giving in-range positions that are each the first occurrence |
| Tables.FirstMissing | pepper-fusion-data-compare/pepper_fusion_filecompare.py:93 | the name a failing lookup raises on is one of the names and is not a column |
| FixedWidth.ColumnNames | pepper-fusion-data-compare/pepper_fusion_filecompare.py:46-47 | one column name per mapping row, each already trimmed |
| FixedWidth.Structure | pepper-fusion-data-compare/pepper_fusion_filecompare.py:48 | one triple per mapping row, holding that row's two offsets and its trimmed name |
| FixedWidth.Assign | pepper-fusion-data-compare/pepper_fusion_filecompare.py:30-32 | assigning the names in turn gives a dict whose keys are exactly those names, each once |
| FixedWidth.ReadLine | pepper-fusion-data-compare/pepper_fusion_filecompare.py:30-32 | the inner loop fills the row dict exactly as `LineRecord` specifies |
| FixedWidth.ReadFixedLengthFile | pepper-fusion-data-compare/pepper_fusion_filecompare.py:24-35 | the loop appends one dict per line, and the result is `ReadLines` of the lines |
| FixedWidth.AssignValue | pepper-fusion-data-compare/pepper_fusion_filecompare.py:31-32 | a name holds the value of its last assignment |
| FixedWidth.AssignEntry | pepper-fusion-data-compare/pepper_fusion_filecompare.py:31-32 | the last assignment to a name leaves exactly that name/value pair in the dict |
| FixedWidth.LineRecordMeaning | pepper-fusion-data-compare/pepper_fusion_filecompare.py:30-33 | the row dict has an entry for exactly the mapped names, each once, and a name holds the stripped slice of the last triple with that name |
| FixedWidth.ReadLinesMeaning | pepper-fusion-data-compare/pepper_fusion_filecompare.py:28-33 | one dict per line; every dict has an entry for every mapped name and no other; each value is `line[start:end].strip()`; a start at or past the end of the line gives "" |
| FixedWidth.ShortLineField | pepper-fusion-data-compare/pepper_fusion_filecompare.py:32 | a field starting at or past the end of its line reads as "" |
| FixedWidth.InsideLineField | pepper-fusion-data-compare/pepper_fusion_filecompare.py:32 | a field inside its line is the stripped substring between its offsets |
| FixedWidth.FrameRow | pepper-fusion-data-compare/pepper_fusion_filecompare.py:50 | a frame row has one cell per column, read from the dict under that column's name |
| FixedWidth.Frame | pepper-fusion-data-compare/pepper_fusion_filecompare.py:50 | `pd.DataFrame(data, columns=names)` has those columns, one row per dict, and cell (i, j) is dict i's value for column j |
| FixedWidth.ReadLinesNames | pepper-fusion-data-compare/pepper_fusion_filecompare.py:47-50 | every dict read from a line has an entry for each trimmed mapping name, so the frame can be built |
| FixedWidth.FixedWidthTable | pepper-fusion-data-compare/pepper_fusion_filecompare.py:46-50 | the registered table's columns are the trimmed mapping names, with one row per line |
| FixedWidth.FixedWidthCells | pepper-fusion-data-compare/pepper_fusion_filecompare.py:46-50 | with distinct field names, cell (i, j) of the table is the stripped slice of line i between field j's offsets |
| Loader.Dispatch | pepper-fusion-data-compare/pepper_fusion_filecompare.py:42-60 | an extension selects the format whose suffix it equals (`.dat`, `.csv`, `.xml`, `.json`) and selects none when it equals no suffix |
| Loader.FormatCaseInsensitive | pepper-fusion-data-compare/pepper_fusion_filecompare.py:41 | lower-casing the path does not change the format it is read as |
| Loader.FormatOfSuffix | pepper-fusion-data-compare/pepper_fusion_filecompare.py:41-58 | a file whose extension lower-cases to a format's suffix (`Org.CSV`) is read in that format |
| Loader.LoadTableMeaning | pepper-fusion-data-compare/pepper_fusion_filecompare.py:38-60 | an unknown extension fails naming the lower-cased extension, and only an unknown extension fails that way; a `.dat` file fails without a mapping and otherwise yields the fixed-width table of its lines; a `.csv` file loads exactly when it parses and its name is free, and only a `.csv` file can find its name taken; `.xml` and `.json` load exactly when they parse |
| Loader.LoadDatMeaning | pepper-fusion-data-compare/pepper_fusion_filecompare.py:42-50 | a `.dat` load fails with the missing-mapping error exactly when no mapping is given, never finds its name taken, and on success yields the fixed-width table of the file's lines |
| Loader.CsvNameTaken | pepper-fusion-data-compare/pepper_fusion_filecompare.py:52 | a readable `.csv` file whose table name is already in the catalog fails with that name taken |
| Loader.DatLoadCells | pepper-fusion-data-compare/pepper_fusion_filecompare.py:42-50 | a `.dat` load with a readable mapping succeeds with the mapping's names as columns, one row per line, and each cell the stripped slice of its line |
| Loader.Catalog.constructor | pepper-fusion-data-compare/pepper_fusion_filecompare.py:13-16 | a fresh in-memory database holds no table |
| Loader.Catalog.LoadData | pepper-fusion-data-compare/pepper_fusion_filecompare.py:38-64 | on success the loaded table sits under its name, the method returns its column names and no other name changes; on failure, an unsupported extension included, it returns the error and registers nothing |
| Loader.RunReports | pepper-fusion-data-compare/pepper_fusion_filecompare.py:67-94 | a successful run loaded the source first, and it reports the outcome of exactly the two tables the catalog then holds under the two names |
| Loader.RunSourceFirst | pepper-fusion-data-compare/pepper_fusion_filecompare.py:72 | a run fails on the source exactly when the source load fails, with that load's error and the catalog untouched |
| Loader.RunFrame | pepper-fusion-data-compare/pepper_fusion_filecompare.py:72-73 | a run changes the catalog under its two table names only |
| Loader.Catalog.RunWithMappings | pepper-fusion-data-compare/pepper_fusion_filecompare.py:67-73 | the run with mapping files loads the source, then the target, then calls the comparison; its result and the new catalog are those of `Run` |
| Loader.Catalog.RunDataComparison | pepper-fusion-data-compare/pepper_fusion_filecompare.py:67-73 | the run as written, with no mapping file for either load; its result and the new catalog are those of `Run` with no mappings |
| Loader.AsWrittenDatSourceFails | pepper-fusion-data-compare/pepper_fusion_filecompare.py:72 | as written, a `.dat` source always fails with the missing-mapping error, before anything is registered |
| Loader.AsWrittenDatTargetFails | pepper-fusion-data-compare/pepper_fusion_filecompare.py:73 | as written, a `.dat` target always fails with the missing-mapping error once the source has loaded |
| Loader.MappedDatCompared | pepper-fusion-data-compare/pepper_fusion_filecompare.py:42-50 | with the mappings passed through, two readable `.dat` files are compared as their fixed-width tables, and the catalog then holds exactly those two |
| Loader.SecondCsvRunFails | pepper-fusion-data-compare/pepper_fusion_filecompare.py:52 | on the shared connection, repeating a successful run with a `.csv` source fails, because `CREATE TABLE` finds the source name taken |
| Mismatch.CompareColumns | pepper-fusion-data-compare/pepper_fusion_filecompare.py:80 | the compared columns are exactly the non-key source columns, as a subsequence of the source columns (source order), with no repeats when the source has none |
| Mismatch.BuildRecord | pepper-fusion-data-compare/pepper_fusion_filecompare.py:99-113 | the two inner loops build exactly the dict `MismatchRecord` |
| Mismatch.AssignKeys | pepper-fusion-data-compare/pepper_fusion_filecompare.py:100-102 | the key loop puts every primary key into the empty dict with its source value, as `PutKeys` specifies |
| Mismatch.AssignDifferences | pepper-fusion-data-compare/pepper_fusion_filecompare.py:103-112 | the column loop adds an Expected/Actual pair to the dict for each differing column, as `PutDiffs` specifies |
| Mismatch.CollectMismatches | pepper-fusion-data-compare/pepper_fusion_filecompare.py:97-115 | the row loop appends exactly the records `Mismatches` keeps, in join order |
| Mismatch.MismatchRecordMeaning | pepper-fusion-data-compare/pepper_fusion_filecompare.py:99-114 | when no key is named like a report column, the record starts with every key and its source value, in key order; it holds `c_Expected` for exactly the compared columns that differ, with the source value as Expected and the target value as Actual; and it is longer than the key list exactly when some column differs |
| Mismatch.MismatchRecordColumn | pepper-fusion-data-compare/pepper_fusion_filecompare.py:103-113 | without name clashes, the record holds `c_Expected` for a compared column exactly when it differs, and then holds the source value as Expected and the target value as Actual |
| Mismatch.MismatchRecordKept | pepper-fusion-data-compare/pepper_fusion_filecompare.py:111-114 | without name clashes, the record is longer than the key list exactly when some compared column differs |
| Mismatch.MismatchesBounded | pepper-fusion-data-compare/pepper_fusion_filecompare.py:114-115 | there are no more records than joined rows, and every record is the record of a joined row with more entries than there are keys |
| Mismatch.MismatchesComplete | pepper-fusion-data-compare/pepper_fusion_filecompare.py:114-115 | every joined row whose record is longer than the key list contributes that record |
| Mismatch.KeptBounded | pepper-fusion-data-compare/pepper_fusion_filecompare.py:114-115 | the length filter keeps no more records than it is given, and only records of its input longer than the bound |
| Mismatch.KeptComplete | pepper-fusion-data-compare/pepper_fusion_filecompare.py:114-115 | the length filter keeps every record longer than the bound |
| Mismatch.RecordReported | pepper-fusion-data-compare/pepper_fusion_filecompare.py:111-115 | a joined row that differs in some compared column has its record among the data breaks |
| Mismatch.AgreeingRowDropped | pepper-fusion-data-compare/pepper_fusion_filecompare.py:111-115 | a joined row that agrees on every compared column has a record of at most the keys, which is dropped |
| Mismatch.NullPaddedRowDiffers | pepper-fusion-data-compare/pepper_fusion_filecompare.py:106-111 | in a source row padded with NULLs, every compared column differs exactly when its source value is not NULL, and the target value is None |
| Queries.Matching | pepper-fusion-data-compare/pepper_fusion_filecompare.py:87 | the target rows joined to a key tuple are exactly those that equal it under SQL equality (no NULL matches) |
| Queries.MatchingCount | pepper-fusion-data-compare/pepper_fusion_filecompare.py:87 | the key condition pairs a key with every equal target row as many times as that row occurs in the target, and with no other row |
| Queries.JoinedForMeaning | pepper-fusion-data-compare/pepper_fusion_filecompare.py:84-89 | a source row yields one joined row per matching target row, in target order, each the source row followed by that target row; with no match it yields exactly one row, padded with NULLs; every key-equal target row is paired with it |
| Queries.UnmatchedJoinsOnce | pepper-fusion-data-compare/pepper_fusion_filecompare.py:87 | a source row with no key-equal target row is joined once, to NULLs |
| Queries.LeftJoinContains | pepper-fusion-data-compare/pepper_fusion_filecompare.py:84-89 | every row a source row contributes is in the left join |
| Queries.LeftJoinPairs | pepper-fusion-data-compare/pepper_fusion_filecompare.py:84-89 | every key-equal source/target pair is in the left join, and an unmatched source row is in it padded with NULLs |
| Queries.LeftJoinOrigin | pepper-fusion-data-compare/pepper_fusion_filecompare.py:84-89 | every left-join row comes from some source row, joined to a key-equal target row or to NULLs |
| Queries.LeftJoinWidth | pepper-fusion-data-compare/pepper_fusion_filecompare.py:85 | every left-join row has the source columns followed by the target columns |
| Queries.LeftJoinCoversSource | pepper-fusion-data-compare/pepper_fusion_filecompare.py:84-89 | the left join is at least as long as the source and every source row begins some joined row |
| Queries.OnlyInIsUnmatched | pepper-fusion-data-compare/pepper_fusion_filecompare.py:122-142 | filtering the left join on a NULL first target key gives exactly the unmatched source rows, in source order |
| Queries.OnlyInRows | pepper-fusion-data-compare/pepper_fusion_filecompare.py:122-127 | the NULL-key filter over the join equals the unmatched rows, and the first target key column lies inside every joined row |
| Queries.UnmatchedMembers | pepper-fusion-data-compare/pepper_fusion_filecompare.py:122-128 | the unmatched rows are a subsequence of the source rows, and a row is among them exactly when no target row equals it on every key |
| Queries.LeftJoinSize | pepper-fusion-data-compare/pepper_fusion_filecompare.py:181-183 | the left join has the inner-join count of rows plus one per unmatched source row |
| Duplicates.SelectDuplicatesMeaning | pepper-fusion-data-compare/pepper_fusion_filecompare.py:149-157 | the duplicate report is a subsequence of the table, and a row is in it exactly when its key tuple is free of NULLs and occurs more than once in the table |
| Duplicates.SelectDuplicatesCounts | pepper-fusion-data-compare/pepper_fusion_filecompare.py:149-157 | a duplicated non-NULL key tuple keeps all its rows in the report; any other key tuple has none |
| Duplicates.DistinctKeyCountBound | pepper-fusion-data-compare/pepper_fusion_filecompare.py:187-190 | the distinct-key count never exceeds the row count, and equals it exactly when every key tuple is non-NULL and unique |
| Duplicates.DistinctKeyCountCons | pepper-fusion-data-compare/pepper_fusion_filecompare.py:187-190 | the first row adds one to the distinct-key count exactly when its key tuple has no NULL and does not appear among the other rows |
| Duplicates.UniqueKeysNoDuplicates | pepper-fusion-data-compare/pepper_fusion_filecompare.py:149-176 | a table with unique key tuples has an empty duplicate report |
| Duplicates.CountKeyUnique | pepper-fusion-data-compare/pepper_fusion_filecompare.py:155-156 | with unique key tuples, each row's group has exactly one row |
| Comparison.Compare | pepper-fusion-data-compare/pepper_fusion_filecompare.py:75-94 | the comparison succeeds exactly when the key list is non-empty, every key is in both tables and every compared column is in the target; an empty key list is the only one to give that error; a missing key or column is named, with its side |
| Comparison.CompareTables | pepper-fusion-data-compare/pepper_fusion_filecompare.py:75-204 | the imperative comparison, record loop included, returns exactly `Compare` |
| Comparison.SummaryConsistent | pepper-fusion-data-compare/pepper_fusion_filecompare.py:179-204 | the totals are the row counts; the three list counts are the list lengths; each Key Duplicate figure is at most its total, and equals it exactly when the keys are non-NULL and unique; there are no more breaks than inner-join plus only-in-source rows |
| Comparison.OnlyInMeaning | pepper-fusion-data-compare/pepper_fusion_filecompare.py:122-142 | only-in-source is a subsequence of the source holding exactly the rows no target row equals on every key; only-in-target is the same with the roles swapped |
| Comparison.DuplicatesMeaning | pepper-fusion-data-compare/pepper_fusion_filecompare.py:149-176 | each duplicate report holds, in table order, exactly its table's rows whose non-NULL key tuple occurs more than once |
| Comparison.TargetAlwaysPresent | pepper-fusion-data-compare/pepper_fusion_filecompare.py:106-109 | the target index always lies inside the joined row, so the `None` fallback of line 109 never applies |
| Comparison.BreaksMeaning | pepper-fusion-data-compare/pepper_fusion_filecompare.py:97-115 | every data break is the record of a left-join row and is longer than the key list, and every left-join row with such a record contributes it |
| Comparison.UnmatchedRowReported | pepper-fusion-data-compare/pepper_fusion_filecompare.py:97-115 | a source row no target row matches is reported once it has a non-NULL compared value: its record leads with its key values and holds that value as Expected and None as Actual |
| Comparison.UnmatchedRowJoined | pepper-fusion-data-compare/pepper_fusion_filecompare.py:84-89 | a source row no target row matches is in the join, followed by NULLs |
| Comparison.NullPaddedRecord | pepper-fusion-data-compare/pepper_fusion_filecompare.py:99-113 | the record of a NULL-padded source row leads with its key values and reports a non-NULL compared value as Expected against None as Actual |
| Comparison.PairValues | pepper-fusion-data-compare/pepper_fusion_filecompare.py:104-107 | in a joined pair, compared column i reads the source value from the source row and the target value from the target row |
| Comparison.MatchedPairDiffers | pepper-fusion-data-compare/pepper_fusion_filecompare.py:103-111 | a key-equal pair is in the join, and its compared column i differs exactly when the two rows hold different values there |
| Comparison.AgreeingPairDropped | pepper-fusion-data-compare/pepper_fusion_filecompare.py:111-115 | a key-equal pair that agrees on every compared column adds no data break |
| Comparison.PairRecordKeys | pepper-fusion-data-compare/pepper_fusion_filecompare.py:100-102 | the record of a joined pair leads with the source row's key values |
| Comparison.PairRecordColumns | pepper-fusion-data-compare/pepper_fusion_filecompare.py:103-113 | the record of a joined pair names `c_Expected` exactly for the differing compared columns, holding the source and target values, and is longer than the key list exactly when some column differs |
| Comparison.PairRecordColumn | pepper-fusion-data-compare/pepper_fusion_filecompare.py:103-113 | in a joined pair's record, compared column i is named exactly when the source and target rows differ there, and then with both rows' values |
| Comparison.PairRecordKept | pepper-fusion-data-compare/pepper_fusion_filecompare.py:111-114 | a joined pair's record outgrows the key list exactly when the two rows differ in some compared column |
| Comparison.PairRecordReports | pepper-fusion-data-compare/pepper_fusion_filecompare.py:99-113 | the record of a pair differing in some compared column reports the pair completely |
| Comparison.DifferingPairReported | pepper-fusion-data-compare/pepper_fusion_filecompare.py:97-115 | a key-equal pair that differs in some compared column has among the data breaks a record that leads with its keys and holds an Expected/Actual pair for exactly the differing columns |

## Left out

- The DuckDB engine is not modelled. Each query is replaced by a function stating its meaning. The connection is a map from table name to table (`Loader.Catalog`). SQL text building (lines 77, 145) is not modelled.
- `read_csv_auto`, `pd.read_xml`, `pd.read_json` and `pd.read_csv` of the mapping file are parameters (`Loader.Readers`). Opening the `.dat` file is one too. Each yields a table, or None when it raises.
  - Type inference is left out: every loaded value is text or NULL.
  - Values are compared as text. So `1` and `"1"`, which Python tells apart after DuckDB's typed fetch, are equal here.
- The lines of a `.dat` file are taken as given, each with whatever line terminator `open` leaves on it. Mapping offsets are taken to be integers; a NaN or a float offset, which makes the slice raise, is not modelled.
- All `to_csv` writes (lines 118, 130, 142, 161, 176, 207), the logging and `time.time()` calls, `main` (lines 212-216) and `setup.py` are left out. They are file output, side channels or hard-coded paths.
- Row order of query results is not modelled as DuckDB's. SQL does not fix it, and the model keeps source order, then target order within a source row.
- Identifier matching is exact. DuckDB's case-insensitive column names are not modelled, and neither is the unquoted `b.{primary_keys[0]}` of lines 126 and 138.
- Duplicate column names in a table, and the renaming DuckDB applies to clashing names, are not modelled. `Lists.IndexOf` takes the first occurrence, as `list.index` does.
- `Duplicates.DistinctKeyCount`: over several keys it counts the distinct key tuples with no NULL part. Whether DuckDB accepts `COUNT(DISTINCT k1, k2)` at all is engine behaviour the model does not capture.
- The catalog is one namespace:
  - `CREATE TABLE` of a `.csv` file fails on any name already present, checked after the file is read.
  - Registering a frame (`.dat`, `.xml`, `.json`) replaces whatever the name held.
  - DuckDB's separate schemas for views and tables are not modelled.
- `Loader.Run`, `Loader.Catalog.RunWithMappings` and `Loader.Catalog.RunDataComparison` require distinct source and target table names. With equal names, the second load would replace the first table, while `columns_src_names` keeps the first table's columns. That aliasing is not modelled.
- `Comparison.DifferingPairReported`, `Comparison.PairRecordReports`, `Comparison.PairRecordKeys`, `Comparison.PairRecordColumns`, `Comparison.UnmatchedRowReported` and `Mismatch.MismatchRecordMeaning` state the record contents only when the report names cannot collide. That means the keys are distinct and no key is named like `c_Expected` or `c_Actual` for a compared column `c`.
  - With such a clash, a later dict assignment overwrites an earlier one, and these contents do not hold.
  - `Mismatch.MismatchesBounded`, `Mismatch.MismatchesComplete` and `Comparison.BreaksMeaning` hold without that condition.
- `PyText.Lower` lower-cases ASCII letters only. Python's `str.lower` also maps other letters, but none of those can turn into `.dat`, `.csv`, `.xml` or `.json`. `PyText.Ext` follows the POSIX `os.path.splitext`, with `/` as the only separator.
- `Comparison.Compare`: the order of the errors is fixed as:
  1. an empty key list;
  2. a key missing from the source;
  3. a key missing from the target;
  4. a compared column missing from the target.

  DuckDB binds the join query before line 94 runs, so key errors come first. Which side DuckDB reports first for a key missing from both sides is engine behaviour.

## Findings

| source | as written | input that shows it | evidently intended | confidence | as-written member | corrected member |
|---|---|---|---|---|---|---|
| pepper-fusion-data-compare/pepper_fusion_filecompare.py:72-73 | `run_data_comparison` calls `load_data_into_duckdb` without `mapping_file`, so a `.dat` input reaches `pd.read_csv(None)` at line 44 and fails | a source path `feed.dat` with any readable mapping and data file | the comparison takes the mapping files and hands them to the loads, so a fixed-width file is loaded as its fixed-width table | not executed | Loader.AsWrittenDatSourceFails | Loader.MappedDatCompared |
