/**
 * `load_data_into_duckdb` and `run_data_comparison`: the extension
 * dispatch, the four adapters, the DuckDB catalog that holds the loaded
 * tables by name, and a whole run over two files.
 */
module Loader {
  import opened Wrappers
  import opened Lists
  import opened PyText
  import opened Tables
  import opened FixedWidth
  import opened Comparison

  datatype Format = Dat | Csv | Xml | Json

  /** The lower-cased extension each format is read from. */
  function Suffix(f: Format): string {
    match f
    case Dat => ".dat"
    case Csv => ".csv"
    case Xml => ".xml"
    case Json => ".json"
  }

  /** The branch of lines 42-60 an extension selects: the format whose suffix it is, if any. */
  function Dispatch(extension: string): (f: Option<Format>)
    ensures f.Some? ==> Suffix(f.value) == extension
    ensures f.None? ==> forall g: Format :: Suffix(g) != extension
  {
    if extension == ".dat" then Some(Dat)
    else if extension == ".csv" then Some(Csv)
    else if extension == ".xml" then Some(Xml)
    else if extension == ".json" then Some(Json)
    else None
  }

  /** Line 41: a path is dispatched on its lower-cased extension. */
  function FormatOf(path: string): Option<Format> {
    Dispatch(Lower(Ext(path)))
  }

  /** The dispatch ignores the case of the path: "ORG.CSV" is read like "org.csv". */
  lemma {:induction false} FormatCaseInsensitive(path: string)
    ensures FormatOf(Lower(path)) == FormatOf(path)
  {
    ExtLower(path);
    LowerIdempotent(Ext(path));
    assert Lower(Ext(Lower(path))) == Lower(Ext(path));
  }

  /** Each suffix is a '.' followed by letters. */
  lemma {:induction false} SuffixShape(f: Format)
    ensures |Suffix(f)| >= 1 && Suffix(f)[0] == '.'
    ensures forall k :: 1 <= k < |Suffix(f)| ==> 'a' <= Suffix(f)[k] <= 'z'
  {
  }

  /** Dispatch picks a format from its own suffix. */
  lemma {:induction false} DispatchSuffix(f: Format)
    ensures Dispatch(Suffix(f)) == Some(f)
  {
  }

  /**
   * A file named with a stem and an extension that lower-cases to a
   * format's suffix ("Org" and ".CSV", say) is read in that format.
   */
  lemma {:induction false} FormatOfSuffix(stem: string, ext: string, f: Format)
    requires HasNonDot(stem, RFind(stem, '/') + 1, |stem|)
    requires Lower(ext) == Suffix(f)
    ensures FormatOf(stem + ext) == Some(f)
  {
    SuffixShape(f);
    assert ext[0] == '.' by {
      assert LowerChar(ext[0]) == Suffix(f)[0];
    }
    forall k | 1 <= k < |ext|
      ensures ext[k] != '.' && ext[k] != '/'
    {
      assert LowerChar(ext[k]) == Suffix(f)[k];
    }
    assert '.' !in ext[1..] && '/' !in ext by {
      forall k | 0 <= k < |ext| ensures ext[k] != '/' { }
    }
    ExtOfSuffix(stem, ext);
    DispatchSuffix(f);
  }

  /** Why loading one file fails; every failure leaves the catalog as it was. */
  datatype LoadError =
    | UnsupportedFormat(extension: string)   // the `ValueError` of line 60, naming the lower-cased extension
    | MissingMapping                         // `pd.read_csv(None)` at line 44: a `.dat` file needs a mapping file
    | UnreadableMapping(mappingPath: string) // the mapping file cannot be read or lacks one of its three columns
    | UnreadableFile(path: string)           // the data file cannot be opened or parsed
    | TableExists(name: string)              // `CREATE TABLE` (line 52) on a name the catalog already holds

  /**
   * The readers the loader relies on and this model does not contain: the
   * file system, pandas' csv/xml/json readers and DuckDB's `read_csv_auto`.
   * Each yields None when it raises.
   */
  datatype Readers = Readers(
    lines: string -> Option<seq<string>>,          // the lines of `open(path)`
    mapping: string -> Option<seq<MappingRow>>,    // `pd.read_csv(mapping_file)`, its three columns row by row
    csv: string -> Option<ValidTable>,            // `read_csv_auto(path)`
    xml: string -> Option<ValidTable>,            // `pd.read_xml(path)`
    json: string -> Option<ValidTable>)           // `pd.read_json(path)`

  /**
   * The table `load_data_into_duckdb` puts under `name`, or why it fails.
   * A `.dat` file needs a readable mapping and yields the fixed-width
   * table; a `.csv` file is created and so fails on a name already taken;
   * `.xml` and `.json` frames are registered whatever the catalog holds.
   */
  function LoadTable(rd: Readers, tables: map<string, ValidTable>, path: string, name: string, mapping: Option<string>)
    : Result<ValidTable, LoadError>
  {
    match FormatOf(path)
    case None => Failure(UnsupportedFormat(Lower(Ext(path))))
    case Some(Dat) =>
      if mapping.None? then Failure(MissingMapping)
      else if rd.mapping(mapping.value).None? then Failure(UnreadableMapping(mapping.value))
      else if rd.lines(path).None? then Failure(UnreadableFile(path))
      else Success(FixedWidthTable(rd.lines(path).value, rd.mapping(mapping.value).value))
    case Some(Csv) =>
      if rd.csv(path).None? then Failure(UnreadableFile(path))
      else if name in tables then Failure(TableExists(name))
      else Success(rd.csv(path).value)
    case Some(Xml) =>
      if rd.xml(path).None? then Failure(UnreadableFile(path)) else Success(rd.xml(path).value)
    case Some(Json) =>
      if rd.json(path).None? then Failure(UnreadableFile(path)) else Success(rd.json(path).value)
  }

  /**
   * What a load yields: an unknown extension is named in the error; a
   * `.dat` file fails without a mapping file and otherwise yields the
   * fixed-width table of its lines; a `.csv` file loads exactly when it is
   * readable and its name is free, and only a `.csv` file can find its name
   * taken; `.xml` and `.json` files load exactly when they parse.
   */
  lemma {:induction false} LoadTableMeaning(rd: Readers, tables: map<string, ValidTable>, path: string, name: string, mapping: Option<string>)
    ensures var r := LoadTable(rd, tables, path, name, mapping);
      && (r == Failure(UnsupportedFormat(Lower(Ext(path)))) <==> FormatOf(path).None?)
      && (r == Failure(MissingMapping) <==> FormatOf(path) == Some(Dat) && mapping.None?)
      && (r.Failure? && r.error.TableExists? ==> r.error.name == name && name in tables && FormatOf(path) == Some(Csv))
      && (FormatOf(path) == Some(Dat) && r.Success? ==>
            && mapping.Some? && rd.mapping(mapping.value).Some? && rd.lines(path).Some?
            && r.value == FixedWidthTable(rd.lines(path).value, rd.mapping(mapping.value).value))
      && (FormatOf(path) == Some(Csv) ==> (r.Success? <==> rd.csv(path).Some? && name !in tables))
      && (FormatOf(path) == Some(Csv) && r.Success? ==> r.value == rd.csv(path).value)
      && (FormatOf(path) == Some(Xml) ==> (r.Success? <==> rd.xml(path).Some?) && (r.Success? ==> r.value == rd.xml(path).value))
      && (FormatOf(path) == Some(Json) ==> (r.Success? <==> rd.json(path).Some?) && (r.Success? ==> r.value == rd.json(path).value))
  {
    match FormatOf(path)
    case None =>
    case Some(Dat) => LoadDatMeaning(rd, tables, path, name, mapping);
    case Some(Csv) =>
    case Some(Xml) =>
    case Some(Json) =>
  }

  /** The `.dat` branch: it fails without a mapping and otherwise yields the fixed-width table or an unreadable file. */
  lemma {:induction false} LoadDatMeaning(rd: Readers, tables: map<string, ValidTable>, path: string, name: string, mapping: Option<string>)
    requires FormatOf(path) == Some(Dat)
    ensures var r := LoadTable(rd, tables, path, name, mapping);
      && (r == Failure(MissingMapping) <==> mapping.None?)
      && (r.Failure? ==> !r.error.TableExists? && !r.error.UnsupportedFormat?)
      && (r.Success? ==>
            && mapping.Some? && rd.mapping(mapping.value).Some? && rd.lines(path).Some?
            && r.value == FixedWidthTable(rd.lines(path).value, rd.mapping(mapping.value).value))
  {
  }

  /**
   * A `.dat` file read with a readable mapping is the fixed-width table:
   * one row per line, and with distinct field names cell (i, j) is field j
   * of line i.
   */
  lemma {:induction false} DatLoadCells(rd: Readers, tables: map<string, ValidTable>, path: string, name: string, mappingPath: string, i: nat, j: nat)
    requires FormatOf(path) == Some(Dat)
    requires rd.mapping(mappingPath).Some? && rd.lines(path).Some?
    requires NoDup(ColumnNames(rd.mapping(mappingPath).value))
    requires i < |rd.lines(path).value| && j < |rd.mapping(mappingPath).value|
    ensures var r := LoadTable(rd, tables, path, name, Some(mappingPath));
      var lines, m := rd.lines(path).value, rd.mapping(mappingPath).value;
      && r.Success?
      && r.value.columns == ColumnNames(m)
      && |r.value.rows| == |lines|
      && r.value.rows[i][j] == Some(Strip(Slice(lines[i], m[j].startPosition, m[j].endPosition)))
  {
    FixedWidthCells(rd.lines(path).value, rd.mapping(mappingPath).value, i, j);
  }

  /** Why a whole run fails. */
  datatype RunError = LoadFailed(side: Side, loadError: LoadError) | CompareFailed(compareError: CompareError)

  /** A comparison's result as the result of a run. */
  function Lifted(c: Result<Report, CompareError>): (r: Result<Report, RunError>)
    ensures r.Success? <==> c.Success?
    ensures r.Success? ==> r.value == c.value
    ensures r.Failure? ==> r.error == CompareFailed(c.error)
  {
    match c
    case Success(rep) => Success(rep)
    case Failure(e) => Failure(CompareFailed(e))
  }

  /** What a run returns and the catalog it leaves behind. */
  datatype RunState = RunState(result: Result<Report, RunError>, tables: map<string, ValidTable>)

  /**
   * A run on a catalog: load the source, then the target, then compare the
   * two loaded tables. A table that loaded stays in the catalog even when a
   * later step fails, and no other name is touched.
   */
  function Run(rd: Readers, tables: map<string, ValidTable>, srcPath: string, trgPath: string, keys: seq<string>,
               tableSrc: string, tableTrg: string, srcMapping: Option<string>, trgMapping: Option<string>): RunState
    requires tableSrc != tableTrg
  {
    match LoadTable(rd, tables, srcPath, tableSrc, srcMapping)
    case Failure(e) => RunState(Failure(LoadFailed(Source, e)), tables)
    case Success(st) =>
      var afterSrc := tables[tableSrc := st];
      match LoadTable(rd, afterSrc, trgPath, tableTrg, trgMapping)
      case Failure(e) => RunState(Failure(LoadFailed(Target, e)), afterSrc)
      case Success(tt) =>
        var afterTrg := afterSrc[tableTrg := tt];
        RunState(Lifted(Compare(st, tt, keys)), afterTrg)
  }

  /**
   * A successful run reports the outcome of the two tables the catalog
   * then holds under the two names, and the source one is what the source
   * load yields.
   */
  lemma {:induction false} RunReports(rd: Readers, tables: map<string, ValidTable>, srcPath: string, trgPath: string, keys: seq<string>,
                    tableSrc: string, tableTrg: string, srcMapping: Option<string>, trgMapping: Option<string>)
    requires tableSrc != tableTrg
    ensures var s := Run(rd, tables, srcPath, trgPath, keys, tableSrc, tableTrg, srcMapping, trgMapping);
      s.result.Success? ==>
        && LoadTable(rd, tables, srcPath, tableSrc, srcMapping).Success?
        && tableSrc in s.tables && tableTrg in s.tables
        && s.tables[tableSrc] == LoadTable(rd, tables, srcPath, tableSrc, srcMapping).value
        && Checked(s.tables[tableSrc], s.tables[tableTrg], keys)
        && s.result.value == Outcome(s.tables[tableSrc], s.tables[tableTrg], keys)
  {
  }

  /**
   * The source is loaded first: the run fails on the source exactly when
   * the source load fails, with that load's error, and then nothing has
   * been registered.
   */
  lemma {:induction false} RunSourceFirst(rd: Readers, tables: map<string, ValidTable>, srcPath: string, trgPath: string, keys: seq<string>,
                      tableSrc: string, tableTrg: string, srcMapping: Option<string>, trgMapping: Option<string>)
    requires tableSrc != tableTrg
    ensures var s := Run(rd, tables, srcPath, trgPath, keys, tableSrc, tableTrg, srcMapping, trgMapping);
      && (LoadTable(rd, tables, srcPath, tableSrc, srcMapping).Failure? <==> s.result.Failure? && s.result.error.LoadFailed? && s.result.error.side == Source)
      && (LoadTable(rd, tables, srcPath, tableSrc, srcMapping).Failure? ==> s == RunState(Failure(LoadFailed(Source, LoadTable(rd, tables, srcPath, tableSrc, srcMapping).error)), tables))
  {
  }

  /** `after` agrees with `before` on every name other than `a` and `b`, and adds no other name. */
  predicate SameOutside(before: map<string, ValidTable>, after: map<string, ValidTable>, a: string, b: string) {
    && (forall n :: n in before && n != a && n != b ==> n in after && after[n] == before[n])
    && (forall n :: n in after ==> n in before || n == a || n == b)
  }

  /** A run changes the catalog under its two table names only. */
  lemma {:induction false} RunFrame(rd: Readers, tables: map<string, ValidTable>, srcPath: string, trgPath: string, keys: seq<string>,
                tableSrc: string, tableTrg: string, srcMapping: Option<string>, trgMapping: Option<string>)
    requires tableSrc != tableTrg
    ensures SameOutside(tables, Run(rd, tables, srcPath, trgPath, keys, tableSrc, tableTrg, srcMapping, trgMapping).tables, tableSrc, tableTrg)
  {
    var after := Run(rd, tables, srcPath, trgPath, keys, tableSrc, tableTrg, srcMapping, trgMapping).tables;
    var l := LoadTable(rd, tables, srcPath, tableSrc, srcMapping);
    SameOutsideRefl(tables, tableSrc, tableTrg);
    if l.Success? {
      var afterSrc := tables[tableSrc := l.value];
      SameOutsideUpdate(tables, tables, tableSrc, tableTrg, tableSrc, l.value);
      var m := LoadTable(rd, afterSrc, trgPath, tableTrg, trgMapping);
      if m.Success? {
        SameOutsideUpdate(tables, afterSrc, tableSrc, tableTrg, tableTrg, m.value);
        assert after == afterSrc[tableTrg := m.value];
      } else {
        assert after == afterSrc;
      }
    } else {
      assert after == tables;
    }
  }

  lemma {:induction false} SameOutsideRefl(m: map<string, ValidTable>, a: string, b: string)
    ensures SameOutside(m, m, a, b)
  {
  }

  /** Registering a table under `a` or `b` keeps the catalog the same outside those names. */
  lemma {:induction false} SameOutsideUpdate(before: map<string, ValidTable>, after: map<string, ValidTable>, a: string, b: string, n: string, t: ValidTable)
    requires SameOutside(before, after, a, b) && (n == a || n == b)
    ensures SameOutside(before, after[n := t], a, b)
  {
  }

  /**
   * As written, `run_data_comparison` passes no mapping file to either
   * load (lines 72-73), so a `.dat` source always fails, before anything
   * is registered.
   */
  lemma {:induction false} AsWrittenDatSourceFails(rd: Readers, tables: map<string, ValidTable>, srcPath: string, trgPath: string,
                                keys: seq<string>, tableSrc: string, tableTrg: string)
    requires tableSrc != tableTrg && FormatOf(srcPath) == Some(Dat)
    ensures Run(rd, tables, srcPath, trgPath, keys, tableSrc, tableTrg, None, None)
      == RunState(Failure(LoadFailed(Source, MissingMapping)), tables)
  {
  }

  /** As written, a `.dat` target fails the same way once the source has loaded. */
  lemma {:induction false} AsWrittenDatTargetFails(rd: Readers, tables: map<string, ValidTable>, srcPath: string, trgPath: string,
                                keys: seq<string>, tableSrc: string, tableTrg: string)
    requires tableSrc != tableTrg && FormatOf(trgPath) == Some(Dat)
    requires LoadTable(rd, tables, srcPath, tableSrc, None).Success?
    ensures Run(rd, tables, srcPath, trgPath, keys, tableSrc, tableTrg, None, None).result
      == Failure(LoadFailed(Target, MissingMapping))
  {
  }

  /**
   * With the mapping files passed through, two readable `.dat` files are
   * compared as their fixed-width tables.
   */
  lemma {:induction false} MappedDatCompared(rd: Readers, tables: map<string, ValidTable>, srcPath: string, trgPath: string, keys: seq<string>,
                          tableSrc: string, tableTrg: string, srcMapping: string, trgMapping: string)
    requires tableSrc != tableTrg && FormatOf(srcPath) == Some(Dat) && FormatOf(trgPath) == Some(Dat)
    requires rd.mapping(srcMapping).Some? && rd.lines(srcPath).Some?
    requires rd.mapping(trgMapping).Some? && rd.lines(trgPath).Some?
    ensures var st := FixedWidthTable(rd.lines(srcPath).value, rd.mapping(srcMapping).value);
      var tt := FixedWidthTable(rd.lines(trgPath).value, rd.mapping(trgMapping).value);
      var s := Run(rd, tables, srcPath, trgPath, keys, tableSrc, tableTrg, Some(srcMapping), Some(trgMapping));
      && (s.result.Success? <==> Checked(st, tt, keys))
      && (s.result.Success? ==> s.result.value == Outcome(st, tt, keys))
      && s.tables == tables[tableSrc := st][tableTrg := tt]
  {
  }

  /**
   * The connection is shared by every run, so a second run on the catalog a
   * successful `.csv` run left behind fails: `CREATE TABLE` finds the
   * source name taken.
   */
  lemma {:induction false} SecondCsvRunFails(rd: Readers, tables: map<string, ValidTable>, srcPath: string, trgPath: string,
                          keys: seq<string>, tableSrc: string, tableTrg: string)
    requires tableSrc != tableTrg && FormatOf(srcPath) == Some(Csv)
    requires Run(rd, tables, srcPath, trgPath, keys, tableSrc, tableTrg, None, None).result.Success?
    ensures var again := Run(rd, tables, srcPath, trgPath, keys, tableSrc, tableTrg, None, None).tables;
      Run(rd, again, srcPath, trgPath, keys, tableSrc, tableTrg, None, None).result
        == Failure(LoadFailed(Source, TableExists(tableSrc)))
  {
    var l := LoadTable(rd, tables, srcPath, tableSrc, None);
    RunReports(rd, tables, srcPath, trgPath, keys, tableSrc, tableTrg, None, None);
    var again := Run(rd, tables, srcPath, trgPath, keys, tableSrc, tableTrg, None, None).tables;
    assert rd.csv(srcPath).Some? by {
      LoadTableMeaning(rd, tables, srcPath, tableSrc, None);
    }
    CsvNameTaken(rd, again, srcPath, tableSrc, None);
    RunSourceFirst(rd, again, srcPath, trgPath, keys, tableSrc, tableTrg, None, None);
  }

  /** A readable `.csv` file whose table name is already in the catalog fails with that name. */
  lemma {:induction false} CsvNameTaken(rd: Readers, tables: map<string, ValidTable>, path: string, name: string, mapping: Option<string>)
    requires FormatOf(path) == Some(Csv) && rd.csv(path).Some? && name in tables
    ensures LoadTable(rd, tables, path, name, mapping) == Failure(TableExists(name))
  {
  }

  /** DuckDB's catalog on the shared connection: the tables loaded so far, by name. */
  class Catalog {
    var tables: map<string, ValidTable>

    /** `connect_to_database()`: a fresh in-memory database holds no table. */
    constructor ()
      ensures tables == map[]
    {
      tables := map[];
    }

    /**
     * `load_data_into_duckdb` (lines 38-64): on success the table is under
     * `name` and its column names are returned; on failure the catalog is
     * unchanged.
     */
    method LoadData(rd: Readers, path: string, name: string, mapping: Option<string>) returns (r: Result<seq<string>, LoadError>)
      modifies this
      ensures match LoadTable(rd, old(tables), path, name, mapping)
        case Success(t) => r == Success(t.columns) && tables == old(tables)[name := t]
        case Failure(e) => r == Failure(e) && tables == old(tables)
    {
      var extension := Lower(Ext(path));
      if extension == ".dat" {
        if mapping.None? {
          return Failure(MissingMapping);
        }
        var mappingRows := rd.mapping(mapping.value);
        if mappingRows.None? {
          return Failure(UnreadableMapping(mapping.value));
        }
        var columnNames := ColumnNames(mappingRows.value);
        var structure := Structure(mappingRows.value);
        var lines := rd.lines(path);
        if lines.None? {
          return Failure(UnreadableFile(path));
        }
        var data := ReadFixedLengthFile(lines.value, structure);
        ReadLinesNames(lines.value, mappingRows.value);
        var t := Frame(data, columnNames);
        tables := tables[name := t];
        r := Success(t.columns);
      } else if extension == ".csv" {
        var t := rd.csv(path);
        if t.None? {
          return Failure(UnreadableFile(path));
        }
        if name in tables {
          return Failure(TableExists(name));
        }
        tables := tables[name := t.value];
        r := Success(t.value.columns);
      } else if extension == ".xml" {
        var t := rd.xml(path);
        if t.None? {
          return Failure(UnreadableFile(path));
        }
        tables := tables[name := t.value];
        r := Success(t.value.columns);
      } else if extension == ".json" {
        var t := rd.json(path);
        if t.None? {
          return Failure(UnreadableFile(path));
        }
        tables := tables[name := t.value];
        r := Success(t.value.columns);
      } else {
        r := Failure(UnsupportedFormat(extension));
      }
    }

    /**
     * A run that hands each load its mapping file: load the source, then
     * the target, then compare the two tables the loads returned.
     */
    method RunWithMappings(rd: Readers, srcPath: string, trgPath: string, keys: seq<string>, tableSrc: string, tableTrg: string,
                           srcMapping: Option<string>, trgMapping: Option<string>) returns (r: Result<Report, RunError>)
      requires tableSrc != tableTrg
      modifies this
      ensures var s := Run(rd, old(tables), srcPath, trgPath, keys, tableSrc, tableTrg, srcMapping, trgMapping);
        r == s.result && tables == s.tables
    {
      var columnsSrc := LoadData(rd, srcPath, tableSrc, srcMapping);
      if columnsSrc.Failure? {
        return Failure(LoadFailed(Source, columnsSrc.error));
      }
      var columnsTrg := LoadData(rd, trgPath, tableTrg, trgMapping);
      if columnsTrg.Failure? {
        return Failure(LoadFailed(Target, columnsTrg.error));
      }
      var compared := CompareTables(tables[tableSrc], tables[tableTrg], keys);
      if compared.Failure? {
        return Failure(CompareFailed(compared.error));
      }
      r := Success(compared.value);
    }

    /** `run_data_comparison` as written (lines 67-209): neither load is given a mapping file. */
    method RunDataComparison(rd: Readers, srcPath: string, trgPath: string, keys: seq<string>, tableSrc: string, tableTrg: string)
      returns (r: Result<Report, RunError>)
      requires tableSrc != tableTrg
      modifies this
      ensures var s := Run(rd, old(tables), srcPath, trgPath, keys, tableSrc, tableTrg, None, None);
        r == s.result && tables == s.tables
    {
      r := RunWithMappings(rd, srcPath, trgPath, keys, tableSrc, tableTrg, None, None);
    }
  }
}
