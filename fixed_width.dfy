/**
 * The fixed-width adapter: the mapping rows become `(start, end, name)`
 * triples, and every line of a `.dat` file becomes a dict holding, for each
 * triple, the stripped slice `line[start:end]` under the triple's name.
 */
module FixedWidth {
  import opened Wrappers
  import opened Lists
  import opened PyText
  import opened Dicts
  import opened Tables

  /** One row of the mapping file: the `IGP Base Field` name and the two offset columns. */
  datatype MappingRow = MappingRow(fieldName: string, startPosition: int, endPosition: int)

  /** One `(start, end, column_name)` triple of `structure`. */
  datatype Field = Field(start: int, end: int, name: string)

  /** `mapping_df['IGP Base Field'].str.strip().tolist()`: the table's column names. */
  function ColumnNames(mapping: seq<MappingRow>): (names: seq<string>)
    ensures |names| == |mapping|
    ensures forall i :: 0 <= i < |names| ==> Strip(names[i]) == names[i]
  {
    seq(|mapping|, i requires 0 <= i < |mapping| => StripIdempotent(mapping[i].fieldName); Strip(mapping[i].fieldName))
  }

  /** `list(zip(starts, ends, column_names))`: one triple per mapping row, with the trimmed name. */
  function Structure(mapping: seq<MappingRow>): (s: seq<Field>)
    ensures |s| == |mapping|
    ensures FieldNames(s) == ColumnNames(mapping)
    ensures forall i :: 0 <= i < |s| ==> s[i].start == mapping[i].startPosition && s[i].end == mapping[i].endPosition
  {
    var names := ColumnNames(mapping);
    seq(|mapping|, i requires 0 <= i < |mapping| => Field(mapping[i].startPosition, mapping[i].endPosition, names[i]))
  }

  /** The names of the triples, in order. */
  function FieldNames(s: seq<Field>): (ns: seq<string>)
    ensures |ns| == |s|
    ensures forall i :: 0 <= i < |s| ==> ns[i] == s[i].name
  {
    seq(|s|, i requires 0 <= i < |s| => s[i].name)
  }

  /** `line[start:end].strip()` for one triple. */
  function FieldValue(line: string, f: Field): string {
    Strip(Slice(line, f.start, f.end))
  }

  /** The stripped slices of one line, one per triple, in order. */
  function FieldValues(line: string, structure: seq<Field>): (vs: seq<string>)
    ensures |vs| == |structure|
    ensures forall i :: 0 <= i < |structure| ==> vs[i] == FieldValue(line, structure[i])
  {
    seq(|structure|, i requires 0 <= i < |structure| => FieldValue(line, structure[i]))
  }

  /** The dict after `d[ks[0]] = vs[0]; d[ks[1]] = vs[1]; ...` on an empty dict. */
  function Assign(ks: seq<string>, vs: seq<string>): (r: Dict<string>)
    requires |ks| == |vs|
    ensures forall n :: n in Names(r) <==> n in ks
    ensures NoDup(Names(r))
  {
    if ks == [] then []
    else
      var n := |ks| - 1;
      var prev := Assign(ks[..n], vs[..n]);
      PutLastName(prev, ks, vs[n]);
      Put(prev, ks[n], vs[n])
  }

  /** Assigning the last key to the dict of the keys before it gives a dict of all the keys, each once. */
  lemma {:induction false} PutLastName(prev: Dict<string>, ks: seq<string>, v: string)
    requires ks != [] && NoDup(Names(prev))
    requires forall x :: x in Names(prev) <==> x in ks[..|ks| - 1]
    ensures forall x :: x in Names(Put(prev, ks[|ks| - 1], v)) <==> x in ks
    ensures NoDup(Names(Put(prev, ks[|ks| - 1], v)))
  {
    var n := |ks| - 1;
    assert ks == ks[..n] + [ks[n]];
    PutNoDup(prev, ks[n], v);
    PutNames(prev, ks[n], v);
  }

  /** The dict `row` after the inner loop has assigned every triple of one line, in order. */
  function LineRecord(line: string, structure: seq<Field>): (r: Dict<string>)
  {
    Assign(FieldNames(structure), FieldValues(line, structure))
  }

  /** What `read_fixed_length_file` returns for the lines of a file: one dict per line, in line order. */
  function ReadLines(lines: seq<string>, structure: seq<Field>): (data: seq<Dict<string>>)
  {
    MapSeq(lines, line => LineRecord(line, structure))
  }

  /** One more assignment: the dict of the first `j + 1` pairs is the dict of the first `j` with pair `j` assigned. */
  lemma {:induction false} AssignStep(ks: seq<string>, vs: seq<string>, j: nat)
    requires |ks| == |vs| && j < |ks|
    ensures Assign(ks[..j + 1], vs[..j + 1]) == Put(Assign(ks[..j], vs[..j]), ks[j], vs[j])
  {
    assert ks[..j + 1][..j] == ks[..j] && vs[..j + 1][..j] == vs[..j];
  }

  /** The inner loop of lines 30-32: fill the dict `row` for one line, triple by triple. */
  method ReadLine(line: string, structure: seq<Field>) returns (row: Dict<string>)
    ensures row == LineRecord(line, structure)
  {
    ghost var ks, vs := FieldNames(structure), FieldValues(line, structure);
    row := [];
    var j := 0;
    while j < |structure|
      invariant 0 <= j <= |structure|
      invariant row == Assign(ks[..j], vs[..j])
    {
      var f := structure[j];
      AssignStep(ks, vs, j);
      row := Put(row, f.name, Strip(Slice(line, f.start, f.end)));
      j := j + 1;
    }
    assert ks[..j] == ks && vs[..j] == vs;
  }

  /** `read_fixed_length_file` (lines 24-35) on the lines of the opened file: one dict appended per line. */
  method ReadFixedLengthFile(lines: seq<string>, structure: seq<Field>) returns (data: seq<Dict<string>>)
    ensures data == ReadLines(lines, structure)
  {
    data := [];
    var i := 0;
    while i < |lines|
      invariant 0 <= i <= |lines|
      invariant data == ReadLines(lines[..i], structure)
    {
      var row := ReadLine(lines[i], structure);
      assert lines[..i + 1][..i] == lines[..i];
      data := data + [row];
      i := i + 1;
    }
    assert lines[..i] == lines;
  }

  /** `i` is the last position holding its key: no later assignment uses the same dict key. */
  predicate LastWithName(ks: seq<string>, i: nat)
    requires i < |ks|
  {
    forall j :: i < j < |ks| ==> ks[j] != ks[i]
  }

  /** A later assignment to the same key wins: each key holds the value of its last assignment. */
  lemma {:induction false} AssignValue(ks: seq<string>, vs: seq<string>, i: nat)
    requires |ks| == |vs| && i < |ks| && LastWithName(ks, i)
    ensures ks[i] in Names(Assign(ks, vs))
    ensures Get(Assign(ks, vs), ks[i]) == vs[i]
  {
    AssignEntry(ks, vs, i);
    GetEntry(Assign(ks, vs), ks[i], vs[i]);
  }

  /** The last assignment to a key leaves its entry in the dict. */
  lemma {:induction false} AssignEntry(ks: seq<string>, vs: seq<string>, i: nat)
    requires |ks| == |vs| && i < |ks| && LastWithName(ks, i)
    ensures (ks[i], vs[i]) in Assign(ks, vs)
  {
    var n := |ks| - 1;
    if i < n {
      LastWithNamePrefix(ks, i);
      AssignEntry(ks[..n], vs[..n], i);
      assert ks[..n][i] == ks[i] && vs[..n][i] == vs[i];
      AssignKeepsEntry(ks, vs, i);
    } else {
      AssignLastEntry(ks, vs);
    }
  }

  /** The last assignment is always in the dict. */
  lemma {:induction false} AssignLastEntry(ks: seq<string>, vs: seq<string>)
    requires |ks| == |vs| && ks != []
    ensures (ks[|ks| - 1], vs[|ks| - 1]) in Assign(ks, vs)
  {
  }

  /** Dropping the last assignment keeps position `i` the last for its key. */
  lemma {:induction false} LastWithNamePrefix(ks: seq<string>, i: nat)
    requires i < |ks| - 1 && LastWithName(ks, i)
    ensures LastWithName(ks[..|ks| - 1], i)
  {
    var front := ks[..|ks| - 1];
    forall j | i < j < |front|
      ensures front[j] != front[i]
    {
      assert front[j] == ks[j];
    }
  }

  /** An entry of the dict before the last assignment survives it when the last key is another. */
  lemma {:induction false} AssignKeepsEntry(ks: seq<string>, vs: seq<string>, i: nat)
    requires |ks| == |vs| && i < |ks| - 1 && LastWithName(ks, i)
    requires (ks[i], vs[i]) in Assign(ks[..|ks| - 1], vs[..|ks| - 1])
    ensures (ks[i], vs[i]) in Assign(ks, vs)
  {
    var n := |ks| - 1;
    AssignStep(ks, vs, n);
    assert ks[..n + 1] == ks && vs[..n + 1] == vs;
    PutKeepsOthers(Assign(ks[..n], vs[..n]), ks[n], vs[n], (ks[i], vs[i]));
  }

  /**
   * Every row has an entry for exactly the mapped names, each once, and a
   * name holds the stripped slice of the last triple carrying it.
   */
  lemma {:induction false} LineRecordMeaning(line: string, structure: seq<Field>, i: nat)
    requires i < |structure| && LastWithName(FieldNames(structure), i)
    ensures forall n :: n in Names(LineRecord(line, structure)) <==> n in FieldNames(structure)
    ensures NoDup(Names(LineRecord(line, structure)))
    ensures Get(LineRecord(line, structure), structure[i].name) == FieldValue(line, structure[i])
  {
    AssignValue(FieldNames(structure), FieldValues(line, structure), i);
  }

  /**
   * One dict per input line, and each holds an entry for every mapped name
   * and for nothing else; a field that starts at or past the end of its
   * line is read as the empty string.
   */
  lemma {:induction false} ReadLinesMeaning(lines: seq<string>, structure: seq<Field>, i: nat, j: nat)
    requires i < |lines| && j < |structure| && LastWithName(FieldNames(structure), j)
    ensures |ReadLines(lines, structure)| == |lines|
    ensures forall n :: n in Names(ReadLines(lines, structure)[i]) <==> n in FieldNames(structure)
    ensures Get(ReadLines(lines, structure)[i], structure[j].name) == FieldValue(lines[i], structure[j])
    ensures structure[j].start >= |lines[i]| ==> Get(ReadLines(lines, structure)[i], structure[j].name) == ""
  {
    LineRecordMeaning(lines[i], structure, j);
    if structure[j].start >= |lines[i]| {
      ShortLineField(lines[i], structure[j]);
    }
  }

  /** A field whose start lies at or past the end of the line reads as the empty string. */
  lemma {:induction false} ShortLineField(line: string, f: Field)
    requires f.start >= |line|
    ensures FieldValue(line, f) == ""
  {
    assert Slice(line, f.start, f.end) == "";
  }

  /** A field inside the line is its characters with the surrounding whitespace removed. */
  lemma {:induction false} InsideLineField(line: string, f: Field)
    requires 0 <= f.start <= f.end <= |line|
    ensures FieldValue(line, f) == Strip(line[f.start..f.end])
  {
  }

  /** `pd.DataFrame(data, columns=column_names)`: one text cell per column name, read from the line's dict. */
  function FrameRow(rec: Dict<string>, columns: seq<string>): (r: Row)
    requires forall c :: c in columns ==> c in Names(rec)
    ensures |r| == |columns|
    ensures forall j :: 0 <= j < |columns| ==> r[j] == Some(Get(rec, columns[j]))
  {
    seq(|columns|, j requires 0 <= j < |columns| => Some(Get(rec, columns[j])))
  }

  /** `pd.DataFrame(data, columns=...)`: one row per dict, its cells read under the given column names. */
  function Frame(data: seq<Dict<string>>, columns: seq<string>): (t: ValidTable)
    requires forall i, c :: 0 <= i < |data| && c in columns ==> c in Names(data[i])
    ensures t.columns == columns && |t.rows| == |data|
    ensures forall i, j :: 0 <= i < |data| && 0 <= j < |columns| ==>
      columns[j] in columns && t.rows[i][j] == Some(Get(data[i], columns[j]))
  {
    Table(columns, seq(|data|, i requires 0 <= i < |data| => FrameRow(data[i], columns)))
  }

  /** Every dict read from a line has an entry for each of the mapping's trimmed names. */
  lemma {:induction false} ReadLinesNames(lines: seq<string>, mapping: seq<MappingRow>)
    ensures var data := ReadLines(lines, Structure(mapping));
      forall i, c :: 0 <= i < |data| && c in ColumnNames(mapping) ==> c in Names(data[i])
  {
  }

  /** The table a `.dat` file registers: the mapping's trimmed names as columns, one row per line. */
  function FixedWidthTable(lines: seq<string>, mapping: seq<MappingRow>): (t: ValidTable)
    ensures t.columns == ColumnNames(mapping)
    ensures |t.rows| == |lines|
  {
    ReadLinesNames(lines, mapping);
    Frame(ReadLines(lines, Structure(mapping)), ColumnNames(mapping))
  }

  /**
   * With distinct trimmed field names, cell (i, j) of the loaded table is
   * field j of line i: the stripped slice between that field's offsets.
   */
  lemma {:induction false} FixedWidthCells(lines: seq<string>, mapping: seq<MappingRow>, i: nat, j: nat)
    requires NoDup(ColumnNames(mapping))
    requires i < |lines| && j < |mapping|
    ensures var t := FixedWidthTable(lines, mapping);
      t.rows[i][j] == Some(Strip(Slice(lines[i], mapping[j].startPosition, mapping[j].endPosition)))
  {
    var s := Structure(mapping);
    assert LastWithName(FieldNames(s), j);
    LineRecordMeaning(lines[i], s, j);
  }
}
