/**
 * The relational shape both loaded files share: an ordered list of column
 * names and rows of values aligned to it, plus the key tuples that the
 * engine's queries compare.
 */
module Tables {
  import opened Wrappers
  import opened Lists

  /** One value of a loaded table; None is SQL NULL (Python's None). */
  type Cell = Option<string>

  type Row = seq<Cell>

  datatype Table = Table(columns: seq<string>, rows: seq<Row>) {
    /** Every row has one value per column, as in any SQL table. */
    predicate Valid() {
      forall r :: r in rows ==> |r| == |columns|
    }
  }

  /** What the store holds: rectangular tables. */
  type ValidTable = t: Table | t.Valid() witness Table([], [])

  /** The target half of an unmatched left-join row. */
  function NullRow(n: nat): (r: Row)
    ensures |r| == n
    ensures forall k :: 0 <= k < n ==> r[k] == None
  {
    seq(n, _ => None)
  }

  /** `[columns.index(n) for n in names]`, or None where Python raises ValueError for a missing name. */
  function Positions(columns: seq<string>, names: seq<string>): (r: Option<seq<nat>>)
    ensures r.Some? <==> forall n :: n in names ==> n in columns
    ensures r.Some? ==> |r.value| == |names| && InBounds(r.value, |columns|)
    ensures r.Some? ==> forall i :: 0 <= i < |names| ==> Some(r.value[i]) == IndexOf(columns, names[i])
  {
    if names == [] then Some([])
    else match (IndexOf(columns, names[0]), Positions(columns, names[1..]))
      case (Some(p), Some(ps)) =>
        assert forall i :: 1 <= i < |names| ==> names[i] == names[1..][i - 1];
        Some([p] + ps)
      case _ => None
  }

  /** The first of `names` that is not among `columns`. */
  function FirstMissing(columns: seq<string>, names: seq<string>): (n: string)
    requires exists n :: n in names && n !in columns
    ensures n in names && n !in columns
  {
    if names[0] !in columns then names[0] else FirstMissing(columns, names[1..])
  }

  /** The key tuple of a row: its values at the key positions. */
  function KeyOf(r: Row, pos: seq<nat>): (k: seq<Cell>)
    requires InBounds(pos, |r|)
  {
    seq(|pos|, i requires 0 <= i < |pos| => r[pos[i]])
  }

  /** Every part of the key tuple is non-NULL. */
  predicate Known(k: seq<Cell>) {
    forall i :: 0 <= i < |k| ==> k[i].Some?
  }

  /** SQL's `a.k1 = b.k1 AND a.k2 = b.k2 ...`: TRUE only when every part is non-NULL and equal. */
  predicate KeysEqual(a: seq<Cell>, b: seq<Cell>) {
    Known(a) && a == b
  }

  /** Every row can be indexed at every key position. */
  predicate Keyed(rows: seq<Row>, pos: seq<nat>) {
    forall r :: r in rows ==> InBounds(pos, |r|)
  }

  /** A table together with the positions of its key columns. */
  predicate KeyedTable(t: Table, pos: seq<nat>) {
    t.Valid() && InBounds(pos, |t.columns|)
  }
}
