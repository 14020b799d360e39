/**
 * The same-side key queries: the duplicate-key report
 * (`WHERE (keys) IN (SELECT keys ... GROUP BY keys HAVING COUNT(*) > 1)`)
 * and `COUNT(DISTINCT keys)`, which the summary labels "Key Duplicate".
 */
module Duplicates {
  import opened Wrappers
  import opened Lists
  import opened Tables
  import opened Queries

  /** The size of the GROUP BY group of key tuple `k` in `rows` (GROUP BY puts NULLs together). */
  function CountKey(k: seq<Cell>, rows: seq<Row>, pos: seq<nat>): (n: nat)
    requires Keyed(rows, pos)
    ensures n <= |rows|
  {
    if rows == [] then 0
    else (if KeyOf(rows[0], pos) == k then 1 else 0) + CountKey(k, rows[1..], pos)
  }

  /** The rows of `cands` that pass the IN test: a non-NULL key tuple whose group in `all` has more than one row. */
  function SelectDuplicates(cands: seq<Row>, all: seq<Row>, pos: seq<nat>): (d: seq<Row>)
    requires Keyed(cands, pos) && Keyed(all, pos)
    ensures forall r :: r in d ==> r in cands
  {
    if cands == [] then []
    else var k := KeyOf(cands[0], pos);
      (if Known(k) && CountKey(k, all, pos) > 1 then [cands[0]] else [])
      + SelectDuplicates(cands[1..], all, pos)
  }

  /** The duplicate-key report of one table. */
  function DuplicateRows(rows: seq<Row>, pos: seq<nat>): seq<Row>
    requires Keyed(rows, pos)
  {
    SelectDuplicates(rows, rows, pos)
  }

  /**
   * The report is the table's own rows, in order and with multiplicity,
   * keeping exactly those whose non-NULL key tuple occurs more than once.
   */
  lemma {:induction false} SelectDuplicatesMeaning(cands: seq<Row>, all: seq<Row>, pos: seq<nat>)
    requires Keyed(cands, pos) && Keyed(all, pos)
    ensures IsSubsequence(SelectDuplicates(cands, all, pos), cands)
    ensures forall r :: r in SelectDuplicates(cands, all, pos) <==>
      r in cands && Known(KeyOf(r, pos)) && CountKey(KeyOf(r, pos), all, pos) > 1
  {
    if cands != [] {
      var rest := SelectDuplicates(cands[1..], all, pos);
      SelectDuplicatesMeaning(cands[1..], all, pos);
      SubsequenceCons(rest, cands);
      var k := KeyOf(cands[0], pos);
      if Known(k) && CountKey(k, all, pos) > 1 {
        assert SelectDuplicates(cands, all, pos) == [cands[0]] + rest;
      } else {
        assert SelectDuplicates(cands, all, pos) == rest;
      }
    }
  }

  /**
   * Each key tuple keeps its whole group in the report or none of it: a key
   * that occurs more than once in the table occurs as often in the report,
   * and no other key occurs there at all. So no key is reported only once.
   */
  lemma {:induction false} SelectDuplicatesCounts(cands: seq<Row>, all: seq<Row>, pos: seq<nat>, k: seq<Cell>)
    requires Keyed(cands, pos) && Keyed(all, pos)
    ensures CountKey(k, SelectDuplicates(cands, all, pos), pos)
            == if Known(k) && CountKey(k, all, pos) > 1 then CountKey(k, cands, pos) else 0
  {
    if cands != [] {
      SelectDuplicatesCounts(cands[1..], all, pos, k);
      var rest := SelectDuplicates(cands[1..], all, pos);
      var k0 := KeyOf(cands[0], pos);
      if Known(k0) && CountKey(k0, all, pos) > 1 {
        assert ([cands[0]] + rest)[1..] == rest;
        assert SelectDuplicates(cands, all, pos) == [cands[0]] + rest;
      } else {
        assert SelectDuplicates(cands, all, pos) == rest;
      }
    }
  }

  /** The distinct non-NULL key tuples of a table. */
  function KnownKeys(rows: seq<Row>, pos: seq<nat>): set<seq<Cell>>
    requires Keyed(rows, pos)
  {
    set r | r in rows && Known(KeyOf(r, pos)) :: KeyOf(r, pos)
  }

  /** `SELECT COUNT(DISTINCT keys) FROM t`: NULL key tuples are not counted. */
  function DistinctKeyCount(rows: seq<Row>, pos: seq<nat>): nat
    requires Keyed(rows, pos)
  {
    |KnownKeys(rows, pos)|
  }

  /** No two rows share a key tuple. */
  predicate UniqueKeys(rows: seq<Row>, pos: seq<nat>)
    requires Keyed(rows, pos)
  {
    forall i, j :: 0 <= i < j < |rows| ==> KeyOf(rows[i], pos) != KeyOf(rows[j], pos)
  }

  /** Every key tuple is free of NULLs. */
  predicate AllKnown(rows: seq<Row>, pos: seq<nat>)
    requires Keyed(rows, pos)
  {
    forall i :: 0 <= i < |rows| ==> Known(KeyOf(rows[i], pos))
  }

  lemma {:induction false} KnownKeysCons(rows: seq<Row>, pos: seq<nat>)
    requires Keyed(rows, pos) && rows != []
    ensures KnownKeys(rows, pos) == KnownKeys(rows[1..], pos)
              + (if Known(KeyOf(rows[0], pos)) then {KeyOf(rows[0], pos)} else {})
  {
    forall r | r in rows
      ensures r == rows[0] || r in rows[1..]
    {
    }
  }

  /**
   * The distinct-key count never exceeds the row count, and equals it
   * exactly when every key tuple is non-NULL and no two rows share one.
   */
  lemma {:induction false} DistinctKeyCountBound(rows: seq<Row>, pos: seq<nat>)
    requires Keyed(rows, pos)
    ensures DistinctKeyCount(rows, pos) <= |rows|
    ensures DistinctKeyCount(rows, pos) == |rows| <==> AllKnown(rows, pos) && UniqueKeys(rows, pos)
  {
    if rows != [] {
      var rest := rows[1..];
      var k0 := KeyOf(rows[0], pos);
      var before := KnownKeys(rest, pos);
      DistinctKeyCountBound(rest, pos);
      DistinctKeyCountCons(rows, pos);
      if AllKnown(rows, pos) && UniqueKeys(rows, pos) {
        UniqueCons(rows, pos);
      }
      if Known(k0) && k0 !in before && AllKnown(rest, pos) && UniqueKeys(rest, pos) {
        ConsUnique(rows, pos);
      }
    }
  }

  /** The head row adds one to the count exactly when its key tuple is known and new. */
  lemma {:induction false} DistinctKeyCountCons(rows: seq<Row>, pos: seq<nat>)
    requires Keyed(rows, pos) && rows != []
    ensures var k0, rest := KeyOf(rows[0], pos), rows[1..];
      DistinctKeyCount(rows, pos)
        == if Known(k0) && k0 !in KnownKeys(rest, pos) then DistinctKeyCount(rest, pos) + 1 else DistinctKeyCount(rest, pos)
  {
    var k0, before := KeyOf(rows[0], pos), KnownKeys(rows[1..], pos);
    KnownKeysCons(rows, pos);
    if Known(k0) && k0 !in before {
      assert |before + {k0}| == |before| + 1;
    } else {
      assert KnownKeys(rows, pos) == before;
    }
  }

  /** A table whose key tuples are all known and unique: so is its tail, and the tail lacks the head's key. */
  lemma {:induction false} UniqueCons(rows: seq<Row>, pos: seq<nat>)
    requires Keyed(rows, pos) && rows != [] && AllKnown(rows, pos) && UniqueKeys(rows, pos)
    ensures var rest := rows[1..];
      && Known(KeyOf(rows[0], pos)) && KeyOf(rows[0], pos) !in KnownKeys(rest, pos)
      && AllKnown(rest, pos) && UniqueKeys(rest, pos)
  {
    var rest, k0 := rows[1..], KeyOf(rows[0], pos);
    assert Known(k0);
    forall i | 0 <= i < |rest|
      ensures Known(KeyOf(rest[i], pos)) && KeyOf(rest[i], pos) != k0
    {
      assert rest[i] == rows[i + 1];
    }
    forall i, j | 0 <= i < j < |rest|
      ensures KeyOf(rest[i], pos) != KeyOf(rest[j], pos)
    {
      assert rest[i] == rows[i + 1] && rest[j] == rows[j + 1];
    }
    forall r | r in rest
      ensures KeyOf(r, pos) != k0
    {
      var j :| 0 <= j < |rest| && rest[j] == r;
    }
  }

  /** A known head key absent from a tail whose keys are all known and unique gives a table with the same property. */
  lemma {:induction false} ConsUnique(rows: seq<Row>, pos: seq<nat>)
    requires Keyed(rows, pos) && rows != []
    requires var rest := rows[1..];
      && Known(KeyOf(rows[0], pos)) && KeyOf(rows[0], pos) !in KnownKeys(rest, pos)
      && AllKnown(rest, pos) && UniqueKeys(rest, pos)
    ensures AllKnown(rows, pos) && UniqueKeys(rows, pos)
  {
    var rest, k0 := rows[1..], KeyOf(rows[0], pos);
    forall i | 0 < i < |rows|
      ensures Known(KeyOf(rows[i], pos)) && KeyOf(rows[i], pos) != k0
    {
      assert rows[i] == rest[i - 1];
      assert rest[i - 1] in rest;
    }
    forall i, j | 0 <= i < j < |rows|
      ensures KeyOf(rows[i], pos) != KeyOf(rows[j], pos)
    {
      if i > 0 {
        assert rows[i] == rest[i - 1] && rows[j] == rest[j - 1];
      }
    }
  }

  /** When keys are unique, every group has one row and the duplicate report is empty. */
  lemma {:induction false} UniqueKeysNoDuplicates(rows: seq<Row>, pos: seq<nat>)
    requires Keyed(rows, pos) && UniqueKeys(rows, pos)
    ensures DuplicateRows(rows, pos) == []
  {
    forall r | r in rows
      ensures CountKey(KeyOf(r, pos), rows, pos) <= 1
    {
      var i :| 0 <= i < |rows| && rows[i] == r;
      CountKeyUnique(rows, pos, i);
    }
    SelectNoneWhenSingletons(rows, rows, pos);
  }

  lemma {:induction false} SelectNoneWhenSingletons(cands: seq<Row>, all: seq<Row>, pos: seq<nat>)
    requires Keyed(cands, pos) && Keyed(all, pos)
    requires forall r :: r in cands ==> CountKey(KeyOf(r, pos), all, pos) <= 1
    ensures SelectDuplicates(cands, all, pos) == []
  {
    if cands != [] {
      SelectNoneWhenSingletons(cands[1..], all, pos);
    }
  }

  /** With unique keys, each row's group is that row alone. */
  lemma {:induction false} CountKeyUnique(rows: seq<Row>, pos: seq<nat>, i: nat)
    requires Keyed(rows, pos) && UniqueKeys(rows, pos) && i < |rows|
    ensures CountKey(KeyOf(rows[i], pos), rows, pos) == 1
  {
    var rest := rows[1..];
    assert UniqueKeys(rest, pos) by {
      forall a, b | 0 <= a < b < |rest| ensures KeyOf(rest[a], pos) != KeyOf(rest[b], pos) {
        assert rest[a] == rows[a + 1] && rest[b] == rows[b + 1];
      }
    }
    if i == 0 {
      CountKeyAbsent(KeyOf(rows[0], pos), rest, pos);
    } else {
      assert rows[i] == rest[i - 1];
      CountKeyUnique(rest, pos, i - 1);
    }
  }

  lemma {:induction false} CountKeyAbsent(k: seq<Cell>, rows: seq<Row>, pos: seq<nat>)
    requires Keyed(rows, pos)
    requires forall r :: r in rows ==> KeyOf(r, pos) != k
    ensures CountKey(k, rows, pos) == 0
  {
    if rows != [] {
      CountKeyAbsent(k, rows[1..], pos);
    }
  }
}
