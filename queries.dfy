/**
 * The meaning of the engine's SQL queries as functions over rows: the left
 * join on all-key equality, the "only in" filters, the duplicate-key
 * selection and the counts behind the summary.
 */
module Queries {
  import opened Wrappers
  import opened Lists
  import opened Tables

  /** The rows of `trows` whose key tuple equals `key` under SQL equality, in their own order. */
  function Matching(key: seq<Cell>, trows: seq<Row>, tp: seq<nat>): (m: seq<Row>)
    requires Keyed(trows, tp)
    ensures |m| <= |trows|
    ensures forall t :: t in m <==> t in trows && KeysEqual(key, KeyOf(t, tp))
  {
    if trows == [] then []
    else (if KeysEqual(key, KeyOf(trows[0], tp)) then [trows[0]] else []) + Matching(key, trows[1..], tp)
  }

  /**
   * SQL pairs a key with every matching target row, duplicates included:
   * a row occurs in `Matching` as often as in `trows` when its key tuple
   * equals `key`, and not at all otherwise.
   */
  lemma {:induction false} MatchingCount(key: seq<Cell>, trows: seq<Row>, tp: seq<nat>)
    requires Keyed(trows, tp)
    ensures forall t ::
              multiset(Matching(key, trows, tp))[t]
                == if InBounds(tp, |t|) && KeysEqual(key, KeyOf(t, tp)) then multiset(trows)[t] else 0
  {
    if trows != [] {
      var rest := trows[1..];
      MatchingCount(key, rest, tp);
      assert trows == [trows[0]] + rest;
    }
  }

  /** The rows one source row contributes to `a LEFT JOIN b ON keys`. */
  function JoinedFor(s: Row, sp: seq<nat>, trows: seq<Row>, tp: seq<nat>, twidth: nat): (j: seq<Row>)
    requires InBounds(sp, |s|) && Keyed(trows, tp)
  {
    var m := Matching(KeyOf(s, sp), trows, tp);
    if m == [] then [s + NullRow(twidth)] else seq(|m|, k requires 0 <= k < |m| => s + m[k])
  }

  /** `SELECT a.*, b.* FROM src AS a LEFT JOIN trg AS b ON (keys)`, in source order. */
  function LeftJoin(srows: seq<Row>, sp: seq<nat>, trows: seq<Row>, tp: seq<nat>, twidth: nat): (j: seq<Row>)
    requires Keyed(srows, sp) && Keyed(trows, tp)
  {
    if srows == [] then []
    else JoinedFor(srows[0], sp, trows, tp, twidth) + LeftJoin(srows[1..], sp, trows, tp, twidth)
  }

  /**
   * A source row yields at least one joined row; each joined row is the
   * source row followed by either a matching target row, or by NULLs when
   * no target row matches; every matching target row is paired with it.
   */
  lemma {:induction false} JoinedForMeaning(s: Row, sp: seq<nat>, trows: seq<Row>, tp: seq<nat>, twidth: nat)
    requires InBounds(sp, |s|) && Keyed(trows, tp)
    ensures var j, m := JoinedFor(s, sp, trows, tp, twidth), Matching(KeyOf(s, sp), trows, tp);
      && |j| == (if m == [] then 1 else |m|)
      && (forall k :: 0 <= k < |m| ==> j[k] == s + m[k])
      && (forall r :: r in j ==> |s| <= |r| && r[..|s|] == s)
      && (forall t :: t in trows && KeysEqual(KeyOf(s, sp), KeyOf(t, tp)) ==> s + t in j)
      && (forall r :: r in j ==>
            || (r[|s|..] in trows && KeysEqual(KeyOf(s, sp), KeyOf(r[|s|..], tp)))
            || (r == s + NullRow(twidth) && Matching(KeyOf(s, sp), trows, tp) == []))
  {
    var m := Matching(KeyOf(s, sp), trows, tp);
    var j := JoinedFor(s, sp, trows, tp, twidth);
    forall r | r in j
      ensures |s| <= |r| && r[..|s|] == s
      ensures || (r[|s|..] in trows && KeysEqual(KeyOf(s, sp), KeyOf(r[|s|..], tp)))
              || (r == s + NullRow(twidth) && m == [])
    {
      if m != [] {
        var k :| 0 <= k < |m| && r == s + m[k];
        assert r[|s|..] == m[k];
      }
    }
    forall t | t in trows && KeysEqual(KeyOf(s, sp), KeyOf(t, tp))
      ensures s + t in j
    {
      var k :| 0 <= k < |m| && m[k] == t;
      assert j[k] == s + t;
    }
  }

  /** An unmatched source row yields exactly one joined row, padded with NULLs. */
  lemma {:induction false} UnmatchedJoinsOnce(s: Row, sp: seq<nat>, trows: seq<Row>, tp: seq<nat>, twidth: nat)
    requires InBounds(sp, |s|) && Keyed(trows, tp)
    requires forall t :: t in trows ==> !KeysEqual(KeyOf(s, sp), KeyOf(t, tp))
    ensures JoinedFor(s, sp, trows, tp, twidth) == [s + NullRow(twidth)]
  {
    MatchingNone(KeyOf(s, sp), trows, tp);
  }

  /** No target row equals the key, so none is selected. */
  lemma {:induction false} MatchingNone(key: seq<Cell>, trows: seq<Row>, tp: seq<nat>)
    requires Keyed(trows, tp)
    requires forall t :: t in trows ==> !KeysEqual(key, KeyOf(t, tp))
    ensures Matching(key, trows, tp) == []
  {
    if trows != [] {
      assert trows[0] in trows;
      MatchingNone(key, trows[1..], tp);
    }
  }

  /** The joined rows of one source row are among the rows of the whole join. */
  lemma {:induction false} LeftJoinContains(srows: seq<Row>, sp: seq<nat>, trows: seq<Row>, tp: seq<nat>, twidth: nat, s: Row)
    requires Keyed(srows, sp) && Keyed(trows, tp) && s in srows
    ensures forall r :: r in JoinedFor(s, sp, trows, tp, twidth) ==> r in LeftJoin(srows, sp, trows, tp, twidth)
  {
    if srows[0] != s {
      assert s in srows[1..];
      LeftJoinContains(srows[1..], sp, trows, tp, twidth, s);
    }
  }

  /**
   * The left join pairs every source row with every target row equal to it
   * on all keys, and joins every source row that no target row matches to
   * NULLs.
   */
  lemma {:induction false} LeftJoinPairs(srows: seq<Row>, sp: seq<nat>, trows: seq<Row>, tp: seq<nat>, twidth: nat)
    requires Keyed(srows, sp) && Keyed(trows, tp)
    ensures forall s, t :: s in srows && t in trows && KeysEqual(KeyOf(s, sp), KeyOf(t, tp)) ==>
      s + t in LeftJoin(srows, sp, trows, tp, twidth)
    ensures forall s :: s in srows && (forall t :: t in trows ==> !KeysEqual(KeyOf(s, sp), KeyOf(t, tp))) ==>
      s + NullRow(twidth) in LeftJoin(srows, sp, trows, tp, twidth)
  {
    forall s, t | s in srows && t in trows && KeysEqual(KeyOf(s, sp), KeyOf(t, tp))
      ensures s + t in LeftJoin(srows, sp, trows, tp, twidth)
    {
      JoinedForMeaning(s, sp, trows, tp, twidth);
      LeftJoinContains(srows, sp, trows, tp, twidth, s);
    }
    forall s | s in srows && (forall t :: t in trows ==> !KeysEqual(KeyOf(s, sp), KeyOf(t, tp)))
      ensures s + NullRow(twidth) in LeftJoin(srows, sp, trows, tp, twidth)
    {
      UnmatchedJoinsOnce(s, sp, trows, tp, twidth);
      LeftJoinContains(srows, sp, trows, tp, twidth, s);
    }
  }

  /**
   * Every joined row is a source row followed by a target row equal to it
   * on all keys, or by NULLs when no target row is.
   */
  lemma {:induction false} LeftJoinOrigin(srows: seq<Row>, sp: seq<nat>, trows: seq<Row>, tp: seq<nat>, twidth: nat)
    requires Keyed(srows, sp) && Keyed(trows, tp)
    ensures forall r :: r in LeftJoin(srows, sp, trows, tp, twidth) ==> exists s :: s in srows && Joins(r, s, sp, trows, tp, twidth)
  {
    if srows != [] {
      var s0 := srows[0];
      LeftJoinOrigin(srows[1..], sp, trows, tp, twidth);
      JoinedForMeaning(s0, sp, trows, tp, twidth);
      forall r | r in LeftJoin(srows, sp, trows, tp, twidth)
        ensures exists s :: s in srows && Joins(r, s, sp, trows, tp, twidth)
      {
        if r in JoinedFor(s0, sp, trows, tp, twidth) {
          assert r == s0 + r[|s0|..];
          assert Joins(r, s0, sp, trows, tp, twidth);
        } else {
          assert r in LeftJoin(srows[1..], sp, trows, tp, twidth);
          var s :| s in srows[1..] && Joins(r, s, sp, trows, tp, twidth);
          assert s in srows;
        }
      }
    }
  }

  /** `r` is what the left join makes of source row `s`: paired with a matching target row, or NULL-padded. */
  predicate Joins(r: Row, s: Row, sp: seq<nat>, trows: seq<Row>, tp: seq<nat>, twidth: nat)
    requires InBounds(sp, |s|) && Keyed(trows, tp)
  {
    || (exists t :: t in trows && KeysEqual(KeyOf(s, sp), KeyOf(t, tp)) && r == s + t)
    || ((forall t :: t in trows ==> !KeysEqual(KeyOf(s, sp), KeyOf(t, tp))) && r == s + NullRow(twidth))
  }

  /** Joined rows are as wide as the two tables side by side. */
  lemma {:induction false} LeftJoinWidth(srows: seq<Row>, sp: seq<nat>, trows: seq<Row>, tp: seq<nat>, swidth: nat, twidth: nat)
    requires Keyed(srows, sp) && Keyed(trows, tp)
    requires forall s :: s in srows ==> |s| == swidth
    requires forall t :: t in trows ==> |t| == twidth
    ensures forall j :: j in LeftJoin(srows, sp, trows, tp, twidth) ==> |j| == swidth + twidth
  {
    if srows != [] {
      LeftJoinWidth(srows[1..], sp, trows, tp, swidth, twidth);
      var m := Matching(KeyOf(srows[0], sp), trows, tp);
      assert forall k :: 0 <= k < |m| ==> m[k] in m;
    }
  }

  /** Every source row contributes at least one row, so the join is at least as long as the source. */
  lemma {:induction false} LeftJoinCoversSource(srows: seq<Row>, sp: seq<nat>, trows: seq<Row>, tp: seq<nat>, twidth: nat)
    requires Keyed(srows, sp) && Keyed(trows, tp)
    ensures |LeftJoin(srows, sp, trows, tp, twidth)| >= |srows|
    ensures forall s :: s in srows ==> exists r :: r in LeftJoin(srows, sp, trows, tp, twidth) && |s| <= |r| && r[..|s|] == s
  {
    if srows != [] {
      LeftJoinCoversSource(srows[1..], sp, trows, tp, twidth);
      JoinedForMeaning(srows[0], sp, trows, tp, twidth);
      var j0 := JoinedFor(srows[0], sp, trows, tp, twidth);
      assert j0[0] in j0;
      forall s | s in srows
        ensures exists r :: r in LeftJoin(srows, sp, trows, tp, twidth) && |s| <= |r| && r[..|s|] == s
      {
        if s == srows[0] {
          assert j0[0] in LeftJoin(srows, sp, trows, tp, twidth);
        } else {
          assert s in srows[1..];
        }
      }
    }
  }

  /** The rows of `joined` whose target key column (at `swidth + tk0`) is NULL, cut back to the source columns. */
  function NullTargetKey(joined: seq<Row>, swidth: nat, tk0: nat): (r: seq<Row>)
    requires forall j :: j in joined ==> swidth + tk0 < |j|
  {
    if joined == [] then []
    else (if joined[0][swidth + tk0].None? then [joined[0][..swidth]] else [])
         + NullTargetKey(joined[1..], swidth, tk0)
  }

  /**
   * `SELECT a.* FROM src AS a LEFT JOIN trg AS b ON (keys) WHERE b.k0 IS NULL`,
   * where k0 is the first key. With the roles of the two tables swapped it is
   * the only-in-target query.
   */
  function OnlyIn(src: Table, sp: seq<nat>, trg: Table, tp: seq<nat>): seq<Row>
    requires KeyedTable(src, sp) && KeyedTable(trg, tp) && |tp| > 0
  {
    LeftJoinWidth(src.rows, sp, trg.rows, tp, |src.columns|, |trg.columns|);
    NullTargetKey(LeftJoin(src.rows, sp, trg.rows, tp, |trg.columns|), |src.columns|, tp[0])
  }

  /** The source rows that no target row equals on all keys, in source order: the reference for OnlyIn. */
  function Unmatched(srows: seq<Row>, sp: seq<nat>, trows: seq<Row>, tp: seq<nat>): (u: seq<Row>)
    requires Keyed(srows, sp) && Keyed(trows, tp)
  {
    if srows == [] then []
    else (if Matching(KeyOf(srows[0], sp), trows, tp) == [] then [srows[0]] else [])
         + Unmatched(srows[1..], sp, trows, tp)
  }

  /** Filtering on the target key commutes with concatenation. */
  lemma {:induction false} NullTargetKeyAppend(a: seq<Row>, b: seq<Row>, swidth: nat, tk0: nat)
    requires forall j :: j in a + b ==> swidth + tk0 < |j|
    ensures NullTargetKey(a + b, swidth, tk0) == NullTargetKey(a, swidth, tk0) + NullTargetKey(b, swidth, tk0)
  {
    if a != [] {
      assert (a + b)[0] == a[0];
      assert (a + b)[1..] == a[1..] + b;
      NullTargetKeyAppend(a[1..], b, swidth, tk0);
    } else {
      assert a + b == b;
    }
  }

  /** The joined rows of one source row: a single source row when it is unmatched, none otherwise. */
  lemma {:induction false} NullTargetKeyOfJoinedFor(s: Row, sp: seq<nat>, trows: seq<Row>, tp: seq<nat>, twidth: nat)
    requires InBounds(sp, |s|) && Keyed(trows, tp) && |sp| == |tp| > 0
    requires tp[0] < twidth
    requires forall t :: t in trows ==> |t| == twidth
    ensures forall j :: j in JoinedFor(s, sp, trows, tp, twidth) ==> |s| + tp[0] < |j|
    ensures NullTargetKey(JoinedFor(s, sp, trows, tp, twidth), |s|, tp[0])
            == if Matching(KeyOf(s, sp), trows, tp) == [] then [s] else []
  {
    var m := Matching(KeyOf(s, sp), trows, tp);
    var j := JoinedFor(s, sp, trows, tp, twidth);
    assert forall k :: 0 <= k < |m| ==> m[k] in m;
    if m == [] {
      assert (s + NullRow(twidth))[..|s|] == s;
    } else {
      NullTargetKeyNone(m, s, sp, tp, trows);
    }
  }

  /** A source row paired with matching target rows never has a NULL target key. */
  lemma {:induction false} NullTargetKeyNone(m: seq<Row>, s: Row, sp: seq<nat>, tp: seq<nat>, trows: seq<Row>)
    requires InBounds(sp, |s|) && |sp| == |tp| > 0
    requires Keyed(trows, tp)
    requires forall t :: t in m ==> t in trows && KeysEqual(KeyOf(s, sp), KeyOf(t, tp))
    ensures forall k :: 0 <= k < |m| ==> |s| + tp[0] < |s + m[k]|
    ensures NullTargetKey(seq(|m|, k requires 0 <= k < |m| => s + m[k]), |s|, tp[0]) == []
  {
    assert forall k :: 0 <= k < |m| ==> m[k] in m;
    if m != [] {
      var t := m[0];
      assert KeyOf(t, tp)[0] == KeyOf(s, sp)[0];
      assert (s + t)[|s| + tp[0]] == t[tp[0]];
      assert seq(|m|, k requires 0 <= k < |m| => s + m[k])[1..] == seq(|m[1..]|, k requires 0 <= k < |m[1..]| => s + m[1..][k]);
      NullTargetKeyNone(m[1..], s, sp, tp, trows);
    }
  }

  /**
   * The SQL filter "first target key IS NULL" picks out exactly the source
   * rows without a key match, in source order and with their multiplicity.
   */
  lemma {:induction false} OnlyInIsUnmatched(src: Table, sp: seq<nat>, trg: Table, tp: seq<nat>)
    requires KeyedTable(src, sp) && KeyedTable(trg, tp) && |sp| == |tp| > 0
    ensures OnlyIn(src, sp, trg, tp) == Unmatched(src.rows, sp, trg.rows, tp)
  {
    LeftJoinWidth(src.rows, sp, trg.rows, tp, |src.columns|, |trg.columns|);
    OnlyInRows(src.rows, sp, trg.rows, tp, |src.columns|, |trg.columns|);
  }

  lemma {:induction false} OnlyInRows(srows: seq<Row>, sp: seq<nat>, trows: seq<Row>, tp: seq<nat>, swidth: nat, twidth: nat)
    requires Keyed(srows, sp) && Keyed(trows, tp) && |sp| == |tp| > 0
    requires tp[0] < twidth
    requires forall s :: s in srows ==> |s| == swidth
    requires forall t :: t in trows ==> |t| == twidth
    ensures forall j :: j in LeftJoin(srows, sp, trows, tp, twidth) ==> swidth + tp[0] < |j|
    ensures NullTargetKey(LeftJoin(srows, sp, trows, tp, twidth), swidth, tp[0]) == Unmatched(srows, sp, trows, tp)
  {
    LeftJoinWidth(srows, sp, trows, tp, swidth, twidth);
    if srows != [] {
      var s := srows[0];
      OnlyInRows(srows[1..], sp, trows, tp, swidth, twidth);
      NullTargetKeyOfJoinedFor(s, sp, trows, tp, twidth);
      NullTargetKeyAppend(JoinedFor(s, sp, trows, tp, twidth), LeftJoin(srows[1..], sp, trows, tp, twidth), swidth, tp[0]);
    }
  }

  /** Membership in Unmatched: a source row with no key match on the other side. */
  lemma {:induction false} UnmatchedMembers(srows: seq<Row>, sp: seq<nat>, trows: seq<Row>, tp: seq<nat>)
    requires Keyed(srows, sp) && Keyed(trows, tp)
    ensures IsSubsequence(Unmatched(srows, sp, trows, tp), srows)
    ensures forall s :: s in Unmatched(srows, sp, trows, tp) <==>
      s in srows && forall t :: t in trows ==> !KeysEqual(KeyOf(s, sp), KeyOf(t, tp))
  {
    if srows != [] {
      UnmatchedMembers(srows[1..], sp, trows, tp);
      var m := Matching(KeyOf(srows[0], sp), trows, tp);
      if m != [] {
        assert m[0] in m;
      }
      var rest := Unmatched(srows[1..], sp, trows, tp);
      SubsequenceCons(rest, srows);
      if m == [] {
        assert Unmatched(srows, sp, trows, tp) == [srows[0]] + rest;
      } else {
        assert Unmatched(srows, sp, trows, tp) == rest;
      }
    }
  }

  /** `SELECT COUNT(*) FROM src AS a JOIN trg AS b ON (keys)`: the inner-join size. */
  function KeyMatchedCount(srows: seq<Row>, sp: seq<nat>, trows: seq<Row>, tp: seq<nat>): nat
    requires Keyed(srows, sp) && Keyed(trows, tp)
  {
    if srows == [] then 0
    else |Matching(KeyOf(srows[0], sp), trows, tp)| + KeyMatchedCount(srows[1..], sp, trows, tp)
  }

  /** The left join holds the inner-join rows plus one row per unmatched source row. */
  lemma {:induction false} LeftJoinSize(srows: seq<Row>, sp: seq<nat>, trows: seq<Row>, tp: seq<nat>, twidth: nat)
    requires Keyed(srows, sp) && Keyed(trows, tp)
    ensures |LeftJoin(srows, sp, trows, tp, twidth)|
            == KeyMatchedCount(srows, sp, trows, tp) + |Unmatched(srows, sp, trows, tp)|
  {
    if srows != [] {
      LeftJoinSize(srows[1..], sp, trows, tp, twidth);
    }
  }
}
