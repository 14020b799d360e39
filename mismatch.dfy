/**
 * The mismatch report: which columns are compared, the record built for
 * each left-join row (a Python dict filled step by step) and the rule that
 * keeps a record only when some compared column differs.
 */
module Mismatch {
  import opened Wrappers
  import opened Lists
  import opened Tables
  import opened Dicts

  /** `[col for col in srcCols if col not in keys]`: the non-key source columns, in source order. */
  function CompareColumns(srcCols: seq<string>, keys: seq<string>): (cols: seq<string>)
    ensures forall c :: c in cols <==> c in srcCols && c !in keys
    ensures IsSubsequence(cols, srcCols)
    ensures NoDup(srcCols) ==> NoDup(cols)
  {
    if srcCols == [] then []
    else
      var rest := CompareColumns(srcCols[1..], keys);
      SubsequenceCons(rest, srcCols);
      if srcCols[0] !in keys then
        assert ([srcCols[0]] + rest)[1..] == rest;
        [srcCols[0]] + rest
      else rest
  }

  /** The dict `mismatched_columns`, keyed by report column name. */
  type Record = Dict<Cell>

  /** The dict key under which a differing column's source value is reported. */
  function ExpectedName(c: string): string {
    c + "_Expected"
  }

  /** The dict key under which a differing column's target value is reported. */
  function ActualName(c: string): string {
    c + "_Actual"
  }

  /** The value the loop reads on the target side (lines 106-109): None past the end of the joined row. */
  function TargetValue(row: Row, t: nat): Cell {
    if t < |row| then row[t] else None
  }

  /** Everything the record loop indexes lies inside every joined row. */
  predicate Indexable(row: Row, srcCols: seq<string>, keys: seq<string>, cols: seq<string>, srcIdx: seq<nat>, trgIdx: seq<nat>) {
    && (forall k :: k in keys ==> k in srcCols)
    && |srcCols| <= |row|
    && |srcIdx| == |cols| == |trgIdx|
    && InBounds(srcIdx, |row|)
  }

  /** `row[srcCols.index(k)]`: the value of source column `k` in a joined row. */
  function SourceValue(row: Row, srcCols: seq<string>, k: string): Cell
    requires k in srcCols && |srcCols| <= |row|
  {
    row[IndexOf(srcCols, k).value]
  }

  /** `for key in keys: d[key] = row[srcCols.index(key)]`, left to right. */
  function PutKeys(d: Record, row: Row, srcCols: seq<string>, keys: seq<string>): Record
    requires forall k :: k in keys ==> k in srcCols
    requires |srcCols| <= |row|
  {
    if keys == [] then d
    else
      var n := |keys| - 1;
      Put(PutKeys(d, row, srcCols, keys[..n]), keys[n], SourceValue(row, srcCols, keys[n]))
  }

  /** The loop over the compared columns, left to right: a differing column adds its Expected and Actual entries. */
  function PutDiffs(d: Record, row: Row, cols: seq<string>, srcIdx: seq<nat>, trgIdx: seq<nat>): Record
    requires |srcIdx| == |cols| == |trgIdx| && InBounds(srcIdx, |row|)
  {
    if cols == [] then d
    else
      var n := |cols| - 1;
      var d' := PutDiffs(d, row, cols[..n], srcIdx[..n], trgIdx[..n]);
      var sv, tv := row[srcIdx[n]], TargetValue(row, trgIdx[n]);
      if sv != tv then Put(Put(d', ExpectedName(cols[n]), sv), ActualName(cols[n]), tv) else d'
  }

  /** The dict `mismatched_columns` the loop builds for one joined row. */
  function MismatchRecord(row: Row, srcCols: seq<string>, keys: seq<string>, cols: seq<string>, srcIdx: seq<nat>, trgIdx: seq<nat>): Record
    requires Indexable(row, srcCols, keys, cols, srcIdx, trgIdx)
  {
    PutDiffs(PutKeys([], row, srcCols, keys), row, cols, srcIdx, trgIdx)
  }

  /** The record of every joined row, in join order. */
  function Records(joined: seq<Row>, srcCols: seq<string>, keys: seq<string>, cols: seq<string>, srcIdx: seq<nat>, trgIdx: seq<nat>): (rs: seq<Record>)
    requires forall row :: row in joined ==> Indexable(row, srcCols, keys, cols, srcIdx, trgIdx)
    ensures |rs| == |joined|
    ensures forall i :: 0 <= i < |joined| ==> rs[i] == MismatchRecord(joined[i], srcCols, keys, cols, srcIdx, trgIdx)
  {
    seq(|joined|, i requires 0 <= i < |joined| => MismatchRecord(joined[i], srcCols, keys, cols, srcIdx, trgIdx))
  }

  /** The records with more than `n` entries, in order: the test of line 114. */
  function Kept(rs: seq<Record>, n: nat): seq<Record> {
    if rs == [] then []
    else
      var m := |rs| - 1;
      Kept(rs[..m], n) + (if |rs[m]| > n then [rs[m]] else [])
  }

  /** The list `total_data_break`: the record of each joined row that has more entries than there are keys. */
  function Mismatches(joined: seq<Row>, srcCols: seq<string>, keys: seq<string>, cols: seq<string>, srcIdx: seq<nat>, trgIdx: seq<nat>): seq<Record>
    requires forall row :: row in joined ==> Indexable(row, srcCols, keys, cols, srcIdx, trgIdx)
  {
    Kept(Records(joined, srcCols, keys, cols, srcIdx, trgIdx), |keys|)
  }

  /** The filter keeps no more than it is given, and only records longer than `n`. */
  lemma {:induction false} KeptBounded(rs: seq<Record>, n: nat)
    ensures |Kept(rs, n)| <= |rs|
    ensures forall r :: r in Kept(rs, n) ==> r in rs && |r| > n
  {
    if rs != [] {
      var m := |rs| - 1;
      KeptBounded(rs[..m], n);
      assert forall r :: r in rs[..m] ==> r in rs;
      assert rs[m] in rs;
    }
  }

  /** The filter keeps every record longer than `n`. */
  lemma {:induction false} KeptComplete(rs: seq<Record>, n: nat, i: nat)
    requires i < |rs| && |rs[i]| > n
    ensures rs[i] in Kept(rs, n)
  {
    var m := |rs| - 1;
    if i < m {
      assert rs[..m][i] == rs[i];
      KeptComplete(rs[..m], n, i);
    }
  }

  /** The body of the mismatch loop for one joined row (lines 99-113): fill the dict with the keys, then the differences. */
  method BuildRecord(row: Row, srcCols: seq<string>, keys: seq<string>, cols: seq<string>, srcIdx: seq<nat>, trgIdx: seq<nat>)
    returns (mismatched: Record)
    requires Indexable(row, srcCols, keys, cols, srcIdx, trgIdx)
    ensures mismatched == MismatchRecord(row, srcCols, keys, cols, srcIdx, trgIdx)
  {
    mismatched := AssignKeys(row, srcCols, keys);
    mismatched := AssignDifferences(mismatched, row, cols, srcIdx, trgIdx);
  }

  /** The key loop of lines 100-102: each primary key gets its value from the source half of the row. */
  method AssignKeys(row: Row, srcCols: seq<string>, keys: seq<string>) returns (mismatched: Record)
    requires (forall k :: k in keys ==> k in srcCols) && |srcCols| <= |row|
    ensures mismatched == PutKeys([], row, srcCols, keys)
  {
    mismatched := [];
    var j := 0;
    while j < |keys|
      invariant 0 <= j <= |keys|
      invariant mismatched == PutKeys([], row, srcCols, keys[..j])
    {
      var keyIndex := IndexOf(srcCols, keys[j]).value;
      PutKeysStep(row, srcCols, keys, j);
      mismatched := Put(mismatched, keys[j], row[keyIndex]);
      j := j + 1;
    }
    assert keys[..j] == keys;
  }

  /** The column loop of lines 103-112: a differing column adds its Expected and Actual entries to `d`. */
  method AssignDifferences(d: Record, row: Row, cols: seq<string>, srcIdx: seq<nat>, trgIdx: seq<nat>) returns (mismatched: Record)
    requires |srcIdx| == |cols| == |trgIdx| && InBounds(srcIdx, |row|)
    ensures mismatched == PutDiffs(d, row, cols, srcIdx, trgIdx)
  {
    mismatched := d;
    var idx := 0;
    while idx < |cols|
      invariant 0 <= idx <= |cols|
      invariant mismatched == PutDiffs(d, row, cols[..idx], srcIdx[..idx], trgIdx[..idx])
    {
      var srcValue := row[srcIdx[idx]];
      var trgValue: Cell;
      if trgIdx[idx] < |row| {
        trgValue := row[trgIdx[idx]];
      } else {
        trgValue := None;
      }
      PutDiffsStep(d, row, cols, srcIdx, trgIdx, idx);
      if srcValue != trgValue {
        mismatched := Put(mismatched, ExpectedName(cols[idx]), srcValue);
        mismatched := Put(mismatched, ActualName(cols[idx]), trgValue);
      }
      idx := idx + 1;
    }
    assert cols[..idx] == cols && srcIdx[..idx] == srcIdx && trgIdx[..idx] == trgIdx;
  }

  /** One more key assigned: the dict of the first `j + 1` keys extends the dict of the first `j`. */
  lemma {:induction false} PutKeysStep(row: Row, srcCols: seq<string>, keys: seq<string>, j: nat)
    requires (forall k :: k in keys ==> k in srcCols) && |srcCols| <= |row| && j < |keys|
    ensures PutKeys([], row, srcCols, keys[..j + 1])
      == Put(PutKeys([], row, srcCols, keys[..j]), keys[j], SourceValue(row, srcCols, keys[j]))
  {
    assert keys[..j + 1][..j] == keys[..j];
  }

  /** One more compared column: a differing column adds its two entries to the dict of the columns before it. */
  lemma {:induction false} PutDiffsStep(d: Record, row: Row, cols: seq<string>, srcIdx: seq<nat>, trgIdx: seq<nat>, idx: nat)
    requires |srcIdx| == |cols| == |trgIdx| && InBounds(srcIdx, |row|) && idx < |cols|
    ensures var before := PutDiffs(d, row, cols[..idx], srcIdx[..idx], trgIdx[..idx]);
      var sv, tv := row[srcIdx[idx]], TargetValue(row, trgIdx[idx]);
      PutDiffs(d, row, cols[..idx + 1], srcIdx[..idx + 1], trgIdx[..idx + 1])
        == if sv != tv then Put(Put(before, ExpectedName(cols[idx]), sv), ActualName(cols[idx]), tv) else before
  {
    assert cols[..idx + 1][..idx] == cols[..idx];
    assert srcIdx[..idx + 1][..idx] == srcIdx[..idx];
    assert trgIdx[..idx + 1][..idx] == trgIdx[..idx];
  }

  /** The mismatch loop of lines 97-115, proved to build the list Mismatches describes. */
  method CollectMismatches(joined: seq<Row>, srcCols: seq<string>, keys: seq<string>, cols: seq<string>, srcIdx: seq<nat>, trgIdx: seq<nat>)
    returns (totalDataBreak: seq<Record>)
    requires forall row :: row in joined ==> Indexable(row, srcCols, keys, cols, srcIdx, trgIdx)
    ensures totalDataBreak == Mismatches(joined, srcCols, keys, cols, srcIdx, trgIdx)
  {
    ghost var rs := Records(joined, srcCols, keys, cols, srcIdx, trgIdx);
    totalDataBreak := [];
    var i := 0;
    while i < |joined|
      invariant 0 <= i <= |joined|
      invariant totalDataBreak == Kept(rs[..i], |keys|)
    {
      var row := joined[i];
      assert row in joined;
      var mismatched := BuildRecord(row, srcCols, keys, cols, srcIdx, trgIdx);
      assert rs[..i + 1][..i] == rs[..i];
      if |mismatched| > |keys| {
        totalDataBreak := totalDataBreak + [mismatched];
      }
      i := i + 1;
    }
    assert rs[..i] == rs;
  }

  /** Compared column `i` has different source and target values on `row`. */
  predicate Differs(row: Row, srcIdx: seq<nat>, trgIdx: seq<nat>, i: nat)
    requires i < |srcIdx| && i < |trgIdx| && InBounds(srcIdx, |row|)
  {
    row[srcIdx[i]] != TargetValue(row, trgIdx[i])
  }

  /** At most one record per joined row, and each kept record has more entries than there are keys. */
  lemma {:induction false} MismatchesBounded(joined: seq<Row>, srcCols: seq<string>, keys: seq<string>, cols: seq<string>, srcIdx: seq<nat>, trgIdx: seq<nat>)
    requires forall row :: row in joined ==> Indexable(row, srcCols, keys, cols, srcIdx, trgIdx)
    ensures |Mismatches(joined, srcCols, keys, cols, srcIdx, trgIdx)| <= |joined|
    ensures forall rec :: rec in Mismatches(joined, srcCols, keys, cols, srcIdx, trgIdx) ==>
      |rec| > |keys| && exists row :: row in joined && rec == MismatchRecord(row, srcCols, keys, cols, srcIdx, trgIdx)
  {
    var rs := Records(joined, srcCols, keys, cols, srcIdx, trgIdx);
    KeptBounded(rs, |keys|);
    forall rec | rec in Mismatches(joined, srcCols, keys, cols, srcIdx, trgIdx)
      ensures |rec| > |keys| && exists row :: row in joined && rec == MismatchRecord(row, srcCols, keys, cols, srcIdx, trgIdx)
    {
      var i :| 0 <= i < |rs| && rs[i] == rec;
      assert joined[i] in joined;
    }
  }

  /** Every joined row whose record has more entries than there are keys contributes that record. */
  lemma {:induction false} MismatchesComplete(joined: seq<Row>, srcCols: seq<string>, keys: seq<string>, cols: seq<string>, srcIdx: seq<nat>, trgIdx: seq<nat>)
    requires forall row :: row in joined ==> Indexable(row, srcCols, keys, cols, srcIdx, trgIdx)
    ensures forall row :: row in joined && |MismatchRecord(row, srcCols, keys, cols, srcIdx, trgIdx)| > |keys| ==>
      MismatchRecord(row, srcCols, keys, cols, srcIdx, trgIdx) in Mismatches(joined, srcCols, keys, cols, srcIdx, trgIdx)
  {
    var rs := Records(joined, srcCols, keys, cols, srcIdx, trgIdx);
    forall row | row in joined && |MismatchRecord(row, srcCols, keys, cols, srcIdx, trgIdx)| > |keys|
      ensures MismatchRecord(row, srcCols, keys, cols, srcIdx, trgIdx) in Mismatches(joined, srcCols, keys, cols, srcIdx, trgIdx)
    {
      var i :| 0 <= i < |joined| && joined[i] == row;
      KeptComplete(rs, |keys|, i);
    }
  }

  /** A joined row on which some compared column differs has its record among the data breaks. */
  lemma {:induction false} RecordReported(joined: seq<Row>, srcCols: seq<string>, keys: seq<string>, cols: seq<string>, srcIdx: seq<nat>, trgIdx: seq<nat>, row: Row, i: nat)
    requires forall r :: r in joined ==> Indexable(r, srcCols, keys, cols, srcIdx, trgIdx)
    requires NoClash(keys, cols) && row in joined && Indexable(row, srcCols, keys, cols, srcIdx, trgIdx)
    requires i < |cols| && Differs(row, srcIdx, trgIdx, i)
    ensures MismatchRecord(row, srcCols, keys, cols, srcIdx, trgIdx) in Mismatches(joined, srcCols, keys, cols, srcIdx, trgIdx)
  {
    MismatchRecordMeaning(row, srcCols, keys, cols, srcIdx, trgIdx);
    MismatchesComplete(joined, srcCols, keys, cols, srcIdx, trgIdx);
  }

  /** Filling in the keys adds at most one entry per key. */
  lemma {:induction false} PutKeysSize(d: Record, row: Row, srcCols: seq<string>, keys: seq<string>)
    requires forall k :: k in keys ==> k in srcCols
    requires |srcCols| <= |row|
    ensures |PutKeys(d, row, srcCols, keys)| <= |d| + |keys|
  {
    if keys != [] {
      var n := |keys| - 1;
      PutKeysSize(d, row, srcCols, keys[..n]);
    }
  }

  /** Where no compared column differs, the difference loop leaves the dict as it was. */
  lemma {:induction false} PutDiffsNone(d: Record, row: Row, cols: seq<string>, srcIdx: seq<nat>, trgIdx: seq<nat>)
    requires |srcIdx| == |cols| == |trgIdx| && InBounds(srcIdx, |row|)
    requires forall i :: 0 <= i < |cols| ==> !Differs(row, srcIdx, trgIdx, i)
    ensures PutDiffs(d, row, cols, srcIdx, trgIdx) == d
  {
    if cols != [] {
      var n := |cols| - 1;
      assert !Differs(row, srcIdx, trgIdx, n);
      PrefixDiffers(row, srcIdx, trgIdx, n);
      PutDiffsNone(d, row, cols[..n], srcIdx[..n], trgIdx[..n]);
    }
  }

  /**
   * No-diff collapse: a joined row on which every compared column agrees
   * yields a record of at most the key entries, so it is never reported.
   */
  lemma {:induction false} AgreeingRowDropped(row: Row, srcCols: seq<string>, keys: seq<string>, cols: seq<string>, srcIdx: seq<nat>, trgIdx: seq<nat>)
    requires Indexable(row, srcCols, keys, cols, srcIdx, trgIdx)
    requires forall i :: 0 <= i < |cols| ==> !Differs(row, srcIdx, trgIdx, i)
    ensures |MismatchRecord(row, srcCols, keys, cols, srcIdx, trgIdx)| <= |keys|
  {
    PutKeysSize([], row, srcCols, keys);
    PutDiffsNone(PutKeys([], row, srcCols, keys), row, cols, srcIdx, trgIdx);
  }

  /** The key entries as intended: each primary key with its value on the source side. */
  function KeyEntries(row: Row, srcCols: seq<string>, keys: seq<string>): (e: Record)
    requires forall k :: k in keys ==> k in srcCols
    requires |srcCols| <= |row|
    ensures Names(e) == keys
  {
    seq(|keys|, i requires 0 <= i < |keys| => (keys[i], SourceValue(row, srcCols, keys[i])))
  }

  /** The difference entries as intended: an Expected/Actual pair for each differing column, in column order. */
  function DiffEntries(row: Row, cols: seq<string>, srcIdx: seq<nat>, trgIdx: seq<nat>): Record
    requires |srcIdx| == |cols| == |trgIdx| && InBounds(srcIdx, |row|)
  {
    if cols == [] then []
    else
      var n := |cols| - 1;
      DiffEntries(row, cols[..n], srcIdx[..n], trgIdx[..n]) + DiffTail(row, cols[n], srcIdx[n], trgIdx[n])
  }

  /** The entries one compared column contributes: its Expected/Actual pair when its two sides differ. */
  function DiffTail(row: Row, cn: string, si: nat, ti: nat): Record
    requires si < |row|
  {
    if row[si] != TargetValue(row, ti) then [(ExpectedName(cn), row[si]), (ActualName(cn), TargetValue(row, ti))] else []
  }

  /** The names one compared column contributes. */
  lemma {:induction false} DiffTailNames(row: Row, cn: string, si: nat, ti: nat)
    requires si < |row|
    ensures Names(DiffTail(row, cn, si, ti)) == if row[si] != TargetValue(row, ti) then [ExpectedName(cn), ActualName(cn)] else []
  {
  }

  /** Keys and compared columns that cannot collide as dict keys. */
  predicate NoClash(keys: seq<string>, cols: seq<string>) {
    && NoDup(keys)
    && NoDup(cols)
    && forall k, c :: k in keys && c in cols ==> k != ExpectedName(c) && k != ActualName(c)
  }

  /** The suffixes keep reported names apart. */
  lemma {:induction false} NameSuffixes(a: string, b: string)
    ensures ExpectedName(a) != ActualName(b)
    ensures ExpectedName(a) == ExpectedName(b) ==> a == b
    ensures ActualName(a) == ActualName(b) ==> a == b
  {
    var x, y := ExpectedName(a), ActualName(b);
    assert x[|x| - 1] == 'd' && y[|y| - 1] == 'l';
    if ExpectedName(a) == ExpectedName(b) {
      assert a == ExpectedName(a)[..|a|] && b == ExpectedName(b)[..|b|];
    }
    if ActualName(a) == ActualName(b) {
      assert a == ActualName(a)[..|a|] && b == ActualName(b)[..|b|];
    }
  }

  /** Restricting the columns to a prefix does not change which of them differ. */
  lemma {:induction false} PrefixDiffers(row: Row, srcIdx: seq<nat>, trgIdx: seq<nat>, n: nat)
    requires n <= |srcIdx| && n <= |trgIdx| && InBounds(srcIdx, |row|)
    ensures InBounds(srcIdx[..n], |row|)
    ensures forall i :: 0 <= i < n ==> Differs(row, srcIdx[..n], trgIdx[..n], i) == Differs(row, srcIdx, trgIdx, i)
  {
  }

  /** DiffEntries is empty exactly when no compared column differs. */
  lemma {:induction false} DiffEntriesEmpty(row: Row, cols: seq<string>, srcIdx: seq<nat>, trgIdx: seq<nat>)
    requires |srcIdx| == |cols| == |trgIdx| && InBounds(srcIdx, |row|)
    ensures |DiffEntries(row, cols, srcIdx, trgIdx)| == 0 <==> forall i :: 0 <= i < |cols| ==> !Differs(row, srcIdx, trgIdx, i)
  {
    if cols != [] {
      var n := |cols| - 1;
      var c, s, t := cols[..n], srcIdx[..n], trgIdx[..n];
      PrefixDiffers(row, srcIdx, trgIdx, n);
      DiffEntriesEmpty(row, c, s, t);
      var tail := DiffTail(row, cols[n], srcIdx[n], trgIdx[n]);
      assert DiffEntries(row, cols, srcIdx, trgIdx) == DiffEntries(row, c, s, t) + tail;
      assert |tail| == 0 <==> !Differs(row, srcIdx, trgIdx, n);
      if forall i :: 0 <= i < |cols| ==> !Differs(row, srcIdx, trgIdx, i) {
        assert forall i :: 0 <= i < n ==> !Differs(row, s, t, i);
      }
    }
  }

  /** A differing column contributes its source value as Expected and its target value as Actual. */
  lemma {:induction false} DiffEntriesPairs(row: Row, cols: seq<string>, srcIdx: seq<nat>, trgIdx: seq<nat>, i: nat)
    requires |srcIdx| == |cols| == |trgIdx| && InBounds(srcIdx, |row|)
    requires i < |cols| && Differs(row, srcIdx, trgIdx, i)
    ensures (ExpectedName(cols[i]), row[srcIdx[i]]) in DiffEntries(row, cols, srcIdx, trgIdx)
    ensures (ActualName(cols[i]), TargetValue(row, trgIdx[i])) in DiffEntries(row, cols, srcIdx, trgIdx)
  {
    var n := |cols| - 1;
    if i < n {
      PrefixDiffers(row, srcIdx, trgIdx, n);
      DiffEntriesPairs(row, cols[..n], srcIdx[..n], trgIdx[..n], i);
    }
  }

  /** A column's Expected entry is present exactly when that column differs. */
  lemma {:induction false} DiffEntriesExpected(row: Row, cols: seq<string>, srcIdx: seq<nat>, trgIdx: seq<nat>, i: nat)
    requires |srcIdx| == |cols| == |trgIdx| && InBounds(srcIdx, |row|)
    requires NoDup(cols) && i < |cols|
    ensures ExpectedName(cols[i]) in Names(DiffEntries(row, cols, srcIdx, trgIdx)) <==> Differs(row, srcIdx, trgIdx, i)
  {
    var n := |cols| - 1;
    var c, s, t := cols[..n], srcIdx[..n], trgIdx[..n];
    var de := DiffEntries(row, c, s, t);
    PrefixDiffers(row, srcIdx, trgIdx, n);
    var tail := DiffTail(row, cols[n], srcIdx[n], trgIdx[n]);
    assert DiffEntries(row, cols, srcIdx, trgIdx) == de + tail;
    NamesAppend(de, tail);
    DiffTailNames(row, cols[n], srcIdx[n], trgIdx[n]);
    NameSuffixes(cols[i], cols[n]);
    if i < n {
      assert NoDup(c);
      DiffEntriesExpected(row, c, s, t, i);
      assert cols[i] != cols[n];
    } else {
      assert cols[n] !in c;
      DiffNamesAvoid(row, c, s, t, cols[n]);
      NotInNames(de, ExpectedName(cols[n]));
      if Differs(row, srcIdx, trgIdx, n) {
        assert Names(tail)[0] == ExpectedName(cols[n]);
      } else {
        assert Names(tail) == [];
      }
    }
  }

  /** The entries for other columns never carry the names of column `cn`. */
  lemma {:induction false} DiffNamesAvoid(row: Row, cols: seq<string>, srcIdx: seq<nat>, trgIdx: seq<nat>, cn: string)
    requires |srcIdx| == |cols| == |trgIdx| && InBounds(srcIdx, |row|)
    requires cn !in cols
    ensures ExpectedName(cn) !in Names(DiffEntries(row, cols, srcIdx, trgIdx))
    ensures ActualName(cn) !in Names(DiffEntries(row, cols, srcIdx, trgIdx))
  {
    if cols != [] {
      var n := |cols| - 1;
      var c, s, t := cols[..n], srcIdx[..n], trgIdx[..n];
      DiffNamesAvoid(row, c, s, t, cn);
      NameSuffixes(cols[n], cn);
      NameSuffixes(cn, cols[n]);
      var tail := DiffTail(row, cols[n], srcIdx[n], trgIdx[n]);
      assert DiffEntries(row, cols, srcIdx, trgIdx) == DiffEntries(row, c, s, t) + tail;
      NamesAppend(DiffEntries(row, c, s, t), tail);
      DiffTailNames(row, cols[n], srcIdx[n], trgIdx[n]);
      assert ExpectedName(cn) !in Names(tail) && ActualName(cn) !in Names(tail);
    }
  }

  /** No name in `d` is one a compared column is reported under. */
  predicate FreshFor(d: Record, cols: seq<string>) {
    forall c :: c in cols ==> ExpectedName(c) !in Names(d) && ActualName(c) !in Names(d)
  }

  /** With fresh names the dict assignments only append: the loop builds `d` followed by DiffEntries. */
  lemma {:induction false} PutDiffsFresh(d: Record, row: Row, cols: seq<string>, srcIdx: seq<nat>, trgIdx: seq<nat>)
    requires |srcIdx| == |cols| == |trgIdx| && InBounds(srcIdx, |row|)
    requires NoDup(cols) && FreshFor(d, cols)
    ensures PutDiffs(d, row, cols, srcIdx, trgIdx) == d + DiffEntries(row, cols, srcIdx, trgIdx)
  {
    if cols != [] {
      var n := |cols| - 1;
      assert NoDup(cols[..n]);
      assert FreshFor(d, cols[..n]) by {
        assert forall x :: x in cols[..n] ==> x in cols;
      }
      PutDiffsFresh(d, row, cols[..n], srcIdx[..n], trgIdx[..n]);
      PrefixDiffers(row, srcIdx, trgIdx, n);
      assert cols[n] in cols && cols[n] !in cols[..n];
      PutDiffsFreshStep(d, row, cols, srcIdx, trgIdx);
    }
  }

  /** The step of PutDiffsFresh: if the columns before the last append, so does the last one. */
  lemma {:induction false} PutDiffsFreshStep(d: Record, row: Row, cols: seq<string>, srcIdx: seq<nat>, trgIdx: seq<nat>)
    requires |srcIdx| == |cols| == |trgIdx| && InBounds(srcIdx, |row|) && cols != []
    requires var n := |cols| - 1;
      && cols[n] !in cols[..n]
      && ExpectedName(cols[n]) !in Names(d) && ActualName(cols[n]) !in Names(d)
      && InBounds(srcIdx[..n], |row|)
      && PutDiffs(d, row, cols[..n], srcIdx[..n], trgIdx[..n]) == d + DiffEntries(row, cols[..n], srcIdx[..n], trgIdx[..n])
    ensures PutDiffs(d, row, cols, srcIdx, trgIdx) == d + DiffEntries(row, cols, srcIdx, trgIdx)
  {
    var n := |cols| - 1;
    var c, s, t := cols[..n], srcIdx[..n], trgIdx[..n];
    var cn := cols[n];
    var de := DiffEntries(row, c, s, t);
    var tail := DiffTail(row, cn, srcIdx[n], trgIdx[n]);
    DiffNamesAvoid(row, c, s, t, cn);
    NamesAppend(d, de);
    PutColumnFresh(d + de, row, cn, srcIdx[n], trgIdx[n]);
    AppendAssoc(PutDiffs(d, row, cols, srcIdx, trgIdx), DiffEntries(row, cols, srcIdx, trgIdx), d, de, tail);
  }

  /** One column's assignments on a dict without its two names append that column's entries. */
  lemma {:induction false} PutColumnFresh(x: Record, row: Row, cn: string, si: nat, ti: nat)
    requires si < |row| && ExpectedName(cn) !in Names(x) && ActualName(cn) !in Names(x)
    ensures (if row[si] != TargetValue(row, ti) then Put(Put(x, ExpectedName(cn), row[si]), ActualName(cn), TargetValue(row, ti)) else x)
      == x + DiffTail(row, cn, si, ti)
  {
    if row[si] != TargetValue(row, ti) {
      NameSuffixes(cn, cn);
      PutPairAppends(x, ExpectedName(cn), row[si], ActualName(cn), TargetValue(row, ti));
    }
  }

  /** With distinct keys the key loop only appends: it builds KeyEntries. */
  lemma {:induction false} PutKeysFresh(row: Row, srcCols: seq<string>, keys: seq<string>)
    requires forall k :: k in keys ==> k in srcCols
    requires |srcCols| <= |row|
    requires NoDup(keys)
    ensures PutKeys([], row, srcCols, keys) == KeyEntries(row, srcCols, keys)
  {
    if keys != [] {
      var n := |keys| - 1;
      assert NoDup(keys[..n]);
      PutKeysFresh(row, srcCols, keys[..n]);
      assert keys[n] !in keys[..n];
      var prev := KeyEntries(row, srcCols, keys[..n]);
      var entry := (keys[n], SourceValue(row, srcCols, keys[n]));
      assert Names(prev) == keys[..n];
      assert PutKeys([], row, srcCols, keys) == Put(prev, entry.0, entry.1);
      KeyEntriesSnoc(row, srcCols, keys);
    }
  }

  lemma {:induction false} KeyEntriesSnoc(row: Row, srcCols: seq<string>, keys: seq<string>)
    requires forall k :: k in keys ==> k in srcCols
    requires |srcCols| <= |row| && keys != []
    ensures var n := |keys| - 1;
      KeyEntries(row, srcCols, keys) == KeyEntries(row, srcCols, keys[..n]) + [(keys[n], SourceValue(row, srcCols, keys[n]))]
  {
    var n := |keys| - 1;
    var front := keys[..n];
    assert forall k :: k in front ==> k in keys;
    var a := KeyEntries(row, srcCols, keys);
    var b := KeyEntries(row, srcCols, front) + [(keys[n], SourceValue(row, srcCols, keys[n]))];
    forall i | 0 <= i < |a|
      ensures a[i] == b[i]
    {
      if i < n {
        assert front[i] == keys[i];
      }
    }
  }

  /** When key and column names cannot collide, the record is the key entries followed by the difference entries. */
  lemma {:induction false} MismatchRecordSplit(row: Row, srcCols: seq<string>, keys: seq<string>, cols: seq<string>, srcIdx: seq<nat>, trgIdx: seq<nat>)
    requires Indexable(row, srcCols, keys, cols, srcIdx, trgIdx)
    requires NoClash(keys, cols)
    ensures MismatchRecord(row, srcCols, keys, cols, srcIdx, trgIdx)
            == KeyEntries(row, srcCols, keys) + DiffEntries(row, cols, srcIdx, trgIdx)
  {
    PutKeysFresh(row, srcCols, keys);
    DiffsAfterKeys(row, srcCols, keys, cols, srcIdx, trgIdx);
  }

  /** Starting from the key entries, the difference loop appends DiffEntries. */
  lemma {:induction false} DiffsAfterKeys(row: Row, srcCols: seq<string>, keys: seq<string>, cols: seq<string>, srcIdx: seq<nat>, trgIdx: seq<nat>)
    requires Indexable(row, srcCols, keys, cols, srcIdx, trgIdx)
    requires NoClash(keys, cols)
    ensures PutDiffs(KeyEntries(row, srcCols, keys), row, cols, srcIdx, trgIdx)
            == KeyEntries(row, srcCols, keys) + DiffEntries(row, cols, srcIdx, trgIdx)
  {
    var ke := KeyEntries(row, srcCols, keys);
    assert FreshFor(ke, cols) by {
      assert Names(ke) == keys;
    }
    PutDiffsFresh(ke, row, cols, srcIdx, trgIdx);
  }

  /** The intended record, key entries then difference entries, read entry by entry. */
  lemma {:induction false} IntendedRecordMeaning(row: Row, srcCols: seq<string>, keys: seq<string>, cols: seq<string>, srcIdx: seq<nat>, trgIdx: seq<nat>)
    requires Indexable(row, srcCols, keys, cols, srcIdx, trgIdx)
    requires NoClash(keys, cols)
    ensures var rec := KeyEntries(row, srcCols, keys) + DiffEntries(row, cols, srcIdx, trgIdx);
      && |keys| <= |rec|
      && (forall i :: 0 <= i < |keys| ==> rec[i] == (keys[i], SourceValue(row, srcCols, keys[i])))
      && (forall i :: 0 <= i < |cols| ==> (ExpectedName(cols[i]) in Names(rec) <==> Differs(row, srcIdx, trgIdx, i)))
      && (forall i :: 0 <= i < |cols| && Differs(row, srcIdx, trgIdx, i) ==>
            (ExpectedName(cols[i]), row[srcIdx[i]]) in rec && (ActualName(cols[i]), TargetValue(row, trgIdx[i])) in rec)
      && (|rec| > |keys| <==> exists i :: 0 <= i < |cols| && Differs(row, srcIdx, trgIdx, i))
  {
    var ke := KeyEntries(row, srcCols, keys);
    var de := DiffEntries(row, cols, srcIdx, trgIdx);
    NamesAppend(ke, de);
    DiffEntriesEmpty(row, cols, srcIdx, trgIdx);
    forall i | 0 <= i < |cols|
      ensures ExpectedName(cols[i]) in Names(ke + de) <==> Differs(row, srcIdx, trgIdx, i)
    {
      assert cols[i] in cols;
      assert ExpectedName(cols[i]) !in keys;
      DiffEntriesExpected(row, cols, srcIdx, trgIdx, i);
    }
    forall i | 0 <= i < |cols| && Differs(row, srcIdx, trgIdx, i)
      ensures (ExpectedName(cols[i]), row[srcIdx[i]]) in ke + de
      ensures (ActualName(cols[i]), TargetValue(row, trgIdx[i])) in ke + de
    {
      DiffEntriesPairs(row, cols, srcIdx, trgIdx, i);
    }
  }

  /**
   * The record of a joined row, when key names and compared-column names
   * cannot collide: it starts with every key and its source value, then
   * holds an Expected/Actual pair for exactly the compared columns whose
   * source and target values differ, and it is kept exactly when some
   * compared column differs.
   */
  lemma {:induction false} MismatchRecordMeaning(row: Row, srcCols: seq<string>, keys: seq<string>, cols: seq<string>, srcIdx: seq<nat>, trgIdx: seq<nat>)
    requires Indexable(row, srcCols, keys, cols, srcIdx, trgIdx)
    requires NoClash(keys, cols)
    ensures var rec := MismatchRecord(row, srcCols, keys, cols, srcIdx, trgIdx);
      && |keys| <= |rec|
      && (forall i :: 0 <= i < |keys| ==> rec[i] == (keys[i], SourceValue(row, srcCols, keys[i])))
      && (forall i :: 0 <= i < |cols| ==> (ExpectedName(cols[i]) in Names(rec) <==> Differs(row, srcIdx, trgIdx, i)))
      && (forall i :: 0 <= i < |cols| && Differs(row, srcIdx, trgIdx, i) ==>
            (ExpectedName(cols[i]), row[srcIdx[i]]) in rec && (ActualName(cols[i]), TargetValue(row, trgIdx[i])) in rec)
      && (|rec| > |keys| <==> exists i :: 0 <= i < |cols| && Differs(row, srcIdx, trgIdx, i))
  {
    MismatchRecordSplit(row, srcCols, keys, cols, srcIdx, trgIdx);
    IntendedRecordMeaning(row, srcCols, keys, cols, srcIdx, trgIdx);
  }

  /**
   * Column `cn`, whose source value is `sv` and target value `tv`, is
   * reported in `rec` exactly when the two differ, and then with `sv` as
   * Expected and `tv` as Actual.
   */
  predicate ReportsColumn(rec: Record, cn: string, sv: Cell, tv: Cell) {
    && (ExpectedName(cn) in Names(rec) <==> sv != tv)
    && (sv != tv ==> (ExpectedName(cn), sv) in rec && (ActualName(cn), tv) in rec)
  }

  /** One compared column of the record: named exactly when it differs, and then with both of its values. */
  lemma {:induction false} MismatchRecordColumn(row: Row, srcCols: seq<string>, keys: seq<string>, cols: seq<string>, srcIdx: seq<nat>, trgIdx: seq<nat>, i: nat)
    requires Indexable(row, srcCols, keys, cols, srcIdx, trgIdx)
    requires NoClash(keys, cols) && i < |cols|
    ensures ReportsColumn(MismatchRecord(row, srcCols, keys, cols, srcIdx, trgIdx), cols[i], row[srcIdx[i]], TargetValue(row, trgIdx[i]))
  {
    MismatchRecordSplit(row, srcCols, keys, cols, srcIdx, trgIdx);
    IntendedRecordColumn(row, srcCols, keys, cols, srcIdx, trgIdx, i);
  }

  /** One compared column of the intended record, key entries then difference entries. */
  lemma {:induction false} IntendedRecordColumn(row: Row, srcCols: seq<string>, keys: seq<string>, cols: seq<string>, srcIdx: seq<nat>, trgIdx: seq<nat>, i: nat)
    requires Indexable(row, srcCols, keys, cols, srcIdx, trgIdx)
    requires NoClash(keys, cols) && i < |cols|
    ensures ReportsColumn(KeyEntries(row, srcCols, keys) + DiffEntries(row, cols, srcIdx, trgIdx), cols[i], row[srcIdx[i]], TargetValue(row, trgIdx[i]))
  {
    var ke, de := KeyEntries(row, srcCols, keys), DiffEntries(row, cols, srcIdx, trgIdx);
    NamesAppend(ke, de);
    assert cols[i] in cols;
    assert ExpectedName(cols[i]) !in keys;
    DiffEntriesExpected(row, cols, srcIdx, trgIdx, i);
    if Differs(row, srcIdx, trgIdx, i) {
      DiffEntriesPairs(row, cols, srcIdx, trgIdx, i);
    }
  }

  /** The record outgrows the key list exactly when some compared column differs. */
  lemma {:induction false} MismatchRecordKept(row: Row, srcCols: seq<string>, keys: seq<string>, cols: seq<string>, srcIdx: seq<nat>, trgIdx: seq<nat>)
    requires Indexable(row, srcCols, keys, cols, srcIdx, trgIdx)
    requires NoClash(keys, cols)
    ensures |MismatchRecord(row, srcCols, keys, cols, srcIdx, trgIdx)| > |keys|
      <==> exists i :: 0 <= i < |cols| && Differs(row, srcIdx, trgIdx, i)
  {
    MismatchRecordSplit(row, srcCols, keys, cols, srcIdx, trgIdx);
    DiffEntriesEmpty(row, cols, srcIdx, trgIdx);
  }

  /**
   * An unmatched source row is joined to NULLs, so every compared column
   * whose source value is not NULL differs, with a None target value.
   */
  lemma {:induction false} NullPaddedRowDiffers(s: Row, twidth: nat, srcCols: seq<string>, cols: seq<string>, srcIdx: seq<nat>, trgIdx: seq<nat>)
    requires |s| == |srcCols| && |srcIdx| == |cols| == |trgIdx|
    requires InBounds(srcIdx, |srcCols|)
    requires forall i :: 0 <= i < |trgIdx| ==> |srcCols| <= trgIdx[i]
    ensures InBounds(srcIdx, |s + NullRow(twidth)|)
    ensures forall i :: 0 <= i < |cols| ==>
      && TargetValue(s + NullRow(twidth), trgIdx[i]) == None
      && (Differs(s + NullRow(twidth), srcIdx, trgIdx, i) <==> s[srcIdx[i]].Some?)
  {
    var row := s + NullRow(twidth);
    forall i | 0 <= i < |cols|
      ensures TargetValue(row, trgIdx[i]) == None && row[srcIdx[i]] == s[srcIdx[i]]
    {
    }
  }
}
