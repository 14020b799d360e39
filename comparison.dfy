/**
 * `run_data_comparison` once both tables are loaded: the checks that make
 * the queries fail, the five derived result sets and the summary counts.
 */
module Comparison {
  import opened Wrappers
  import opened Lists
  import opened Tables
  import opened Dicts
  import opened Queries
  import opened Duplicates
  import opened Mismatch

  datatype Side = Source | Target

  /** Why a comparison stops before producing any result. */
  datatype CompareError =
    | EmptyKeyList                          // `ON ()`: the key condition is empty and the join query is rejected
    | MissingKeyColumn(key: string, side: Side)   // the join refers to a key column the table lacks
    | MissingTargetColumn(column: string)   // `columns_trg_names.index(col)` raises ValueError (line 94)

  /** The dict `summary_data` of lines 196-204. */
  datatype Summary = Summary(
    sourceTotal: nat,
    targetTotal: nat,
    totalDataBreaks: nat,
    onlyInSource: nat,
    onlyInTarget: nat,
    sourceKeyDuplicate: nat,
    targetKeyDuplicate: nat)

  /** Everything one run computes; `totalKeyMatched` is computed but not written out. */
  datatype Report = Report(
    totalDataBreak: seq<Record>,
    onlyInSource: seq<Row>,
    onlyInTarget: seq<Row>,
    sourceKeyDuplicate: seq<Row>,
    targetKeyDuplicate: seq<Row>,
    totalKeyMatched: nat,
    summary: Summary)

  /** The positions of `keys` among a table's columns, once they are known to be there. */
  function KeyPositions(columns: seq<string>, keys: seq<string>): (pos: seq<nat>)
    requires forall k :: k in keys ==> k in columns
    ensures |pos| == |keys| && InBounds(pos, |columns|)
  {
    Positions(columns, keys).value
  }

  /** The key tuple of a row of a table. */
  function KeyTuple(r: Row, columns: seq<string>, keys: seq<string>): seq<Cell>
    requires |r| == |columns| && forall k :: k in keys ==> k in columns
  {
    KeyOf(r, KeyPositions(columns, keys))
  }

  /** `trg_indices` (line 94): each target position shifted past the source half of a joined row. */
  function Shifted(tq: seq<nat>, offset: nat): (r: seq<nat>)
    ensures |r| == |tq|
    ensures forall i :: 0 <= i < |tq| ==> r[i] == tq[i] + offset
  {
    seq(|tq|, i requires 0 <= i < |tq| => tq[i] + offset)
  }

  /** The checks have passed: every key is on both sides and every compared column is in the target. */
  predicate Checked(src: ValidTable, trg: ValidTable, keys: seq<string>) {
    && keys != []
    && (forall k :: k in keys ==> k in src.columns && k in trg.columns)
    && (forall c :: c in CompareColumns(src.columns, keys) ==> c in trg.columns)
  }

  /** `total_data_break_data`: the left join of the source to the target on all keys. */
  function Joined(src: ValidTable, trg: ValidTable, keys: seq<string>): (j: seq<Row>)
    requires Checked(src, trg, keys)
    ensures forall r :: r in j ==> |r| == |src.columns| + |trg.columns|
  {
    var sp, tp := KeyPositions(src.columns, keys), KeyPositions(trg.columns, keys);
    LeftJoinWidth(src.rows, sp, trg.rows, tp, |src.columns|, |trg.columns|);
    LeftJoin(src.rows, sp, trg.rows, tp, |trg.columns|)
  }

  /** `src_indices`: where each compared column sits in a source row. */
  function SourceIndices(src: ValidTable, trg: ValidTable, keys: seq<string>): (r: seq<nat>)
    requires Checked(src, trg, keys)
    ensures |r| == |CompareColumns(src.columns, keys)| && InBounds(r, |src.columns|)
  {
    KeyPositions(src.columns, CompareColumns(src.columns, keys))
  }

  /** `trg_indices`: where each compared column sits in the target half of a joined row. */
  function TargetIndices(src: ValidTable, trg: ValidTable, keys: seq<string>): (r: seq<nat>)
    requires Checked(src, trg, keys)
    ensures |r| == |CompareColumns(src.columns, keys)|
    ensures forall i :: 0 <= i < |r| ==> |src.columns| <= r[i] < |src.columns| + |trg.columns|
  {
    Shifted(KeyPositions(trg.columns, CompareColumns(src.columns, keys)), |src.columns|)
  }

  /** The record loop can index every joined row it is given. */
  lemma {:induction false} JoinedIndexable(src: ValidTable, trg: ValidTable, keys: seq<string>)
    requires Checked(src, trg, keys)
    ensures forall row :: row in Joined(src, trg, keys) ==>
      Indexable(row, src.columns, keys, CompareColumns(src.columns, keys), SourceIndices(src, trg, keys), TargetIndices(src, trg, keys))
  {
  }

  /** The results of a comparison whose checks passed. */
  function Outcome(src: ValidTable, trg: ValidTable, keys: seq<string>): Report
    requires Checked(src, trg, keys)
  {
    var sp, tp := KeyPositions(src.columns, keys), KeyPositions(trg.columns, keys);
    JoinedIndexable(src, trg, keys);
    var breaks := Mismatches(Joined(src, trg, keys), src.columns, keys, CompareColumns(src.columns, keys),
                             SourceIndices(src, trg, keys), TargetIndices(src, trg, keys));
    var onlySrc, onlyTrg := OnlyIn(src, sp, trg, tp), OnlyIn(trg, tp, src, sp);
    Report(breaks, onlySrc, onlyTrg, DuplicateRows(src.rows, sp), DuplicateRows(trg.rows, tp),
           KeyMatchedCount(src.rows, sp, trg.rows, tp),
           Summary(|src.rows|, |trg.rows|, |breaks|, |onlySrc|, |onlyTrg|,
                   DistinctKeyCount(src.rows, sp), DistinctKeyCount(trg.rows, tp)))
  }

  /**
   * The comparison of two loaded tables on `keys`. It fails exactly when
   * the key list is empty, a key is missing from either table or a compared
   * column is missing from the target, and the error names what is missing.
   */
  function Compare(src: ValidTable, trg: ValidTable, keys: seq<string>): (r: Result<Report, CompareError>)
    ensures r.Success? <==> Checked(src, trg, keys)
    ensures r.Success? ==> r.value == Outcome(src, trg, keys)
    ensures r == Failure(EmptyKeyList) <==> keys == []
    ensures r.Failure? && r.error.MissingKeyColumn? ==>
      && r.error.key in keys
      && (r.error.side == Source ==> r.error.key !in src.columns)
      && (r.error.side == Target ==> r.error.key in src.columns && r.error.key !in trg.columns)
    ensures r.Failure? && r.error.MissingTargetColumn? ==>
      && (forall k :: k in keys ==> k in src.columns && k in trg.columns)
      && r.error.column in src.columns && r.error.column !in keys && r.error.column !in trg.columns
  {
    if keys == [] then Failure(EmptyKeyList)
    else if exists k :: k in keys && k !in src.columns then
      Failure(MissingKeyColumn(FirstMissing(src.columns, keys), Source))
    else if exists k :: k in keys && k !in trg.columns then
      Failure(MissingKeyColumn(FirstMissing(trg.columns, keys), Target))
    else
      var cols := CompareColumns(src.columns, keys);
      if exists c :: c in cols && c !in trg.columns then
        Failure(MissingTargetColumn(FirstMissing(trg.columns, cols)))
      else
        Success(Outcome(src, trg, keys))
  }

  /**
   * The summary agrees with the result sets: the totals are the row counts,
   * the three list counts are the list lengths, a "Key Duplicate" figure is
   * the number of distinct non-NULL key tuples, so it never exceeds its
   * total and reaches it exactly when every key is non-NULL and unique, and
   * there are no more data breaks than left-join rows.
   */
  lemma {:induction false} SummaryConsistent(src: ValidTable, trg: ValidTable, keys: seq<string>)
    requires Checked(src, trg, keys)
    ensures var rep := Outcome(src, trg, keys);
      var sp, tp := KeyPositions(src.columns, keys), KeyPositions(trg.columns, keys);
      && rep.summary.sourceTotal == |src.rows|
      && rep.summary.targetTotal == |trg.rows|
      && rep.summary.totalDataBreaks == |rep.totalDataBreak|
      && rep.summary.onlyInSource == |rep.onlyInSource|
      && rep.summary.onlyInTarget == |rep.onlyInTarget|
      && rep.summary.sourceKeyDuplicate <= rep.summary.sourceTotal
      && rep.summary.targetKeyDuplicate <= rep.summary.targetTotal
      && (rep.summary.sourceKeyDuplicate == rep.summary.sourceTotal <==> AllKnown(src.rows, sp) && UniqueKeys(src.rows, sp))
      && (rep.summary.targetKeyDuplicate == rep.summary.targetTotal <==> AllKnown(trg.rows, tp) && UniqueKeys(trg.rows, tp))
      && rep.summary.totalDataBreaks <= rep.totalKeyMatched + rep.summary.onlyInSource
  {
    var sp, tp := KeyPositions(src.columns, keys), KeyPositions(trg.columns, keys);
    DistinctKeyCountBound(src.rows, sp);
    DistinctKeyCountBound(trg.rows, tp);
    JoinedIndexable(src, trg, keys);
    MismatchesBounded(Joined(src, trg, keys), src.columns, keys, CompareColumns(src.columns, keys),
                      SourceIndices(src, trg, keys), TargetIndices(src, trg, keys));
    LeftJoinSize(src.rows, sp, trg.rows, tp, |trg.columns|);
    OnlyInIsUnmatched(src, sp, trg, tp);
  }

  /**
   * Only-in-source is the source rows, in order and with their
   * multiplicity, that no target row equals on every key; only-in-target is
   * the same with the roles swapped.
   */
  lemma {:induction false} OnlyInMeaning(src: ValidTable, trg: ValidTable, keys: seq<string>)
    requires Checked(src, trg, keys)
    ensures var rep := Outcome(src, trg, keys);
      && IsSubsequence(rep.onlyInSource, src.rows)
      && IsSubsequence(rep.onlyInTarget, trg.rows)
      && (forall s :: s in rep.onlyInSource <==>
            (s in src.rows && forall t :: t in trg.rows ==> !KeysEqual(KeyTuple(s, src.columns, keys), KeyTuple(t, trg.columns, keys))))
      && (forall t :: t in rep.onlyInTarget <==>
            (t in trg.rows && forall s :: s in src.rows ==> !KeysEqual(KeyTuple(t, trg.columns, keys), KeyTuple(s, src.columns, keys))))
  {
    var sp, tp := KeyPositions(src.columns, keys), KeyPositions(trg.columns, keys);
    OnlyInIsUnmatched(src, sp, trg, tp);
    OnlyInIsUnmatched(trg, tp, src, sp);
    UnmatchedMembers(src.rows, sp, trg.rows, tp);
    UnmatchedMembers(trg.rows, tp, src.rows, sp);
  }

  /**
   * Each duplicate-key report is the rows of its own table, in order, whose
   * key tuple is free of NULLs and occurs more than once in that table.
   */
  lemma {:induction false} DuplicatesMeaning(src: ValidTable, trg: ValidTable, keys: seq<string>)
    requires Checked(src, trg, keys)
    ensures var rep := Outcome(src, trg, keys);
      var sp, tp := KeyPositions(src.columns, keys), KeyPositions(trg.columns, keys);
      && IsSubsequence(rep.sourceKeyDuplicate, src.rows)
      && IsSubsequence(rep.targetKeyDuplicate, trg.rows)
      && (forall r :: r in rep.sourceKeyDuplicate <==> r in src.rows && Known(KeyOf(r, sp)) && CountKey(KeyOf(r, sp), src.rows, sp) > 1)
      && (forall r :: r in rep.targetKeyDuplicate <==> r in trg.rows && Known(KeyOf(r, tp)) && CountKey(KeyOf(r, tp), trg.rows, tp) > 1)
  {
    var sp, tp := KeyPositions(src.columns, keys), KeyPositions(trg.columns, keys);
    SelectDuplicatesMeaning(src.rows, src.rows, sp);
    SelectDuplicatesMeaning(trg.rows, trg.rows, tp);
  }

  /** The target lookup of line 106 always lands inside the joined row, so its else branch never runs. */
  lemma {:induction false} TargetAlwaysPresent(src: ValidTable, trg: ValidTable, keys: seq<string>)
    requires Checked(src, trg, keys)
    ensures forall row, i :: row in Joined(src, trg, keys) && 0 <= i < |TargetIndices(src, trg, keys)| ==>
      TargetIndices(src, trg, keys)[i] < |row|
  {
  }

  /**
   * Every data break is the record of some left-join row and has more
   * entries than there are keys; conversely every left-join row with such a
   * record contributes it.
   */
  lemma {:induction false} BreaksMeaning(src: ValidTable, trg: ValidTable, keys: seq<string>)
    requires Checked(src, trg, keys)
    ensures var rep := Outcome(src, trg, keys);
      var cols, si, ti := CompareColumns(src.columns, keys), SourceIndices(src, trg, keys), TargetIndices(src, trg, keys);
      && (forall row :: row in Joined(src, trg, keys) ==> Indexable(row, src.columns, keys, cols, si, ti))
      && (forall rec :: rec in rep.totalDataBreak ==>
            |rec| > |keys| && exists row :: row in Joined(src, trg, keys) && rec == MismatchRecord(row, src.columns, keys, cols, si, ti))
      && (forall row :: row in Joined(src, trg, keys) && |MismatchRecord(row, src.columns, keys, cols, si, ti)| > |keys| ==>
            MismatchRecord(row, src.columns, keys, cols, si, ti) in rep.totalDataBreak)
  {
    var cols, si, ti := CompareColumns(src.columns, keys), SourceIndices(src, trg, keys), TargetIndices(src, trg, keys);
    JoinedIndexable(src, trg, keys);
    MismatchesBounded(Joined(src, trg, keys), src.columns, keys, cols, si, ti);
    MismatchesComplete(Joined(src, trg, keys), src.columns, keys, cols, si, ti);
  }

  /** Names that cannot collide over all source columns cannot collide over the compared ones. */
  lemma {:induction false} CompareColumnsNoClash(columns: seq<string>, keys: seq<string>)
    requires NoClash(keys, columns)
    ensures NoClash(keys, CompareColumns(columns, keys))
  {
    var cols := CompareColumns(columns, keys);
    assert NoDup(cols);
    forall k, c | k in keys && c in cols
      ensures k != ExpectedName(c) && k != ActualName(c)
    {
      assert c in columns;
    }
  }

  /** The record of a joined row starts with the key values of its source row. */
  lemma {:induction false} SourceKeysLead(src: ValidTable, trg: ValidTable, keys: seq<string>, s: Row, rest: Row)
    requires Checked(src, trg, keys) && s in src.rows
    ensures forall j :: 0 <= j < |keys| ==>
      SourceValue(s + rest, src.columns, keys[j]) == KeyTuple(s, src.columns, keys)[j]
  {
    var sp := KeyPositions(src.columns, keys);
    forall j | 0 <= j < |keys|
      ensures SourceValue(s + rest, src.columns, keys[j]) == KeyTuple(s, src.columns, keys)[j]
    {
      assert Some(sp[j]) == IndexOf(src.columns, keys[j]);
    }
  }

  /** The data breaks are the mismatch list of the left join. */
  lemma {:induction false} BreaksAre(src: ValidTable, trg: ValidTable, keys: seq<string>)
    requires Checked(src, trg, keys)
    ensures forall row :: row in Joined(src, trg, keys) ==>
      Indexable(row, src.columns, keys, CompareColumns(src.columns, keys), SourceIndices(src, trg, keys), TargetIndices(src, trg, keys))
    ensures Outcome(src, trg, keys).totalDataBreak
      == Mismatches(Joined(src, trg, keys), src.columns, keys, CompareColumns(src.columns, keys),
                    SourceIndices(src, trg, keys), TargetIndices(src, trg, keys))
  {
    JoinedIndexable(src, trg, keys);
  }

  /**
   * A source row that no target row matches is joined to NULLs, and since
   * every target value is then None, every compared column whose source
   * value is not NULL is reported: the row's record is among the data
   * breaks, led by the row's key values, with the source value as Expected
   * and None as Actual.
   */
  lemma {:induction false} UnmatchedRowReported(src: ValidTable, trg: ValidTable, keys: seq<string>, s: Row, i: nat)
    requires Checked(src, trg, keys) && NoClash(keys, src.columns)
    requires s in src.rows
    requires forall t :: t in trg.rows ==> !KeysEqual(KeyTuple(s, src.columns, keys), KeyTuple(t, trg.columns, keys))
    requires i < |CompareColumns(src.columns, keys)| && s[SourceIndices(src, trg, keys)[i]].Some?
    ensures var c := CompareColumns(src.columns, keys)[i];
      exists rec :: rec in Outcome(src, trg, keys).totalDataBreak
        && |keys| < |rec|
        && (forall j :: 0 <= j < |keys| ==> rec[j] == (keys[j], KeyTuple(s, src.columns, keys)[j]))
        && (ExpectedName(c), s[SourceIndices(src, trg, keys)[i]]) in rec
        && (ActualName(c), None) in rec
  {
    var cols, si, ti := CompareColumns(src.columns, keys), SourceIndices(src, trg, keys), TargetIndices(src, trg, keys);
    var joined := Joined(src, trg, keys);
    var t := NullRow(|trg.columns|);
    UnmatchedRowJoined(src, trg, keys, s);
    BreaksAre(src, trg, keys);
    CompareColumnsNoClash(src.columns, keys);
    PairDiffersAt(src, trg, keys, s, t, i);
    RecordReported(joined, src.columns, keys, cols, si, ti, s + t, i);
    NullPaddedRecord(src, trg, keys, s, i);
  }

  /** A source row that no target row matches is in the join, padded with NULLs. */
  lemma {:induction false} UnmatchedRowJoined(src: ValidTable, trg: ValidTable, keys: seq<string>, s: Row)
    requires Checked(src, trg, keys) && s in src.rows
    requires forall t :: t in trg.rows ==> !KeysEqual(KeyTuple(s, src.columns, keys), KeyTuple(t, trg.columns, keys))
    ensures s + NullRow(|trg.columns|) in Joined(src, trg, keys)
  {
    LeftJoinPairs(src.rows, KeyPositions(src.columns, keys), trg.rows, KeyPositions(trg.columns, keys), |trg.columns|);
  }

  /** The record of a source row padded with NULLs reports a non-NULL compared value against None. */
  lemma {:induction false} NullPaddedRecord(src: ValidTable, trg: ValidTable, keys: seq<string>, s: Row, i: nat)
    requires Checked(src, trg, keys) && NoClash(keys, src.columns) && s in src.rows
    requires i < |CompareColumns(src.columns, keys)| && s[SourceIndices(src, trg, keys)[i]].Some?
    ensures var c, si := CompareColumns(src.columns, keys)[i], SourceIndices(src, trg, keys);
      var rec := MismatchRecord(s + NullRow(|trg.columns|), src.columns, keys, CompareColumns(src.columns, keys), si, TargetIndices(src, trg, keys));
      && |keys| < |rec|
      && (forall j :: 0 <= j < |keys| ==> rec[j] == (keys[j], KeyTuple(s, src.columns, keys)[j]))
      && (ExpectedName(c), s[si[i]]) in rec
      && (ActualName(c), None) in rec
  {
    var t := NullRow(|trg.columns|);
    assert t[TargetColumn(src, trg, keys, i)] == None;
    PairRecordKeys(src, trg, keys, s, t);
    PairRecordColumn(src, trg, keys, s, t, i);
    PairRecordKept(src, trg, keys, s, t);
  }

  /** Where compared column `i` sits in a target row. */
  function TargetColumn(src: ValidTable, trg: ValidTable, keys: seq<string>, i: nat): (p: nat)
    requires Checked(src, trg, keys) && i < |CompareColumns(src.columns, keys)|
    ensures p < |trg.columns|
  {
    KeyPositions(trg.columns, CompareColumns(src.columns, keys))[i]
  }

  /** In the joined row `s + t`, compared column `i` reads the source value from `s` and the target value from `t`. */
  lemma {:induction false} PairValues(src: ValidTable, trg: ValidTable, keys: seq<string>, s: Row, t: Row)
    requires Checked(src, trg, keys) && |s| == |src.columns| && |t| == |trg.columns|
    ensures InBounds(SourceIndices(src, trg, keys), |s + t|)
    ensures forall i :: 0 <= i < |CompareColumns(src.columns, keys)| ==>
      && (s + t)[SourceIndices(src, trg, keys)[i]] == s[SourceIndices(src, trg, keys)[i]]
      && TargetValue(s + t, TargetIndices(src, trg, keys)[i]) == t[TargetColumn(src, trg, keys, i)]
  {
    var si, ti := SourceIndices(src, trg, keys), TargetIndices(src, trg, keys);
    forall i | 0 <= i < |CompareColumns(src.columns, keys)|
      ensures (s + t)[si[i]] == s[si[i]] && TargetValue(s + t, ti[i]) == t[TargetColumn(src, trg, keys, i)]
    {
      PairDiffersAt(src, trg, keys, s, t, i);
    }
  }

  /** Position `a` of `s + t` is in its first half and position `|s| + b` in its second. */
  lemma {:induction false} JoinedHalves(s: Row, t: Row, a: nat, b: nat)
    requires a < |s| && b < |t|
    ensures (s + t)[a] == s[a]
    ensures TargetValue(s + t, |s| + b) == t[b]
  {
  }

  /** On a matched pair, compared column `i` differs exactly when the two rows hold different values in it. */
  lemma {:induction false} MatchedPairDiffers(src: ValidTable, trg: ValidTable, keys: seq<string>, s: Row, t: Row)
    requires Checked(src, trg, keys) && s in src.rows && t in trg.rows
    requires KeysEqual(KeyTuple(s, src.columns, keys), KeyTuple(t, trg.columns, keys))
    ensures s + t in Joined(src, trg, keys)
    ensures InBounds(SourceIndices(src, trg, keys), |s + t|) && |TargetIndices(src, trg, keys)| == |SourceIndices(src, trg, keys)|
    ensures forall i :: 0 <= i < |CompareColumns(src.columns, keys)| ==>
      (Differs(s + t, SourceIndices(src, trg, keys), TargetIndices(src, trg, keys), i) <==>
         s[SourceIndices(src, trg, keys)[i]] != t[TargetColumn(src, trg, keys, i)])
  {
    var sp, tp := KeyPositions(src.columns, keys), KeyPositions(trg.columns, keys);
    LeftJoinPairs(src.rows, sp, trg.rows, tp, |trg.columns|);
    PairValues(src, trg, keys, s, t);
  }

  /**
   * No-diff collapse: a source row and a target row that agree on every
   * key and on every compared column give a joined row whose record holds
   * at most the keys, so that row adds no data break.
   */
  lemma {:induction false} AgreeingPairDropped(src: ValidTable, trg: ValidTable, keys: seq<string>, s: Row, t: Row)
    requires Checked(src, trg, keys) && s in src.rows && t in trg.rows
    requires KeysEqual(KeyTuple(s, src.columns, keys), KeyTuple(t, trg.columns, keys))
    requires forall i :: 0 <= i < |CompareColumns(src.columns, keys)| ==>
      s[SourceIndices(src, trg, keys)[i]] == t[TargetColumn(src, trg, keys, i)]
    ensures s + t in Joined(src, trg, keys)
    ensures |MismatchRecord(s + t, src.columns, keys, CompareColumns(src.columns, keys),
                            SourceIndices(src, trg, keys), TargetIndices(src, trg, keys))| <= |keys|
  {
    MatchedPairDiffers(src, trg, keys, s, t);
    JoinedIndexable(src, trg, keys);
    AgreeingRowDropped(s + t, src.columns, keys, CompareColumns(src.columns, keys),
                       SourceIndices(src, trg, keys), TargetIndices(src, trg, keys));
  }

  /**
   * `rec` reports the pair `s`, `t`: it is led by the key values of `s`, and
   * holds an Expected/Actual pair, source then target value, for exactly the
   * compared columns on which the two rows differ.
   */
  predicate ReportsPair(rec: Record, src: ValidTable, trg: ValidTable, keys: seq<string>, s: Row, t: Row)
    requires Checked(src, trg, keys) && |s| == |src.columns| && |t| == |trg.columns|
  {
    var cols, si := CompareColumns(src.columns, keys), SourceIndices(src, trg, keys);
    && |keys| < |rec|
    && (forall j :: 0 <= j < |keys| ==> rec[j] == (keys[j], KeyTuple(s, src.columns, keys)[j]))
    && ReportsColumns(rec, src, trg, keys, s, t)
  }

  /** `rec` reports every compared column of the pair `s`, `t` as `ReportsColumn` says. */
  predicate ReportsColumns(rec: Record, src: ValidTable, trg: ValidTable, keys: seq<string>, s: Row, t: Row)
    requires Checked(src, trg, keys) && |s| == |src.columns| && |t| == |trg.columns|
  {
    var cols, si := CompareColumns(src.columns, keys), SourceIndices(src, trg, keys);
    forall i :: 0 <= i < |cols| ==> ReportsColumn(rec, cols[i], s[si[i]], t[TargetColumn(src, trg, keys, i)])
  }

  /** The record of a joined pair is led by the key values of its source row. */
  lemma {:induction false} PairRecordKeys(src: ValidTable, trg: ValidTable, keys: seq<string>, s: Row, t: Row)
    requires Checked(src, trg, keys) && NoClash(keys, src.columns) && s in src.rows && |t| == |trg.columns|
    ensures var rec := MismatchRecord(s + t, src.columns, keys, CompareColumns(src.columns, keys),
                                      SourceIndices(src, trg, keys), TargetIndices(src, trg, keys));
      && |keys| <= |rec|
      && forall j :: 0 <= j < |keys| ==> rec[j] == (keys[j], KeyTuple(s, src.columns, keys)[j])
  {
    var cols, si, ti := CompareColumns(src.columns, keys), SourceIndices(src, trg, keys), TargetIndices(src, trg, keys);
    CompareColumnsNoClash(src.columns, keys);
    MismatchRecordMeaning(s + t, src.columns, keys, cols, si, ti);
    SourceKeysLead(src, trg, keys, s, t);
  }

  /**
   * The record of a joined pair names compared column `i` exactly when the
   * two rows differ there, and then holds the source value as Expected and
   * the target value as Actual.
   */
  lemma {:induction false} PairRecordColumns(src: ValidTable, trg: ValidTable, keys: seq<string>, s: Row, t: Row)
    requires Checked(src, trg, keys) && NoClash(keys, src.columns) && |s| == |src.columns| && |t| == |trg.columns|
    ensures var cols, si := CompareColumns(src.columns, keys), SourceIndices(src, trg, keys);
      var rec := MismatchRecord(s + t, src.columns, keys, cols, si, TargetIndices(src, trg, keys));
      && ReportsColumns(rec, src, trg, keys, s, t)
      && (|rec| > |keys| <==> exists i :: 0 <= i < |cols| && s[si[i]] != t[TargetColumn(src, trg, keys, i)])
  {
    var cols, si := CompareColumns(src.columns, keys), SourceIndices(src, trg, keys);
    var rec := MismatchRecord(s + t, src.columns, keys, cols, si, TargetIndices(src, trg, keys));
    forall i | 0 <= i < |cols|
      ensures ReportsColumn(rec, cols[i], s[si[i]], t[TargetColumn(src, trg, keys, i)])
    {
      PairRecordColumn(src, trg, keys, s, t, i);
    }
    PairRecordKept(src, trg, keys, s, t);
  }

  /** In the joined row `s + t`, compared column `i` differs exactly when the two rows differ there. */
  lemma {:induction false} PairDiffersAt(src: ValidTable, trg: ValidTable, keys: seq<string>, s: Row, t: Row, i: nat)
    requires Checked(src, trg, keys) && |s| == |src.columns| && |t| == |trg.columns|
    requires i < |CompareColumns(src.columns, keys)|
    ensures InBounds(SourceIndices(src, trg, keys), |s + t|)
    ensures var si, ti := SourceIndices(src, trg, keys), TargetIndices(src, trg, keys);
      && (s + t)[si[i]] == s[si[i]]
      && TargetValue(s + t, ti[i]) == t[TargetColumn(src, trg, keys, i)]
      && (Differs(s + t, si, ti, i) <==> s[si[i]] != t[TargetColumn(src, trg, keys, i)])
  {
    var si, ti := SourceIndices(src, trg, keys), TargetIndices(src, trg, keys);
    var p := TargetColumn(src, trg, keys, i);
    assert ti[i] == p + |s|;
    JoinedHalves(s, t, si[i], p);
  }

  /** One compared column of a joined pair's record, read from the two rows. */
  lemma {:induction false} PairRecordColumn(src: ValidTable, trg: ValidTable, keys: seq<string>, s: Row, t: Row, i: nat)
    requires Checked(src, trg, keys) && NoClash(keys, src.columns) && |s| == |src.columns| && |t| == |trg.columns|
    requires i < |CompareColumns(src.columns, keys)|
    ensures var cols, si := CompareColumns(src.columns, keys), SourceIndices(src, trg, keys);
      ReportsColumn(MismatchRecord(s + t, src.columns, keys, cols, si, TargetIndices(src, trg, keys)),
                    cols[i], s[si[i]], t[TargetColumn(src, trg, keys, i)])
  {
    var cols, si, ti := CompareColumns(src.columns, keys), SourceIndices(src, trg, keys), TargetIndices(src, trg, keys);
    CompareColumnsNoClash(src.columns, keys);
    PairDiffersAt(src, trg, keys, s, t, i);
    JoinedIndexableRow(src, trg, keys, s, t);
    MismatchRecordColumn(s + t, src.columns, keys, cols, si, ti, i);
  }

  /** A joined pair's record is kept exactly when the two rows differ in some compared column. */
  lemma {:induction false} PairRecordKept(src: ValidTable, trg: ValidTable, keys: seq<string>, s: Row, t: Row)
    requires Checked(src, trg, keys) && NoClash(keys, src.columns) && |s| == |src.columns| && |t| == |trg.columns|
    ensures var cols, si := CompareColumns(src.columns, keys), SourceIndices(src, trg, keys);
      var rec := MismatchRecord(s + t, src.columns, keys, cols, si, TargetIndices(src, trg, keys));
      |rec| > |keys| <==> exists i :: 0 <= i < |cols| && s[si[i]] != t[TargetColumn(src, trg, keys, i)]
  {
    var cols, si, ti := CompareColumns(src.columns, keys), SourceIndices(src, trg, keys), TargetIndices(src, trg, keys);
    CompareColumnsNoClash(src.columns, keys);
    JoinedIndexableRow(src, trg, keys, s, t);
    MismatchRecordKept(s + t, src.columns, keys, cols, si, ti);
    forall i | 0 <= i < |cols|
      ensures Differs(s + t, si, ti, i) <==> s[si[i]] != t[TargetColumn(src, trg, keys, i)]
    {
      PairDiffersAt(src, trg, keys, s, t, i);
    }
  }

  /** A pair of rows of the two widths can be indexed by the record loop. */
  lemma {:induction false} JoinedIndexableRow(src: ValidTable, trg: ValidTable, keys: seq<string>, s: Row, t: Row)
    requires Checked(src, trg, keys) && |s| == |src.columns| && |t| == |trg.columns|
    ensures Indexable(s + t, src.columns, keys, CompareColumns(src.columns, keys), SourceIndices(src, trg, keys), TargetIndices(src, trg, keys))
  {
  }

  /** The record of a matched pair that differs in column `d` reports that pair. */
  lemma {:induction false} PairRecordReports(src: ValidTable, trg: ValidTable, keys: seq<string>, s: Row, t: Row, d: nat)
    requires Checked(src, trg, keys) && NoClash(keys, src.columns) && s in src.rows && t in trg.rows
    requires d < |CompareColumns(src.columns, keys)| && s[SourceIndices(src, trg, keys)[d]] != t[TargetColumn(src, trg, keys, d)]
    ensures ReportsPair(MismatchRecord(s + t, src.columns, keys, CompareColumns(src.columns, keys),
                                       SourceIndices(src, trg, keys), TargetIndices(src, trg, keys)), src, trg, keys, s, t)
  {
    PairRecordKeys(src, trg, keys, s, t);
    PairRecordColumns(src, trg, keys, s, t);
  }

  /**
   * A matched pair that disagrees on some compared column is reported: its
   * record is among the data breaks and reports the pair.
   */
  lemma {:induction false} DifferingPairReported(src: ValidTable, trg: ValidTable, keys: seq<string>, s: Row, t: Row, d: nat)
    requires Checked(src, trg, keys) && NoClash(keys, src.columns) && s in src.rows && t in trg.rows
    requires KeysEqual(KeyTuple(s, src.columns, keys), KeyTuple(t, trg.columns, keys))
    requires d < |CompareColumns(src.columns, keys)| && s[SourceIndices(src, trg, keys)[d]] != t[TargetColumn(src, trg, keys, d)]
    ensures exists rec :: rec in Outcome(src, trg, keys).totalDataBreak && ReportsPair(rec, src, trg, keys, s, t)
  {
    var cols, si, ti := CompareColumns(src.columns, keys), SourceIndices(src, trg, keys), TargetIndices(src, trg, keys);
    var row := s + t;
    MatchedPairDiffers(src, trg, keys, s, t);
    JoinedIndexable(src, trg, keys);
    CompareColumnsNoClash(src.columns, keys);
    var rec := MismatchRecord(row, src.columns, keys, cols, si, ti);
    assert rec in Outcome(src, trg, keys).totalDataBreak by {
      BreaksAre(src, trg, keys);
      RecordReported(Joined(src, trg, keys), src.columns, keys, cols, si, ti, row, d);
    }
    PairRecordReports(src, trg, keys, s, t, d);
  }

  /**
   * The comparison part of `run_data_comparison` (lines 75-204): the
   * queries fail first on the keys, then the index lookups of line 94 on a
   * compared column the target lacks; otherwise the record loop runs over
   * the left join and the other result sets and counts are taken.
   */
  method CompareTables(src: ValidTable, trg: ValidTable, keys: seq<string>) returns (r: Result<Report, CompareError>)
    ensures r == Compare(src, trg, keys)
  {
    if keys == [] {
      return Failure(EmptyKeyList);
    }
    if exists k :: k in keys && k !in src.columns {
      return Failure(MissingKeyColumn(FirstMissing(src.columns, keys), Source));
    }
    if exists k :: k in keys && k !in trg.columns {
      return Failure(MissingKeyColumn(FirstMissing(trg.columns, keys), Target));
    }
    var compareColumns := CompareColumns(src.columns, keys);
    if exists c :: c in compareColumns && c !in trg.columns {
      return Failure(MissingTargetColumn(FirstMissing(trg.columns, compareColumns)));
    }
    var joined := Joined(src, trg, keys);
    var srcIndices, trgIndices := SourceIndices(src, trg, keys), TargetIndices(src, trg, keys);
    JoinedIndexable(src, trg, keys);
    var totalDataBreak := CollectMismatches(joined, src.columns, keys, compareColumns, srcIndices, trgIndices);
    var sp, tp := KeyPositions(src.columns, keys), KeyPositions(trg.columns, keys);
    var onlyInSource, onlyInTarget := OnlyIn(src, sp, trg, tp), OnlyIn(trg, tp, src, sp);
    var summary := Summary(|src.rows|, |trg.rows|, |totalDataBreak|, |onlyInSource|, |onlyInTarget|,
                           DistinctKeyCount(src.rows, sp), DistinctKeyCount(trg.rows, tp));
    r := Success(Report(totalDataBreak, onlyInSource, onlyInTarget, DuplicateRows(src.rows, sp), DuplicateRows(trg.rows, tp),
                        KeyMatchedCount(src.rows, sp, trg.rows, tp), summary));
  }
}
