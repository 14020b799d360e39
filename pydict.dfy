/**
 * A Python dict that is only ever filled by assignment, as the list of its
 * (key, value) pairs in insertion order. Both the fixed-width reader and
 * the mismatch loop build their rows this way.
 */
module Dicts {
  import opened Lists

  type Dict<V> = seq<(string, V)>

  /** The dict's keys, in insertion order. */
  function Names<V>(d: Dict<V>): (ns: seq<string>)
    ensures |ns| == |d|
    ensures forall i :: 0 <= i < |d| ==> ns[i] == d[i].0
  {
    seq(|d|, i requires 0 <= i < |d| => d[i].0)
  }

  /** `d[k] = v`: an existing key keeps its place and takes the new value; a new key goes last. */
  function Put<V(==)>(d: Dict<V>, k: string, v: V): (r: Dict<V>)
    ensures k in Names(d) ==> |r| == |d| && Names(r) == Names(d)
    ensures k !in Names(d) ==> r == d + [(k, v)]
    ensures (k, v) in r
  {
    if d == [] then [(k, v)]
    else
      assert d == [d[0]] + d[1..];
      NamesAppend([d[0]], d[1..]);
      if d[0].0 == k then
        NamesAppend([(k, v)], d[1..]);
        [(k, v)] + d[1..]
      else
        var rest := Put(d[1..], k, v);
        NamesAppend([d[0]], rest);
        assert k !in Names(d) ==> [d[0]] + rest == d + [(k, v)];
        [d[0]] + rest
  }

  /** `d[k]` for a key the dict holds: the value of its (only) entry. */
  function Get<V>(d: Dict<V>, k: string): (v: V)
    requires k in Names(d)
    ensures (k, v) in d
  {
    if d[0].0 == k then d[0].1
    else
      assert Names(d)[1..] == Names(d[1..]);
      Get(d[1..], k)
  }

  /** Assigning `k` leaves every entry under another key in place. */
  lemma {:induction false} PutKeepsOthers<V>(d: Dict<V>, k: string, v: V, e: (string, V))
    requires e in d && e.0 != k
    ensures e in Put(d, k, v)
  {
    if d[0] != e {
      assert e in d[1..];
      PutKeepsOthers(d[1..], k, v, e);
    }
  }

  /** Assigning `k` adds `k` to the keys, and nothing else. */
  lemma {:induction false} PutNames<V>(d: Dict<V>, k: string, v: V)
    ensures forall x :: x in Names(Put(d, k, v)) <==> x in Names(d) || x == k
  {
    if k !in Names(d) {
      NamesAppend(d, [(k, v)]);
    }
  }

  /** Assigning never duplicates a key. */
  lemma {:induction false} PutNoDup<V>(d: Dict<V>, k: string, v: V)
    requires NoDup(Names(d))
    ensures NoDup(Names(Put(d, k, v)))
  {
    if k !in Names(d) {
      NamesAppend(d, [(k, v)]);
    }
  }

  /** In a dict whose keys are distinct, an entry for `k` holds the value `d[k]`. */
  lemma {:induction false} GetEntry<V>(d: Dict<V>, k: string, v: V)
    requires NoDup(Names(d)) && (k, v) in d
    ensures k in Names(d) && Get(d, k) == v
  {
    var i :| 0 <= i < |d| && d[i] == (k, v);
    assert Names(d)[i] == k;
    var w := Get(d, k);
    var j :| 0 <= j < |d| && d[j] == (k, w);
    assert Names(d)[j] == k;
  }

  lemma {:induction false} NamesAppend<V>(a: Dict<V>, b: Dict<V>)
    ensures Names(a + b) == Names(a) + Names(b)
  {
  }

  lemma {:induction false} NotInNames<V>(d: Dict<V>, k: string)
    requires forall e :: e in d ==> e.0 != k
    ensures k !in Names(d)
  {
    forall i | 0 <= i < |d|
      ensures Names(d)[i] != k
    {
      assert d[i] in d;
    }
  }

  /** Two assignments under new names append both entries. */
  lemma {:induction false} PutPairAppends<V>(x: Dict<V>, k1: string, v1: V, k2: string, v2: V)
    requires k1 !in Names(x) && k2 !in Names(x) && k1 != k2
    ensures Put(Put(x, k1, v1), k2, v2) == x + [(k1, v1), (k2, v2)]
  {
    var y := x + [(k1, v1)];
    NamesAppend(x, [(k1, v1)]);
    assert k2 !in Names(y);
  }
}
