/** Python list operations the engine relies on, and facts about sequences. */
module Lists {
  import opened Wrappers

  /** `xs.index(x)`: the first position of `x`, or None where Python raises ValueError. */
  function IndexOf<T(==)>(xs: seq<T>, x: T): (r: Option<nat>)
    ensures r.None? <==> x !in xs
    ensures r.Some? ==> r.value < |xs| && xs[r.value] == x && x !in xs[..r.value]
  {
    if |xs| == 0 then None
    else if xs[0] == x then Some(0)
    else match IndexOf(xs[1..], x)
      case None => None
      case Some(i) => assert xs[..i + 1] == [xs[0]] + xs[1..][..i]; Some(i + 1)
  }

  /** No element occurs twice. */
  predicate NoDup<T(==)>(xs: seq<T>) {
    forall i, j :: 0 <= i < j < |xs| ==> xs[i] != xs[j]
  }

  /** `[f(x) for x in xs]`. */
  function MapSeq<A, B>(xs: seq<A>, f: A -> B): (ys: seq<B>)
    ensures |ys| == |xs|
    ensures forall i :: 0 <= i < |xs| ==> ys[i] == f(xs[i])
  {
    if xs == [] then []
    else
      var n := |xs| - 1;
      MapSeq(xs[..n], f) + [f(xs[n])]
  }

  /** `sub` is obtained from `xs` by deleting elements, keeping the order of the rest. */
  predicate IsSubsequence<T(==)>(sub: seq<T>, xs: seq<T>)
    decreases |xs|
  {
    if sub == [] then true
    else if xs == [] then false
    else if sub[0] == xs[0] then IsSubsequence(sub[1..], xs[1..])
    else IsSubsequence(sub, xs[1..])
  }

  /** Every position of `pos` lies below `n`. */
  predicate InBounds(pos: seq<nat>, n: nat) {
    forall i :: 0 <= i < |pos| ==> pos[i] < n
  }

  /** Concatenation regroups freely: `x` built as `(a + b) + c` is `a` followed by `y` built as `b + c`. */
  lemma {:induction false} AppendAssoc<T>(x: seq<T>, y: seq<T>, a: seq<T>, b: seq<T>, c: seq<T>)
    requires x == (a + b) + c && y == b + c
    ensures x == a + y
  {
  }

  /** Keeping or dropping the head keeps a subsequence of the tail a subsequence. */
  lemma {:induction false} SubsequenceCons<T>(sub: seq<T>, xs: seq<T>)
    requires xs != [] && IsSubsequence(sub, xs[1..])
    ensures IsSubsequence(sub, xs)
    ensures IsSubsequence([xs[0]] + sub, xs)
  {
    assert ([xs[0]] + sub)[1..] == sub;
    SubsequenceDropHead(sub, xs);
  }

  lemma {:induction false} SubsequenceDropHead<T>(sub: seq<T>, xs: seq<T>)
    requires xs != [] && IsSubsequence(sub, xs[1..])
    ensures IsSubsequence(sub, xs)
    decreases |xs|, 0
  {
    if sub != [] && sub[0] == xs[0] {
      // IsSubsequence(sub, xs) reduces to IsSubsequence(sub[1..], xs[1..])
      SubsequenceTail(sub, xs[1..]);
    }
  }

  /** Dropping the first element of a subsequence keeps it a subsequence. */
  lemma {:induction false} SubsequenceTail<T>(sub: seq<T>, xs: seq<T>)
    requires sub != [] && IsSubsequence(sub, xs)
    ensures IsSubsequence(sub[1..], xs)
    decreases |xs|, 1
  {
    if sub[0] == xs[0] {
      if xs[1..] != [] {
        SubsequenceDropHead(sub[1..], xs);
      } else {
        assert sub[1..] == [];
      }
    } else {
      SubsequenceTail(sub, xs[1..]);
      SubsequenceDropHead(sub[1..], xs);
    }
  }
}
