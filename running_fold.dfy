/**
 * The specification shared by the three `ireduce` generators: Python's
 * traditional `reduce` (a left fold) and the running fold that `ireduce`
 * yields, which lists every intermediate accumulator except the seed.
 */
module RunningFold {

  /** A Python value, where `None` is one value among others. */
  datatype PyValue<T> = PyNone | Py(v: T)

  /** `reduce(f, xs, acc)`: f(...f(f(acc, xs[0]), xs[1])..., xs[n-1]). */
  function Fold<V>(f: (V, V) -> V, acc: V, xs: seq<V>): V
    decreases |xs|
  {
    if xs == [] then acc else Fold(f, f(acc, xs[0]), xs[1..])
  }

  /** The accumulators produced after each element, the seed itself excluded. */
  function Scan<V>(f: (V, V) -> V, acc: V, xs: seq<V>): seq<V>
    decreases |xs|
  {
    if xs == [] then [] else [f(acc, xs[0])] + Scan(f, f(acc, xs[0]), xs[1..])
  }

  lemma {:induction false} ScanLength<V>(f: (V, V) -> V, acc: V, xs: seq<V>)
    ensures |Scan(f, acc, xs)| == |xs|
    decreases |xs|
  {
    if xs != [] {
      ScanLength(f, f(acc, xs[0]), xs[1..]);
    }
  }

  /** The k-th yielded value is the fold of the seed over the first k + 1 elements. */
  lemma {:induction false} ScanAt<V>(f: (V, V) -> V, acc: V, xs: seq<V>, k: nat)
    requires k < |xs|
    ensures |Scan(f, acc, xs)| == |xs|
    ensures Scan(f, acc, xs)[k] == Fold(f, acc, xs[..k + 1])
    decreases k
  {
    ScanLength(f, acc, xs);
    if k > 0 {
      ScanAt(f, f(acc, xs[0]), xs[1..], k - 1);
      assert xs[1..][..k] == xs[..k + 1][1..];
    } else {
      assert xs[..1][1..] == [];
    }
  }

  /** When anything is yielded, the last value equals the traditional reduce. */
  lemma ScanLastIsReduce<V>(f: (V, V) -> V, acc: V, xs: seq<V>)
    requires xs != []
    ensures |Scan(f, acc, xs)| == |xs|
    ensures Scan(f, acc, xs)[|xs| - 1] == Fold(f, acc, xs)
  {
    ScanAt(f, acc, xs, |xs| - 1);
    assert xs[..|xs|] == xs;
  }

  lemma {:induction false} FoldSnoc<V>(f: (V, V) -> V, acc: V, xs: seq<V>, x: V)
    ensures Fold(f, acc, xs + [x]) == f(Fold(f, acc, xs), x)
    decreases |xs|
  {
    if xs != [] {
      assert (xs + [x])[1..] == xs[1..] + [x];
      FoldSnoc(f, f(acc, xs[0]), xs[1..], x);
    }
  }

  /** Extending the input by one element appends one accumulator to the running fold. */
  lemma {:induction false} ScanSnoc<V>(f: (V, V) -> V, acc: V, xs: seq<V>, x: V)
    ensures Scan(f, acc, xs + [x]) == Scan(f, acc, xs) + [f(Fold(f, acc, xs), x)]
    decreases |xs|
  {
    if xs == [] {
      assert [x][1..] == [];
    } else {
      assert (xs + [x])[1..] == xs[1..] + [x];
      ScanSnoc(f, f(acc, xs[0]), xs[1..], x);
    }
  }

  /**
   * The `for x in it` loop shared by the generators: starting from `seed`, it
   * yields the running fold of `xs`.  Every generator consumes it to the end.
   */
  method RunFold<V>(f: (V, V) -> V, seed: V, xs: seq<V>) returns (yielded: seq<V>)
    ensures |yielded| == |xs|
    ensures forall k :: 0 <= k < |xs| ==> yielded[k] == Fold(f, seed, xs[..k + 1])
    ensures xs != [] ==> yielded[|xs| - 1] == Fold(f, seed, xs)
  {
    var accum := seed;
    yielded := [];
    var i := 0;
    while i < |xs|
      invariant 0 <= i <= |xs|
      invariant accum == Fold(f, seed, xs[..i])
      invariant yielded == Scan(f, seed, xs[..i])
    {
      FoldSnoc(f, seed, xs[..i], xs[i]);
      ScanSnoc(f, seed, xs[..i], xs[i]);
      assert xs[..i + 1] == xs[..i] + [xs[i]];
      accum := f(accum, xs[i]);
      yielded := yielded + [accum];
      i := i + 1;
    }
    assert xs[..|xs|] == xs;
    ScanLength(f, seed, xs);
    forall k | 0 <= k < |xs|
      ensures yielded[k] == Fold(f, seed, xs[..k + 1])
    {
      ScanAt(f, seed, xs, k);
    }
    if xs != [] {
      ScanLastIsReduce(f, seed, xs);
    }
  }
}
