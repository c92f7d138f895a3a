/**
 * `ireduce(function, iterable, initializer=None)`: a generator yielding the
 * running fold.  `None`, whether passed or defaulted, means "no initializer":
 * the first element becomes the seed.
 */
module IReduce {
  import opened Results
  import opened RunningFold

  /** TypeError: reduce() of an empty sequence with no initial value. */
  datatype Error = EmptyWithoutInitializer

  /** Consuming the generator to the end (`list(ireduce(...))`). */
  method IReduce<T>(f: (PyValue<T>, PyValue<T>) -> PyValue<T>, xs: seq<PyValue<T>>,
                    initializer: PyValue<T> := PyNone)
    returns (r: Result<seq<PyValue<T>>, Error>)
    ensures r.Err? <==> initializer.PyNone? && xs == []
    ensures r.Ok? && !initializer.PyNone? ==>
      |r.value| == |xs| &&
      forall k :: 0 <= k < |xs| ==> r.value[k] == Fold(f, initializer, xs[..k + 1])
    ensures r.Ok? && initializer.PyNone? ==>
      |r.value| == |xs| - 1 &&
      forall k :: 0 <= k < |xs| - 1 ==> r.value[k] == Fold(f, xs[0], xs[1..][..k + 1])
  {
    var seed := initializer;
    var rest := xs;
    if initializer.PyNone? {
      if xs == [] {
        return Err(EmptyWithoutInitializer);
      }
      seed, rest := xs[0], xs[1..];
    }
    var yielded := RunFold(f, seed, rest);
    r := Ok(yielded);
  }

  /** Passing `None` explicitly behaves exactly as leaving the initializer out. */
  method ExplicitNoneIsAbsent<T>(f: (PyValue<T>, PyValue<T>) -> PyValue<T>, xs: seq<PyValue<T>>)
    returns (absent: Result<seq<PyValue<T>>, Error>, explicitNone: Result<seq<PyValue<T>>, Error>)
    ensures absent == explicitNone
  {
    absent := IReduce(f, xs);
    explicitNone := IReduce(f, xs, PyNone);
    assert absent.Ok? == explicitNone.Ok?;
    if absent.Ok? {
      assert |absent.value| == |explicitNone.value|;
      assert forall k :: 0 <= k < |absent.value| ==> absent.value[k] == explicitNone.value[k];
      assert absent.value == explicitNone.value;
    } else {
      assert absent.error.EmptyWithoutInitializer? && explicitNone.error.EmptyWithoutInitializer?;
    }
  }
}
