/**
 * `ireduce(function, iterable, *initializer)`: the argument count is checked
 * when `ireduce` is called, before any iteration; the generator `_ireduce`
 * does the folding, with `None` meaning "no initializer".
 */
module IReduceVariant1 {
  import opened Results
  import opened RunningFold

  datatype Error =
    | TooManyInitializers       // TypeError at call time
    | EmptyWithoutInitializer   // TypeError at the first `next`

  /** The suspended generator returned by `_ireduce(function, iterable, initializer)`. */
  datatype Generator<T> = Generator(xs: seq<PyValue<T>>, initializer: PyValue<T>)

  /** `ireduce`: the eager check of the extra positional arguments. */
  function IReduce<T>(xs: seq<PyValue<T>>, extra: seq<PyValue<T>>): (r: Result<Generator<T>, Error>)
    ensures r.Err? <==> |extra| > 1
    ensures r.Ok? ==> r.value.xs == xs
    ensures r.Ok? && extra == [] ==> r.value.initializer == PyNone
    ensures r.Ok? && |extra| == 1 ==> r.value.initializer == extra[0]
  {
    if |extra| > 1 then Err(TooManyInitializers)
    else Ok(Generator(xs, if |extra| == 1 then extra[0] else PyNone))
  }

  /** `_ireduce`, consumed to the end. */
  method Consume<T>(f: (PyValue<T>, PyValue<T>) -> PyValue<T>, g: Generator<T>)
    returns (r: Result<seq<PyValue<T>>, Error>)
    ensures r.Err? <==> g.initializer.PyNone? && g.xs == []
    ensures r.Err? ==> r.error == EmptyWithoutInitializer
    ensures r.Ok? && !g.initializer.PyNone? ==>
      |r.value| == |g.xs| &&
      forall k :: 0 <= k < |g.xs| ==> r.value[k] == Fold(f, g.initializer, g.xs[..k + 1])
    ensures r.Ok? && g.initializer.PyNone? ==>
      |r.value| == |g.xs| - 1 &&
      forall k :: 0 <= k < |g.xs| - 1 ==> r.value[k] == Fold(f, g.xs[0], g.xs[1..][..k + 1])
    ensures r.Ok? && r.value != [] ==>
      r.value[|r.value| - 1] ==
        (if g.initializer.PyNone? then Fold(f, g.xs[0], g.xs[1..]) else Fold(f, g.initializer, g.xs))
  {
    var seed := g.initializer;
    var rest := g.xs;
    if seed.PyNone? {
      if rest == [] {
        return Err(EmptyWithoutInitializer);
      }
      seed, rest := rest[0], rest[1..];
    }
    var yielded := RunFold(f, seed, rest);
    r := Ok(yielded);
  }
}
