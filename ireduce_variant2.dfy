/**
 * `ireduce(function, iterable, initializer=_Pad())`: only the `_Pad`
 * singleton means "no initializer", so `None` is an ordinary seed.
 */
module IReduceVariant2 {
  import opened Results
  import opened RunningFold

  /** TypeError: ireduce() of an empty sequence with no initial value. */
  datatype Error = EmptyWithoutInitializer

  /** An instance of the marker class `_Pad`. */
  class Pad {
    constructor () {}
  }

  /** The class attribute `_Pad._pad_instance` and the caching `__new__`. */
  class PadClass {
    var padInstance: Pad?

    constructor ()
      ensures padInstance == null
    {
      padInstance := null;
    }

    /** `_Pad()`: creates the instance on first use, then always returns it. */
    method New() returns (p: Pad)
      modifies this
      ensures old(padInstance) != null ==> p == old(padInstance)
      ensures old(padInstance) == null ==> fresh(p)
      ensures padInstance == p
    {
      if padInstance == null {
        padInstance := new Pad();
      }
      p := padInstance;
    }
  }

  /**
   * The initializer argument: a `_Pad` object or any Python value, `None` included.
   * Every `_Pad` object a caller can hold comes from `_Pad()`, hence is the cached one.
   */
  datatype Initializer<T> = PadArg(pad: Pad) | ValueArg(v: PyValue<T>)

  /** Two calls of `_Pad()` give one and the same object. */
  method PadIsSingleton(cls: PadClass) returns (p: Pad, q: Pad)
    modifies cls
    ensures p == q
  {
    p := cls.New();
    q := cls.New();
  }

  /** Consuming the generator to the end; the identity test `initializer is _Pad()`. */
  method IReduce<T>(cls: PadClass, f: (PyValue<T>, PyValue<T>) -> PyValue<T>,
                    xs: seq<PyValue<T>>, initializer: Initializer<T>)
    returns (r: Result<seq<PyValue<T>>, Error>)
    requires cls.padInstance != null
    requires initializer.PadArg? ==> initializer.pad == cls.padInstance
    modifies cls
    ensures cls.padInstance == old(cls.padInstance)
    ensures var absent := initializer.PadArg?;
      && (r.Err? <==> absent && xs == [])
      && (r.Ok? && absent ==>
            |r.value| == |xs| - 1 &&
            forall k :: 0 <= k < |xs| - 1 ==> r.value[k] == Fold(f, xs[0], xs[1..][..k + 1]))
      && (r.Ok? && !absent ==>
            |r.value| == |xs| &&
            forall k :: 0 <= k < |xs| ==> r.value[k] == Fold(f, initializer.v, xs[..k + 1]))
  {
    var pad := cls.New();
    var seed: PyValue<T>;
    var rest := xs;
    if initializer.PadArg? && initializer.pad == pad {
      if xs == [] {
        return Err(EmptyWithoutInitializer);
      }
      seed, rest := xs[0], xs[1..];
    } else {
      seed := initializer.v;
    }
    var yielded := RunFold(f, seed, rest);
    r := Ok(yielded);
  }
}
