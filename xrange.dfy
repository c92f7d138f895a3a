/**
 * `irange`: an immutable re-implementation of Python 2's `xrange` with
 * length, negative indexing and slicing.  The object's three fields are set
 * once by the constructor, so it is a datatype and every operation is a
 * function of it.
 */
module Xrange {
  import opened Results
  import opened Arith

  type NonZero = x: int | x != 0 witness 1

  /** The fields `_start`, `_stop`, `_step`; a zero step never gets this far. */
  datatype IRange = IRange(start: int, stop: int, step: NonZero)

  /** A positional argument of the constructor: an `int`, or anything else. */
  datatype Arg = IntArg(i: int) | OtherArg

  /** An index passed to `__getitem__`: an integer, a slice, or anything else. */
  datatype Index =
    | IntIndex(i: int)
    | SliceIndex(sliceStart: Option<int>, sliceStop: Option<int>, sliceStep: Option<int>)
    | OtherIndex

  /** What `__getitem__` returns: one element, or a new range for a slice. */
  datatype Item = Element(e: int) | SubRange(r: IRange)

  datatype Error =
    | TooManyArguments   // TypeError: more than three arguments
    | TooFewArguments    // TypeError: no argument
    | NonIntArgument     // ValueError: an argument that is not an int
    | ZeroStep           // ValueError: step == 0
    | IndexOutOfRange    // IndexError
    | BadIndexType       // TypeError: neither an int nor a slice
    | ZeroSliceStep      // ValueError raised by slice.indices for a zero slice step

  /** Python's `xrange(start, stop, step)` as a list: the reference the class is compared with. */
  function PyRange(a: int, b: int, s: NonZero): seq<int>
    decreases if s > 0 then b - a else a - b
  {
    if s > 0 then
      (if a < b then [a] + PyRange(a + s, b, s) else [])
    else
      (if a > b then [a] + PyRange(a + s, b, s) else [])
  }

  function AllInts(args: seq<Arg>): bool {
    forall k :: 0 <= k < |args| ==> args[k].IntArg?
  }

  /** `irange.__init__`: argument count, argument types, defaults, then the step check. */
  function Construct(args: seq<Arg>): (r: Result<IRange, Error>)
    ensures |args| > 3 ==> r == Err(TooManyArguments)
    ensures |args| < 1 ==> r == Err(TooFewArguments)
    ensures 1 <= |args| <= 3 && !AllInts(args) ==> r == Err(NonIntArgument)
    ensures r.Ok? <==> 1 <= |args| <= 3 && AllInts(args) && (|args| < 3 || args[2].i != 0)
    ensures r.Ok? && |args| == 1 ==> r.value == IRange(0, args[0].i, 1)
    ensures r.Ok? && |args| == 2 ==> r.value == IRange(args[0].i, args[1].i, 1)
    ensures r.Ok? && |args| == 3 ==>
              r.value.start == args[0].i && r.value.stop == args[1].i && r.value.step == args[2].i
  {
    if |args| > 3 then Err(TooManyArguments)
    else if |args| < 1 then Err(TooFewArguments)
    else if !AllInts(args) then Err(NonIntArgument)
    else if |args| == 1 then Ok(IRange(0, args[0].i, 1))
    else if |args| == 2 then Ok(IRange(args[0].i, args[1].i, 1))
    else if args[2].i == 0 then Err(ZeroStep)
    else Ok(IRange(args[0].i, args[1].i, args[2].i))
  }

  function Sign(x: NonZero): int {
    if x > 0 then 1 else -1
  }

  function Abs(x: int): nat {
    if x < 0 then -x else x
  }

  /** `__len__`; the float `step / abs(step)` is the sign of the step. */
  function Len(r: IRange): nat {
    if (r.stop - r.start) * Sign(r.step) <= 0 then 0
    else 1 + (Abs(r.stop - r.start) - 1) / Abs(r.step)
  }

  /** `_get_index_of_ith_element`. */
  function Ith(r: IRange, i: int): int {
    r.start + r.step * i
  }

  /** Python 2's `slice.indices(length)`: fills in the defaults and clamps against the length. */
  function SliceIndices(length: nat, start: Option<int>, stop: Option<int>, step: Option<int>)
    : (r: Result<(int, int, NonZero), Error>)
    ensures r.Err? <==> step == Some(0)
    ensures r.Ok? && r.value.2 > 0 ==> 0 <= r.value.0 <= length && 0 <= r.value.1 <= length
    ensures r.Ok? && r.value.2 < 0 ==> -1 <= r.value.0 < length && -1 <= r.value.1 < length
  {
    var st := if step.Some? then step.value else 1;
    if st == 0 then Err(ZeroSliceStep)
    else
      var lower := if st < 0 then -1 else 0;
      var upper := if st < 0 then length - 1 else length;
      var i := if start.None? then (if st < 0 then upper else lower) else Clamp(start.value, length, lower, upper);
      var j := if stop.None? then (if st < 0 then lower else upper) else Clamp(stop.value, length, lower, upper);
      Ok((i, j, st))
  }

  /** One bound of `slice.indices`: a negative bound counts from the end, then is clamped. */
  function Clamp(x: int, length: nat, lower: int, upper: int): int {
    if x < 0 then (if x + length < 0 then lower else x + length)
    else if x >= length then upper
    else x
  }

  /** `__getitem__` for an integer, a slice, or anything else. */
  function GetItem(r: IRange, index: Index): (res: Result<Item, Error>)
    ensures |PyRange(r.start, r.stop, r.step)| == Len(r)
    ensures index.OtherIndex? ==> res == Err(BadIndexType)
    ensures index.IntIndex? ==>
      (res.Ok? <==> 0 <= index.i + Len(r) && index.i < Len(r))
    ensures index.IntIndex? && 0 <= index.i < Len(r) ==>
      res == Ok(Element(PyRange(r.start, r.stop, r.step)[index.i]))
    ensures index.IntIndex? && 0 <= index.i + Len(r) && index.i < 0 ==>
      res == Ok(Element(PyRange(r.start, r.stop, r.step)[index.i + Len(r)]))
    ensures index.IntIndex? && !(0 <= index.i + Len(r) && index.i < Len(r)) ==>
      res == Err(IndexOutOfRange)
    ensures index.SliceIndex? ==> (res.Err? <==> index.sliceStep == Some(0))
  {
    LenMatchesRange(r.start, r.stop, r.step);
    match index
    case OtherIndex => Err(BadIndexType)
    case IntIndex(i) =>
      var k := if i < 0 then i + Len(r) else i;
      if !(0 <= k < Len(r)) then Err(IndexOutOfRange)
      else
        ElementsAt(r, k);
        Ok(Element(Ith(r, k)))
    case SliceIndex(start, stop, step) =>
      match SliceIndices(Len(r), start, stop, step)
      case Err(e) => Err(e)
      case Ok((i, j, st)) =>
        var c := Construct([IntArg(Ith(r, i)), IntArg(Ith(r, j)), IntArg(st * r.step)]);
        assert c.Ok?;
        Ok(SubRange(c.value))
  }

  /** The elements of a range in iteration order: what `list(r)` produces. */
  function Elements(r: IRange): seq<int> {
    seq(Len(r), i requires 0 <= i < Len(r) => Ith(r, i))
  }

  // ---------------------------------------------------------------------
  // Properties
  // ---------------------------------------------------------------------

  lemma DivStep(d: int, s: int)
    requires s > 0 && d >= s
    ensures (d - 1) / s == 1 + (d - s - 1) / s
  {
    var q := (d - s - 1) / s;
    var m := (d - s - 1) % s;
    assert d - s - 1 == q * s + m;
    assert (q + 1) * s == q * s + s;
    DivModUnique(d - 1, s, q + 1, m);
  }

  /** The length formula of `__len__` counts exactly the elements of `xrange`. */
  lemma {:induction false} LenMatchesRange(a: int, b: int, s: NonZero)
    ensures |PyRange(a, b, s)| == Len(IRange(a, b, s))
    decreases if s > 0 then b - a else a - b
  {
    if s > 0 {
      if a < b {
        LenMatchesRange(a + s, b, s);
        assert (b - a) * Sign(s) == b - a;
        if b - a - s > 0 {
          assert (b - (a + s)) * Sign(s) == b - a - s;
          DivStep(b - a, s);
        } else {
          assert (b - (a + s)) * Sign(s) <= 0;
        }
      } else {
        assert (b - a) * Sign(s) <= 0;
      }
    } else {
      if a > b {
        LenMatchesRange(a + s, b, s);
        assert (b - a) * Sign(s) == a - b;
        assert Abs(b - a) == a - b;
        assert Abs(s) + s == 0;
        if a - b + s > 0 {
          assert (b - (a + s)) * Sign(s) == a + s - b;
          assert Abs(b - (a + s)) == a - b + s;
          DivStep(a - b, Abs(s));
        } else {
          assert (b - (a + s)) * Sign(s) <= 0;
        }
      } else {
        assert (b - a) * Sign(s) <= 0;
      }
    }
  }

  lemma {:induction false} RangeAt(a: int, b: int, s: NonZero, k: nat)
    requires k < |PyRange(a, b, s)|
    ensures PyRange(a, b, s)[k] == a + s * k
    decreases k
  {
    if k > 0 {
      RangeAt(a + s, b, s, k - 1);
      assert a + s + s * (k - 1) == a + s * k;
    }
  }

  /** Element i of the range is `start + step * i`, and it is element i of `xrange`. */
  lemma ElementsAt(r: IRange, i: nat)
    requires i < Len(r)
    ensures |PyRange(r.start, r.stop, r.step)| == Len(r)
    ensures PyRange(r.start, r.stop, r.step)[i] == Ith(r, i)
  {
    LenMatchesRange(r.start, r.stop, r.step);
    RangeAt(r.start, r.stop, r.step, i);
  }

  /** Iterating an `irange` (indexing 0, 1, ... until IndexError) gives the same list as `xrange`. */
  lemma ElementsMatchXrange(r: IRange)
    ensures Elements(r) == PyRange(r.start, r.stop, r.step)
  {
    LenMatchesRange(r.start, r.stop, r.step);
    forall i | 0 <= i < Len(r)
      ensures Elements(r)[i] == PyRange(r.start, r.stop, r.step)[i]
    {
      ElementsAt(r, i);
    }
  }

  /** A length is zero exactly when stop - start is zero or points against the step. */
  lemma EmptyWhenPointingAway(r: IRange)
    ensures Len(r) == 0 <==> (r.step > 0 && r.stop <= r.start) || (r.step < 0 && r.stop >= r.start)
  {
  }

  function MapAffine(a: int, s: int, xs: seq<int>): (ys: seq<int>)
    ensures |ys| == |xs|
  {
    seq(|xs|, k requires 0 <= k < |xs| => a + s * xs[k])
  }

  lemma MulMonotone(s: NonZero, i: int, j: int)
    ensures s > 0 ==> (i < j <==> s * i < s * j) && (i > j <==> s * i > s * j)
    ensures s < 0 ==> (i < j <==> s * i > s * j) && (i > j <==> s * i < s * j)
  {
    if i < j {
      assert s * j - s * i == s * (j - i);
    } else if i > j {
      assert s * i - s * j == s * (i - j);
    }
  }

  lemma {:induction false} AffineRange(a: int, s: NonZero, i: int, j: int, st: NonZero)
    ensures PyRange(a + s * i, a + s * j, st * s) == MapAffine(a, s, PyRange(i, j, st))
    decreases if st > 0 then j - i else i - j
  {
    var bigStep: NonZero := st * s;
    MulMonotone(s, i, j);
    assert bigStep > 0 <==> (st > 0) == (s > 0);
    if (st > 0 && i < j) || (st < 0 && i > j) {
      AffineRange(a, s, i + st, j, st);
      assert a + s * i + bigStep == a + s * (i + st);
      assert PyRange(a + s * i, a + s * j, bigStep)
          == [a + s * i] + PyRange(a + s * (i + st), a + s * j, bigStep);
      assert PyRange(i, j, st) == [i] + PyRange(i + st, j, st);
    } else {
      assert PyRange(a + s * i, a + s * j, bigStep) == [];
    }
  }

  /**
   * Slicing composes: the range returned for a slice lists exactly r[k] for k in
   * `range(*slice.indices(len(r)))`.
   */
  lemma SliceElements(r: IRange, start: Option<int>, stop: Option<int>, step: Option<int>)
    requires step != Some(0)
    ensures var res := GetItem(r, SliceIndex(start, stop, step));
      var (i, j, st) := SliceIndices(Len(r), start, stop, step).value;
      && res.Ok? && res.value.SubRange?
      && Elements(res.value.r) == MapAffine(r.start, r.step, PyRange(i, j, st))
      && forall k :: 0 <= k < |PyRange(i, j, st)| ==> 0 <= PyRange(i, j, st)[k] < Len(r)
  {
    var (i, j, st) := SliceIndices(Len(r), start, stop, step).value;
    var sub := GetItem(r, SliceIndex(start, stop, step)).value.r;
    assert sub == IRange(Ith(r, i), Ith(r, j), st * r.step);
    ElementsMatchXrange(sub);
    AffineRange(r.start, r.step, i, j, st);
    forall k | 0 <= k < |PyRange(i, j, st)|
      ensures 0 <= PyRange(i, j, st)[k] < Len(r)
    {
      RangeInBounds(i, j, st, Len(r), k);
    }
  }

  lemma {:induction false} RangeInBounds(i: int, j: int, st: NonZero, n: nat, k: nat)
    requires st > 0 ==> 0 <= i <= n && 0 <= j <= n
    requires st < 0 ==> -1 <= i < n && -1 <= j < n
    requires k < |PyRange(i, j, st)|
    ensures 0 <= PyRange(i, j, st)[k] < n
    decreases k
  {
    assert PyRange(i, j, st) == [i] + PyRange(i + st, j, st);
    if k > 0 {
      RangeInBounds(i + st, j, st, n, k - 1);
    }
  }
}
