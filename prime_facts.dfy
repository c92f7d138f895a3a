/**
 * Primality, divisibility and Euclid's argument that there is always a next
 * prime.  The sieve's output is specified with `IsPrime`, and the prime
 * generator's recursive sub-generator (which yields the next prime each time
 * it is advanced) is computed with `NextPrime`.
 */
module PrimeFacts {
  import opened Arith

  predicate IsPrime(x: int) {
    x >= 2 && forall d :: 2 <= d < x ==> x % d != 0
  }

  function Factorial(n: nat): (r: nat)
    ensures r >= 1
  {
    if n == 0 then 1 else n * Factorial(n - 1)
  }

  lemma MultipleMod(e: int, k: int)
    requires e > 0
    ensures (e * k) % e == 0
  {
    DivModUnique(e * k, e, k, 0);
  }

  lemma ModZeroMultiple(x: int, e: int) returns (k: int)
    requires e > 0 && x % e == 0
    ensures x == e * k
  {
    k := x / e;
  }

  /** Divisibility is transitive. */
  lemma DividesTrans(e: int, r: int, m: int)
    requires e > 0 && r > 0 && r % e == 0 && m % r == 0
    ensures m % e == 0
  {
    var a := ModZeroMultiple(r, e);
    var b := ModZeroMultiple(m, r);
    assert m == e * (a * b);
    MultipleMod(e, a * b);
  }

  /** Every r in [1, n] divides n!. */
  lemma {:induction false} FactorialDivisible(n: nat, r: int)
    requires 1 <= r <= n
    ensures Factorial(n) % r == 0
  {
    if r == n {
      assert Factorial(n) == r * Factorial(n - 1);
      MultipleMod(r, Factorial(n - 1));
    } else {
      FactorialDivisible(n - 1, r);
      var k := ModZeroMultiple(Factorial(n - 1), r);
      assert Factorial(n) == r * (n * k);
      MultipleMod(r, n * k);
    }
  }

  /** No r >= 2 divides both x and x + 1. */
  lemma NoCommonDivisorOfNeighbours(x: int, r: int)
    requires r >= 2 && x % r == 0
    ensures (x + 1) % r != 0
  {
    var a := ModZeroMultiple(x, r);
    DivModUnique(x + 1, r, a, 1);
  }

  /** The least divisor of m that is at least d. */
  function SmallestDivisor(m: nat, d: nat): (r: nat)
    requires 2 <= d <= m
    ensures d <= r <= m && m % r == 0
    ensures forall e :: d <= e < r ==> m % e != 0
    decreases m - d
  {
    if m % d == 0 then d
    else
      assert m % m == 0 by { MultipleMod(m, 1); }
      SmallestDivisor(m, d + 1)
  }

  /** The least divisor >= 2 of any m >= 2 is prime. */
  lemma SmallestDivisorIsPrime(m: nat)
    requires m >= 2
    ensures IsPrime(SmallestDivisor(m, 2))
  {
    var r := SmallestDivisor(m, 2);
    forall e | 2 <= e < r
      ensures r % e != 0
    {
      if r % e == 0 {
        DividesTrans(e, r, m);
      }
    }
  }

  /** The least divisor of a composite m is below m, and its square is at most m. */
  lemma SmallestDivisorOfComposite(m: nat)
    requires m >= 2 && !IsPrime(m)
    ensures SmallestDivisor(m, 2) < m
    ensures SmallestDivisor(m, 2) * SmallestDivisor(m, 2) <= m
  {
    var r := SmallestDivisor(m, 2);
    var d :| 2 <= d < m && m % d == 0;
    var k := ModZeroMultiple(m, r);
    MulGap(1, k, r);
    assert k >= 2;
    MultipleMod(k, r);
    assert m % k == 0;
    assert r * r <= r * k by { MulGap(k, r, r); }
  }

  /** A prime above p: the least divisor of p! + 1. */
  ghost function EuclidWitness(p: nat): (w: nat)
    requires p >= 1
    ensures IsPrime(w) && w > p
  {
    var m := Factorial(p) + 1;
    var w := SmallestDivisor(m, 2);
    SmallestDivisorIsPrime(m);
    if w <= p then
      FactorialDivisible(p, w);
      NoCommonDivisorOfNeighbours(Factorial(p), w);
      assert false;
      w
    else
      w
  }

  function NextPrimeFrom(x: nat, ghost w: nat): (r: nat)
    requires x <= w && IsPrime(w)
    ensures x <= r <= w && IsPrime(r)
    ensures forall y :: x <= y < r ==> !IsPrime(y)
    decreases w - x
  {
    if IsPrime(x) then x else NextPrimeFrom(x + 1, w)
  }

  /** The least prime greater than p. */
  function NextPrime(p: nat): (r: nat)
    requires p >= 1
    ensures r > p && IsPrime(r)
    ensures forall y :: p < y < r ==> !IsPrime(y)
  {
    NextPrimeFrom(p + 1, EuclidWitness(p))
  }
}
