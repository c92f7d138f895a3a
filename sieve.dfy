/**
 * The incremental Sieve of Eratosthenes: a generator of the primes that keeps
 * a dict `D` from upcoming odd composites to the stride (twice the prime) that
 * marked them, and registers a prime p only when the candidate reaches p * p.
 * `D` belongs to one generator run and is not shared, so it is threaded
 * through as a map value that `Add` returns updated.
 */
module Sieve {
  import opened Arith
  import opened PrimeFacts
  import opened Sets

  /**
   * What `add(D, x, s)` does: r is the first of x, x + s, x + 2s, ... that is
   * not a key of D, and D gains exactly the entry r -> s.
   */
  ghost predicate ProbedInsert(D: map<int, int>, x: int, s: int, D': map<int, int>, r: int) {
    && s > 0 && r >= x && (r - x) % s == 0
    && r !in D
    && (forall y | x <= y < r && (y - x) % s == 0 :: y in D)
    && D' == D[r := s]
  }

  /** `add(D, x, s)`: probe x, x + s, ... for a free key and insert the stride there. */
  method Add(D: map<int, int>, x: int, s: int) returns (D': map<int, int>, r: int)
    requires s > 0
    ensures r >= x && (r - x) % s == 0
    ensures r !in D
    ensures forall y | x <= y < r && (y - x) % s == 0 :: y in D
    ensures D' == D[r := s] && |D'| == |D| + 1
    ensures ProbedInsert(D, x, s, D', r)
  {
    r := x;
    ghost var k: nat := 0;
    while r in D
      invariant r == x + k * s
      invariant forall y | x <= y < r && (y - x) % s == 0 :: y in D
      decreases |set y | y in D && y >= r|
    {
      forall y | x <= y < r + s && (y - x) % s == 0
        ensures y in D
      {
        if y >= r {
          DivModUnique(y - x, s, k, y - r);
        }
      }
      StrictSubsetCard((set y | y in D && y >= r + s), (set y | y in D && y >= r), r);
      r := r + s;
      k := k + 1;
    }
    DivModUnique(r - x, s, k, 0);
    D' := D[r := s];
  }

  // ---------------------------------------------------------------------
  // The invariant of the generator loop
  // ---------------------------------------------------------------------

  /** The odd primes already registered in D while the sub-generator stands at p. */
  ghost predicate Active(r: int, p: int) {
    IsPrime(r) && 3 <= r < p
  }

  /** `ps` lists, in increasing order, exactly the primes below c. */
  ghost predicate AllPrimesBelow(ps: seq<int>, c: int) {
    && (forall i, j | 0 <= i < j < |ps| :: ps[i] < ps[j])
    && (forall i | 0 <= i < |ps| :: IsPrime(ps[i]) && ps[i] < c)
    && (forall x | IsPrime(x) && x < c :: x in ps)
  }

  /** Every key of D is an odd multiple, not below c, of the registered prime its stride names. */
  ghost predicate KeysInv(D: map<int, int>, c: int, p: int) {
    forall k | k in D ::
      && k >= c && k % 2 == 1 && D[k] % 2 == 0
      && Active(D[k] / 2, p) && k % (D[k] / 2) == 0 && k > D[k] / 2
  }

  /**
   * Every registered prime r has an entry W[r] with stride 2r, and every odd
   * multiple of r from c up to that entry is itself a key of D.
   */
  ghost predicate WitnessInv(D: map<int, int>, W: map<int, int>, c: int, p: int) {
    && (forall r | Active(r, p) :: r in W)
    && (forall r | r in W ::
          && r >= 3 && W[r] in D && D[W[r]] == 2 * r
          && forall m | c <= m < W[r] && m % r == 0 && m % 2 == 1 :: m in D)
  }

  ghost predicate Inv(ps: seq<int>, D: map<int, int>, W: map<int, int>, c: int, p: int) {
    && |ps| >= 2
    && c % 2 == 1 && 5 <= c <= p * p
    && IsPrime(p) && p >= 3
    && AllPrimesBelow(ps, c)
    && KeysInv(D, c, p)
    && WitnessInv(D, W, c, p)
    && c <= NextPrime(ps[|ps| - 1])
  }

  // ---------------------------------------------------------------------
  // Arithmetic about odd multiples
  // ---------------------------------------------------------------------

  lemma ModAddMultiple(x: int, r: int, k: int)
    requires r > 0
    ensures (r * k + x) % r == x % r
  {
    DivModUnique(r * k + x, r, k + x / r, x % r);
  }

  lemma OddFactor(r: int, i: int)
    ensures (r * i) % 2 == 1 ==> i % 2 == 1
  {
    if i % 2 == 0 {
      var u := i / 2;
      assert r * i == 2 * (r * u);
      MultipleMod(2, r * u);
    }
  }

  /** Two odd multiples a < m of an odd r differ by a positive multiple of 2r. */
  lemma OddMultipleGap(r: int, a: int, m: int)
    requires r >= 3 && r % 2 == 1
    requires a % r == 0 && a % 2 == 1 && m % r == 0 && m % 2 == 1 && m > a
    ensures m >= a + 2 * r && (m - (a + 2 * r)) % (2 * r) == 0
  {
    var i := ModZeroMultiple(a, r);
    var j := ModZeroMultiple(m, r);
    OddFactor(r, i);
    OddFactor(r, j);
    CancelLess(r, i, j);
    var u, v := i / 2, j / 2;
    assert i == 2 * u + 1 && j == 2 * v + 1;
    var t := v - u;
    assert t >= 1;
    assert m - (a + 2 * r) == r * (j - i - 2);
    assert j - i - 2 == 2 * (t - 1);
    assert r * (2 * (t - 1)) == (2 * r) * (t - 1);
    MulGap(t, 0, 2 * r);
    MultipleMod(2 * r, t - 1);
  }

  lemma CancelLess(r: int, i: int, j: int)
    requires r > 0 && r * i < r * j
    ensures i < j
  {
    MulGap(i, j, r);
  }

  /** A prime r cannot divide the product of two numbers in (0, r). */
  lemma {:induction false} PrimeNotDividesProduct(r: int, a: int, b: int)
    requires IsPrime(r) && 0 < a < r && 0 < b < r
    ensures (a * b) % r != 0
    decreases b
  {
    if b == 1 {
      DivModUnique(a, r, 0, a);
    } else {
      var q, t := r / b, r % b;
      assert r % b != 0;
      DivModUnique(r, b, q, t);
      PrimeNotDividesProduct(r, a, t);
      CombinationDivisible(r, a, b, q, t);
    }
  }

  lemma CombinationDivisible(r: int, a: int, b: int, q: int, t: int)
    requires r > 0 && r == q * b + t
    ensures (a * b) % r == 0 ==> (a * t) % r == 0
  {
    if (a * b) % r == 0 {
      var k := ModZeroMultiple(a * b, r);
      assert a * t == a * r - q * (a * b);
      assert a * t == r * (a - q * k);
      MultipleMod(r, a - q * k);
    }
  }

  /** The square of a prime p has no prime divisor below p. */
  lemma PrimeSquareNotMultiple(p: int, r: int)
    requires IsPrime(p) && IsPrime(r) && r < p
    ensures (p * p) % r != 0
  {
    var a, b := p / r, p % r;
    assert p % r != 0;
    assert p == r * a + b;
    assert p * p == r * (r * a * a + 2 * a * b) + b * b;
    ModAddMultiple(b * b, r, r * a * a + 2 * a * b);
    PrimeNotDividesProduct(r, b, b);
  }

  /** An odd number below p * p with no registered prime factor left unmarked is prime. */
  lemma CompositeIsMarked(D: map<int, int>, W: map<int, int>, c: int, p: int)
    requires c % 2 == 1 && 5 <= c < p * p && p >= 3
    requires KeysInv(D, c, p) && WitnessInv(D, W, c, p)
    ensures !IsPrime(c) ==> c in D
  {
    if !IsPrime(c) {
      var r := SmallestDivisor(c, 2);
      SmallestDivisorIsPrime(c);
      SmallestDivisorOfComposite(c);
      SquareLess(r, p);
      assert r != 2;
      assert Active(r, p);
      var w := W[r];
      if c < w {
        assert c in D;
      }
    }
  }

  // ---------------------------------------------------------------------
  // One iteration of the loop, by case
  // ---------------------------------------------------------------------

  lemma AboveEvenNotPrime(x: int)
    requires x >= 4 && x % 2 == 0
    ensures !IsPrime(x)
  {
  }

  lemma NextOdd(c: int)
    requires c % 2 == 1
    ensures (c + 1) % 2 == 0 && (c + 2) % 2 == 1
  {
    DivModUnique(c + 1, 2, c / 2 + 1, 0);
    DivModUnique(c + 2, 2, c / 2 + 1, 1);
  }

  lemma KeysShift(D: map<int, int>, c: int, p: int)
    requires KeysInv(D, c, p) && c !in D && c % 2 == 1
    ensures KeysInv(D, c + 2, p)
  {
    forall k | k in D
      ensures k >= c + 2
    {
      NextOdd(c);
      assert k % 2 == 1 && k != c;
    }
  }

  lemma WitnessShift(D: map<int, int>, W: map<int, int>, c: int, p: int)
    requires WitnessInv(D, W, c, p)
    ensures WitnessInv(D, W, c + 2, p)
  {
  }

  /** A composite odd c adds nothing to the primes below c + 2. */
  lemma PrimesBelowSkip(ps: seq<int>, c: int)
    requires AllPrimesBelow(ps, c) && !IsPrime(c) && c % 2 == 1 && c >= 3
    ensures AllPrimesBelow(ps, c + 2)
  {
    AboveEvenNotPrime(c + 1);
  }

  /** A prime odd c is the one prime to append for the primes below c + 2. */
  lemma PrimesBelowAppend(ps: seq<int>, c: int)
    requires AllPrimesBelow(ps, c) && IsPrime(c) && c % 2 == 1 && c >= 3
    ensures AllPrimesBelow(ps + [c], c + 2)
  {
    AboveEvenNotPrime(c + 1);
    var ps' := ps + [c];
    forall x | IsPrime(x) && x < c + 2
      ensures x in ps'
    {
      if x < c {
        assert x in ps;
      }
    }
  }

  /** The next prime after the last yielded one is still ahead of an odd composite c. */
  lemma NextPrimeAhead(last: nat, c: int)
    requires last >= 1 && c <= NextPrime(last) && !IsPrime(c) && c % 2 == 1 && c >= 3
    ensures c + 2 <= NextPrime(last)
  {
    var np := NextPrime(last);
    NextOdd(c);
    AboveEvenNotPrime(c + 1);
    assert np != c && np != c + 1;
  }

  /** `c not in D and c < q`: c is prime and is yielded. */
  lemma StepYield(ps: seq<int>, D: map<int, int>, W: map<int, int>, c: int, p: int)
    requires Inv(ps, D, W, c, p) && c !in D && c < p * p
    ensures IsPrime(c)
    ensures Inv(ps + [c], D, W, c + 2, p)
  {
    CompositeIsMarked(D, W, c, p);
    PrimesBelowAppend(ps, c);
    KeysShift(D, c, p);
    WitnessShift(D, W, c, p);
    NextOdd(c);
    AboveEvenNotPrime(c + 1);
    assert c + 2 <= NextPrime(c) by {
      assert NextPrime(c) != c + 1;
    }
    var ps' := ps + [c];
    assert ps'[|ps'| - 1] == c;
    assert c + 2 <= p * p by {
      assert p % 2 == 1;
      OddSquare(p);
    }
    assert |ps'| >= 2;
    assert (c + 2) % 2 == 1 && 5 <= c + 2;
    assert IsPrime(p) && p >= 3;
    assert AllPrimesBelow(ps', c + 2);
    assert KeysInv(D, c + 2, p);
    assert WitnessInv(D, W, c + 2, p);
  }

  lemma OddSquare(p: int)
    requires p % 2 == 1
    ensures (p * p) % 2 == 1
  {
    var u := p / 2;
    assert p * p == 2 * (2 * u * u + 2 * u) + 1;
    DivModUnique(p * p, 2, 2 * u * u + 2 * u, 1);
  }

  /** The first free odd multiple found by probing from c + 2r with stride 2r is an odd multiple of r. */
  lemma ProbedKeyIsOddMultiple(D0: map<int, int>, r: int, c: int, D': map<int, int>, x: int)
    requires r >= 3 && r % 2 == 1 && c % r == 0 && c % 2 == 1 && c > 0
    requires ProbedInsert(D0, c + 2 * r, 2 * r, D', x)
    ensures x % r == 0 && x % 2 == 1 && x > r && x >= c + 2
  {
    var j := (x - (c + 2 * r)) / (2 * r);
    DivModUnique(x - (c + 2 * r), 2 * r, j, 0);
    var i := ModZeroMultiple(c, r);
    assert x == r * (i + 2 + 2 * j);
    MultipleMod(r, i + 2 + 2 * j);
    assert x == c + 2 * (r + r * j);
    ModAddMultiple(c, 2, r + r * j);
    assert c >= r by {
      CancelLess(r, 0, i);
      MulGap(i, 0, r);
    }
  }

  /** Inserting the probed key keeps every key an odd multiple of a registered prime. */
  lemma KeysAfterInsert(D0: map<int, int>, c: int, p: int, p': int, r: int,
                        D': map<int, int>, x: int)
    requires KeysInv(D0, c, p) && c !in D0 && c % 2 == 1 && c > 0
    requires forall r' | Active(r', p) :: Active(r', p')
    requires Active(r, p') && r % 2 == 1 && c % r == 0
    requires ProbedInsert(D0, c + 2 * r, 2 * r, D', x)
    ensures KeysInv(D', c + 2, p')
  {
    KeysShift(D0, c, p);
    ProbedKeyIsOddMultiple(D0, r, c, D', x);
    assert (2 * r) / 2 == r;
  }

  /** The witnesses of the registered primes other than r, all at or after c. */
  ghost predicate WitnessesExcept(D0: map<int, int>, W: map<int, int>, c: int, r: int) {
    forall r' | r' in W && r' != r ::
      && r' >= 3 && W[r'] in D0 && D0[W[r']] == 2 * r'
      && forall m | c <= m < W[r'] && m % r' == 0 && m % 2 == 1 :: m in D0
  }

  /** Re-pointing r's witness at the probed key restores the witness invariant. */
  lemma WitnessAfterInsert(D0: map<int, int>, W: map<int, int>, c: int, p': int, r: int,
                           D': map<int, int>, x: int)
    requires WitnessesExcept(D0, W, c + 2, r)
    requires forall r' | Active(r', p') :: r' in W || r' == r
    requires r >= 3 && r % 2 == 1 && c % r == 0 && c % 2 == 1
    requires ProbedInsert(D0, c + 2 * r, 2 * r, D', x)
    ensures WitnessInv(D', W[r := x], c + 2, p')
  {
    var W' := W[r := x];
    forall r' | r' in W'
      ensures r' >= 3 && W'[r'] in D' && D'[W'[r']] == 2 * r'
      ensures forall m | c + 2 <= m < W'[r'] && m % r' == 0 && m % 2 == 1 :: m in D'
    {
      if r' == r {
        forall m | c + 2 <= m < x && m % r == 0 && m % 2 == 1
          ensures m in D'
        {
          OddMultipleGap(r, c, m);
        }
      } else {
        assert W[r'] in D0;
      }
    }
  }

  /** `c == q`: register p with its next odd multiple and advance the sub-generator. */
  lemma StepActivate(ps: seq<int>, D: map<int, int>, W: map<int, int>, c: int, p: int,
                     D': map<int, int>, x: int)
    requires Inv(ps, D, W, c, p) && c !in D && c >= p * p
    requires ProbedInsert(D, c + 2 * p, 2 * p, D', x)
    ensures c == p * p && !IsPrime(c)
    ensures Inv(ps, D', W[p := x], c + 2, NextPrime(p))
  {
    var p' := NextPrime(p);
    assert c == p * p by {
      assert c <= p * p;
    }
    assert c % p == 0 by { MultipleMod(p, p); }
    assert p % 2 == 1;
    assert 2 <= p < c by { MulGap(p, 1, p); }
    assert !IsPrime(c);
    assert p' * p' >= c + 2 by {
      MulGap(p', p, p');
      MulGap(p', p, p);
    }
    assert forall r' | Active(r', p) :: Active(r', p');
    assert forall r' | Active(r', p') :: r' in W || r' == p;
    assert Active(p, p');
    KeysAfterInsert(D, c, p, p', p, D', x);
    WitnessAfterInsert(D, W, c, p', p, D', x);
    PrimesBelowSkip(ps, c);
    NextPrimeAhead(ps[|ps| - 1], c);
    NextOdd(c);
    assert IsPrime(p') && p' >= 3;
    assert KeysInv(D', c + 2, p');
    assert WitnessInv(D', W[p := x], c + 2, p');
    assert AllPrimesBelow(ps, c + 2);
  }

  /** `c in D`: pop c and re-insert its stride at the next free odd multiple. */
  lemma StepAdvance(ps: seq<int>, D: map<int, int>, W: map<int, int>, c: int, p: int,
                    D': map<int, int>, x: int)
    requires Inv(ps, D, W, c, p) && c in D
    requires ProbedInsert(D - {c}, c + D[c], D[c], D', x)
    ensures !IsPrime(c)
    ensures Inv(ps, D', W[D[c] / 2 := x], c + 2, p)
  {
    var r := D[c] / 2;
    assert D[c] == 2 * r;
    assert c % r == 0 && c > r >= 3;
    assert !IsPrime(c);
    assert c < p * p by {
      forall r' | IsPrime(r') && 3 <= r' < p
        ensures (p * p) % r' != 0
      {
        PrimeSquareNotMultiple(p, r');
      }
    }
    assert r % 2 == 1;
    var D0 := D - {c};
    assert KeysInv(D0, c, p);
    KeysAfterInsert(D0, c, p, p, r, D', x);
    assert WitnessesExcept(D0, W, c + 2, r) by {
      forall r' | r' in W && r' != r
        ensures W[r'] in D0
      {
        assert D[W[r']] != D[c];
      }
    }
    WitnessAfterInsert(D0, W, c, p, r, D', x);
    PrimesBelowSkip(ps, c);
    NextPrimeAhead(ps[|ps| - 1], c);
    NextOdd(c);
    assert c + 2 <= p * p by {
      OddSquare(p);
    }
  }

  // ---------------------------------------------------------------------
  // The generator
  // ---------------------------------------------------------------------

  /**
   * `list(islice(primes(), n))`: the first n values of the generator.  The
   * sub-generator `ps` runs the same generator, so advancing it past p yields
   * the least prime above p.
   */
  method Primes(n: nat) returns (ps: seq<int>)
    ensures |ps| == n
    ensures forall i, j | 0 <= i < j < |ps| :: ps[i] < ps[j]
    ensures forall i | 0 <= i < |ps| :: IsPrime(ps[i])
    ensures forall i, x | 0 <= i < |ps| && IsPrime(x) && x <= ps[i] :: x in ps
  {
    ps := [];
    if n == 0 { return; }
    ps := [2];
    if n == 1 { return; }
    ps := [2, 3];
    var D: map<int, int> := map[];
    var c := 5;
    var p := 2;           // next(ps): skip 2
    p := NextPrime(p);    // p = next(ps), which is 3
    var q := p * p;
    ghost var W: map<int, int> := map[];
    InvInit();
    while |ps| < n
      invariant 2 <= |ps| <= n
      invariant q == p * p
      invariant Inv(ps, D, W, c, p)
      decreases n - |ps|, NextPrime(ps[|ps| - 1]) - c
    {
      ps, D, W, p, q := SieveStep(ps, D, W, c, p, q);
      c := c + 2;
    }
    InvFinal(ps, D, W, c, p);
  }

  /**
   * One pass of the loop body for the odd candidate c, before `c += 2`:
   * yield c, register p at p * p, or move c's stride to its next free multiple.
   */
  method SieveStep(ps: seq<int>, D: map<int, int>, ghost W: map<int, int>, c: int, p: int, q: int)
    returns (ps': seq<int>, D': map<int, int>, ghost W': map<int, int>, p': int, q': int)
    requires q == p * p && Inv(ps, D, W, c, p)
    ensures q' == p' * p' && Inv(ps', D', W', c + 2, p')
    ensures if IsPrime(c) then ps' == ps + [c] else ps' == ps
  {
    ps', D', W', p', q' := ps, D, W, p, q;
    if c !in D {
      if c < q {
        StepYield(ps, D, W, c, p);
        ps' := ps + [c];
      } else {
        var x;
        D', x := Add(D, c + 2 * p, 2 * p);
        StepActivate(ps, D, W, c, p, D', x);
        W' := W[p := x];
        p' := NextPrime(p);
        q' := p' * p';
      }
    } else {
      var s := D[c];
      var x;
      D', x := Add(D - {c}, c + s, s);
      StepAdvance(ps, D, W, c, p, D', x);
      W' := W[s / 2 := x];
    }
  }

  /** The state after `yield 2; yield 3` with the sub-generator at 3. */
  lemma InvInit()
    ensures NextPrime(2) == 3
    ensures Inv([2, 3], map[], map[], 5, 3)
  {
    assert IsPrime(3);
    AboveEvenNotPrime(4);
    assert AllPrimesBelow([2, 3], 5) by {
      forall x | IsPrime(x) && x < 5
        ensures x in [2, 3]
      {
        AboveEvenNotPrime(4);
      }
    }
  }

  lemma InvFinal(ps: seq<int>, D: map<int, int>, W: map<int, int>, c: int, p: int)
    requires Inv(ps, D, W, c, p)
    ensures forall i, j | 0 <= i < j < |ps| :: ps[i] < ps[j]
    ensures forall i | 0 <= i < |ps| :: IsPrime(ps[i])
    ensures forall i, x | 0 <= i < |ps| && IsPrime(x) && x <= ps[i] :: x in ps
  {
  }
}
