/**
 * `sorted(xs, reverse=True)` on a set of distinct values: the values listed
 * from the largest down.  The order is a parameter so that the same
 * definition serves the integers (finishing times) and the strings (function
 * names, compared code point by code point as Python compares `str`).
 */
module Order {
  import opened Sets

  /** `less` is a strict total order on the elements of s. */
  ghost predicate StrictTotalOn<T(!new)>(less: (T, T) -> bool, s: set<T>) {
    && (forall a | a in s :: !less(a, a))
    && (forall a, b, c | a in s && b in s && c in s && less(a, b) && less(b, c) :: less(a, c))
    && (forall a, b | a in s && b in s && a != b :: less(a, b) || less(b, a))
  }

  lemma {:induction false} MaxExists<T(!new)>(less: (T, T) -> bool, s: set<T>)
    requires s != {} && StrictTotalOn(less, s)
    ensures exists m :: m in s && forall x | x in s && x != m :: less(x, m)
    decreases |s|
  {
    NonEmptyHasElement(s);
    var y :| y in s;
    var rest := s - {y};
    if rest == {} {
      assert s == {y};
    } else {
      MaxExists(less, rest);
      var m :| m in rest && forall x | x in rest && x != m :: less(x, m);
      if less(m, y) {
        forall x | x in s && x != y
          ensures less(x, y)
        {
          if x != m {
            assert x in rest;
          }
        }
      } else {
        forall x | x in s && x != m
          ensures less(x, m)
        {
          if x != y {
            assert x in rest;
          }
        }
      }
    }
  }

  /** The largest element of a non-empty set. */
  function Max<T(!new)>(less: (T, T) -> bool, s: set<T>): (m: T)
    requires s != {} && StrictTotalOn(less, s)
    ensures m in s && forall x | x in s && x != m :: less(x, m)
  {
    MaxExists(less, s);
    var m :| m in s && forall x | x in s && x != m :: less(x, m); m
  }

  /** The elements of s from the largest down. */
  function SortedDesc<T(!new)>(less: (T, T) -> bool, s: set<T>): (r: seq<T>)
    requires StrictTotalOn(less, s)
    ensures |r| == |s|
    ensures forall x :: x in r <==> x in s
    ensures forall i, j | 0 <= i < j < |r| :: less(r[j], r[i])
    decreases |s|
  {
    if s == {} then []
    else
      var m := Max(less, s);
      [m] + SortedDesc(less, s - {m})
  }

  /** In a strictly decreasing list, a larger element comes earlier. */
  lemma EarlierIfLarger<T(!new)>(less: (T, T) -> bool, s: set<T>, i: nat, j: nat)
    requires StrictTotalOn(less, s)
    requires i < |SortedDesc(less, s)| && j < |SortedDesc(less, s)|
    requires less(SortedDesc(less, s)[j], SortedDesc(less, s)[i])
    ensures i < j
  {
    var r := SortedDesc(less, s);
    assert r[i] in s && r[j] in s;
    if j < i {
      assert false;
    } else if j == i {
      assert false;
    }
  }

  predicate IntLess(a: int, b: int) {
    a < b
  }

  lemma IntLessTotal(s: set<int>)
    ensures StrictTotalOn(IntLess, s)
  {
  }

  /** Python's `<` on `str`: lexicographic by code point, a proper prefix first. */
  predicate StringLess(a: string, b: string)
    decreases |a|
  {
    if |a| == 0 then |b| > 0
    else if |b| == 0 then false
    else if a[0] == b[0] then StringLess(a[1..], b[1..])
    else a[0] < b[0]
  }

  lemma {:induction false} StringLessIrreflexive(a: string)
    ensures !StringLess(a, a)
    decreases |a|
  {
    if |a| > 0 {
      StringLessIrreflexive(a[1..]);
    }
  }

  lemma {:induction false} StringLessTransitive(a: string, b: string, c: string)
    requires StringLess(a, b) && StringLess(b, c)
    ensures StringLess(a, c)
    decreases |a|
  {
    if |a| > 0 && a[0] == b[0] && b[0] == c[0] {
      StringLessTransitive(a[1..], b[1..], c[1..]);
    }
  }

  lemma {:induction false} StringLessTotal(a: string, b: string)
    requires a != b
    ensures StringLess(a, b) || StringLess(b, a)
    decreases |a|
  {
    if |a| > 0 && |b| > 0 && a[0] == b[0] {
      assert a == [a[0]] + a[1..] && b == [b[0]] + b[1..];
      StringLessTotal(a[1..], b[1..]);
    }
  }

  lemma StringLessStrictTotal(s: set<string>)
    ensures StrictTotalOn(StringLess, s)
  {
    forall a | a in s
      ensures !StringLess(a, a)
    {
      StringLessIrreflexive(a);
    }
    forall a, b, c | a in s && b in s && c in s && StringLess(a, b) && StringLess(b, c)
      ensures StringLess(a, c)
    {
      StringLessTransitive(a, b, c);
    }
    forall a, b | a in s && b in s && a != b
      ensures StringLess(a, b) || StringLess(b, a)
    {
      StringLessTotal(a, b);
    }
  }
}
