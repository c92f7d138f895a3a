/** Small facts about finite sets used by the loop-termination and graph proofs. */
module Sets {

  lemma NonEmptyHasElement<T>(s: set<T>)
    requires s != {}
    ensures exists x :: x in s
  {
    var e: set<T> := {};
    assert (forall x :: x !in s) ==> s == e;
  }

  /** Some element of a non-empty set. */
  ghost function Pick<T>(s: set<T>): (x: T)
    requires s != {}
    ensures x in s
  {
    NonEmptyHasElement(s);
    var x :| x in s; x
  }

  lemma SubsetCard<T>(b: set<T>, a: set<T>)
    requires b <= a
    ensures |b| <= |a|
  {
    var c := a - b;
    assert a == b + c;
    assert b * c == {};
  }

  lemma StrictSubsetCard<T>(b: set<T>, a: set<T>, y: T)
    requires b <= a && y in a && y !in b
    ensures |b| < |a|
  {
    var c := a - b;
    assert y in c;
    assert a == b + c;
    assert b * c == {};
  }
}
