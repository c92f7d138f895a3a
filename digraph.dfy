/**
 * Directed graphs given as adjacency lists (`defaultdict(list)`: a node with
 * no key has no successors), paths, and reachability that avoids a set of
 * nodes.  Reachability avoiding the already-explored nodes is what one
 * depth-first search call discovers; plain reachability defines strongly
 * connected components.
 */
module Digraph {

  type Graph<N> = map<N, seq<N>>

  /** `edges[n]` of a defaultdict(list). */
  function Succ<N(!new)>(g: Graph<N>, n: N): seq<N> {
    if n in g then g[n] else []
  }

  /** Every successor of a node of the set is in the set. */
  ghost predicate Closed<N(!new)>(g: Graph<N>, nodes: set<N>) {
    forall n, k | n in nodes && 0 <= k < |Succ(g, n)| :: Succ(g, n)[k] in nodes
  }

  ghost predicate IsPath<N(!new)>(g: Graph<N>, p: seq<N>) {
    |p| >= 1 && forall k | 0 <= k < |p| - 1 :: p[k + 1] in Succ(g, p[k])
  }

  ghost predicate Avoids<N(!new)>(p: seq<N>, avoid: set<N>) {
    forall k | 0 <= k < |p| :: p[k] !in avoid
  }

  /** p is a path from a to b none of whose nodes (ends included) is in `avoid`. */
  ghost predicate PathAvoiding<N(!new)>(g: Graph<N>, p: seq<N>, a: N, b: N, avoid: set<N>) {
    IsPath(g, p) && p[0] == a && p[|p| - 1] == b && Avoids(p, avoid)
  }

  ghost predicate ReachAvoiding<N(!new)>(g: Graph<N>, a: N, b: N, avoid: set<N>) {
    exists p :: PathAvoiding(g, p, a, b, avoid)
  }

  ghost predicate Reach<N(!new)>(g: Graph<N>, a: N, b: N) {
    ReachAvoiding(g, a, b, {})
  }

  /** a and b lie in the same strongly connected component. */
  ghost predicate StronglyConnected<N(!new)>(g: Graph<N>, a: N, b: N) {
    Reach(g, a, b) && Reach(g, b, a)
  }

  /** The nodes of `nodes` reachable from a while avoiding `avoid`. */
  ghost function ReachFrom<N(!new)>(g: Graph<N>, nodes: set<N>, a: N, avoid: set<N>): set<N> {
    set n | n in nodes && ReachAvoiding(g, a, n, avoid)
  }

  /** The strongly connected component of a within `nodes`. */
  ghost function Component<N(!new)>(g: Graph<N>, nodes: set<N>, a: N): set<N> {
    set n | n in nodes && StronglyConnected(g, a, n)
  }

  // ---------------------------------------------------------------------
  // Paths
  // ---------------------------------------------------------------------

  lemma SubPath<N(!new)>(g: Graph<N>, p: seq<N>, lo: nat, hi: nat, avoid: set<N>)
    requires IsPath(g, p) && Avoids(p, avoid) && lo < hi <= |p|
    ensures IsPath(g, p[lo..hi]) && Avoids(p[lo..hi], avoid)
  {
    var q := p[lo..hi];
    forall k | 0 <= k < |q| - 1
      ensures q[k + 1] in Succ(g, q[k])
    {
      assert q[k] == p[lo + k] && q[k + 1] == p[lo + k + 1];
    }
  }

  lemma PathConcat<N(!new)>(g: Graph<N>, p: seq<N>, q: seq<N>, a: N, m: N, b: N, avoid: set<N>)
    requires PathAvoiding(g, p, a, m, avoid) && PathAvoiding(g, q, m, b, avoid)
    ensures PathAvoiding(g, p + q[1..], a, b, avoid)
  {
    var r := p + q[1..];
    forall k | 0 <= k < |r| - 1
      ensures r[k + 1] in Succ(g, r[k])
    {
      if k + 1 < |p| {
        assert r[k] == p[k] && r[k + 1] == p[k + 1];
      } else {
        var j := k + 1 - |p|;
        assert r[k + 1] == q[j + 1];
        assert r[k] == q[j];
      }
    }
    forall k | 0 <= k < |r|
      ensures r[k] !in avoid
    {
      if k < |p| {
        assert r[k] == p[k];
      } else {
        assert r[k] == q[k - |p| + 1];
      }
    }
  }

  lemma ReachTrans<N(!new)>(g: Graph<N>, a: N, m: N, b: N, avoid: set<N>)
    requires ReachAvoiding(g, a, m, avoid) && ReachAvoiding(g, m, b, avoid)
    ensures ReachAvoiding(g, a, b, avoid)
  {
    var p :| PathAvoiding(g, p, a, m, avoid);
    var q :| PathAvoiding(g, q, m, b, avoid);
    PathConcat(g, p, q, a, m, b, avoid);
  }

  lemma ReachRefl<N(!new)>(g: Graph<N>, a: N, avoid: set<N>)
    requires a !in avoid
    ensures ReachAvoiding(g, a, a, avoid)
  {
    assert PathAvoiding(g, [a], a, a, avoid);
  }

  lemma ReachEdge<N(!new)>(g: Graph<N>, a: N, b: N, avoid: set<N>)
    requires b in Succ(g, a) && a !in avoid && b !in avoid
    ensures ReachAvoiding(g, a, b, avoid)
  {
    assert PathAvoiding(g, [a, b], a, b, avoid);
  }

  lemma ReachEnds<N(!new)>(g: Graph<N>, a: N, b: N, avoid: set<N>)
    requires ReachAvoiding(g, a, b, avoid)
    ensures a !in avoid && b !in avoid
  {
    var p :| PathAvoiding(g, p, a, b, avoid);
  }

  /** Avoiding more nodes reaches fewer. */
  lemma ReachAvoidingMono<N(!new)>(g: Graph<N>, a: N, b: N, avoid: set<N>, fewer: set<N>)
    requires ReachAvoiding(g, a, b, avoid) && fewer <= avoid
    ensures ReachAvoiding(g, a, b, fewer)
  {
    var p :| PathAvoiding(g, p, a, b, avoid);
    assert PathAvoiding(g, p, a, b, fewer);
  }

  lemma {:induction false} PathStaysIn<N(!new)>(g: Graph<N>, nodes: set<N>, p: seq<N>)
    requires Closed(g, nodes) && IsPath(g, p) && p[0] in nodes
    ensures forall k | 0 <= k < |p| :: p[k] in nodes
    decreases |p|
  {
    if |p| > 1 {
      SubPath(g, p, 0, |p| - 1, {});
      PathStaysIn(g, nodes, p[..|p| - 1]);
      assert p[|p| - 2] == p[..|p| - 1][|p| - 2];
      var succ := Succ(g, p[|p| - 2]);
      assert p[|p| - 2 + 1] in succ;
      var k :| 0 <= k < |succ| && succ[k] == p[|p| - 1];
    }
  }

  /** What is reachable from a node of a closed set stays in it. */
  lemma ReachStaysIn<N(!new)>(g: Graph<N>, nodes: set<N>, a: N, b: N, avoid: set<N>)
    requires Closed(g, nodes) && a in nodes && ReachAvoiding(g, a, b, avoid)
    ensures b in nodes
  {
    var p :| PathAvoiding(g, p, a, b, avoid);
    PathStaysIn(g, nodes, p);
  }

  /**
   * A path out of i that avoids `avoid` and ends elsewhere leaves i through
   * some successor j and can then avoid i as well.
   */
  lemma {:induction false} FirstStep<N(!new)>(g: Graph<N>, p: seq<N>, i: N, n: N, avoid: set<N>)
    returns (j: N)
    requires PathAvoiding(g, p, i, n, avoid) && n != i
    ensures j in Succ(g, i) && ReachAvoiding(g, j, n, avoid + {i})
    decreases |p|
  {
    var q := p[1..];
    SubPath(g, p, 1, |p|, avoid);
    if k :| 0 <= k < |q| && q[k] == i {
      SubPath(g, q, k, |q|, avoid);
      j := FirstStep(g, q[k..], i, n, avoid);
    } else {
      j := p[1];
      assert PathAvoiding(g, q, j, n, avoid + {i});
    }
  }

  /**
   * A path from a that avoids X either also avoids R, or passes through some
   * m in R and then reaches b from m avoiding X.
   */
  lemma SplitAtHit<N(!new)>(g: Graph<N>, a: N, b: N, x: set<N>, r: set<N>)
    requires ReachAvoiding(g, a, b, x)
    ensures ReachAvoiding(g, a, b, x + r) || exists m :: m in r && ReachAvoiding(g, m, b, x)
  {
    var p :| PathAvoiding(g, p, a, b, x);
    if k :| 0 <= k < |p| && p[k] in r {
      SubPath(g, p, k, |p|, x);
      assert PathAvoiding(g, p[k..], p[k], b, x);
    } else {
      assert PathAvoiding(g, p, a, b, x + r);
    }
  }

  /** Two graphs with the same successor sets, whatever the order of the lists. */
  ghost predicate SameEdges<N(!new)>(g: Graph<N>, h: Graph<N>) {
    forall x, y :: y in Succ(g, x) <==> y in Succ(h, x)
  }

  /** Reachability depends only on the successor sets. */
  lemma SameEdgesReach<N(!new)>(g: Graph<N>, h: Graph<N>, a: N, b: N)
    requires SameEdges(g, h)
    ensures Reach(g, a, b) <==> Reach(h, a, b)
  {
    if Reach(g, a, b) {
      var p :| PathAvoiding(g, p, a, b, {});
      assert PathAvoiding(h, p, a, b, {});
    }
    if Reach(h, a, b) {
      var p :| PathAvoiding(h, p, a, b, {});
      assert PathAvoiding(g, p, a, b, {});
    }
  }

  /** A node that reaches some other node has a successor. */
  lemma HasSuccessor<N(!new)>(g: Graph<N>, a: N, b: N) returns (j: N)
    requires Reach(g, a, b) && a != b
    ensures j in Succ(g, a)
  {
    var p :| PathAvoiding(g, p, a, b, {});
    j := FirstStep(g, p, a, b, {});
  }
}
