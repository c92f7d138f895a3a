/**
 * Why the two passes of `_get_leaders` find the strongly connected
 * components.  The first pass runs on the reversed graph; by the time it is
 * over, every node has a finishing time, and along any path of that graph
 * the component of the start holds a node that finishes no earlier than
 * every node of the component of the end.  The second pass searches the
 * forward graph from the latest finisher down; each search then stays inside
 * one component and takes all of it.
 */
module Kosaraju {
  import opened Sets
  import opened Digraph
  import opened Dfs

  // ---------------------------------------------------------------------
  // Strongly connected components
  // ---------------------------------------------------------------------

  lemma StronglyConnectedTrans<N(!new)>(g: Graph<N>, a: N, b: N, c: N)
    requires StronglyConnected(g, a, b) && StronglyConnected(g, b, c)
    ensures StronglyConnected(g, a, c)
  {
    ReachTrans(g, a, b, c, {});
    ReachTrans(g, c, b, a, {});
  }

  lemma JoinComponent<N(!new)>(g: Graph<N>, nodes: set<N>, a: N, b: N, c: N)
    requires c in nodes && StronglyConnected(g, a, b) && StronglyConnected(g, b, c)
    ensures c in Component(g, nodes, a)
  {
    StronglyConnectedTrans(g, a, b, c);
  }

  lemma InOwnComponent<N(!new)>(g: Graph<N>, nodes: set<N>, a: N)
    requires a in nodes
    ensures a in Component(g, nodes, a)
  {
    ReachRefl(g, a, {});
  }

  lemma SameComponent<N(!new)>(g: Graph<N>, nodes: set<N>, a: N, b: N)
    requires StronglyConnected(g, a, b)
    ensures Component(g, nodes, a) == Component(g, nodes, b)
  {
    forall w | w in Component(g, nodes, a)
      ensures w in Component(g, nodes, b)
    {
      StronglyConnectedTrans(g, b, a, w);
    }
    forall w | w in Component(g, nodes, b)
      ensures w in Component(g, nodes, a)
    {
      StronglyConnectedTrans(g, a, b, w);
    }
  }

  /**
   * Every path between two nodes of one component stays in the component, so
   * if no node of the component is avoided, the path avoids nothing.
   */
  lemma ReachWithin<N(!new)>(g: Graph<N>, nodes: set<N>, u: N, v: N, avoid: set<N>)
    requires Closed(g, nodes) && u in nodes && StronglyConnected(g, u, v)
    requires forall w | w in Component(g, nodes, u) :: w !in avoid
    ensures ReachAvoiding(g, u, v, avoid)
  {
    var p :| PathAvoiding(g, p, u, v, {});
    PathStaysIn(g, nodes, p);
    forall k | 0 <= k < |p|
      ensures p[k] !in avoid
    {
      SubPath(g, p, 0, k + 1, {});
      assert PathAvoiding(g, p[0..k + 1], u, p[k], {});
      SubPath(g, p, k, |p|, {});
      assert PathAvoiding(g, p[k..], p[k], v, {});
      ReachTrans(g, p[k], v, u, {});
      assert p[k] in Component(g, nodes, u);
    }
    assert PathAvoiding(g, p, u, v, avoid);
  }

  // ---------------------------------------------------------------------
  // Extreme values of a map over a finite set
  // ---------------------------------------------------------------------

  lemma {:induction false} MinBy<N(!new)>(m: map<N, nat>, s: set<N>) returns (z: N)
    requires s != {} && s <= m.Keys
    ensures z in s && forall w | w in s :: m[z] <= m[w]
    decreases |s|
  {
    NonEmptyHasElement(s);
    var y :| y in s;
    var rest := s - {y};
    if rest == {} {
      assert s == {y};
      z := y;
    } else {
      var z' := MinBy(m, rest);
      z := if m[y] < m[z'] then y else z';
      forall w | w in s
        ensures m[z] <= m[w]
      {
        if w != y {
          assert w in rest;
        }
      }
    }
  }

  lemma {:induction false} MaxBy<N(!new)>(m: map<N, nat>, s: set<N>) returns (x: N)
    requires s != {} && s <= m.Keys
    ensures x in s && forall w | w in s :: m[w] <= m[x]
    decreases |s|
  {
    NonEmptyHasElement(s);
    var y :| y in s;
    var rest := s - {y};
    if rest == {} {
      assert s == {y};
      x := y;
    } else {
      var x' := MaxBy(m, rest);
      x := if m[x'] < m[y] then y else x';
      forall w | w in s
        ensures m[w] <= m[x]
      {
        if w != y {
          assert w in rest;
        }
      }
    }
  }

  // ---------------------------------------------------------------------
  // The first pass
  // ---------------------------------------------------------------------

  /**
   * A pass that has explored all of `nodes`: discovery indices and finishing
   * times are one-to-one, and the search facts of every call hold.
   */
  ghost predicate Finished<N(!new)>(g: Graph<N>, nodes: set<N>, disc: map<N, nat>,
                                    times: map<N, nat>, desc: map<N, set<N>>) {
    && Closed(g, nodes)
    && DiscInv(disc, nodes)
    && times.Keys == nodes
    && (forall a, b | a in times && b in times && times[a] == times[b] :: a == b)
    && DescInv(g, nodes, disc, times, desc)
  }

  /** The component of a node holds its latest finisher. */
  lemma MaxOfComponent<N(!new)>(g: Graph<N>, nodes: set<N>, disc: map<N, nat>,
                                times: map<N, nat>, desc: map<N, set<N>>, a: N) returns (x: N)
    requires Finished(g, nodes, disc, times, desc) && a in nodes
    ensures x in Component(g, nodes, a)
    ensures forall y | y in Component(g, nodes, a) :: times[y] <= times[x]
  {
    InOwnComponent(g, nodes, a);
    x := MaxBy(times, Component(g, nodes, a));
  }

  /**
   * The edge a -> b, where the first discovered node z of both components
   * lies in a's component: the call on z reaches all of b's component.
   */
  lemma EdgeFromFirst<N(!new)>(g: Graph<N>, nodes: set<N>, disc: map<N, nat>,
                               times: map<N, nat>, desc: map<N, set<N>>, a: N, b: N, z: N)
    requires Finished(g, nodes, disc, times, desc) && a in nodes && b in nodes && b in Succ(g, a)
    requires z in Component(g, nodes, a)
    requires forall w | w in Component(g, nodes, a) + Component(g, nodes, b) :: disc[z] <= disc[w]
    ensures forall y | y in Component(g, nodes, b) :: times[y] <= times[z]
  {
    var before := Before(disc, z);
    SameComponent(g, nodes, a, z);
    InOwnComponent(g, nodes, b);
    assert forall w | w in Component(g, nodes, z) :: w !in before;
    assert forall w | w in Component(g, nodes, b) :: w !in before;
    ReachWithin(g, nodes, z, a, before);
    ReachEdge(g, a, b, before);
    ReachTrans(g, z, a, b, before);
    forall y | y in Component(g, nodes, b)
      ensures times[y] <= times[z]
    {
      ReachWithin(g, nodes, b, y, before);
      ReachTrans(g, z, b, y, before);
      assert y in ReachFrom(g, nodes, z, before);
      assert y in desc[z];
    }
  }

  /**
   * The edge a -> b between two components, where the first discovered node
   * z of both lies in b's component: the call on z takes b's component but
   * cannot reach a, so a finishes after all of b's component.
   */
  lemma EdgeIntoFirst<N(!new)>(g: Graph<N>, nodes: set<N>, disc: map<N, nat>,
                               times: map<N, nat>, desc: map<N, set<N>>, a: N, b: N, z: N)
    requires Finished(g, nodes, disc, times, desc) && a in nodes && b in nodes && b in Succ(g, a)
    requires !StronglyConnected(g, a, b)
    requires z in Component(g, nodes, b) && z !in Component(g, nodes, a)
    requires forall w | w in Component(g, nodes, a) + Component(g, nodes, b) :: disc[z] <= disc[w]
    ensures forall y | y in Component(g, nodes, b) :: times[y] < times[a]
  {
    var before := Before(disc, z);
    SameComponent(g, nodes, b, z);
    InOwnComponent(g, nodes, a);
    assert forall w | w in Component(g, nodes, z) :: w !in before;
    assert z in desc;
    assert a !in desc[z] by {
      if a in desc[z] {
        assert ReachAvoiding(g, z, a, before);
        ReachAvoidingMono(g, z, a, before, {});
        ReachTrans(g, b, z, a, {});
        ReachEdge(g, a, b, {});
        assert false;
      }
    }
    assert times[z] < times[a];
    forall y | y in Component(g, nodes, b)
      ensures times[y] <= times[z]
    {
      ReachWithin(g, nodes, z, y, before);
      assert y in ReachFrom(g, nodes, z, before);
      assert y in desc[z];
    }
  }

  /**
   * For an edge a -> b of the searched graph, a's component holds a node
   * that finishes no earlier than any node of b's component.
   */
  lemma EdgeDominator<N(!new)>(g: Graph<N>, nodes: set<N>, disc: map<N, nat>,
                               times: map<N, nat>, desc: map<N, set<N>>, a: N, b: N) returns (x: N)
    requires Finished(g, nodes, disc, times, desc) && a in nodes && b in Succ(g, a)
    ensures b in nodes
    ensures x in Component(g, nodes, a)
    ensures forall y | y in Component(g, nodes, b) :: times[y] <= times[x]
  {
    var succ := Succ(g, a);
    var k :| 0 <= k < |succ| && succ[k] == b;
    if StronglyConnected(g, a, b) {
      SameComponent(g, nodes, a, b);
      x := MaxOfComponent(g, nodes, disc, times, desc, a);
    } else {
      var both := Component(g, nodes, a) + Component(g, nodes, b);
      InOwnComponent(g, nodes, a);
      var z := MinBy(disc, both);
      if z in Component(g, nodes, a) {
        EdgeFromFirst(g, nodes, disc, times, desc, a, b, z);
        x := z;
      } else {
        EdgeIntoFirst(g, nodes, disc, times, desc, a, b, z);
        x := a;
      }
    }
  }

  /** The same along a whole path. */
  lemma {:induction false} PathDominator<N(!new)>(g: Graph<N>, nodes: set<N>, disc: map<N, nat>,
                                                  times: map<N, nat>, desc: map<N, set<N>>, p: seq<N>)
    returns (x: N)
    requires Finished(g, nodes, disc, times, desc) && IsPath(g, p) && p[0] in nodes
    ensures x in Component(g, nodes, p[0])
    ensures forall y | y in Component(g, nodes, p[|p| - 1]) :: times[y] <= times[x]
    decreases |p|
  {
    if |p| == 1 {
      x := MaxOfComponent(g, nodes, disc, times, desc, p[0]);
    } else {
      x := EdgeDominator(g, nodes, disc, times, desc, p[0], p[1]);
      SubPath(g, p, 1, |p|, {});
      var x' := PathDominator(g, nodes, disc, times, desc, p[1..]);
      assert p[1..][|p[1..]| - 1] == p[|p| - 1];
    }
  }

  /**
   * The property the second pass relies on: when b is reachable from a but
   * not the other way round, some node of a's component finishes after b.
   */
  lemma LaterInComponent<N(!new)>(g: Graph<N>, nodes: set<N>, disc: map<N, nat>,
                                  times: map<N, nat>, desc: map<N, set<N>>, a: N, b: N) returns (x: N)
    requires Finished(g, nodes, disc, times, desc) && a in nodes
    requires Reach(g, a, b) && !StronglyConnected(g, a, b)
    ensures b in nodes && x in Component(g, nodes, a) && times[b] < times[x]
  {
    var p :| PathAvoiding(g, p, a, b, {});
    ReachStaysIn(g, nodes, a, b, {});
    x := PathDominator(g, nodes, disc, times, desc, p);
    InOwnComponent(g, nodes, b);
  }

  // ---------------------------------------------------------------------
  // The second pass
  // ---------------------------------------------------------------------

  /** A pass whose outer loop has gone over all of `order` and explored all of `nodes`. */
  ghost predicate PassDone<N(!new)>(g: Graph<N>, nodes: set<N>, order: seq<N>, st: PassState<N>,
                                    disc: map<N, nat>, desc: map<N, set<N>>, start: map<N, nat>) {
    && Inv(g, nodes, st, disc, desc)
    && RootInv(order, |order|, st, disc, desc, start)
    && st.explored == nodes
  }

  /**
   * What the first pass guarantees about the order of the second: whenever a
   * leader r reaches w without being reached back, some node of w's
   * component comes before r in the order.
   */
  ghost predicate Ordered<N(!new)>(g: Graph<N>, nodes: set<N>, order: seq<N>, start: map<N, nat>) {
    forall r, w | r in start && w in nodes && Reach(g, r, w) && !StronglyConnected(g, r, w) ::
      exists a :: 0 <= a < start[r] && a < |order| && StronglyConnected(g, w, order[a])
  }

  /** The searches of the leaders discovered before r took whole components. */
  ghost predicate ComponentsBelow<N(!new)>(g: Graph<N>, nodes: set<N>, disc: map<N, nat>,
                                           desc: map<N, set<N>>, start: map<N, nat>, r: N) {
    forall r' | r' in start && r' in disc && r in disc && disc[r'] < disc[r] ::
      r' in desc && desc[r'] == Component(g, nodes, r')
  }

  lemma PassDoneReach<N(!new)>(g: Graph<N>, nodes: set<N>, order: seq<N>, st: PassState<N>,
                               disc: map<N, nat>, desc: map<N, set<N>>, start: map<N, nat>)
    requires PassDone(g, nodes, order, st, disc, desc, start)
    ensures Closed(g, nodes) && disc.Keys == nodes
    ensures forall y | y in desc :: desc[y] == ReachFrom(g, nodes, y, Before(disc, y))
    ensures forall n | n in disc :: disc[n] < |nodes|
  {
    InvParts(g, nodes, st, disc, desc);
  }

  lemma PassDoneOrder<N(!new)>(g: Graph<N>, nodes: set<N>, order: seq<N>, st: PassState<N>,
                               disc: map<N, nat>, desc: map<N, set<N>>, start: map<N, nat>)
    requires PassDone(g, nodes, order, st, disc, desc, start)
    ensures forall a | 0 <= a < |order| :: order[a] in nodes
    ensures forall r | r in start :: start[r] < |order| && order[start[r]] == r && r in desc && r in disc
    ensures forall r, a | r in start && 0 <= a < start[r] && a < |order| ::
              order[a] in disc && disc[order[a]] < disc[r]
  {
    RootInvFacts(order, |order|, st, disc, desc, start);
  }

  lemma PassDoneRoots<N(!new)>(g: Graph<N>, nodes: set<N>, order: seq<N>, st: PassState<N>,
                               disc: map<N, nat>, desc: map<N, set<N>>, start: map<N, nat>)
    requires PassDone(g, nodes, order, st, disc, desc, start)
    ensures forall r | r in start :: r in nodes && r in desc && desc[r] == LedBy(st.leader, r)
  {
    PassDoneOrder(g, nodes, order, st, disc, desc, start);
    RootInvFacts(order, |order|, st, disc, desc, start);
  }

  lemma PassDoneLeaders<N(!new)>(g: Graph<N>, nodes: set<N>, order: seq<N>, st: PassState<N>,
                                 disc: map<N, nat>, desc: map<N, set<N>>, start: map<N, nat>)
    requires PassDone(g, nodes, order, st, disc, desc, start)
    ensures st.leader.Keys == nodes && forall n | n in st.leader :: st.leader[n] in start
  {
    InvParts(g, nodes, st, disc, desc);
    RootInvFacts(order, |order|, st, disc, desc, start);
  }

  /** What the pass says about one of its leaders. */
  lemma RootFacts<N(!new)>(g: Graph<N>, nodes: set<N>, order: seq<N>, st: PassState<N>,
                           disc: map<N, nat>, desc: map<N, set<N>>, start: map<N, nat>, r: N)
    requires PassDone(g, nodes, order, st, disc, desc, start) && r in start
    ensures r in nodes && r in disc && r in desc
    ensures desc[r] == ReachFrom(g, nodes, r, Before(disc, r)) && desc[r] == LedBy(st.leader, r)
    ensures r in st.leader && st.leader[r] == r
  {
    hide PassDone;
    PassDoneReach(g, nodes, order, st, disc, desc, start);
    PassDoneRoots(g, nodes, order, st, disc, desc, start);
    ReachRefl(g, r, Before(disc, r));
    assert r in ReachFrom(g, nodes, r, Before(disc, r));
  }

  /** Every explored node has a leader whose search discovered it, no earlier than the leader. */
  lemma LeaderFacts<N(!new)>(g: Graph<N>, nodes: set<N>, order: seq<N>, st: PassState<N>,
                             disc: map<N, nat>, desc: map<N, set<N>>, start: map<N, nat>, x: N)
    requires PassDone(g, nodes, order, st, disc, desc, start) && x in nodes
    ensures x in st.leader && st.leader[x] in start && st.leader[x] in desc && x in desc[st.leader[x]]
    ensures x in disc && st.leader[x] in disc && disc[st.leader[x]] <= disc[x]
  {
    hide PassDone;
    PassDoneReach(g, nodes, order, st, disc, desc, start);
    LeaderOf(g, nodes, order, st, disc, desc, start, x);
    var r := st.leader[x];
    RootFacts(g, nodes, order, st, disc, desc, start, r);
    assert x in LedBy(st.leader, r);
    assert x !in Before(disc, r) by {
      ReachEnds(g, r, x, Before(disc, r));
    }
  }

  lemma LeaderOf<N(!new)>(g: Graph<N>, nodes: set<N>, order: seq<N>, st: PassState<N>,
                          disc: map<N, nat>, desc: map<N, set<N>>, start: map<N, nat>, x: N)
    requires PassDone(g, nodes, order, st, disc, desc, start) && x in nodes
    ensures x in st.leader && st.leader[x] in start
  {
    hide PassDone;
    PassDoneLeaders(g, nodes, order, st, disc, desc, start);
  }

  /** The entries of `order` before a leader's own were discovered before it. */
  lemma EarlierFacts<N(!new)>(g: Graph<N>, nodes: set<N>, order: seq<N>, st: PassState<N>,
                              disc: map<N, nat>, desc: map<N, set<N>>, start: map<N, nat>, r: N, a: nat)
    requires PassDone(g, nodes, order, st, disc, desc, start) && r in start && a < start[r] && a < |order|
    ensures order[a] in nodes && order[a] in disc && r in disc && disc[order[a]] < disc[r]
  {
    hide PassDone;
    PassDoneOrder(g, nodes, order, st, disc, desc, start);
  }

  /**
   * A node discovered before leader r belongs to the search of an earlier
   * leader, which (by the induction hypothesis) took a whole component.
   */
  lemma EarlierComponent<N(!new)>(g: Graph<N>, nodes: set<N>, order: seq<N>, st: PassState<N>,
                                  disc: map<N, nat>, desc: map<N, set<N>>, start: map<N, nat>, r: N, x: N)
    returns (r2: N)
    requires PassDone(g, nodes, order, st, disc, desc, start) && r in start
    requires x in nodes && x in disc && r in disc && disc[x] < disc[r]
    requires ComponentsBelow(g, nodes, disc, desc, start, r)
    ensures r2 in start && r2 != r && r2 in desc && desc[r2] == Component(g, nodes, r2)
    ensures x in Component(g, nodes, r2) && LedBy(st.leader, r2) == Component(g, nodes, r2)
  {
    hide PassDone;
    LeaderFacts(g, nodes, order, st, disc, desc, start, x);
    r2 := st.leader[x];
    RootFacts(g, nodes, order, st, disc, desc, start, r2);
  }

  lemma {:induction false} SearchTakesComponent<N(!new)>(g: Graph<N>, nodes: set<N>, order: seq<N>,
                                                         st: PassState<N>, disc: map<N, nat>,
                                                         desc: map<N, set<N>>, start: map<N, nat>, r: N)
    requires PassDone(g, nodes, order, st, disc, desc, start) && Ordered(g, nodes, order, start)
    requires r in start && ComponentsBelow(g, nodes, disc, desc, start, r)
    ensures r in desc && desc[r] == Component(g, nodes, r)
  {
    hide PassDone;
    RootFacts(g, nodes, order, st, disc, desc, start, r);
    ClosedOf(g, nodes, order, st, disc, desc, start);
    var before := Before(disc, r);
    forall w | w in Component(g, nodes, r)
      ensures w !in before
    {
      if w in before {
        var r2 := EarlierComponent(g, nodes, order, st, disc, desc, start, r, w);
        JoinComponent(g, nodes, r2, w, r);
        assert false;
      }
    }
    forall w | w in Component(g, nodes, r)
      ensures w in desc[r]
    {
      ReachWithin(g, nodes, r, w, before);
    }
    forall w | w in desc[r]
      ensures w in Component(g, nodes, r)
    {
      assert ReachAvoiding(g, r, w, before);
      ReachAvoidingMono(g, r, w, before, {});
      if !StronglyConnected(g, r, w) {
        var a :| 0 <= a < start[r] && a < |order| && StronglyConnected(g, w, order[a]);
        EarlierFacts(g, nodes, order, st, disc, desc, start, r, a);
        var r2 := EarlierComponent(g, nodes, order, st, disc, desc, start, r, order[a]);
        JoinComponent(g, nodes, r2, order[a], w);
        assert false;
      }
    }
  }

  lemma ClosedOf<N(!new)>(g: Graph<N>, nodes: set<N>, order: seq<N>, st: PassState<N>,
                          disc: map<N, nat>, desc: map<N, set<N>>, start: map<N, nat>)
    requires PassDone(g, nodes, order, st, disc, desc, start)
    ensures Closed(g, nodes)
  {
    hide PassDone;
    PassDoneReach(g, nodes, order, st, disc, desc, start);
  }

  lemma {:induction false} SearchesUpTo<N(!new)>(g: Graph<N>, nodes: set<N>, order: seq<N>,
                                                 st: PassState<N>, disc: map<N, nat>,
                                                 desc: map<N, set<N>>, start: map<N, nat>, bound: nat)
    requires PassDone(g, nodes, order, st, disc, desc, start) && Ordered(g, nodes, order, start)
    ensures forall r | r in start && r in disc && disc[r] < bound :: r in desc && desc[r] == Component(g, nodes, r)
  {
    if bound > 0 {
      SearchesUpTo(g, nodes, order, st, disc, desc, start, bound - 1);
      forall r | r in start && r in disc && disc[r] == bound - 1
        ensures r in desc && desc[r] == Component(g, nodes, r)
      {
        SearchTakesComponent(g, nodes, order, st, disc, desc, start, r);
      }
    }
  }

  /** In a pass run in an order the first pass guarantees, each search takes exactly one component. */
  lemma SearchesAreComponents<N(!new)>(g: Graph<N>, nodes: set<N>, order: seq<N>,
                                       st: PassState<N>, disc: map<N, nat>,
                                       desc: map<N, set<N>>, start: map<N, nat>)
    requires PassDone(g, nodes, order, st, disc, desc, start) && Ordered(g, nodes, order, start)
    ensures forall r | r in start :: r in desc && desc[r] == Component(g, nodes, r)
  {
    hide PassDone;
    PassDoneReach(g, nodes, order, st, disc, desc, start);
    PassDoneOrder(g, nodes, order, st, disc, desc, start);
    SearchesUpTo(g, nodes, order, st, disc, desc, start, |nodes|);
  }

  // ---------------------------------------------------------------------
  // Reversed and relabelled graphs
  // ---------------------------------------------------------------------

  /** rg has the edges of g turned around (`edges_rev` against `edges`). */
  ghost predicate Reversed<N(!new)>(g: Graph<N>, rg: Graph<N>) {
    forall x, y :: y in Succ(rg, x) <==> x in Succ(g, y)
  }

  lemma ReachReversed<N(!new)>(g: Graph<N>, rg: Graph<N>, a: N, b: N)
    requires Reversed(g, rg) && Reach(g, a, b)
    ensures Reach(rg, b, a)
  {
    var p :| PathAvoiding(g, p, a, b, {});
    var q := seq(|p|, k requires 0 <= k < |p| => p[|p| - 1 - k]);
    forall k | 0 <= k < |q| - 1
      ensures q[k + 1] in Succ(rg, q[k])
    {
      var i := |p| - 2 - k;
      assert p[i + 1] in Succ(g, p[i]);
      assert q[k] == p[i + 1] && q[k + 1] == p[i];
    }
    assert PathAvoiding(rg, q, b, a, {});
  }

  lemma StronglyConnectedReversed<N(!new)>(g: Graph<N>, rg: Graph<N>, a: N, b: N)
    requires Reversed(g, rg)
    ensures StronglyConnected(g, a, b) <==> StronglyConnected(rg, a, b)
  {
    assert Reversed(rg, g);
    if StronglyConnected(g, a, b) {
      ReachReversed(g, rg, a, b);
      ReachReversed(g, rg, b, a);
    }
    if StronglyConnected(rg, a, b) {
      ReachReversed(rg, g, a, b);
      ReachReversed(rg, g, b, a);
    }
  }

  /** phi maps every edge of g out of `nodes` to an edge of h. */
  ghost predicate Hom<N(!new), M(!new)>(g: Graph<N>, nodes: set<N>, h: Graph<M>, phi: map<N, M>) {
    forall x, y | x in nodes && y in Succ(g, x) :: x in phi && y in phi && phi[y] in Succ(h, phi[x])
  }

  lemma ReachMapped<N(!new), M(!new)>(g: Graph<N>, nodes: set<N>, h: Graph<M>, phi: map<N, M>, a: N, b: N)
    requires Closed(g, nodes) && Hom(g, nodes, h, phi) && nodes <= phi.Keys
    requires a in nodes && Reach(g, a, b)
    ensures b in nodes && Reach(h, phi[a], phi[b])
  {
    var p :| PathAvoiding(g, p, a, b, {});
    PathStaysIn(g, nodes, p);
    var q := seq(|p|, k requires 0 <= k < |p| => phi[p[k]]);
    forall k | 0 <= k < |q| - 1
      ensures q[k + 1] in Succ(h, q[k])
    {
      assert p[k + 1] in Succ(g, p[k]);
    }
    assert PathAvoiding(h, q, phi[a], phi[b], {});
  }
}
