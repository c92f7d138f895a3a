/**
 * One depth-first-search pass of the two-pass strongly-connected-components
 * algorithm (`_DFS_loop` and its inner `DFS`).  In the source the pass state
 * is a set of local variables of `_DFS_loop` that the nested `DFS` closure
 * updates: the `explored` set, the `leader` and `times` dicts and the
 * finishing counter `t`.  Here they form a `PassState` value that every call
 * takes and returns.  Two ghost maps record what the correctness argument
 * needs: the discovery index of every explored node, and the set of nodes
 * each finished call discovered.
 */
module Dfs {
  import opened Digraph
  import opened Sets

  // ---------------------------------------------------------------------
  // The invariant of a pass, stated on values
  // ---------------------------------------------------------------------

  /** Explored nodes are numbered 0, 1, ... in the order they were discovered. */
  ghost predicate DiscInv<N(!new)>(disc: map<N, nat>, explored: set<N>) {
    && disc.Keys == explored
    && (forall n | n in disc :: disc[n] < |explored|)
    && (forall a, b | a in disc && b in disc && disc[a] == disc[b] :: a == b)
  }

  /** Finished nodes carry the distinct finishing times 1 .. t. */
  ghost predicate TimesInv<N(!new)>(times: map<N, nat>, t: nat, explored: set<N>) {
    && times.Keys <= explored
    && t == |times|
    && (forall n | n in times :: 1 <= times[n] <= t)
    && (forall a, b | a in times && b in times && times[a] == times[b] :: a == b)
  }

  /** The nodes discovered before y. */
  ghost function Before<N(!new)>(disc: map<N, nat>, y: N): set<N> {
    set n | n in disc && y in disc && disc[n] < disc[y]
  }

  /**
   * For every finished y, desc[y] is what the call on y discovered: the nodes
   * reachable from y avoiding everything discovered before y.  They finish no
   * later than y; a node discovered after y outside desc[y] finishes after y
   * and is discovered after all of desc[y].
   */
  ghost predicate DescInv<N(!new)>(g: Graph<N>, nodes: set<N>, disc: map<N, nat>,
                                   times: map<N, nat>, desc: map<N, set<N>>) {
    && desc.Keys == times.Keys
    && DescReach(g, nodes, disc, desc)
    && DescFinishFirst(times, desc)
    && DescNested(disc, times, desc)
  }

  ghost predicate DescReach<N(!new)>(g: Graph<N>, nodes: set<N>, disc: map<N, nat>, desc: map<N, set<N>>) {
    forall y | y in desc :: desc[y] == ReachFrom(g, nodes, y, Before(disc, y))
  }

  ghost predicate DescFinishFirst<N(!new)>(times: map<N, nat>, desc: map<N, set<N>>) {
    forall y, n | y in desc && n in desc[y] :: n in times && y in times && times[n] <= times[y]
  }

  ghost predicate DescNested<N(!new)>(disc: map<N, nat>, times: map<N, nat>, desc: map<N, set<N>>) {
    forall y, q | y in desc && q in disc && y in disc && disc[q] > disc[y] && q !in desc[y] ::
      && (q in times && y in times ==> times[q] > times[y])
      && (forall n | n in desc[y] :: n in disc && disc[n] < disc[q])
  }

  /** The nodes reachable, avoiding `avoid`, from some node of `starts`. */
  ghost function ReachFromAny<N(!new)>(g: Graph<N>, nodes: set<N>, starts: seq<N>, avoid: set<N>): set<N> {
    set n | n in nodes && exists k :: 0 <= k < |starts| && ReachAvoiding(g, starts[k], n, avoid)
  }

  // ---------------------------------------------------------------------
  // Reachability facts behind one DFS call
  // ---------------------------------------------------------------------

  /** What i reaches avoiding E is i itself plus what its successors reach avoiding E and i. */
  lemma ReachFromDecompose<N(!new)>(g: Graph<N>, nodes: set<N>, i: N, avoid: set<N>)
    requires Closed(g, nodes) && i in nodes && i !in avoid
    ensures ReachFrom(g, nodes, i, avoid) == {i} + ReachFromAny(g, nodes, Succ(g, i), avoid + {i})
  {
    var succ := Succ(g, i);
    forall n | n in ReachFrom(g, nodes, i, avoid) && n != i
      ensures n in ReachFromAny(g, nodes, succ, avoid + {i})
    {
      var p :| PathAvoiding(g, p, i, n, avoid);
      var j := FirstStep(g, p, i, n, avoid);
      var k :| 0 <= k < |succ| && succ[k] == j;
    }
    forall n | n in ReachFromAny(g, nodes, succ, avoid + {i})
      ensures n in ReachFrom(g, nodes, i, avoid)
    {
      var k :| 0 <= k < |succ| && ReachAvoiding(g, succ[k], n, avoid + {i});
      ReachAvoidingMono(g, succ[k], n, avoid + {i}, avoid);
      ReachEnds(g, succ[k], n, avoid);
      ReachEdge(g, i, succ[k], avoid);
      ReachTrans(g, i, succ[k], n, avoid);
    }
    ReachRefl(g, i, avoid);
  }

  /** What the first k successors reach is closed under reaching further while avoiding X. */
  lemma ReachFromAnyClosed<N(!new)>(g: Graph<N>, nodes: set<N>, starts: seq<N>, x: set<N>, m: N, n: N)
    requires Closed(g, nodes) && m in ReachFromAny(g, nodes, starts, x) && ReachAvoiding(g, m, n, x)
    ensures n in ReachFromAny(g, nodes, starts, x)
  {
    var k :| 0 <= k < |starts| && ReachAvoiding(g, starts[k], m, x);
    ReachTrans(g, starts[k], m, n, x);
    ReachStaysIn(g, nodes, m, n, x);
  }

  /**
   * After the successors before j have been searched, the explored set is
   * X + R; searching from j (when it is unexplored) adds what j reaches
   * avoiding X + R, which together with X + R is what j reaches avoiding X.
   */
  lemma ExploreStep<N(!new)>(g: Graph<N>, nodes: set<N>, starts: seq<N>, x: set<N>, j: N)
    requires Closed(g, nodes)
    ensures var r := ReachFromAny(g, nodes, starts, x);
            var r' := ReachFromAny(g, nodes, starts + [j], x);
            && (j !in x + r ==> x + r + ReachFrom(g, nodes, j, x + r) == x + r')
            && (j in x + r ==> x + r == x + r')
  {
    var r := ReachFromAny(g, nodes, starts, x);
    var r' := ReachFromAny(g, nodes, starts + [j], x);
    var s := starts + [j];
    assert r <= r' by {
      forall n | n in r ensures n in r' {
        var k :| 0 <= k < |starts| && ReachAvoiding(g, starts[k], n, x);
        assert s[k] == starts[k];
      }
    }
    // what j reaches avoiding X lies in X + R or is reached avoiding X + R
    forall n | n in nodes && ReachAvoiding(g, j, n, x)
      ensures n in r || ReachAvoiding(g, j, n, x + r)
    {
      SplitAtHit(g, j, n, x, r);
      if m :| m in r && ReachAvoiding(g, m, n, x) {
        ReachFromAnyClosed(g, nodes, starts, x, m, n);
      }
    }
    forall n | n in r'
      ensures n in r || (n in nodes && ReachAvoiding(g, j, n, x))
    {
      var k :| 0 <= k < |s| && ReachAvoiding(g, s[k], n, x);
      if k < |starts| {
        assert s[k] == starts[k];
      }
    }
    if j in r {
      forall n | n in nodes && ReachAvoiding(g, j, n, x)
        ensures n in r
      {
        ReachFromAnyClosed(g, nodes, starts, x, j, n);
      }
    }
    if j in x {
      forall n | n in nodes && ReachAvoiding(g, j, n, x)
        ensures false
      {
        ReachEnds(g, j, n, x);
      }
    }
    if j !in x + r {
      forall n | n in ReachFrom(g, nodes, j, x + r)
        ensures n in r'
      {
        ReachAvoidingMono(g, j, n, x + r, x);
        assert s[|starts|] == j;
      }
      forall n | n in nodes && ReachAvoiding(g, j, n, x)
        ensures n in r'
      {
        assert s[|starts|] == j;
      }
    }
  }

  // ---------------------------------------------------------------------
  // Preservation of the pass invariant
  // ---------------------------------------------------------------------

  /** Discovering a new node i (numbered |explored|) keeps the invariant. */
  lemma DiscoverPreserves<N(!new)>(g: Graph<N>, nodes: set<N>, explored: set<N>, disc: map<N, nat>,
                                   times: map<N, nat>, t: nat, desc: map<N, set<N>>, i: N)
    requires DiscInv(disc, explored) && TimesInv(times, t, explored) && DescInv(g, nodes, disc, times, desc)
    requires i !in explored
    ensures DiscInv(disc[i := |explored|], explored + {i})
    ensures TimesInv(times, t, explored + {i})
    ensures DescInv(g, nodes, disc[i := |explored|], times, desc)
  {
    DiscoverReach(g, nodes, explored, disc, desc, i);
    DiscoverNested(explored, disc, times, desc, i);
  }

  lemma DiscoverReach<N(!new)>(g: Graph<N>, nodes: set<N>, explored: set<N>, disc: map<N, nat>,
                               desc: map<N, set<N>>, i: N)
    requires DiscInv(disc, explored) && desc.Keys <= explored && i !in explored
    requires DescReach(g, nodes, disc, desc)
    ensures DescReach(g, nodes, disc[i := |explored|], desc)
  {
    var disc' := disc[i := |explored|];
    forall y | y in desc
      ensures Before(disc', y) == Before(disc, y)
    {
      assert y != i;
    }
  }

  lemma DiscoverNested<N(!new)>(explored: set<N>, disc: map<N, nat>, times: map<N, nat>,
                                desc: map<N, set<N>>, i: N)
    requires DiscInv(disc, explored) && times.Keys <= explored && desc.Keys == times.Keys && i !in explored
    requires DescFinishFirst(times, desc) && DescNested(disc, times, desc)
    ensures DescNested(disc[i := |explored|], times, desc)
  {
    var disc' := disc[i := |explored|];
    forall y, q | y in desc && q in disc' && y in disc' && disc'[q] > disc'[y] && q !in desc[y]
      ensures q in times && y in times ==> times[q] > times[y]
      ensures forall n | n in desc[y] :: n in disc' && disc'[n] < disc'[q]
    {
      assert y != i;
      if q == i {
        forall n | n in desc[y]
          ensures n in disc' && disc'[n] < disc'[q]
        {
          assert n in times;
        }
      } else {
        assert disc'[q] == disc[q] && disc'[y] == disc[y];
        forall n | n in desc[y]
          ensures n in disc' && disc'[n] < disc'[q]
        {
          assert n in times;
        }
      }
    }
  }

  lemma FinishTimes<N(!new)>(times: map<N, nat>, t: nat, explored: set<N>, i: N)
    requires TimesInv(times, t, explored) && i in explored && i !in times
    ensures TimesInv(times[i := t + 1], t + 1, explored)
  {
    var times' := times[i := t + 1];
    assert times'.Keys == times.Keys + {i};
    forall a, b | a in times' && b in times' && times'[a] == times'[b]
      ensures a == b
    {
      if a != i && b != i {
        assert times[a] == times[b];
      }
    }
  }

  /** Finishing i, whose call discovered exactly `explored - e0`, keeps the invariant. */
  lemma FinishPreserves<N(!new)>(g: Graph<N>, nodes: set<N>, e0: set<N>, explored: set<N>,
                                 disc: map<N, nat>, times: map<N, nat>, t: nat,
                                 desc: map<N, set<N>>, i: N)
    requires DiscInv(disc, explored) && TimesInv(times, t, explored) && DescInv(g, nodes, disc, times, desc)
    requires e0 <= explored && i in explored - e0 && i !in times
    requires disc[i] == |e0|
    requires forall n | n in e0 :: disc[n] < |e0|
    requires forall n | n in explored - e0 :: disc[n] >= |e0|
    requires explored - e0 - {i} <= times.Keys
    requires explored - e0 == ReachFrom(g, nodes, i, e0)
    ensures TimesInv(times[i := t + 1], t + 1, explored)
    ensures DescInv(g, nodes, disc, times[i := t + 1], desc[i := explored - e0])
  {
    FinishTimes(times, t, explored, i);
    FinishReach(g, nodes, e0, explored, disc, desc, i);
    FinishFirst(e0, explored, times, t, desc, i);
    FinishNested(e0, explored, disc, times, t, desc, i);
    assert desc[i := explored - e0].Keys == times[i := t + 1].Keys;
  }

  lemma FinishReach<N(!new)>(g: Graph<N>, nodes: set<N>, e0: set<N>, explored: set<N>,
                             disc: map<N, nat>, desc: map<N, set<N>>, i: N)
    requires DiscInv(disc, explored) && DescReach(g, nodes, disc, desc)
    requires e0 <= explored && i in explored - e0 && disc[i] == |e0|
    requires forall n | n in e0 :: disc[n] < |e0|
    requires forall n | n in explored - e0 :: disc[n] >= |e0|
    requires explored - e0 == ReachFrom(g, nodes, i, e0)
    ensures DescReach(g, nodes, disc, desc[i := explored - e0])
  {
    assert Before(disc, i) == e0;
  }

  lemma FinishFirst<N(!new)>(e0: set<N>, explored: set<N>, times: map<N, nat>, t: nat,
                             desc: map<N, set<N>>, i: N)
    requires TimesInv(times, t, explored) && desc.Keys == times.Keys && DescFinishFirst(times, desc)
    requires i !in times && explored - e0 - {i} <= times.Keys
    ensures DescFinishFirst(times[i := t + 1], desc[i := explored - e0])
  {
    var times' := times[i := t + 1];
    var desc' := desc[i := explored - e0];
    forall y, n | y in desc' && n in desc'[y]
      ensures n in times' && y in times' && times'[n] <= times'[y]
    {
      if y != i {
        assert n in times && n != i;
      } else if n != i {
        assert n in times;
      }
    }
  }

  lemma FinishNested<N(!new)>(e0: set<N>, explored: set<N>, disc: map<N, nat>, times: map<N, nat>, t: nat,
                              desc: map<N, set<N>>, i: N)
    requires DiscInv(disc, explored) && TimesInv(times, t, explored) && desc.Keys == times.Keys
    requires DescNested(disc, times, desc)
    requires e0 <= explored && i in explored - e0 && i !in times && disc[i] == |e0|
    requires forall n | n in e0 :: disc[n] < |e0|
    ensures DescNested(disc, times[i := t + 1], desc[i := explored - e0])
  {
    var times' := times[i := t + 1];
    var desc' := desc[i := explored - e0];
    // whatever was discovered after i belongs to i's call
    forall q | q in disc && disc[q] > disc[i]
      ensures q in explored - e0
    {
    }
    forall y, q | y in desc' && q in disc && y in disc && disc[q] > disc[y] && q !in desc'[y] && y != i
      ensures q in times' && y in times' ==> times'[q] > times'[y]
      ensures forall n | n in desc'[y] :: n in disc && disc[n] < disc[q]
    {
      assert y in times && desc'[y] == desc[y];
    }
  }

  /** The nodes R reached avoiding X are outside X. */
  lemma ReachFromAnyAvoids<N(!new)>(g: Graph<N>, nodes: set<N>, starts: seq<N>, x: set<N>)
    ensures ReachFromAny(g, nodes, starts, x) * x == {}
  {
    forall n | n in ReachFromAny(g, nodes, starts, x)
      ensures n !in x
    {
      var k :| 0 <= k < |starts| && ReachAvoiding(g, starts[k], n, x);
      ReachEnds(g, starts[k], n, x);
    }
  }

  // ---------------------------------------------------------------------
  // The state of a pass and the recursive search
  // ---------------------------------------------------------------------

  /** The `explored` set, `leader` and `times` dicts and the counter `t` of one pass. */
  datatype PassState<N> = PassState(explored: set<N>, leader: map<N, N>, times: map<N, nat>, t: nat)

  ghost predicate Inv<N(!new)>(g: Graph<N>, nodes: set<N>, st: PassState<N>,
                               disc: map<N, nat>, desc: map<N, set<N>>) {
    && Closed(g, nodes)
    && st.explored <= nodes
    && st.leader.Keys == st.explored
    && DiscInv(disc, st.explored)
    && TimesInv(st.times, st.t, st.explored)
    && DescInv(g, nodes, disc, st.times, desc)
  }

  /** m' keeps every entry of m. */
  ghost predicate Extends<K, V>(m: map<K, V>, m': map<K, V>) {
    forall k | k in m :: k in m' && m'[k] == m[k]
  }

  /**
   * What a call `DFS(i)` with leader s did to the state: every node it
   * discovered got leader s and a finishing time, nothing recorded before
   * changed, i was discovered first and the call's discoveries are desc'[i].
   */
  ghost predicate Called<N(!new)>(st: PassState<N>, st': PassState<N>, disc: map<N, nat>, disc': map<N, nat>,
                                  desc: map<N, set<N>>, desc': map<N, set<N>>, i: N, s: N) {
    && st.explored <= st'.explored
    && Extends(st.leader, st'.leader)
    && (forall n | n in st'.explored - st.explored :: n in st'.leader && st'.leader[n] == s)
    && Extends(st.times, st'.times)
    && st'.explored - st.explored <= st'.times.Keys
    && (forall n | n in st'.times && n !in st.times :: n !in st.explored)
    && Extends(disc, disc')
    && i in disc' && disc'[i] == |st.explored|
    && (forall n | n in st'.explored - st.explored :: n in disc' && disc'[n] >= |st.explored|)
    && Extends(desc, desc')
    && i in desc' && desc'[i] == st'.explored - st.explored
  }

  lemma SuccessorsIn<N(!new)>(g: Graph<N>, nodes: set<N>, st: PassState<N>, disc: map<N, nat>,
                              desc: map<N, set<N>>, i: N)
    requires Inv(g, nodes, st, disc, desc) && i in nodes
    ensures forall k | 0 <= k < |Succ(g, i)| :: Succ(g, i)[k] in nodes
  {
  }

  lemma ReachFromAnyNone<N(!new)>(g: Graph<N>, nodes: set<N>, x: set<N>)
    ensures x + ReachFromAny(g, nodes, [], x) == x
  {
  }

  lemma TakeOneMore<T>(s: seq<T>, k: nat)
    requires k < |s|
    ensures s[..k + 1] == s[..k] + [s[k]]
  {
  }

  lemma TakeAll<T>(s: seq<T>, k: nat)
    requires k == |s|
    ensures s[..k] == s
  {
  }

  /**
   * The frame of a call DFS(i) with leader s part-way through its successor
   * loop: x is the explored set right after i was discovered.
   */
  ghost predicate Partial<N(!new)>(st: PassState<N>, cur: PassState<N>, disc: map<N, nat>, cd: map<N, nat>,
                                   desc: map<N, set<N>>, cdesc: map<N, set<N>>, i: N, s: N) {
    && st.explored + {i} <= cur.explored
    && Extends(st.leader, cur.leader)
    && (forall n | n in cur.explored - st.explored :: n in cur.leader && cur.leader[n] == s)
    && Extends(st.times, cur.times)
    && cur.explored - st.explored - {i} <= cur.times.Keys
    && (forall n | n in cur.times && n !in st.times :: n !in st.explored + {i})
    && Extends(disc, cd)
    && i in cd && cd[i] == |st.explored|
    && (forall n | n in cur.explored - st.explored :: n in cd && cd[n] >= |st.explored|)
    && Extends(desc, cdesc)
  }

  lemma PartialInit<N(!new)>(st: PassState<N>, disc: map<N, nat>, desc: map<N, set<N>>, i: N, s: N)
    requires st.leader.Keys == st.explored && disc.Keys == st.explored && st.times.Keys <= st.explored
    requires i !in st.explored
    ensures Partial(st, st.(explored := st.explored + {i}, leader := st.leader[i := s]),
                    disc, disc[i := |st.explored|], desc, desc, i, s)
  {
  }

  lemma PartialStep<N(!new)>(st: PassState<N>, cur: PassState<N>, cur': PassState<N>,
                             disc: map<N, nat>, cd: map<N, nat>, cd': map<N, nat>,
                             desc: map<N, set<N>>, cdesc: map<N, set<N>>, cdesc': map<N, set<N>>,
                             i: N, s: N, j: N)
    requires Partial(st, cur, disc, cd, desc, cdesc, i, s)
    requires cur.leader.Keys == cur.explored && cd.Keys == cur.explored
    requires Called(cur, cur', cd, cd', cdesc, cdesc', j, s)
    ensures Partial(st, cur', disc, cd', desc, cdesc', i, s)
  {
    SubsetCard(st.explored, cur.explored);
  }

  lemma PartialFinish<N(!new)>(st: PassState<N>, cur: PassState<N>, disc: map<N, nat>, cd: map<N, nat>,
                               desc: map<N, set<N>>, cdesc: map<N, set<N>>, i: N, s: N)
    requires Partial(st, cur, disc, cd, desc, cdesc, i, s)
    requires i !in st.explored && i !in st.times && i !in desc
    ensures Called(st, cur.(t := cur.t + 1, times := cur.times[i := cur.t + 1]), disc, cd,
                   desc, cdesc[i := cur.explored - st.explored], i, s)
  {
  }

  lemma SplitExplored<N>(e: set<N>, x: set<N>, i: N, r: set<N>, f: set<N>)
    requires e == x + {i} + r && r * (x + {i}) == {} && i !in x && f == {i} + r
    ensures e - x == f && e == x + f
  {
  }

  lemma DiscSplit<N(!new)>(disc: map<N, nat>, cd: map<N, nat>, e0: set<N>)
    requires DiscInv(disc, e0) && Extends(disc, cd)
    ensures forall n | n in e0 :: n in cd && cd[n] < |e0|
  {
  }

  lemma InvParts<N(!new)>(g: Graph<N>, nodes: set<N>, st: PassState<N>, disc: map<N, nat>, desc: map<N, set<N>>)
    requires Inv(g, nodes, st, disc, desc)
    ensures Closed(g, nodes) && st.explored <= nodes && st.leader.Keys == st.explored
    ensures DiscInv(disc, st.explored) && TimesInv(st.times, st.t, st.explored)
    ensures DescInv(g, nodes, disc, st.times, desc)
    ensures disc.Keys == st.explored && st.times.Keys <= st.explored && desc.Keys == st.times.Keys
  {
  }

  lemma InvBuild<N(!new)>(g: Graph<N>, nodes: set<N>, st: PassState<N>, disc: map<N, nat>, desc: map<N, set<N>>)
    requires Closed(g, nodes) && st.explored <= nodes && st.leader.Keys == st.explored
    requires DiscInv(disc, st.explored) && TimesInv(st.times, st.t, st.explored)
    requires DescInv(g, nodes, disc, st.times, desc)
    ensures Inv(g, nodes, st, disc, desc)
  {
  }

  /** Discovering i starts the call: the invariant holds and the frame is empty so far. */
  lemma DiscoverCall<N(!new)>(g: Graph<N>, nodes: set<N>, st: PassState<N>, cur: PassState<N>,
                              disc: map<N, nat>, cd: map<N, nat>, desc: map<N, set<N>>, i: N, s: N)
    requires Inv(g, nodes, st, disc, desc) && i in nodes && i !in st.explored
    requires cur == st.(explored := st.explored + {i}, leader := st.leader[i := s])
    requires cd == disc[i := |st.explored|]
    ensures Inv(g, nodes, cur, cd, desc)
    ensures Partial(st, cur, disc, cd, desc, desc, i, s)
  {
    hide *;
    InvParts(g, nodes, st, disc, desc);
    DiscoverPreserves(g, nodes, st.explored, disc, st.times, st.t, desc, i);
    PartialInit(st, disc, desc, i, s);
    InvBuild(g, nodes, cur, cd, desc);
  }

  /**
   * Once every successor of i has been searched, giving i the next finishing
   * time completes the call: the invariant holds and the call explored
   * exactly what i reaches through unexplored nodes.
   */
  lemma FinishCall<N(!new)>(g: Graph<N>, nodes: set<N>, st: PassState<N>, cur: PassState<N>, st': PassState<N>,
                            disc: map<N, nat>, cd: map<N, nat>,
                            desc: map<N, set<N>>, cdesc: map<N, set<N>>, desc': map<N, set<N>>, i: N, s: N)
    requires Inv(g, nodes, st, disc, desc) && i in nodes && i !in st.explored
    requires Inv(g, nodes, cur, cd, cdesc)
    requires cur.explored == st.explored + {i} + ReachFromAny(g, nodes, Succ(g, i), st.explored + {i})
    requires Partial(st, cur, disc, cd, desc, cdesc, i, s)
    requires st' == cur.(t := cur.t + 1, times := cur.times[i := cur.t + 1])
    requires desc' == cdesc[i := cur.explored - st.explored]
    ensures Inv(g, nodes, st', cd, desc')
    ensures st'.explored == st.explored + ReachFrom(g, nodes, i, st.explored)
    ensures Called(st, st', disc, cd, desc, desc', i, s)
  {
    hide *;
    InvParts(g, nodes, st, disc, desc);
    InvParts(g, nodes, cur, cd, cdesc);
    var x := st.explored + {i};
    ReachFromDecompose(g, nodes, i, st.explored);
    ReachFromAnyAvoids(g, nodes, Succ(g, i), x);
    SplitExplored(cur.explored, st.explored, i, ReachFromAny(g, nodes, Succ(g, i), x),
                  ReachFrom(g, nodes, i, st.explored));
    PartialFacts(st, cur, disc, cd, desc, cdesc, i, s);
    FinishPreserves(g, nodes, st.explored, cur.explored, cd, cur.times, cur.t, cdesc, i);
    PartialFinish(st, cur, disc, cd, desc, cdesc, i, s);
    InvBuild(g, nodes, st', cd, desc');
  }

  /** What the finishing step needs from the frame of the call. */
  lemma PartialFacts<N(!new)>(st: PassState<N>, cur: PassState<N>, disc: map<N, nat>, cd: map<N, nat>,
                              desc: map<N, set<N>>, cdesc: map<N, set<N>>, i: N, s: N)
    requires Partial(st, cur, disc, cd, desc, cdesc, i, s)
    requires DiscInv(disc, st.explored) && st.times.Keys <= st.explored && i !in st.explored
    ensures st.explored <= cur.explored && i in cur.explored - st.explored && i !in cur.times
    ensures cd[i] == |st.explored|
    ensures forall n | n in st.explored :: cd[n] < |st.explored|
    ensures forall n | n in cur.explored - st.explored :: cd[n] >= |st.explored|
    ensures cur.explored - st.explored - {i} <= cur.times.Keys
  {
  }

  /**
   * `DFS(i)`: mark i explored with leader s, search every successor not yet
   * explored, then give i the next finishing time.  Exactly the nodes reachable
   * from i through unexplored nodes get explored.
   */
  method Dfs<N(!new)>(g: Graph<N>, ghost nodes: set<N>, i: N, s: N, st: PassState<N>,
                      ghost disc: map<N, nat>, ghost desc: map<N, set<N>>)
    returns (st': PassState<N>, ghost disc': map<N, nat>, ghost desc': map<N, set<N>>)
    requires Inv(g, nodes, st, disc, desc) && i in nodes && i !in st.explored
    ensures Inv(g, nodes, st', disc', desc')
    ensures st'.explored == st.explored + ReachFrom(g, nodes, i, st.explored)
    ensures Called(st, st', disc, disc', desc, desc', i, s)
    decreases nodes - st.explored, 0
  {
    hide *;
    var cur := st.(explored := st.explored + {i}, leader := st.leader[i := s]);
    ghost var cd := disc[i := |st.explored|];
    DiscoverCall(g, nodes, st, cur, disc, cd, desc, i, s);
    ghost var cdesc;
    cur, cd, cdesc := SearchSuccessors(g, nodes, st, i, s, cur, disc, cd, desc);
    st' := cur.(t := cur.t + 1, times := cur.times[i := cur.t + 1]);
    disc' := cd;
    desc' := cdesc[i := cur.explored - st.explored];
    FinishCall(g, nodes, st, cur, st', disc, disc', desc, cdesc, desc', i, s);
  }

  /** The successor loop of DFS(i), entered right after i was discovered. */
  method SearchSuccessors<N(!new)>(g: Graph<N>, ghost nodes: set<N>, ghost st: PassState<N>, i: N, s: N,
                                   cur0: PassState<N>, ghost disc: map<N, nat>, ghost cd0: map<N, nat>,
                                   ghost desc: map<N, set<N>>)
    returns (cur: PassState<N>, ghost cd: map<N, nat>, ghost cdesc: map<N, set<N>>)
    requires Inv(g, nodes, cur0, cd0, desc) && i in nodes
    requires cur0.explored == st.explored + {i}
    requires Partial(st, cur0, disc, cd0, desc, desc, i, s)
    ensures Inv(g, nodes, cur, cd, cdesc)
    ensures cur.explored == st.explored + {i} + ReachFromAny(g, nodes, Succ(g, i), st.explored + {i})
    ensures Partial(st, cur, disc, cd, desc, cdesc, i, s)
    decreases nodes - cur0.explored, 2
  {
    hide *;
    SuccessorsIn(g, nodes, cur0, cd0, desc, i);
    ReachFromAnyNone(g, nodes, cur0.explored);
    var succ := Succ(g, i);
    cur, cd, cdesc := cur0, cd0, desc;
    var k := 0;
    assert succ[..k] == [];
    while k < |succ|
      invariant k <= |succ|
      invariant Inv(g, nodes, cur, cd, cdesc)
      invariant cur.explored == cur0.explored + ReachFromAny(g, nodes, succ[..k], cur0.explored)
      invariant Partial(st, cur, disc, cd, desc, cdesc, i, s)
    {
      TakeOneMore(succ, k);
      cur, cd, cdesc := Visit(g, nodes, st, i, s, succ[..k], succ[k], cur, disc, cd, desc, cdesc);
      k := k + 1;
    }
    TakeAll(succ, k);
  }

  /**
   * One turn of the successor loop of DFS(i): the successor j is searched
   * unless it is already explored.  `done` lists the successors before j.
   */
  method Visit<N(!new)>(g: Graph<N>, ghost nodes: set<N>, ghost st: PassState<N>, ghost i: N, s: N,
                        ghost done: seq<N>, j: N, cur: PassState<N>,
                        ghost disc: map<N, nat>, ghost cd: map<N, nat>,
                        ghost desc: map<N, set<N>>, ghost cdesc: map<N, set<N>>)
    returns (cur': PassState<N>, ghost cd': map<N, nat>, ghost cdesc': map<N, set<N>>)
    requires Inv(g, nodes, cur, cd, cdesc) && j in nodes
    requires cur.explored == st.explored + {i} + ReachFromAny(g, nodes, done, st.explored + {i})
    requires Partial(st, cur, disc, cd, desc, cdesc, i, s)
    ensures Inv(g, nodes, cur', cd', cdesc')
    ensures cur'.explored == st.explored + {i} + ReachFromAny(g, nodes, done + [j], st.explored + {i})
    ensures Partial(st, cur', disc, cd', desc, cdesc', i, s)
    decreases nodes - cur.explored, 1
  {
    hide *;
    InvParts(g, nodes, cur, cd, cdesc);
    ExploreStep(g, nodes, done, st.explored + {i}, j);
    cur', cd', cdesc' := cur, cd, cdesc;
    if j !in cur.explored {
      cur', cd', cdesc' := Dfs(g, nodes, j, s, cur, cd, cdesc);
      PartialStep(st, cur, cur', disc, cd, cd', desc, cdesc, cdesc', i, s, j);
    }
  }

  // ---------------------------------------------------------------------
  // The outer loop of a pass
  // ---------------------------------------------------------------------

  /**
   * What the outer loop of a pass establishes about the searches it started:
   * `start` maps each leader to its position in `order`; each search started
   * after everything earlier in `order` was explored; every explored node is
   * finished and belongs to the search of its leader, and a search's
   * discoveries are exactly the nodes it leads.
   */
  ghost predicate RootInv<N(!new)>(order: seq<N>, k: nat, st: PassState<N>, disc: map<N, nat>,
                                   desc: map<N, set<N>>, start: map<N, nat>) {
    && k <= |order|
    && (forall a | 0 <= a < k :: order[a] in st.explored)
    && st.times.Keys == st.explored
    && RootOrder(order, k, disc, desc, start)
    && RootLeaders(st, desc, start)
  }

  ghost predicate RootOrder<N(!new)>(order: seq<N>, k: nat, disc: map<N, nat>, desc: map<N, set<N>>,
                                     start: map<N, nat>) {
    && (forall r | r in start :: start[r] < k && start[r] < |order| && order[start[r]] == r && r in desc && r in disc)
    && (forall r, a | r in start && 0 <= a < start[r] && a < |order| ::
          order[a] in disc && disc[order[a]] < disc[r])
  }

  /** The nodes whose leader is r. */
  ghost function LedBy<N(!new)>(leader: map<N, N>, r: N): set<N> {
    set n | n in leader && leader[n] == r
  }

  ghost predicate RootLeaders<N(!new)>(st: PassState<N>, desc: map<N, set<N>>, start: map<N, nat>) {
    && (forall n | n in st.leader :: st.leader[n] in start)
    && (forall r | r in start :: r in desc && desc[r] == LedBy(st.leader, r))
  }

  lemma RootInvInit<N(!new)>(g: Graph<N>, nodes: set<N>, order: seq<N>)
    requires Closed(g, nodes)
    ensures Inv(g, nodes, PassState({}, map[], map[], 0), map[], map[])
    ensures RootInv(order, 0, PassState({}, map[], map[], 0), map[], map[], map[])
  {
  }

  lemma RootOrderStart<N(!new)>(order: seq<N>, k: nat, explored: set<N>, disc: map<N, nat>, desc: map<N, set<N>>,
                                start: map<N, nat>, disc': map<N, nat>, desc': map<N, set<N>>)
    requires k < |order| && order[k] !in start
    requires RootOrder(order, k, disc, desc, start)
    requires DiscInv(disc, explored) && forall a | 0 <= a < k :: order[a] in explored
    requires Extends(disc, disc') && Extends(desc, desc')
    requires order[k] in disc' && disc'[order[k]] == |explored| && order[k] in desc'
    ensures RootOrder(order, k + 1, disc', desc', start[order[k] := k])
  {
    var start' := start[order[k] := k];
    forall r, a | r in start' && 0 <= a < start'[r] && a < |order|
      ensures order[a] in disc' && disc'[order[a]] < disc'[r]
    {
      if r == order[k] {
        assert order[a] in explored;
      }
    }
  }

  lemma RootLeadersStart<N(!new)>(st: PassState<N>, desc: map<N, set<N>>, start: map<N, nat>,
                                  st': PassState<N>, desc': map<N, set<N>>, s: N, k: nat)
    requires RootLeaders(st, desc, start) && s !in start
    requires st.leader.Keys == st.explored && st'.leader.Keys == st'.explored
    requires st.explored <= st'.explored && Extends(st.leader, st'.leader) && Extends(desc, desc')
    requires forall n | n in st'.explored - st.explored :: n in st'.leader && st'.leader[n] == s
    requires s in desc' && desc'[s] == st'.explored - st.explored
    ensures RootLeaders(st', desc', start[s := k])
  {
    forall r | r in start
      ensures desc'[r] == LedBy(st'.leader, r)
    {
      assert r in desc;
      forall n | n in LedBy(st'.leader, r)
        ensures n in LedBy(st.leader, r)
      {
      }
    }
    forall n | n in LedBy(st'.leader, s)
      ensures n !in st.explored
    {
    }
  }

  /** Starting a search at order[k] keeps the outer-loop invariant. */
  lemma RootInvStart<N(!new)>(g: Graph<N>, nodes: set<N>, order: seq<N>, k: nat,
                              st: PassState<N>, disc: map<N, nat>, desc: map<N, set<N>>, start: map<N, nat>,
                              st': PassState<N>, disc': map<N, nat>, desc': map<N, set<N>>)
    requires k < |order| && order[k] !in st.explored
    requires Inv(g, nodes, st, disc, desc) && RootInv(order, k, st, disc, desc, start)
    requires Inv(g, nodes, st', disc', desc')
    requires Called(st, st', disc, disc', desc, desc', order[k], order[k])
    ensures RootInv(order, k + 1, st', disc', desc', start[order[k] := k])
  {
    hide *;
    StartOrder(g, nodes, order, k, st, disc, desc, start, st', disc', desc');
    StartLeaders(g, nodes, order, k, st, disc, desc, start, st', disc', desc');
    StartBasics(g, nodes, order, k, st, disc, desc, start, st', disc', desc');
    RootInvBuild(order, k + 1, st', disc', desc', start[order[k] := k]);
  }

  lemma StartOrder<N(!new)>(g: Graph<N>, nodes: set<N>, order: seq<N>, k: nat,
                            st: PassState<N>, disc: map<N, nat>, desc: map<N, set<N>>, start: map<N, nat>,
                            st': PassState<N>, disc': map<N, nat>, desc': map<N, set<N>>)
    requires k < |order| && order[k] !in st.explored
    requires Inv(g, nodes, st, disc, desc) && RootInv(order, k, st, disc, desc, start)
    requires Inv(g, nodes, st', disc', desc')
    requires Called(st, st', disc, disc', desc, desc', order[k], order[k])
    ensures RootOrder(order, k + 1, disc', desc', start[order[k] := k])
  {
    hide *;
    InvParts(g, nodes, st, disc, desc);
    RootInvFacts(order, k, st, disc, desc, start);
    CalledFacts(st, st', disc, disc', desc, desc', order[k], order[k]);
    RootOrderStart(order, k, st.explored, disc, desc, start, disc', desc');
  }

  lemma StartLeaders<N(!new)>(g: Graph<N>, nodes: set<N>, order: seq<N>, k: nat,
                              st: PassState<N>, disc: map<N, nat>, desc: map<N, set<N>>, start: map<N, nat>,
                              st': PassState<N>, disc': map<N, nat>, desc': map<N, set<N>>)
    requires k < |order| && order[k] !in st.explored
    requires Inv(g, nodes, st, disc, desc) && RootInv(order, k, st, disc, desc, start)
    requires Inv(g, nodes, st', disc', desc')
    requires Called(st, st', disc, disc', desc, desc', order[k], order[k])
    ensures RootLeaders(st', desc', start[order[k] := k])
  {
    hide *;
    InvParts(g, nodes, st, disc, desc);
    InvParts(g, nodes, st', disc', desc');
    RootInvFacts(order, k, st, disc, desc, start);
    CalledFacts(st, st', disc, disc', desc, desc', order[k], order[k]);
    RootLeadersStart(st, desc, start, st', desc', order[k], k);
  }

  lemma StartBasics<N(!new)>(g: Graph<N>, nodes: set<N>, order: seq<N>, k: nat,
                             st: PassState<N>, disc: map<N, nat>, desc: map<N, set<N>>, start: map<N, nat>,
                             st': PassState<N>, disc': map<N, nat>, desc': map<N, set<N>>)
    requires k < |order| && order[k] !in st.explored
    requires Inv(g, nodes, st, disc, desc) && RootInv(order, k, st, disc, desc, start)
    requires Inv(g, nodes, st', disc', desc')
    requires Called(st, st', disc, disc', desc, desc', order[k], order[k])
    ensures k + 1 <= |order| && (forall a | 0 <= a < k + 1 :: order[a] in st'.explored)
    ensures st'.times.Keys == st'.explored
  {
    hide *;
    InvParts(g, nodes, st', disc', desc');
    RootInvFacts(order, k, st, disc, desc, start);
    CalledFacts(st, st', disc, disc', desc, desc', order[k], order[k]);
    RootBasicsStart(order, k, st, st', disc');
  }

  lemma RootBasicsStart<N(!new)>(order: seq<N>, k: nat, st: PassState<N>, st': PassState<N>, disc': map<N, nat>)
    requires k < |order| && (forall a | 0 <= a < k :: order[a] in st.explored) && st.times.Keys == st.explored
    requires st.explored <= st'.explored && disc'.Keys == st'.explored && order[k] in disc'
    requires Extends(st.times, st'.times) && st'.explored - st.explored <= st'.times.Keys
    requires st'.times.Keys <= st'.explored
    ensures (forall a | 0 <= a < k + 1 :: order[a] in st'.explored) && st'.times.Keys == st'.explored
  {
  }

  lemma RootInvFacts<N(!new)>(order: seq<N>, k: nat, st: PassState<N>, disc: map<N, nat>,
                              desc: map<N, set<N>>, start: map<N, nat>)
    requires RootInv(order, k, st, disc, desc, start)
    ensures k <= |order| && (forall a | 0 <= a < k :: order[a] in st.explored) && st.times.Keys == st.explored
    ensures RootOrder(order, k, disc, desc, start) && RootLeaders(st, desc, start)
    ensures forall r | r in start :: r in st.explored
  {
    forall r | r in start
      ensures r in st.explored
    {
      assert order[start[r]] == r;
    }
  }

  lemma RootInvBuild<N(!new)>(order: seq<N>, k: nat, st: PassState<N>, disc: map<N, nat>,
                              desc: map<N, set<N>>, start: map<N, nat>)
    requires k <= |order| && (forall a | 0 <= a < k :: order[a] in st.explored) && st.times.Keys == st.explored
    requires RootOrder(order, k, disc, desc, start) && RootLeaders(st, desc, start)
    ensures RootInv(order, k, st, disc, desc, start)
  {
  }

  lemma CalledFacts<N(!new)>(st: PassState<N>, st': PassState<N>, disc: map<N, nat>, disc': map<N, nat>,
                             desc: map<N, set<N>>, desc': map<N, set<N>>, i: N, s: N)
    requires Called(st, st', disc, disc', desc, desc', i, s)
    ensures st.explored <= st'.explored && Extends(st.leader, st'.leader) && Extends(disc, disc') && Extends(desc, desc')
    ensures forall n | n in st'.explored - st.explored :: n in st'.leader && st'.leader[n] == s
    ensures i in disc' && disc'[i] == |st.explored| && i in desc' && desc'[i] == st'.explored - st.explored
    ensures Extends(st.times, st'.times) && st'.explored - st.explored <= st'.times.Keys
  {
  }

  /**
   * `_DFS_loop`'s loop over `nodes` (here `order`): a search is started from
   * every entry not yet explored, with that entry as leader.  Everything
   * reachable from the entries gets explored and finished.
   */
  method Pass<N(!new)>(g: Graph<N>, ghost nodes: set<N>, order: seq<N>)
    returns (st: PassState<N>, ghost disc: map<N, nat>, ghost desc: map<N, set<N>>, ghost start: map<N, nat>)
    requires Closed(g, nodes) && forall a | 0 <= a < |order| :: order[a] in nodes
    ensures Inv(g, nodes, st, disc, desc)
    ensures st.explored == ReachFromAny(g, nodes, order, {})
    ensures RootInv(order, |order|, st, disc, desc, start)
  {
    RootInvInit(g, nodes, order);
    st, disc, desc, start := PassState({}, map[], map[], 0), map[], map[], map[];
    ReachFromAnyNone(g, nodes, {});
    var k := 0;
    while k < |order|
      invariant k <= |order|
      invariant Inv(g, nodes, st, disc, desc)
      invariant st.explored == ReachFromAny(g, nodes, order[..k], {})
      invariant RootInv(order, k, st, disc, desc, start)
    {
      st, disc, desc, start := PassStep(g, nodes, order, k, st, disc, desc, start);
      k := k + 1;
    }
    TakeAll(order, k);
  }

  /** One turn of the outer loop: search from order[k] unless it is explored. */
  method PassStep<N(!new)>(g: Graph<N>, ghost nodes: set<N>, order: seq<N>, k: nat,
                           st: PassState<N>, ghost disc: map<N, nat>, ghost desc: map<N, set<N>>,
                           ghost start: map<N, nat>)
    returns (st': PassState<N>, ghost disc': map<N, nat>, ghost desc': map<N, set<N>>, ghost start': map<N, nat>)
    requires k < |order| && forall a | 0 <= a < |order| :: order[a] in nodes
    requires Inv(g, nodes, st, disc, desc)
    requires st.explored == ReachFromAny(g, nodes, order[..k], {})
    requires RootInv(order, k, st, disc, desc, start)
    ensures Inv(g, nodes, st', disc', desc')
    ensures st'.explored == ReachFromAny(g, nodes, order[..k + 1], {})
    ensures RootInv(order, k + 1, st', disc', desc', start')
  {
    hide *;
    InvParts(g, nodes, st, disc, desc);
    TakeOneMore(order, k);
    ExploreStep(g, nodes, order[..k], {}, order[k]);
    var i := order[k];
    if i !in st.explored {
      st', disc', desc' := Dfs(g, nodes, i, i, st, disc, desc);
      start' := start[i := k];
      RootInvStart(g, nodes, order, k, st, disc, desc, start, st', disc', desc');
    } else {
      st', disc', desc', start' := st, disc, desc, start;
      RootInvSkip(order, k, st, disc, desc, start);
    }
  }

  lemma RootInvSkip<N(!new)>(order: seq<N>, k: nat, st: PassState<N>, disc: map<N, nat>,
                             desc: map<N, set<N>>, start: map<N, nat>)
    requires k < |order| && order[k] in st.explored
    requires RootInv(order, k, st, disc, desc, start)
    ensures RootInv(order, k + 1, st, disc, desc, start)
  {
  }
}
