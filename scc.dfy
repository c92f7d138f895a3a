/**
 * The strongly-connected-components module: adjacency lists built from an
 * edge list, the `_DFS_loop` pass with and without relabelling by finishing
 * time, and `_get_leaders`, which runs the first pass on the reversed edges
 * and the second on the forward edges in decreasing finishing time.
 */
module Scc {
  import opened Sets
  import opened Order
  import opened Digraph
  import opened Dfs
  import opened Kosaraju

  // ---------------------------------------------------------------------
  // _get_data_from_edges_iterator
  // ---------------------------------------------------------------------

  /** The nodes named by the first k edges. */
  ghost function Endpoints<N>(es: seq<(N, N)>): set<N>
    decreases |es|
  {
    if es == [] then {} else Endpoints(es[..|es| - 1]) + {es[|es| - 1].0, es[|es| - 1].1}
  }

  /** `edges`: b is appended to the list of a for every (a, b), in order. */
  ghost function Forward<N(!new)>(es: seq<(N, N)>): Graph<N>
    decreases |es|
  {
    if es == [] then map[]
    else
      var g := Forward(es[..|es| - 1]);
      var e := es[|es| - 1];
      g[e.0 := Succ(g, e.0) + [e.1]]
  }

  /** `edges_rev`: a is appended to the list of b for every (a, b), in order. */
  ghost function Backward<N(!new)>(es: seq<(N, N)>): Graph<N>
    decreases |es|
  {
    if es == [] then map[]
    else
      var g := Backward(es[..|es| - 1]);
      var e := es[|es| - 1];
      g[e.1 := Succ(g, e.1) + [e.0]]
  }

  lemma {:induction false} EndpointsOf<N>(es: seq<(N, N)>, x: N)
    ensures x in Endpoints(es) <==> exists k :: 0 <= k < |es| && (es[k].0 == x || es[k].1 == x)
    decreases |es|
  {
    if es != [] {
      var init := es[..|es| - 1];
      EndpointsOf(init, x);
      if k :| 0 <= k < |init| && (init[k].0 == x || init[k].1 == x) {
        assert es[k] == init[k];
      }
      if k :| 0 <= k < |es| && (es[k].0 == x || es[k].1 == x) {
        if k < |init| {
          assert es[k] == init[k];
        }
      }
    }
  }

  lemma {:induction false} ForwardSucc<N(!new)>(es: seq<(N, N)>, a: N, b: N)
    ensures b in Succ(Forward(es), a) <==> (a, b) in es
    decreases |es|
  {
    if es != [] {
      var init := es[..|es| - 1];
      ForwardSucc(init, a, b);
      assert es == init + [es[|es| - 1]];
    }
  }

  lemma {:induction false} BackwardSucc<N(!new)>(es: seq<(N, N)>, a: N, b: N)
    ensures a in Succ(Backward(es), b) <==> (a, b) in es
    decreases |es|
  {
    if es != [] {
      var init := es[..|es| - 1];
      BackwardSucc(init, a, b);
      assert es == init + [es[|es| - 1]];
    }
  }

  /**
   * The two adjacency structures describe the same edges, turned around, and
   * never lead outside the nodes named by the edges.
   */
  lemma EdgeGraphs<N(!new)>(es: seq<(N, N)>)
    ensures Reversed(Forward(es), Backward(es))
    ensures Closed(Forward(es), Endpoints(es)) && Closed(Backward(es), Endpoints(es))
  {
    forall x, y
      ensures y in Succ(Backward(es), x) <==> x in Succ(Forward(es), y)
    {
      ForwardSucc(es, y, x);
      BackwardSucc(es, y, x);
    }
    forall n, k | n in Endpoints(es) && 0 <= k < |Succ(Forward(es), n)|
      ensures Succ(Forward(es), n)[k] in Endpoints(es)
    {
      var m := Succ(Forward(es), n)[k];
      ForwardSucc(es, n, m);
      var i :| 0 <= i < |es| && es[i] == (n, m);
      EndpointsOf(es, m);
    }
    forall n, k | n in Endpoints(es) && 0 <= k < |Succ(Backward(es), n)|
      ensures Succ(Backward(es), n)[k] in Endpoints(es)
    {
      var m := Succ(Backward(es), n)[k];
      BackwardSucc(es, m, n);
      var i :| 0 <= i < |es| && es[i] == (m, n);
      EndpointsOf(es, m);
    }
  }

  /** `_get_data_from_edges_iterator`: one pass over the edges fills all three structures. */
  method GetDataFromEdges<N(!new)>(es: seq<(N, N)>) returns (nodes: set<N>, edges: Graph<N>, edgesRev: Graph<N>)
    ensures nodes == Endpoints(es) && edges == Forward(es) && edgesRev == Backward(es)
  {
    nodes, edges, edgesRev := {}, map[], map[];
    for k := 0 to |es|
      invariant nodes == Endpoints(es[..k])
      invariant edges == Forward(es[..k]) && edgesRev == Backward(es[..k])
    {
      var (a, b) := es[k];
      assert es[..k + 1][..k] == es[..k];
      nodes := nodes + {a, b};
      edges := edges[a := Succ(edges, a) + [b]];
      edgesRev := edgesRev[b := Succ(edgesRev, b) + [a]];
    }
    assert es[..|es|] == es;
  }

  // ---------------------------------------------------------------------
  // Relabelling by finishing time
  // ---------------------------------------------------------------------

  ghost predicate OneToOne<K, V>(m: map<K, V>) {
    forall a, b | a in m && b in m && m[a] == m[b] :: a == b
  }

  /** nt undoes tn and tn undoes nt. */
  ghost predicate Inverse<K, V>(tn: map<K, V>, nt: map<V, K>) {
    && (forall n | n in tn :: tn[n] in nt && nt[tn[n]] == n)
    && (forall t | t in nt :: nt[t] in tn && tn[nt[t]] == t)
  }

  /** `n_t = dict((b, a) for a, b in t_n.items())`, one entry at a time. */
  method Invert<N(!new)>(tn: map<N, int>) returns (nt: map<int, N>)
    requires OneToOne(tn)
    ensures Inverse(tn, nt) && nt.Keys == tn.Values
  {
    nt := map[];
    var rest := tn.Keys;
    while rest != {}
      invariant rest <= tn.Keys
      invariant forall n | n in tn && n !in rest :: tn[n] in nt && nt[tn[n]] == n
      invariant forall t | t in nt :: nt[t] in tn && nt[t] !in rest && tn[nt[t]] == t
      decreases |rest|
    {
      NonEmptyHasElement(rest);
      var n :| n in rest;
      nt := nt[tn[n] := n];
      rest := rest - {n};
    }
  }

  function MapSeq<N, M>(s: seq<N>, m: map<N, M>): seq<M>
    requires forall k | 0 <= k < |s| :: s[k] in m
  {
    seq(|s|, k requires 0 <= k < |s| => m[s[k]])
  }

  /**
   * The graph that `gen_edges` walks once `t_n` is given: the successors of
   * time t are the times of the successors of the node finished at t.
   */
  function Relabel<N(!new)>(edges: Graph<N>, tn: map<N, int>, nt: map<int, N>): Graph<int>
    requires Closed(edges, tn.Keys) && forall t | t in nt :: nt[t] in tn
  {
    map t | t in nt :: MapSeq(Succ(edges, nt[t]), tn)
  }

  /** Relabelling is a graph isomorphism between the nodes and their times. */
  lemma RelabelIso<N(!new)>(edges: Graph<N>, tn: map<N, int>, nt: map<int, N>)
    requires Closed(edges, tn.Keys) && Inverse(tn, nt)
    ensures Hom(edges, tn.Keys, Relabel(edges, tn, nt), tn)
    ensures Hom(Relabel(edges, tn, nt), nt.Keys, edges, nt)
    ensures Closed(Relabel(edges, tn, nt), nt.Keys)
  {
    var h := Relabel(edges, tn, nt);
    forall x, y | x in tn && y in Succ(edges, x)
      ensures y in tn && tn[y] in Succ(h, tn[x])
    {
      var s := Succ(edges, x);
      var k :| 0 <= k < |s| && s[k] == y;
      assert Succ(h, tn[x]) == MapSeq(s, tn);
      assert MapSeq(s, tn)[k] == tn[y];
    }
    forall x, y | x in nt && y in Succ(h, x)
      ensures y in nt && nt[y] in Succ(edges, nt[x])
    {
      var s := Succ(edges, nt[x]);
      var k :| 0 <= k < |MapSeq(s, tn)| && MapSeq(s, tn)[k] == y;
      assert s[k] in tn;
    }
  }

  // ---------------------------------------------------------------------
  // Grouping by leader
  // ---------------------------------------------------------------------

  /** The translated names of the leaders. */
  ghost function Translated<L, N>(leader: map<L, L>, back: map<L, N>): set<N> {
    set n | n in leader && leader[n] in back :: back[leader[n]]
  }

  /** The translated names of the nodes whose translated leader is l. */
  ghost function GroupOf<L, N>(leader: map<L, L>, back: map<L, N>, l: N): set<N> {
    set n | n in leader && n in back && leader[n] in back && back[leader[n]] == l :: back[n]
  }

  /** The nodes a list holds. */
  ghost function Elements<N>(s: seq<N>): set<N> {
    set x | x in s
  }

  ghost predicate NoRepeats<N>(s: seq<N>) {
    forall i, j | 0 <= i < j < |s| :: s[i] != s[j]
  }

  /**
   * `leaders` holds one list per translated leader, listing without repeats
   * the translated nodes that leader leads.
   */
  ghost predicate Grouped<L, N>(groups: map<N, seq<N>>, leader: map<L, L>, back: map<L, N>) {
    && groups.Keys == Translated(leader, back)
    && (forall l | l in groups :: Elements(groups[l]) == GroupOf(leader, back, l))
    && (forall l | l in groups :: NoRepeats(groups[l]))
  }

  /**
   * The loop over `leader.items()` that appends every node to the list of
   * its leader, both translated by `back` (`get_node_by_time`).
   */
  method Group<L(!new), N(==)>(leader: map<L, L>, back: map<L, N>) returns (groups: map<N, seq<N>>)
    requires forall n | n in leader :: n in back && leader[n] in back
    requires OneToOne(back)
    ensures Grouped(groups, leader, back)
  {
    groups := map[];
    var rest := leader.Keys;
    ghost var done: map<L, L> := map[];
    while rest != {}
      invariant rest <= leader.Keys && done.Keys == leader.Keys - rest
      invariant forall n | n in done :: done[n] == leader[n]
      invariant Grouped(groups, done, back)
      invariant forall l, x | l in groups && x in groups[l] :: x in (set n | n in done :: back[n])
      decreases |rest|
    {
      NonEmptyHasElement(rest);
      var n :| n in rest;
      var l := back[leader[n]];
      var list := if l in groups then groups[l] else [];
      GroupAppend(groups, done, back, n, leader[n]);
      groups := groups[l := list + [back[n]]];
      done := done[n := leader[n]];
      rest := rest - {n};
    }
    assert done == leader;
  }

  lemma GroupAppend<L, N>(groups: map<N, seq<N>>, done: map<L, L>, back: map<L, N>, n: L, r: L)
    requires forall m | m in done :: m in back && done[m] in back
    requires n in back && r in back && n !in done && OneToOne(back)
    requires Grouped(groups, done, back)
    requires forall l, x | l in groups && x in groups[l] :: x in (set m | m in done :: back[m])
    ensures var l := back[r];
            var list := if l in groups then groups[l] else [];
            var groups' := groups[l := list + [back[n]]];
            && Grouped(groups', done[n := r], back)
            && forall l', x | l' in groups' && x in groups'[l'] :: x in (set m | m in done[n := r] :: back[m])
  {
    var l := back[r];
    var list := if l in groups then groups[l] else [];
    var groups' := groups[l := list + [back[n]]];
    var done' := done[n := r];
    forall x | x in list
      ensures x != back[n]
    {
      NotYetListed(done, back, n, x);
    }
    forall l' | l' in groups'
      ensures Elements(groups'[l']) == GroupOf(done', back, l')
    {
      GroupOfUpdate(done, back, n, r, l');
      if l' == l {
        if l !in groups {
          assert GroupOf(done, back, l') == {} by {
            if x :| x in GroupOf(done, back, l') {
              GroupOfKey(done, back, l', x);
              assert false;
            }
          }
        }
        assert groups'[l'] == list + [back[n]];
      }
    }
    assert groups'.Keys == Translated(done', back) by {
      forall y | y in groups'.Keys
        ensures y in Translated(done', back)
      {
        if y != l {
          var m :| m in done && back[done[m]] == y;
          assert done'[m] == done[m];
        } else {
          assert back[done'[n]] == l;
        }
      }
      forall m | m in done'
        ensures back[done'[m]] in groups'.Keys
      {
        if m != n {
          assert back[done[m]] in Translated(done, back);
        }
      }
    }
    forall l' | l' in groups'
      ensures NoRepeats(groups'[l'])
    {
      if l' == l {
        var s := groups'[l'];
        forall i, j | 0 <= i < j < |s|
          ensures s[i] != s[j]
        {
          assert s == list + [back[n]];
          if j == |s| - 1 {
            assert s[i] == list[i] && list[i] in list;
          } else {
            assert NoRepeats(list);
          }
        }
      }
    }
  }
  lemma GroupOfUpdate<L, N>(done: map<L, L>, back: map<L, N>, n: L, r: L, l: N)
    requires forall m | m in done :: m in back && done[m] in back
    requires n in back && r in back && n !in done
    ensures GroupOf(done[n := r], back, l)
         == if back[r] == l then GroupOf(done, back, l) + {back[n]} else GroupOf(done, back, l)
  {
    var done' := done[n := r];
    forall x | x in GroupOf(done', back, l)
      ensures x in GroupOf(done, back, l) || (back[r] == l && x == back[n])
    {
      var m :| m in done' && m in back && done'[m] in back && back[done'[m]] == l && back[m] == x;
      if m != n {
        assert m in done && back[done[m]] == l;
      }
    }
    forall x | x in GroupOf(done, back, l)
      ensures x in GroupOf(done', back, l)
    {
      var m :| m in done && m in back && done[m] in back && back[done[m]] == l && back[m] == x;
      assert m in done' && done'[m] == done[m];
    }
    if back[r] == l {
      assert back[n] in GroupOf(done', back, l) by {
        assert n in done' && back[done'[n]] == l;
      }
    }
  }
  lemma GroupOfKey<L, N>(done: map<L, L>, back: map<L, N>, l: N, x: N)
    requires forall m | m in done :: m in back && done[m] in back
    requires x in GroupOf(done, back, l)
    ensures l in Translated(done, back)
  {
    var m :| m in done && back[done[m]] == l && back[m] == x;
  }
  lemma NotYetListed<L, N>(done: map<L, L>, back: map<L, N>, n: L, x: N)
    requires forall m | m in done :: m in back
    requires n in back && n !in done && OneToOne(back)
    requires x in (set m | m in done :: back[m])
    ensures x != back[n]
  {
    var m :| m in done && back[m] == x;
  }

  lemma GroupOfMember<L, N>(leader: map<L, L>, back: map<L, N>, l: N, x: N) returns (n: L)
    requires x in GroupOf(leader, back, l)
    ensures n in leader && n in back && leader[n] in back && back[leader[n]] == l && back[n] == x
  {
    n :| n in leader && n in back && leader[n] in back && back[leader[n]] == l && back[n] == x;
  }

  lemma GroupOfIntro<L, N>(leader: map<L, L>, back: map<L, N>, n: L)
    requires n in leader && n in back && leader[n] in back
    ensures back[n] in GroupOf(leader, back, back[leader[n]])
  {
  }

  lemma GroupedKey<L, N>(groups: map<N, seq<N>>, leader: map<L, L>, back: map<L, N>, l: N) returns (n: L)
    requires Grouped(groups, leader, back) && l in groups
    ensures n in leader && leader[n] in back && back[leader[n]] == l
  {
    n :| n in leader && leader[n] in back && back[leader[n]] == l;
  }

  // ---------------------------------------------------------------------
  // _DFS_loop
  // ---------------------------------------------------------------------

  /** `get_node_by_time` when no `t_n` is given. */
  function Identity<N>(s: set<N>): map<N, N> {
    map n | n in s :: n
  }

  lemma IdentityOneToOne<N>(s: set<N>)
    ensures Identity(s).Keys == s && OneToOne(Identity(s))
  {
  }

  /** A finished pass leads every node by an explored node. */
  lemma LeadersAmongExplored<N(!new)>(g: Graph<N>, nodes: set<N>, order: seq<N>, st: PassState<N>,
                                      disc: map<N, nat>, desc: map<N, set<N>>, start: map<N, nat>)
    requires Inv(g, nodes, st, disc, desc) && RootInv(order, |order|, st, disc, desc, start)
    ensures st.explored <= nodes
    ensures forall n | n in st.leader :: n in st.explored && st.leader[n] in st.explored
  {
    InvParts(g, nodes, st, disc, desc);
    RootInvFacts(order, |order|, st, disc, desc, start);
  }

  /**
   * `_DFS_loop(nodes, edges)` without `t_n`: one pass over `edges` in the
   * order of `nodes`, then the nodes grouped under their leaders (both
   * translation functions are the identity).  `nodeSet` is any set of nodes
   * that holds `nodes` and that the edges do not leave.
   */
  method DfsLoop<N(!new)>(nodes: seq<N>, edges: Graph<N>, ghost nodeSet: set<N>)
    returns (times: map<N, nat>, leaders: map<N, seq<N>>, ghost st: PassState<N>,
             ghost disc: map<N, nat>, ghost desc: map<N, set<N>>, ghost start: map<N, nat>)
    requires Closed(edges, nodeSet) && forall a | 0 <= a < |nodes| :: nodes[a] in nodeSet
    ensures Inv(edges, nodeSet, st, disc, desc) && RootInv(nodes, |nodes|, st, disc, desc, start)
    ensures st.explored == ReachFromAny(edges, nodeSet, nodes, {})
    ensures times == st.times
    ensures forall n | n in st.leader :: n in st.explored && st.leader[n] in st.explored
    ensures Grouped(leaders, st.leader, Identity(st.explored))
  {
    hide *;
    var state;
    state, disc, desc, start := Pass(edges, nodeSet, nodes);
    st := state;
    LeadersAmongExplored(edges, nodeSet, nodes, st, disc, desc, start);
    times := state.times;
    IdentityOneToOne(state.explored);
    leaders := Group(state.leader, Identity(state.explored));
  }

  /**
   * `_DFS_loop(nodes, edges, t_n)`: the pass walks finishing times; the
   * successors of time t are the times of the successors of the node that
   * finished at t, and the leader groups are translated back to nodes.
   */
  method DfsLoopRelabelled<N(!new)>(nodes: seq<int>, edges: Graph<N>, tn: map<N, int>)
    returns (times: map<int, nat>, leaders: map<N, seq<N>>, ghost nt: map<int, N>, ghost st: PassState<int>,
             ghost disc: map<int, nat>, ghost desc: map<int, set<int>>, ghost start: map<int, nat>)
    requires Closed(edges, tn.Keys) && OneToOne(tn)
    requires forall a | 0 <= a < |nodes| :: nodes[a] in tn.Values
    ensures Inverse(tn, nt) && nt.Keys == tn.Values
    ensures Inv(Relabel(edges, tn, nt), nt.Keys, st, disc, desc)
    ensures RootInv(nodes, |nodes|, st, disc, desc, start)
    ensures st.explored == ReachFromAny(Relabel(edges, tn, nt), nt.Keys, nodes, {})
    ensures times == st.times
    ensures forall n | n in st.leader :: n in nt && st.leader[n] in nt
    ensures Grouped(leaders, st.leader, nt)
  {
    hide Inv, RootInv, ReachFromAny, Relabel;
    var back := Invert(tn);
    nt := back;
    RelabelIso(edges, tn, back);
    var h := Relabel(edges, tn, back);
    var state;
    state, disc, desc, start := Pass(h, back.Keys, nodes);
    st := state;
    LeadersAmongExplored(h, back.Keys, nodes, st, disc, desc, start);
    times := state.times;
    InverseOneToOne(tn, back);
    leaders := Group(state.leader, back);
  }

  lemma InverseOneToOne<K, V>(tn: map<K, V>, nt: map<V, K>)
    requires Inverse(tn, nt)
    ensures OneToOne(nt) && OneToOne(tn)
  {
    forall a, b | a in nt && b in nt && nt[a] == nt[b]
      ensures a == b
    {
      assert tn[nt[a]] == a && tn[nt[b]] == b;
    }
  }

  // ---------------------------------------------------------------------
  // _get_leaders
  // ---------------------------------------------------------------------

  /**
   * The result of `_get_leaders`: one list per component, keyed by a node
   * of it, listing the component's nodes once each, every node in exactly
   * one list.
   */
  ghost predicate ComponentLists<N(!new)>(leaders: map<N, seq<N>>, g: Graph<N>, nodes: set<N>) {
    && (forall l | l in leaders ::
          && l in nodes
          && Elements(leaders[l]) == Component(g, nodes, l)
          && NoRepeats(leaders[l]))
    && (forall n | n in nodes :: exists l :: l in leaders && n in leaders[l])
    && (forall l1, l2, x | l1 in leaders && l2 in leaders && x in leaders[l1] && x in leaders[l2] :: l1 == l2)
  }

  /**
   * `_get_leaders`: the first pass runs on the reversed edges over all nodes
   * from the largest down (`less` is the order `sorted` uses); the second
   * runs on the forward edges over the finishing times from the largest
   * down.  The groups of the second pass are the strongly connected
   * components.
   */
  method GetLeaders<N(!new)>(edges: Graph<N>, edgesRev: Graph<N>, nodes: set<N>, less: (N, N) -> bool)
    returns (leaders: map<N, seq<N>>)
    requires StrictTotalOn(less, nodes)
    requires Closed(edges, nodes) && Closed(edgesRev, nodes) && Reversed(edges, edgesRev)
    ensures ComponentLists(leaders, edges, nodes)
  {
    hide *;
    var order1 := SortedDesc(less, nodes);
    ghost var st1: PassState<N>, disc1: map<N, nat>, desc1: map<N, set<N>>, start1: map<N, nat>;
    var times: map<N, nat>, firstLeaders: map<N, seq<N>>;
    times, firstLeaders, st1, disc1, desc1, start1 := DfsLoop(order1, edgesRev, nodes);
    FirstPassFinished(edgesRev, nodes, order1, st1, disc1, desc1, start1);
    var labels: set<int> := times.Values;
    IntLessTotal(labels);
    var order2 := SortedDesc(IntLess, labels);
    ghost var nt: map<int, N>, st2: PassState<int>, disc2: map<int, nat>, desc2: map<int, set<int>>, start2: map<int, nat>;
    var times2: map<int, nat>;
    times2, leaders, nt, st2, disc2, desc2, start2 := DfsLoopRelabelled(order2, edges, times);
    SecondPassDone(edges, edgesRev, nodes, disc1, times, desc1, nt, order2, st2, disc2, desc2, start2);
    GroupsAreComponents(edges, nodes, times, nt, order2, st2, disc2, desc2, start2, leaders);
  }

  /** When every node is a start of the pass, the pass explores every node. */
  lemma CoverAll<N(!new)>(g: Graph<N>, nodes: set<N>, order: seq<N>)
    requires (forall a | 0 <= a < |order| :: order[a] in nodes) && (forall n | n in nodes :: n in order)
    ensures ReachFromAny(g, nodes, order, {}) == nodes
  {
    forall n | n in nodes
      ensures n in ReachFromAny(g, nodes, order, {})
    {
      var k :| 0 <= k < |order| && order[k] == n;
      ReachRefl(g, n, {});
    }
  }

  /** The first pass visits every node, so its record is a finished search of the whole graph. */
  lemma FirstPassFinished<N(!new)>(g: Graph<N>, nodes: set<N>, order: seq<N>, st: PassState<N>,
                                   disc: map<N, nat>, desc: map<N, set<N>>, start: map<N, nat>)
    requires (forall a | 0 <= a < |order| :: order[a] in nodes) && (forall n | n in nodes :: n in order)
    requires Inv(g, nodes, st, disc, desc) && RootInv(order, |order|, st, disc, desc, start)
    requires st.explored == ReachFromAny(g, nodes, order, {})
    ensures st.explored == nodes && st.times.Keys == nodes
    ensures Finished(g, nodes, disc, st.times, desc) && OneToOne<N, int>(st.times)
  {
    CoverAll(g, nodes, order);
    InvParts(g, nodes, st, disc, desc);
    RootInvFacts(order, |order|, st, disc, desc, start);
  }

  /** Strong connection in the reversed graph carries over to the relabelled forward graph. */
  lemma ConnectedRelabelled<N(!new)>(g: Graph<N>, rg: Graph<N>, nodes: set<N>, h: Graph<int>,
                                     tn: map<N, int>, a: N, b: N)
    requires Reversed(g, rg) && Closed(g, nodes) && Hom(g, nodes, h, tn) && nodes <= tn.Keys
    requires a in nodes && b in nodes && StronglyConnected(rg, a, b)
    ensures StronglyConnected(h, tn[a], tn[b]) && StronglyConnected(h, tn[b], tn[a])
  {
    StronglyConnectedReversed(g, rg, a, b);
    ReachMapped(g, nodes, h, tn, a, b);
    ReachMapped(g, nodes, h, tn, b, a);
  }

  /**
   * The heart of the argument: if leader r of the second pass reaches w
   * without being reached back, then the first pass finished some node of
   * w's component later than r's node, so that node's time comes before r
   * in the second pass's order.
   */
  lemma OrderedStep<N(!new)>(g: Graph<N>, rg: Graph<N>, nodes: set<N>, disc1: map<N, nat>, tn: map<N, nat>,
                             desc1: map<N, set<N>>, nt: map<int, N>, h: Graph<int>, order2: seq<int>,
                             start2: map<int, nat>, r: int, w: int)
    returns (a: nat)
    requires Finished(rg, nodes, disc1, tn, desc1) && Reversed(g, rg) && Closed(g, nodes)
    requires Inverse(tn, nt) && nt.Keys == tn.Values && nodes == tn.Keys
    requires StrictTotalOn(IntLess, nt.Keys) && order2 == SortedDesc(IntLess, nt.Keys)
    requires Hom(g, nodes, h, tn) && Hom(h, nt.Keys, g, nt) && Closed(h, nt.Keys)
    requires r in start2 && start2[r] < |order2| && order2[start2[r]] == r
    requires w in nt && Reach(h, r, w) && !StronglyConnected(h, r, w)
    ensures a < start2[r] && a < |order2| && StronglyConnected(h, w, order2[a])
  {
    hide Finished;
    assert r in nt;
    var u, v := nt[r], nt[w];
    ReachMapped(h, nt.Keys, g, nt, r, w);
    ReachReversed(g, rg, u, v);
    if StronglyConnected(rg, v, u) {
      ConnectedRelabelled(g, rg, nodes, h, tn, v, u);
      assert false;
    }
    var x := LaterInComponent(rg, nodes, disc1, tn, desc1, v, u);
    ConnectedRelabelled(g, rg, nodes, h, tn, v, x);
    var big := tn[x];
    assert big in nt.Keys;
    a :| 0 <= a < |order2| && order2[a] == big;
    EarlierIfLarger(IntLess, nt.Keys, a, start2[r]);
  }

  /** The first pass's finishing times order the second pass as Kosaraju's argument needs. */
  lemma OrderedByFirstPass<N(!new)>(g: Graph<N>, rg: Graph<N>, nodes: set<N>, disc1: map<N, nat>, tn: map<N, nat>,
                                    desc1: map<N, set<N>>, nt: map<int, N>, h: Graph<int>, order2: seq<int>,
                                    start2: map<int, nat>)
    requires Finished(rg, nodes, disc1, tn, desc1) && Reversed(g, rg) && Closed(g, nodes)
    requires Inverse(tn, nt) && nt.Keys == tn.Values && nodes == tn.Keys
    requires StrictTotalOn(IntLess, nt.Keys) && order2 == SortedDesc(IntLess, nt.Keys)
    requires Hom(g, nodes, h, tn) && Hom(h, nt.Keys, g, nt) && Closed(h, nt.Keys)
    requires forall r | r in start2 :: start2[r] < |order2| && order2[start2[r]] == r
    ensures Ordered(h, nt.Keys, order2, start2)
  {
    hide *;
    forall r, w | r in start2 && w in nt.Keys && Reach(h, r, w) && !StronglyConnected(h, r, w)
      ensures exists a :: 0 <= a < start2[r] && a < |order2| && StronglyConnected(h, w, order2[a])
    {
      var a := OrderedStep(g, rg, nodes, disc1, tn, desc1, nt, h, order2, start2, r, w);
    }
    OrderedIntro(h, nt.Keys, order2, start2);
  }

  lemma OrderedIntro<N(!new)>(g: Graph<N>, nodes: set<N>, order: seq<N>, start: map<N, nat>)
    requires forall r, w | r in start && w in nodes && Reach(g, r, w) && !StronglyConnected(g, r, w) ::
               exists a :: 0 <= a < start[r] && a < |order| && StronglyConnected(g, w, order[a])
    ensures Ordered(g, nodes, order, start)
  {
  }

  /** The second pass explores every time, and each of its searches takes a whole component. */
  lemma SecondPassDone<N(!new)>(g: Graph<N>, rg: Graph<N>, nodes: set<N>, disc1: map<N, nat>, tn: map<N, nat>,
                                desc1: map<N, set<N>>, nt: map<int, N>, order2: seq<int>, st2: PassState<int>,
                                disc2: map<int, nat>, desc2: map<int, set<int>>, start2: map<int, nat>)
    requires Finished(rg, nodes, disc1, tn, desc1) && Closed(g, nodes) && Reversed(g, rg)
    requires Inverse(tn, nt) && nt.Keys == tn.Values && nodes == tn.Keys
    requires StrictTotalOn(IntLess, nt.Keys) && order2 == SortedDesc(IntLess, nt.Keys)
    requires Inv(Relabel(g, tn, nt), nt.Keys, st2, disc2, desc2)
    requires RootInv(order2, |order2|, st2, disc2, desc2, start2)
    requires st2.explored == ReachFromAny(Relabel(g, tn, nt), nt.Keys, order2, {})
    ensures PassDone(Relabel(g, tn, nt), nt.Keys, order2, st2, disc2, desc2, start2)
    ensures forall r | r in start2 :: r in desc2 && desc2[r] == Component(Relabel(g, tn, nt), nt.Keys, r)
  {
    hide Finished, Inv, RootInv, Relabel, ReachFromAny, PassDone;
    var h := Relabel(g, tn, nt);
    RelabelIso(g, tn, nt);
    CoverAll(h, nt.Keys, order2);
    PassDoneIntro(h, nt.Keys, order2, st2, disc2, desc2, start2);
    PassDoneOrder(h, nt.Keys, order2, st2, disc2, desc2, start2);
    OrderedByFirstPass(g, rg, nodes, disc1, tn, desc1, nt, h, order2, start2);
    SearchesAreComponents(h, nt.Keys, order2, st2, disc2, desc2, start2);
  }

  lemma PassDoneIntro<N(!new)>(g: Graph<N>, nodes: set<N>, order: seq<N>, st: PassState<N>,
                               disc: map<N, nat>, desc: map<N, set<N>>, start: map<N, nat>)
    requires Inv(g, nodes, st, disc, desc) && RootInv(order, |order|, st, disc, desc, start)
    requires st.explored == nodes
    ensures PassDone(g, nodes, order, st, disc, desc, start)
  {
  }

  ghost function Image<K, V>(m: map<K, V>, s: set<K>): set<V>
    requires s <= m.Keys
  {
    set k | k in s :: m[k]
  }

  lemma ImageMember<K, V>(m: map<K, V>, s: set<K>, x: V) returns (k: K)
    requires s <= m.Keys && x in Image(m, s)
    ensures k in s && m[k] == x
  {
    k :| k in s && m[k] == x;
  }

  /** The relabelling maps the components of the time graph onto those of the node graph. */
  lemma ComponentImage<N(!new)>(g: Graph<N>, nodes: set<N>, h: Graph<int>, tn: map<N, int>, nt: map<int, N>, r: int)
    requires Inverse(tn, nt) && nodes == tn.Keys && Closed(g, nodes)
    requires Hom(g, nodes, h, tn) && Hom(h, nt.Keys, g, nt) && Closed(h, nt.Keys) && r in nt
    ensures Image(nt, Component(h, nt.Keys, r)) == Component(g, nodes, nt[r])
  {
    forall m | m in Component(h, nt.Keys, r)
      ensures nt[m] in Component(g, nodes, nt[r])
    {
      ReachMapped(h, nt.Keys, g, nt, r, m);
      ReachMapped(h, nt.Keys, g, nt, m, r);
    }
    forall x | x in Component(g, nodes, nt[r])
      ensures x in Image(nt, Component(h, nt.Keys, r))
    {
      ReachMapped(g, nodes, h, tn, nt[r], x);
      ReachMapped(g, nodes, h, tn, x, nt[r]);
      assert tn[x] in Component(h, nt.Keys, r);
    }
  }

  /** The group of a leader, translated, is the translated set of nodes it leads. */
  lemma GroupIsImage<N(!new)>(leader: map<int, int>, nt: map<int, N>, r: int)
    requires forall n | n in leader :: n in nt && leader[n] in nt
    requires OneToOne(nt) && r in nt
    ensures LedBy(leader, r) <= nt.Keys
    ensures GroupOf(leader, nt, nt[r]) == Image(nt, LedBy(leader, r))
  {
    forall n | n in LedBy(leader, r)
      ensures n in nt
    {
    }
    forall x | x in GroupOf(leader, nt, nt[r])
      ensures x in Image(nt, LedBy(leader, r))
    {
      var n := GroupOfMember(leader, nt, nt[r], x);
      assert n in LedBy(leader, r);
    }
    forall x | x in Image(nt, LedBy(leader, r))
      ensures x in GroupOf(leader, nt, nt[r])
    {
      var n := ImageMember(nt, LedBy(leader, r), x);
      GroupOfIntro(leader, nt, n);
    }
  }

  /** The second pass's groups, translated back to nodes, are the components. */
  lemma GroupsAreComponents<N(!new)>(g: Graph<N>, nodes: set<N>, tn: map<N, nat>, nt: map<int, N>,
                                     order2: seq<int>, st2: PassState<int>, disc2: map<int, nat>,
                                     desc2: map<int, set<int>>, start2: map<int, nat>, leaders: map<N, seq<N>>)
    requires Inverse(tn, nt) && nodes == tn.Keys && Closed(g, nodes)
    requires PassDone(Relabel(g, tn, nt), nt.Keys, order2, st2, disc2, desc2, start2)
    requires forall r | r in start2 :: r in desc2 && desc2[r] == Component(Relabel(g, tn, nt), nt.Keys, r)
    requires forall n | n in st2.leader :: n in nt && st2.leader[n] in nt
    requires Grouped(leaders, st2.leader, nt)
    ensures ComponentLists(leaders, g, nodes)
  {
    hide *;
    EachGroupIsComponent(g, nodes, tn, nt, order2, st2, disc2, desc2, start2, leaders);
    EveryNodeGrouped(g, nodes, tn, nt, order2, st2, disc2, desc2, start2, leaders);
    InverseOneToOne(tn, nt);
    GroupedSeparate(leaders, st2.leader, nt);
    ComponentListsIntro(leaders, g, nodes);
  }

  lemma ComponentListsIntro<N(!new)>(leaders: map<N, seq<N>>, g: Graph<N>, nodes: set<N>)
    requires forall l | l in leaders :: l in nodes && Elements(leaders[l]) == Component(g, nodes, l)
    requires forall l | l in leaders :: NoRepeats(leaders[l])
    requires forall n | n in nodes :: exists l :: l in leaders && n in leaders[l]
    requires forall l1, l2, x | l1 in leaders && l2 in leaders && x in leaders[l1] && x in leaders[l2] :: l1 == l2
    ensures ComponentLists(leaders, g, nodes)
  {
  }

  /** Through a one-to-one `back`, the lists have no repeats and share no node. */
  lemma GroupedSeparate<L, N>(groups: map<N, seq<N>>, leader: map<L, L>, back: map<L, N>)
    requires Grouped(groups, leader, back) && OneToOne(back)
    ensures forall l | l in groups :: NoRepeats(groups[l])
    ensures forall l1, l2, x | l1 in groups && l2 in groups && x in groups[l1] && x in groups[l2] :: l1 == l2
  {
    forall l1, l2, x | l1 in groups && l2 in groups && x in groups[l1] && x in groups[l2]
      ensures l1 == l2
    {
      assert x in Elements(groups[l1]) && x in Elements(groups[l2]);
      var m1 := GroupOfMember(leader, back, l1, x);
      var m2 := GroupOfMember(leader, back, l2, x);
    }
  }

  lemma EachGroupIsComponent<N(!new)>(g: Graph<N>, nodes: set<N>, tn: map<N, nat>, nt: map<int, N>,
                                      order2: seq<int>, st2: PassState<int>, disc2: map<int, nat>,
                                      desc2: map<int, set<int>>, start2: map<int, nat>, leaders: map<N, seq<N>>)
    requires Inverse(tn, nt) && nodes == tn.Keys && Closed(g, nodes)
    requires PassDone(Relabel(g, tn, nt), nt.Keys, order2, st2, disc2, desc2, start2)
    requires forall r | r in start2 :: r in desc2 && desc2[r] == Component(Relabel(g, tn, nt), nt.Keys, r)
    requires forall n | n in st2.leader :: n in nt && st2.leader[n] in nt
    requires Grouped(leaders, st2.leader, nt)
    ensures forall l | l in leaders :: l in nodes && Elements(leaders[l]) == Component(g, nodes, l)
  {
    hide PassDone, Relabel;
    var h := Relabel(g, tn, nt);
    RelabelIso(g, tn, nt);
    InverseOneToOne(tn, nt);
    forall l | l in leaders
      ensures l in nodes && Elements(leaders[l]) == Component(g, nodes, l)
    {
      var n := GroupedKey(leaders, st2.leader, nt, l);
      var r := st2.leader[n];
      LeaderOf(h, nt.Keys, order2, st2, disc2, desc2, start2, n);
      RootFacts(h, nt.Keys, order2, st2, disc2, desc2, start2, r);
      GroupIsImage(st2.leader, nt, r);
      ComponentImage(g, nodes, h, tn, nt, r);
    }
  }

  lemma EveryNodeGrouped<N(!new)>(g: Graph<N>, nodes: set<N>, tn: map<N, nat>, nt: map<int, N>,
                                  order2: seq<int>, st2: PassState<int>, disc2: map<int, nat>,
                                  desc2: map<int, set<int>>, start2: map<int, nat>, leaders: map<N, seq<N>>)
    requires Inverse(tn, nt) && nodes == tn.Keys && Closed(g, nodes)
    requires PassDone(Relabel(g, tn, nt), nt.Keys, order2, st2, disc2, desc2, start2)
    requires forall n | n in st2.leader :: n in nt && st2.leader[n] in nt
    requires Grouped(leaders, st2.leader, nt)
    ensures forall n | n in nodes :: exists l :: l in leaders && n in leaders[l]
  {
    hide PassDone, Relabel;
    var h := Relabel(g, tn, nt);
    forall v | v in nodes
      ensures exists l :: l in leaders && v in leaders[l]
    {
      var t := tn[v];
      LeaderOf(h, nt.Keys, order2, st2, disc2, desc2, start2, t);
      var l := nt[st2.leader[t]];
      assert l in leaders;
      GroupOfIntro(st2.leader, nt, t);
      assert v in Elements(leaders[l]);
    }
  }

  // ---------------------------------------------------------------------
  // get_leaders_from_edges
  // ---------------------------------------------------------------------

  /** `get_leaders_from_edges`: the components of the graph an edge list describes. */
  method GetLeadersFromEdges<N(!new)>(es: seq<(N, N)>, less: (N, N) -> bool) returns (leaders: map<N, seq<N>>)
    requires StrictTotalOn(less, Endpoints(es))
    ensures ComponentLists(leaders, Forward(es), Endpoints(es))
  {
    var nodes, edges, edgesRev := GetDataFromEdges(es);
    EdgeGraphs(es);
    leaders := GetLeaders(edges, edgesRev, nodes, less);
  }

  /** A list holds exactly the nodes strongly connected to its key. */
  lemma ListedIff<N(!new)>(leaders: map<N, seq<N>>, g: Graph<N>, nodes: set<N>, l: N, x: N)
    requires ComponentLists(leaders, g, nodes) && l in leaders
    ensures x in leaders[l] <==> x in nodes && StronglyConnected(g, l, x)
  {
    assert Elements(leaders[l]) == Component(g, nodes, l);
    assert x in leaders[l] <==> x in Elements(leaders[l]);
  }

  /** Two listed nodes share a list exactly when each reaches the other. */
  lemma SameListIffConnected<N(!new)>(leaders: map<N, seq<N>>, g: Graph<N>, nodes: set<N>,
                                      l1: N, l2: N, a: N, b: N)
    requires ComponentLists(leaders, g, nodes)
    requires l1 in leaders && l2 in leaders && a in leaders[l1] && b in leaders[l2]
    ensures l1 == l2 <==> StronglyConnected(g, a, b)
  {
    hide ComponentLists;
    ListedIff(leaders, g, nodes, l1, a);
    ListedIff(leaders, g, nodes, l2, b);
    if l1 == l2 {
      StronglyConnectedTrans(g, a, l1, b);
    }
    if StronglyConnected(g, a, b) {
      StronglyConnectedTrans(g, l1, a, b);
      ListedIff(leaders, g, nodes, l1, b);
      ListsDisjoint(leaders, g, nodes, l1, l2, b);
    }
  }

  lemma ListsDisjoint<N(!new)>(leaders: map<N, seq<N>>, g: Graph<N>, nodes: set<N>, l1: N, l2: N, x: N)
    requires ComponentLists(leaders, g, nodes)
    requires l1 in leaders && l2 in leaders && x in leaders[l1] && x in leaders[l2]
    ensures l1 == l2
  {
  }

  lemma ListFacts<N(!new)>(leaders: map<N, seq<N>>, g: Graph<N>, nodes: set<N>, l: N)
    requires ComponentLists(leaders, g, nodes) && l in leaders
    ensures l in nodes && NoRepeats(leaders[l])
  {
  }

  lemma ListContaining<N(!new)>(leaders: map<N, seq<N>>, g: Graph<N>, nodes: set<N>, n: N) returns (l: N)
    requires ComponentLists(leaders, g, nodes) && n in nodes
    ensures l in leaders && n in leaders[l]
  {
    l :| l in leaders && n in leaders[l];
  }
}
