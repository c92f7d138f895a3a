/**
 * The builder side of the dependency graph: `_split_list`, `Graph` with
 * `add_function`, and `compile`, which rejects an empty graph and cyclic
 * dependencies (found with the strongly-connected-components module) before
 * taking a layered snapshot.
 */
module DepGraph {
  import opened Results
  import opened Sets
  import opened Order
  import opened Digraph
  import opened Scc
  import opened Layering

  // ---------------------------------------------------------------------
  // _split_list
  // ---------------------------------------------------------------------

  /** How a slice reads the bound i on a list of length n: from the end when negative, clamped to [0, n]. */
  function SliceBound(n: nat, i: int): (b: nat)
    ensures b <= n
    ensures 0 <= i <= n ==> b == i
    ensures -(n as int) <= i < 0 ==> b == n + i
    ensures i < -(n as int) ==> b == 0
    ensures n < i ==> b == n
  {
    if i < 0 then (if n + i < 0 then 0 else n + i)
    else if n < i then n
    else i
  }

  /** `alist[i:j]`, where j = None means up to the end. */
  function Slice<T>(alist: seq<T>, i: int, j: Option<int>): seq<T> {
    var lo := SliceBound(|alist|, i);
    var hi := if j.None? then |alist| else SliceBound(|alist|, j.value);
    if hi <= lo then [] else alist[lo..hi]
  }

  /** A negative index counts from the end, as `_split_list` first rewrites it. */
  function Cut(n: nat, index: int): int {
    if index < 0 then n + index else index
  }

  /** `_split_list(alist, *indices)`: the slices between 0, the rewritten indices and the end. */
  function SplitList<T>(alist: seq<T>, indices: seq<int>): (pieces: seq<seq<T>>)
    ensures |pieces| == |indices| + 1
  {
    var cuts := seq(|indices|, k requires 0 <= k < |indices| => Cut(|alist|, indices[k]));
    var starts := [0] + cuts;
    var ends := seq(|cuts|, k requires 0 <= k < |cuts| => Some(cuts[k])) + [None];
    seq(|cuts| + 1, k requires 0 <= k <= |cuts| => Slice(alist, starts[k], ends[k]))
  }

  /** The pieces of a[lo..] cut at the positions `cuts`. */
  ghost function Pieces<T>(a: seq<T>, lo: nat, cuts: seq<nat>): (r: seq<seq<T>>)
    requires lo <= |a| && forall k | 0 <= k < |cuts| :: lo <= cuts[k] <= |a|
    requires forall i, j | 0 <= i < j < |cuts| :: cuts[i] <= cuts[j]
    ensures |r| == |cuts| + 1
    decreases |cuts|
  {
    if cuts == [] then [a[lo..]]
    else [a[lo..cuts[0]]] + Pieces(a, cuts[0], cuts[1..])
  }

  ghost function Concat<T>(pieces: seq<seq<T>>): seq<T>
    decreases |pieces|
  {
    if pieces == [] then [] else pieces[0] + Concat(pieces[1..])
  }

  lemma {:induction false} PiecesConcat<T>(a: seq<T>, lo: nat, cuts: seq<nat>)
    requires lo <= |a| && forall k | 0 <= k < |cuts| :: lo <= cuts[k] <= |a|
    requires forall i, j | 0 <= i < j < |cuts| :: cuts[i] <= cuts[j]
    ensures Concat(Pieces(a, lo, cuts)) == a[lo..]
    decreases |cuts|
  {
    if cuts == [] {
      assert Concat([a[lo..]]) == a[lo..] + Concat([]);
    } else {
      var rest := Pieces(a, cuts[0], cuts[1..]);
      PiecesConcat(a, cuts[0], cuts[1..]);
      assert ([a[lo..cuts[0]]] + rest)[1..] == rest;
      assert a[lo..] == a[lo..cuts[0]] + a[cuts[0]..];
    }
  }

  /** With cut positions in order and within the list, `_split_list`'s pieces are the consecutive pieces. */
  lemma {:induction false} SplitListPieces<T>(alist: seq<T>, indices: seq<int>, cuts: seq<nat>)
    requires |cuts| == |indices| && forall k | 0 <= k < |indices| :: cuts[k] == Cut(|alist|, indices[k])
    requires forall k | 0 <= k < |cuts| :: cuts[k] <= |alist|
    requires forall i, j | 0 <= i < j < |cuts| :: cuts[i] <= cuts[j]
    ensures SplitList(alist, indices) == Pieces(alist, 0, cuts)
  {
    var pieces := SplitList(alist, indices);
    forall k | 0 <= k < |pieces|
      ensures pieces[k] == Pieces(alist, 0, cuts)[k]
    {
      PieceAt(alist, 0, cuts, k);
    }
  }

  /** The k-th piece runs from the previous cut (or lo) to the k-th cut (or the end). */
  lemma {:induction false} PieceAt<T>(a: seq<T>, lo: nat, cuts: seq<nat>, k: nat)
    requires lo <= |a| && forall i | 0 <= i < |cuts| :: lo <= cuts[i] <= |a|
    requires forall i, j | 0 <= i < j < |cuts| :: cuts[i] <= cuts[j]
    requires k <= |cuts|
    ensures |Pieces(a, lo, cuts)| == |cuts| + 1
    ensures Pieces(a, lo, cuts)[k] == a[(if k == 0 then lo else cuts[k - 1])..(if k == |cuts| then |a| else cuts[k])]
    decreases |cuts|
  {
    if cuts != [] {
      PieceAt(a, cuts[0], cuts[1..], if k == 0 then 0 else k - 1);
    }
  }

  /** `_split_list`'s pieces concatenate back to the list whenever the indices, read from the end if negative, are in order and within it. */
  lemma SplitListConcat<T>(alist: seq<T>, indices: seq<int>)
    requires forall k | 0 <= k < |indices| :: 0 <= Cut(|alist|, indices[k]) <= |alist|
    requires forall i, j | 0 <= i < j < |indices| :: Cut(|alist|, indices[i]) <= Cut(|alist|, indices[j])
    ensures Concat(SplitList(alist, indices)) == alist
  {
    var cuts: seq<nat> := seq(|indices|, k requires 0 <= k < |indices| => Cut(|alist|, indices[k]));
    SplitListPieces(alist, indices, cuts);
    PiecesConcat(alist, 0, cuts);
  }

  /** Splitting off the last m elements, as `add_function` does for its defaulted parameters. */
  lemma SplitOffLast<T>(alist: seq<T>, m: nat)
    requires 0 < m <= |alist|
    ensures SplitList(alist, [-(m as int)]) == [alist[..|alist| - m], alist[|alist| - m..]]
  {
    var pieces := SplitList(alist, [-(m as int)]);
    assert Cut(|alist|, -(m as int)) == |alist| - m;
    assert Slice(alist, 0, Some(|alist| - m)) == alist[..|alist| - m];
    assert Slice(alist, |alist| - m, None) == alist[|alist| - m..];
    assert pieces[0] == Slice(alist, 0, Some(|alist| - m));
    assert pieces[1] == Slice(alist, |alist| - m, None);
  }

  // ---------------------------------------------------------------------
  // Defaults
  // ---------------------------------------------------------------------

  /** `dict(izip(keys, values))`: pairs up to the shorter length, a later key overriding an earlier one. */
  function ZipMap<K(!new), V>(keys: seq<K>, values: seq<V>): (m: map<K, V>)
    ensures forall k :: k in m <==> exists i :: 0 <= i < |keys| && i < |values| && keys[i] == k
    decreases |keys|
  {
    var n := if |keys| < |values| then |keys| else |values|;
    if n == 0 then map[]
    else
      var m := ZipMap(keys[..n - 1], values[..n - 1]);
      assert forall i | 0 <= i < n - 1 :: keys[..n - 1][i] == keys[i];
      m[keys[n - 1] := values[n - 1]]
  }

  lemma {:induction false} ZipMapAt<K(!new), V>(keys: seq<K>, values: seq<V>, i: nat)
    requires NoRepeats(keys) && i < |keys| && i < |values|
    ensures keys[i] in ZipMap(keys, values) && ZipMap(keys, values)[keys[i]] == values[i]
    decreases |keys|
  {
    var n := if |keys| < |values| then |keys| else |values|;
    if i < n - 1 {
      assert keys[..n - 1][i] == keys[i];
      ZipMapAt(keys[..n - 1], values[..n - 1], i);
    }
  }

  /** The names `add_function` pairs with the default values: the second piece, or none. */
  function DefaultNames(arguments: seq<string>, count: nat): seq<string> {
    if count > 0 then SplitList(arguments, [-(count as int)])[1] else []
  }

  /** The defaults a function declares: `dict(izip(default_names, default_values))`. */
  function TrailingDefaults<V>(arguments: seq<string>, defaultValues: seq<V>): map<string, V> {
    ZipMap(DefaultNames(arguments, |defaultValues|), defaultValues)
  }

  lemma DefaultNamesTrailing(arguments: seq<string>, count: nat)
    requires count <= |arguments|
    ensures DefaultNames(arguments, count) == arguments[|arguments| - count..]
  {
    if count > 0 {
      SplitOffLast(arguments, count);
    }
  }

  /** Exactly the last |defaultValues| parameters get defaults... */
  lemma TrailingDefaultNames<V>(arguments: seq<string>, defaultValues: seq<V>, n: string)
    requires |defaultValues| <= |arguments|
    ensures n in TrailingDefaults(arguments, defaultValues) <==>
      exists i :: |arguments| - |defaultValues| <= i < |arguments| && arguments[i] == n
  {
    var first := |arguments| - |defaultValues|;
    var names := DefaultNames(arguments, |defaultValues|);
    DefaultNamesTrailing(arguments, |defaultValues|);
    if n in TrailingDefaults(arguments, defaultValues) {
      var i :| 0 <= i < |names| && i < |defaultValues| && names[i] == n;
      assert arguments[first + i] == n;
    }
    if i :| first <= i < |arguments| && arguments[i] == n {
      assert names[i - first] == n;
    }
  }

  /** ... the i-th of them the i-th value. */
  lemma TrailingDefaultValues<V>(arguments: seq<string>, defaultValues: seq<V>, i: nat)
    requires |defaultValues| <= |arguments| && NoRepeats(arguments)
    requires |arguments| - |defaultValues| <= i < |arguments|
    ensures arguments[i] in TrailingDefaults(arguments, defaultValues)
    ensures TrailingDefaults(arguments, defaultValues)[arguments[i]] == defaultValues[i - (|arguments| - |defaultValues|)]
  {
    var first := |arguments| - |defaultValues|;
    var names := DefaultNames(arguments, |defaultValues|);
    DefaultNamesTrailing(arguments, |defaultValues|);
    assert names[i - first] == arguments[i];
    ZipMapAt(names, defaultValues, i - first);
  }

  // ---------------------------------------------------------------------
  // Graph
  // ---------------------------------------------------------------------

  /** What `add_function` reports: success, or the ValueError it raises. */
  datatype Registration = Added | AlreadyDeclared(fname: string) | DefaultAlreadySpecified(name: string)

  /** What `compile` raises when it cannot produce a compiled graph. */
  datatype CompileError =
    | NoDependencies
      /** The multi-member components, each keyed by its leader. */
    | CyclicDependencies(components: map<string, seq<string>>)
      /** A function among its own parameters (unbounded recursion) or one without parameters (`max()` of nothing). */
    | LayeringFailed

  /** `Graph`: the functions registered so far and the defaults shared by all of them. */
  class Graph<!V> {
    var dependencies: Dependencies<V>
    var defaults: map<string, V>

    constructor ()
      ensures dependencies == map[] && defaults == map[]
    {
      dependencies := map[];
      defaults := map[];
    }

    /**
     * `add_function` for a function named `fname` whose parameters are
     * `arguments`, the last |defaultValues| of them with defaults.  Python
     * parameter names are distinct and never fewer than the defaults.
     */
    method AddFunction(fname: string, f: map<string, V> -> V, arguments: seq<string>, defaultValues: seq<V>)
      returns (r: Registration)
      requires |defaultValues| <= |arguments| && NoRepeats(arguments)
      modifies this
      ensures r.AlreadyDeclared? <==> fname in old(dependencies)
      ensures r.AlreadyDeclared? ==> r.fname == fname
      ensures fname !in old(dependencies) ==>
        (r == Added <==> forall n | n in TrailingDefaults(arguments, defaultValues) :: n !in old(defaults))
      ensures r.DefaultAlreadySpecified? ==>
        r.name in TrailingDefaults(arguments, defaultValues) && r.name in old(defaults)
      ensures r != Added ==> dependencies == old(dependencies) && defaults == old(defaults)
      ensures r == Added ==>
        && dependencies == old(dependencies)[fname := Node(f, Elements(arguments))]
        && defaults == old(defaults) + TrailingDefaults(arguments, defaultValues)
    {
      var defaultNames := if |defaultValues| > 0 then SplitList(arguments, [-(|defaultValues| as int)])[1] else [];
      var defaultsDict := ZipMap(defaultNames, defaultValues);
      assert defaultsDict == TrailingDefaults(arguments, defaultValues);
      if fname in dependencies {
        return AlreadyDeclared(fname);
      }
      if exists n | n in defaultsDict :: n in defaults {
        var n :| n in defaultsDict && n in defaults;
        return DefaultAlreadySpecified(n);
      }
      dependencies := dependencies[fname := Node(f, set a | a in arguments)];
      defaults := defaults + defaultsDict;
      r := Added;
    }

    /** `compile`. The builder is left as it is; the snapshot shares no state with it. */
    method Compile() returns (r: Result<CompiledGraph<V>, CompileError>)
      ensures dependencies == map[] <==> r == Err(NoDependencies)
      ensures r.Err? && r.error.CyclicDependencies? <==> dependencies != map[] && !Acyclic(dependencies)
      ensures r.Err? && r.error.CyclicDependencies? ==> MultiMemberComponents(dependencies, r.error.components)
      ensures r == Err(LayeringFailed) <==>
        dependencies != map[] && Acyclic(dependencies) && !(NoSelfLoops(dependencies) && HasArguments(dependencies))
      ensures r.Ok? <==> dependencies != map[] && Layerable(dependencies)
      ensures r.Ok? ==>
        r.value.dependencies == dependencies && r.value.defaults == defaults && ValidCompiled(r.value)
    {
      hide *;
      if dependencies == map[] {
        return Err(NoDependencies);
      }
      var es := DependencyEdges(dependencies);
      StringLessStrictTotal(Endpoints(es));
      var leaders := GetLeadersFromEdges(es, StringLess);
      CyclicIff(dependencies, es, leaders);
      LayerableIff(dependencies);
      if exists l | l in leaders :: |leaders[l]| > 1 {
        ReportedComponents(dependencies, es, leaders);
        return Err(CyclicDependencies(MultiMember(leaders)));
      }
      if exists f | f in dependencies :: f in dependencies[f].dependsOn || dependencies[f].dependsOn == {} {
        return Err(LayeringFailed);
      }
      var c := NewCompiledGraph(dependencies, defaults);
      r := Ok(c);
    }
  }

  /** The lists with more than one member, the ones `compile` reports. */
  function MultiMember(leaders: map<string, seq<string>>): map<string, seq<string>> {
    map l | l in leaders && |leaders[l]| > 1 :: leaders[l]
  }

  /** The check `compile` makes before layering: some function is its own parameter or has none. */
  lemma LayerableIff<V>(deps: Dependencies<V>)
    ensures (exists f | f in deps :: f in deps[f].dependsOn || deps[f].dependsOn == {}) <==>
      !(NoSelfLoops(deps) && HasArguments(deps))
    ensures Layerable(deps) <==> Acyclic(deps) && NoSelfLoops(deps) && HasArguments(deps)
  {
  }

  /** The edge list `compile` hands to the component search: (f, p) for each parameter p of each function f. */
  method DependencyEdges<V>(deps: Dependencies<V>) returns (es: seq<(string, string)>)
    ensures EdgesOf(deps, es)
  {
    es := [];
    var fs := deps.Keys;
    while fs != {}
      invariant fs <= deps.Keys
      invariant forall a, b :: (a, b) in es <==> a in deps && a !in fs && b in deps[a].dependsOn
      decreases |fs|
    {
      NonEmptyHasElement(fs);
      var f :| f in fs;
      var ds := deps[f].dependsOn;
      while ds != {}
        invariant ds <= deps[f].dependsOn
        invariant forall a, b :: (a, b) in es <==>
          a in deps && b in deps[a].dependsOn && (a !in fs || (a == f && b !in ds))
        decreases |ds|
      {
        NonEmptyHasElement(ds);
        var d :| d in ds;
        es := es + [(f, d)];
        ds := ds - {d};
      }
      fs := fs - {f};
    }
  }

  /** es lists exactly the (function, parameter) pairs. */
  ghost predicate EdgesOf<V>(deps: Dependencies<V>, es: seq<(string, string)>) {
    forall a, b :: (a, b) in es <==> a in deps && b in deps[a].dependsOn
  }

  /**
   * Each reported component is a list, without repeats, of one strongly
   * connected component of more than one name; every name on a cycle through
   * another name is reported, and in one list only.
   */
  ghost predicate MultiMemberComponents<V>(deps: Dependencies<V>, components: map<string, seq<string>>) {
    && components != map[]
    && (forall l | l in components ::
         && |components[l]| > 1
         && NoRepeats(components[l])
         && forall x :: x in components[l] <==> x in Names(deps) && StronglyConnected(DepGraph(deps), l, x))
    && (forall a, b | a != b && StronglyConnected(DepGraph(deps), a, b) ::
         exists l :: l in components && a in components[l])
    && (forall l1, l2, x | l1 in components && l2 in components && x in components[l1] && x in components[l2] ::
         l1 == l2)
  }

  /** The edge list and the dependency relation describe the same graph on the same names. */
  lemma EdgeListGraph<V>(deps: Dependencies<V>, es: seq<(string, string)>)
    requires EdgesOf(deps, es)
    ensures SameEdges(Forward(es), DepGraph(deps))
    ensures Endpoints(es) <= Names(deps)
    ensures forall a, b | a != b && Reach(DepGraph(deps), a, b) :: a in Endpoints(es)
  {
    forall x, y
      ensures y in Succ(Forward(es), x) <==> y in Succ(DepGraph(deps), x)
    {
      ForwardSucc(es, x, y);
      DepGraphSucc(deps, x, y);
    }
    forall x | x in Endpoints(es)
      ensures x in Names(deps)
    {
      EndpointsOf(es, x);
      var k :| 0 <= k < |es| && (es[k].0 == x || es[k].1 == x);
      assert es[k] in es;
    }
    forall a, b | a != b && Reach(DepGraph(deps), a, b)
      ensures a in Endpoints(es)
    {
      var j := HasSuccessor(DepGraph(deps), a, b);
      DepGraphSucc(deps, a, j);
      var k :| 0 <= k < |es| && es[k] == (a, j);
      EndpointsOf(es, a);
    }
  }

  lemma ConnectedSame<V>(deps: Dependencies<V>, es: seq<(string, string)>, a: string, b: string)
    requires EdgesOf(deps, es)
    ensures StronglyConnected(Forward(es), a, b) <==> StronglyConnected(DepGraph(deps), a, b)
  {
    EdgeListGraph(deps, es);
    SameEdgesReach(Forward(es), DepGraph(deps), a, b);
    SameEdgesReach(Forward(es), DepGraph(deps), b, a);
  }

  /** The component search finds a multi-member component exactly when two different names depend on each other. */
  lemma CyclicIff<V>(deps: Dependencies<V>, es: seq<(string, string)>, leaders: map<string, seq<string>>)
    requires EdgesOf(deps, es) && ComponentLists(leaders, Forward(es), Endpoints(es))
    ensures (exists l | l in leaders :: |leaders[l]| > 1) <==> !Acyclic(deps)
  {
    hide ComponentLists, EdgesOf;
    if l :| l in leaders && |leaders[l]| > 1 {
      MultiMemberCycle(deps, es, leaders, l);
    }
    if !Acyclic(deps) {
      var a, b :| a != b && StronglyConnected(DepGraph(deps), a, b);
      CycleMultiMember(deps, es, leaders, a, b);
    }
  }

  lemma MultiMemberCycle<V>(deps: Dependencies<V>, es: seq<(string, string)>, leaders: map<string, seq<string>>, l: string)
    requires EdgesOf(deps, es) && ComponentLists(leaders, Forward(es), Endpoints(es))
    requires l in leaders && |leaders[l]| > 1
    ensures !Acyclic(deps)
  {
    hide ComponentLists;
    var g := Forward(es);
    var x, y := leaders[l][0], leaders[l][1];
    ListFacts(leaders, g, Endpoints(es), l);
    ListedIff(leaders, g, Endpoints(es), l, x);
    ListedIff(leaders, g, Endpoints(es), l, y);
    ReachTrans(g, x, l, y, {});
    ReachTrans(g, y, l, x, {});
    ConnectedSame(deps, es, x, y);
    assert x != y && StronglyConnected(DepGraph(deps), x, y);
  }

  lemma CycleMultiMember<V>(deps: Dependencies<V>, es: seq<(string, string)>, leaders: map<string, seq<string>>, a: string, b: string)
    requires EdgesOf(deps, es) && ComponentLists(leaders, Forward(es), Endpoints(es))
    requires a != b && StronglyConnected(DepGraph(deps), a, b)
    ensures exists l | l in leaders :: |leaders[l]| > 1
  {
    var l := CycleList(deps, es, leaders, a, b);
  }

  /** A name on a cycle through another name is in a list of more than one member. */
  lemma CycleList<V>(deps: Dependencies<V>, es: seq<(string, string)>, leaders: map<string, seq<string>>, a: string, b: string)
    returns (l: string)
    requires EdgesOf(deps, es) && ComponentLists(leaders, Forward(es), Endpoints(es))
    requires a != b && StronglyConnected(DepGraph(deps), a, b)
    ensures l in leaders && |leaders[l]| > 1 && a in leaders[l]
  {
    hide ComponentLists;
    var g := Forward(es);
    EdgeListGraph(deps, es);
    ConnectedSame(deps, es, a, b);
    assert a in Endpoints(es) && b in Endpoints(es);
    l := ListContaining(leaders, g, Endpoints(es), a);
    ListedIff(leaders, g, Endpoints(es), l, a);
    ListedIff(leaders, g, Endpoints(es), l, b);
    ReachTrans(g, l, a, b, {});
    ReachTrans(g, b, a, l, {});
    TwoDistinct(leaders[l], a, b);
  }

  lemma TwoDistinct<T>(s: seq<T>, a: T, b: T)
    requires a in s && b in s && a != b
    ensures |s| > 1
  {
  }

  /** The components `compile` reports are the multi-member components, over all names of the graph. */
  lemma ReportedComponents<V>(deps: Dependencies<V>, es: seq<(string, string)>, leaders: map<string, seq<string>>)
    requires EdgesOf(deps, es) && ComponentLists(leaders, Forward(es), Endpoints(es))
    requires exists l | l in leaders :: |leaders[l]| > 1
    ensures MultiMemberComponents(deps, MultiMember(leaders))
  {
    hide ComponentLists;
    var g := Forward(es);
    var components := MultiMember(leaders);
    EdgeListGraph(deps, es);
    var l0 :| l0 in leaders && |leaders[l0]| > 1;
    assert l0 in components;
    forall l | l in components
      ensures NoRepeats(components[l])
    {
      ListFacts(leaders, g, Endpoints(es), l);
    }
    forall l, x | l in components
      ensures x in components[l] <==> x in Names(deps) && StronglyConnected(DepGraph(deps), l, x)
    {
      ListFacts(leaders, g, Endpoints(es), l);
      ListedIff(leaders, g, Endpoints(es), l, x);
      ConnectedSame(deps, es, l, x);
      if x in Names(deps) && StronglyConnected(DepGraph(deps), l, x) && x != l {
        assert Reach(DepGraph(deps), x, l);
      }
    }
    forall a, b | a != b && StronglyConnected(DepGraph(deps), a, b)
      ensures exists l :: l in components && a in components[l]
    {
      var l := CycleList(deps, es, leaders, a, b);
      assert l in components;
    }
    forall l1, l2, x | l1 in components && l2 in components && x in components[l1] && x in components[l2]
      ensures l1 == l2
    {
      ListsDisjoint(leaders, g, Endpoints(es), l1, l2, x);
    }
  }
}
