/**
 * The functions of a compiled graph and their layering (`_CompiledGraph`
 * and its `_sort_topologically`).  A function's parameters are the names it
 * depends on; a name that is not a registered function is an input and sits
 * in layer 0; a function sits one layer above the highest of its parameters.
 */
module Layering {
  import opened Sets
  import opened Digraph

  /** `_Node`: the host function, given its arguments by name, and the names of its parameters. */
  datatype Node<!V> = Node(call: map<string, V> -> V, dependsOn: set<string>)

  type Dependencies<!V> = map<string, Node<V>>

  // ---------------------------------------------------------------------
  // The dependency relation as a graph
  // ---------------------------------------------------------------------

  /** The elements of a finite set, in some order. */
  ghost function ListOf<T(!new)>(s: set<T>): (r: seq<T>)
    ensures forall x :: x in r <==> x in s
    decreases |s|
  {
    if s == {} then []
    else
      var x := Pick(s);
      [x] + ListOf(s - {x})
  }

  /** The graph whose edges lead from every function to each of its parameters. */
  ghost function DepGraph<V>(deps: Dependencies<V>): Graph<string> {
    map f | f in deps :: ListOf(deps[f].dependsOn)
  }

  lemma DepGraphSucc<V>(deps: Dependencies<V>, a: string, b: string)
    ensures b in Succ(DepGraph(deps), a) <==> a in deps && b in deps[a].dependsOn
  {
  }

  /** Every name the graph mentions: the functions and all their parameters. */
  ghost function Names<V>(deps: Dependencies<V>): set<string> {
    deps.Keys + (set f, n | f in deps && n in deps[f].dependsOn :: n)
  }

  lemma NamesClosed<V>(deps: Dependencies<V>)
    ensures Closed(DepGraph(deps), Names(deps))
  {
    forall n, k | n in Names(deps) && 0 <= k < |Succ(DepGraph(deps), n)|
      ensures Succ(DepGraph(deps), n)[k] in Names(deps)
    {
      DepGraphSucc(deps, n, Succ(DepGraph(deps), n)[k]);
    }
  }

  /** No two different names depend on each other, directly or through others. */
  ghost predicate Acyclic<V>(deps: Dependencies<V>) {
    forall a, b | a != b :: !StronglyConnected(DepGraph(deps), a, b)
  }

  ghost predicate NoSelfLoops<V>(deps: Dependencies<V>) {
    forall f | f in deps :: f !in deps[f].dependsOn
  }

  ghost predicate HasArguments<V>(deps: Dependencies<V>) {
    forall f | f in deps :: deps[f].dependsOn != {}
  }

  /**
   * What `walk_depth_first` needs in order to finish: no cycle through
   * several functions (which `compile` rejects), no function among its own
   * parameters (which would recurse forever) and no function without
   * parameters (for which `max()` of nothing raises).
   */
  ghost predicate Layerable<V>(deps: Dependencies<V>) {
    Acyclic(deps) && NoSelfLoops(deps) && HasArguments(deps)
  }

  // ---------------------------------------------------------------------
  // Levels
  // ---------------------------------------------------------------------

  /** The names a name depends on, itself included. */
  ghost function Below<V>(deps: Dependencies<V>, n: string): set<string> {
    ReachFrom(DepGraph(deps), Names(deps), n, {})
  }

  /** A parameter depends on strictly fewer names than its function. */
  lemma DependenciesBelow<V>(deps: Dependencies<V>, f: string)
    requires Acyclic(deps) && NoSelfLoops(deps) && f in deps
    ensures forall d | d in deps[f].dependsOn :: Below(deps, d) <= Below(deps, f) - {f}
    ensures forall d | d in deps[f].dependsOn :: |Below(deps, d)| < |Below(deps, f)|
  {
    var g := DepGraph(deps);
    forall d | d in deps[f].dependsOn
      ensures Below(deps, d) <= Below(deps, f) - {f}
      ensures |Below(deps, d)| < |Below(deps, f)|
    {
      DepGraphSucc(deps, f, d);
      ReachEdge(g, f, d, {});
      assert !StronglyConnected(g, f, d);
      forall x | x in Below(deps, d)
        ensures x in Below(deps, f) && x != f
      {
        ReachTrans(g, f, d, x, {});
      }
      ReachRefl(g, f, {});
      StrictSubsetCard(Below(deps, d), Below(deps, f), f);
    }
  }

  /** The largest element of a non-empty set of naturals. */
  ghost function MaxOf(s: set<nat>): (m: nat)
    requires s != {}
    ensures m in s && forall x | x in s :: x <= m
    decreases |s|
  {
    var x := Pick(s);
    if s == {x} then x
    else
      var m := MaxOf(s - {x});
      assert forall y | y in s :: y == x || y in s - {x};
      if x < m then m else x
  }

  /** The levels of a function's parameters. */
  ghost function ParamLevels<V>(deps: Dependencies<V>, f: string): set<nat>
    requires Layerable(deps) && f in deps
    decreases |Below(deps, f)|, 0
  {
    DependenciesBelow(deps, f);
    set d | d in deps[f].dependsOn :: Level(deps, d)
  }

  /** The layer `walk_depth_first` assigns: 0 for an input, one above the highest parameter for a function. */
  ghost function Level<V>(deps: Dependencies<V>, n: string): nat
    requires Layerable(deps)
    decreases |Below(deps, n)|, 1
  {
    if n !in deps then 0
    else
      var d := Pick(deps[n].dependsOn);
      assert Level(deps, d) in ParamLevels(deps, n) by {
        DependenciesBelow(deps, n);
      }
      1 + MaxOf(ParamLevels(deps, n))
  }

  /** Layer 0 holds exactly the names that are not functions. */
  lemma LevelZeroIff<V>(deps: Dependencies<V>, n: string)
    requires Layerable(deps)
    ensures Level(deps, n) == 0 <==> n !in deps
  {
  }

  /** Every parameter sits strictly below its function. */
  lemma ParamsLower<V>(deps: Dependencies<V>, f: string)
    requires Layerable(deps) && f in deps
    ensures forall d | d in deps[f].dependsOn :: Level(deps, d) < Level(deps, f)
  {
    DependenciesBelow(deps, f);
    var levels := ParamLevels(deps, f);
    var d0 := Pick(deps[f].dependsOn);
    assert Level(deps, d0) in levels;
    forall d | d in deps[f].dependsOn
      ensures Level(deps, d) < Level(deps, f)
    {
      assert Level(deps, d) in levels;
    }
  }

  /** Some parameter sits just below its function: the level is 1 + the highest parameter level. */
  lemma DependencyLower<V>(deps: Dependencies<V>, f: string) returns (top: string)
    requires Layerable(deps) && f in deps
    ensures forall d | d in deps[f].dependsOn :: Level(deps, d) < Level(deps, f)
    ensures top in deps[f].dependsOn && Level(deps, top) == Level(deps, f) - 1
  {
    ParamsLower(deps, f);
    DependenciesBelow(deps, f);
    var levels := ParamLevels(deps, f);
    var d0 := Pick(deps[f].dependsOn);
    assert Level(deps, d0) in levels;
    var m := MaxOf(levels);
    top := ParamOfLevel(deps, f, m);
  }

  lemma ParamOfLevel<V>(deps: Dependencies<V>, f: string, m: nat) returns (d: string)
    requires Layerable(deps) && f in deps && m in ParamLevels(deps, f)
    ensures d in deps[f].dependsOn && Level(deps, d) == m
  {
    DependenciesBelow(deps, f);
    d :| d in deps[f].dependsOn && Level(deps, d) == m;
  }

  /** A name's level is less than the number of names it depends on. */
  lemma {:induction false} LevelBound<V>(deps: Dependencies<V>, n: string)
    requires Layerable(deps) && n in Names(deps)
    ensures Level(deps, n) < |Below(deps, n)| <= |Names(deps)|
    decreases |Below(deps, n)|
  {
    var g := DepGraph(deps);
    ReachRefl(g, n, {});
    assert n in Below(deps, n);
    SubsetCard(Below(deps, n), Names(deps));
    if n in deps {
      var top := DependencyLower(deps, n);
      DependenciesBelow(deps, n);
      assert top in Names(deps);
      LevelBound(deps, top);
    }
  }

  /** Levels are contiguous: below every level in use, every level is in use. */
  lemma {:induction false} LevelsContiguous<V>(deps: Dependencies<V>, n: string, k: nat) returns (m: string)
    requires Layerable(deps) && n in Names(deps) && k <= Level(deps, n)
    ensures m in Names(deps) && Level(deps, m) == k
    decreases Level(deps, n)
  {
    if k == Level(deps, n) {
      m := n;
    } else {
      var top := DependencyLower(deps, n);
      assert top in Names(deps);
      m := LevelsContiguous(deps, top, k);
    }
  }

  // ---------------------------------------------------------------------
  // The layering
  // ---------------------------------------------------------------------

  /** The names on level k. */
  ghost function LayerOf<V>(deps: Dependencies<V>, k: nat): set<string>
    requires Layerable(deps)
  {
    set n | n in Names(deps) && Level(deps, n) == k
  }

  /** `layers` lists the levels 0, 1, ... up to the highest in use. */
  ghost predicate Layered<V>(deps: Dependencies<V>, layers: seq<set<string>>)
    requires Layerable(deps)
  {
    && (forall k | 0 <= k < |layers| :: layers[k] == LayerOf(deps, k))
    && (forall n | n in Names(deps) :: Level(deps, n) < |layers|)
    && (forall k | 0 <= k < |layers| :: layers[k] != {})
  }

  /**
   * What `walk_depth_first` has filled in so far: `levels_by_name` holds
   * correct levels and is closed under parameters, and `names_by_level`
   * holds each recorded name under its level and nothing else.
   */
  ghost predicate Memo<V>(deps: Dependencies<V>, levels: map<string, nat>, byLevel: map<nat, set<string>>) {
    && Layerable(deps)
    && (forall n | n in levels :: n in Names(deps) && levels[n] == Level(deps, n))
    && (forall n, d | n in levels && n in deps && d in deps[n].dependsOn :: d in levels)
    && (forall k | k in byLevel :: byLevel[k] != {})
    && (forall k, n | k in byLevel && n in byLevel[k] :: n in levels && levels[n] == k)
    && (forall n | n in levels :: levels[n] in byLevel && n in byLevel[levels[n]])
  }

  ghost predicate Extends<K, V>(m: map<K, V>, m': map<K, V>) {
    forall k | k in m :: k in m' && m'[k] == m[k]
  }

  /**
   * `walk_depth_first(name)`: a recorded level is returned as it is;
   * otherwise the parameters are walked, the level computed and recorded.
   */
  method Walk<V>(deps: Dependencies<V>, name: string, levels: map<string, nat>, byLevel: map<nat, set<string>>)
    returns (level: nat, levels': map<string, nat>, byLevel': map<nat, set<string>>)
    requires Layerable(deps) && Memo(deps, levels, byLevel) && name in Names(deps)
    ensures Memo(deps, levels', byLevel')
    ensures level == Level(deps, name) && name in levels'
    ensures Extends(levels, levels') && levels'.Keys <= levels.Keys + Below(deps, name)
    decreases |Below(deps, name)|, 1
  {
    hide Memo, Level;
    if name in levels {
      LevelRecorded(deps, levels, byLevel, name);
      return levels[name], levels, byLevel;
    }
    ReachRefl(DepGraph(deps), name, {});
    if name !in deps {
      level, levels', byLevel' := 0, levels, byLevel;
      LevelZeroIff(deps, name);
    } else {
      var best;
      best, levels', byLevel' := WalkParams(deps, name, levels, byLevel);
      level := 1 + best;
    }
    var same := if level in byLevel' then byLevel'[level] else {};
    Record(deps, levels', byLevel', name, level);
    levels' := levels'[name := level];
    byLevel' := byLevel'[level := same + {name}];
  }

  /** `max(walk_depth_first(lname) for lname in depends_on)` for a function not yet recorded. */
  method WalkParams<V>(deps: Dependencies<V>, name: string, levels: map<string, nat>, byLevel: map<nat, set<string>>)
    returns (best: nat, levels': map<string, nat>, byLevel': map<nat, set<string>>)
    requires Layerable(deps) && Memo(deps, levels, byLevel) && name in deps && name !in levels
    ensures Memo(deps, levels', byLevel')
    ensures best + 1 == Level(deps, name)
    ensures forall d | d in deps[name].dependsOn :: d in levels'
    ensures Extends(levels, levels') && levels'.Keys <= levels.Keys + (Below(deps, name) - {name})
    decreases |Below(deps, name)|, 0
  {
    hide Memo, Level;
    DependenciesBelow(deps, name);
    levels', byLevel' := levels, byLevel;
    var rest := deps[name].dependsOn;
    best := 0;
    ghost var arg: string := name;
    while rest != {}
      invariant rest <= deps[name].dependsOn
      invariant Memo(deps, levels', byLevel')
      invariant Extends(levels, levels') && levels'.Keys <= levels.Keys + (Below(deps, name) - {name})
      invariant forall d | d in deps[name].dependsOn && d !in rest :: d in levels' && Level(deps, d) <= best
      invariant rest != deps[name].dependsOn ==> arg in deps[name].dependsOn && Level(deps, arg) == best
      decreases |rest|
    {
      NonEmptyHasElement(rest);
      var lname :| lname in rest;
      var l;
      l, levels', byLevel' := Walk(deps, lname, levels', byLevel');
      if rest == deps[name].dependsOn || best < l {
        best, arg := l, lname;
      }
      rest := rest - {lname};
    }
    LevelOfMax(deps, name, best, arg);
  }

  /** Recording a name whose parameters are all recorded keeps the memo consistent. */
  lemma Record<V>(deps: Dependencies<V>, levels: map<string, nat>, byLevel: map<nat, set<string>>, name: string, level: nat)
    requires Memo(deps, levels, byLevel) && name in Names(deps) && name !in levels
    requires level == Level(deps, name)
    requires name in deps ==> forall d | d in deps[name].dependsOn :: d in levels
    ensures
      var same := if level in byLevel then byLevel[level] else {};
      Memo(deps, levels[name := level], byLevel[level := same + {name}])
  {
    hide Level, Names, DepGraph;
  }

  lemma LevelOfMax<V>(deps: Dependencies<V>, f: string, best: nat, arg: string)
    requires Layerable(deps) && f in deps
    requires forall d | d in deps[f].dependsOn :: Level(deps, d) <= best
    requires arg in deps[f].dependsOn && Level(deps, arg) == best
    ensures Level(deps, f) == 1 + best
  {
    DependenciesBelow(deps, f);
    var levels := ParamLevels(deps, f);
    assert best in levels;
    forall x | x in levels
      ensures x <= best
    {
      var d := ParamOfLevel(deps, f, x);
    }
  }

  /**
   * `_sort_topologically`: every function is walked, then the levels are
   * read off from 0 upwards until the first one not in use.
   */
  method SortTopologically<V>(deps: Dependencies<V>) returns (layers: seq<set<string>>)
    requires Layerable(deps)
    ensures Layered(deps, layers)
  {
    hide Memo, LayerOf, Level, Names;
    var levels: map<string, nat> := map[];
    var byLevel: map<nat, set<string>> := map[];
    NothingWalked(deps);
    var rest := deps.Keys;
    while rest != {}
      invariant rest <= deps.Keys
      invariant Memo(deps, levels, byLevel)
      invariant forall f | f in deps && f !in rest :: f in levels
      decreases |rest|
    {
      NonEmptyHasElement(rest);
      var name :| name in rest;
      var level;
      level, levels, byLevel := Walk(deps, name, levels, byLevel);
      rest := rest - {name};
    }
    AllWalked(deps, levels, byLevel);
    layers := [];
    var i := 0;
    while i in byLevel
      invariant i == |layers| <= |Names(deps)|
      invariant forall k | 0 <= k < i :: layers[k] == LayerOf(deps, k) && layers[k] != {}
      decreases |Names(deps)| - i
    {
      LevelInUse(deps, levels, byLevel, i);
      layers := layers + [byLevel[i]];
      i := i + 1;
    }
    NoLevelAbove(deps, levels, byLevel, i);
  }

  lemma NothingWalked<V>(deps: Dependencies<V>)
    requires Layerable(deps)
    ensures Memo(deps, map[], map[]) && deps.Keys <= Names(deps)
  {
  }

  /** Once every function is walked, every name has its level recorded. */
  lemma AllWalked<V>(deps: Dependencies<V>, levels: map<string, nat>, byLevel: map<nat, set<string>>)
    requires Memo(deps, levels, byLevel) && forall f | f in deps :: f in levels
    ensures levels.Keys == Names(deps)
  {
  }

  lemma LevelRecorded<V>(deps: Dependencies<V>, levels: map<string, nat>, byLevel: map<nat, set<string>>, n: string)
    requires Memo(deps, levels, byLevel) && n in levels
    ensures levels[n] == Level(deps, n) && Level(deps, n) in byLevel
  {
  }

  lemma LevelInUse<V>(deps: Dependencies<V>, levels: map<string, nat>, byLevel: map<nat, set<string>>, k: nat)
    requires Memo(deps, levels, byLevel) && levels.Keys == Names(deps) && k in byLevel
    ensures byLevel[k] == LayerOf(deps, k) && byLevel[k] != {} && k < |Names(deps)|
  {
    var n := Pick(byLevel[k]);
    LevelBound(deps, n);
  }

  lemma NoLevelAbove<V>(deps: Dependencies<V>, levels: map<string, nat>, byLevel: map<nat, set<string>>, k: nat)
    requires Memo(deps, levels, byLevel) && levels.Keys == Names(deps) && k !in byLevel
    ensures forall n | n in Names(deps) :: Level(deps, n) < k
  {
    forall n | n in Names(deps)
      ensures Level(deps, n) < k
    {
      if k <= Level(deps, n) {
        var m := LevelsContiguous(deps, n, k);
        LevelRecorded(deps, levels, byLevel, m);
        assert false;
      }
    }
  }

  // ---------------------------------------------------------------------
  // What the layering promises
  // ---------------------------------------------------------------------

  /** Every name is in exactly one layer, the one of its level. */
  lemma LayerOfName<V>(deps: Dependencies<V>, layers: seq<set<string>>, n: string, k: nat)
    requires Layerable(deps) && Layered(deps, layers) && n in Names(deps) && k < |layers|
    ensures Level(deps, n) < |layers| && n in layers[Level(deps, n)]
    ensures n in layers[k] <==> k == Level(deps, n)
  {
  }

  /** Layer 0 is exactly the names that are not functions. */
  lemma FirstLayer<V>(deps: Dependencies<V>, layers: seq<set<string>>)
    requires Layerable(deps) && Layered(deps, layers) && deps != map[]
    ensures |layers| >= 2
    ensures layers[0] == Names(deps) - deps.Keys
  {
    var f := Pick(deps.Keys);
    assert f in Names(deps);
    var top := DependencyLower(deps, f);
    forall n | n in layers[0]
      ensures n !in deps
    {
      LevelZeroIff(deps, n);
    }
    forall n | n in Names(deps) - deps.Keys
      ensures n in layers[0]
    {
      LevelZeroIff(deps, n);
    }
  }

  // ---------------------------------------------------------------------
  // _CompiledGraph
  // ---------------------------------------------------------------------

  /** `_CompiledGraph`: a snapshot of the functions and the defaults, with their layering. */
  datatype CompiledGraph<!V> = CompiledGraph(dependencies: Dependencies<V>, defaults: map<string, V>, layers: seq<set<string>>)

  /** What the constructor establishes: the snapshot is non-empty, layerable and layered, with inputs and functions. */
  ghost predicate ValidCompiled<V>(c: CompiledGraph<V>) {
    c.dependencies != map[] && |c.layers| > 1 && Layerable(c.dependencies) && Layered(c.dependencies, c.layers)
  }

  /** `_CompiledGraph.__init__`: keeps the snapshot and sorts it topologically. */
  method NewCompiledGraph<V>(dependencies: Dependencies<V>, defaults: map<string, V>) returns (c: CompiledGraph<V>)
    requires dependencies != map[] && Layerable(dependencies)
    ensures c.dependencies == dependencies && c.defaults == defaults
    ensures ValidCompiled(c)
  {
    var layers := SortTopologically(dependencies);
    FirstLayer(dependencies, layers);
    c := CompiledGraph(dependencies, defaults, layers);
  }
}
