/**
 * `_Evaluator`: resolving names of a compiled graph on demand.  A bound input
 * is its binding; any other input is its default or fails; a function is
 * applied to its parameters' values, and falls back on its own default (or
 * fails) when one of them fails.  `Eval` states that meaning once; the
 * evaluator's cache and failed set are proved to agree with it.
 */
module Evaluation {
  import opened Results
  import opened Sets
  import opened Layering

  // ---------------------------------------------------------------------
  // What a name evaluates to
  // ---------------------------------------------------------------------

  /** The default of a name, if the graph has one. */
  function Default<V>(c: CompiledGraph<V>, name: string): Option<V> {
    if name in c.defaults then Some(c.defaults[name]) else None
  }

  /** Every parameter of function `name` has a value. */
  ghost predicate Computable<V>(c: CompiledGraph<V>, bindings: map<string, V>, name: string)
    requires ValidCompiled(c) && name in c.dependencies
    decreases Level(c.dependencies, name), 0
  {
    ParamsLower(c.dependencies, name);
    forall d | d in c.dependencies[name].dependsOn :: Eval(c, bindings, d).Some?
  }

  /** The keyword arguments function `name` is called with. */
  ghost function Args<V>(c: CompiledGraph<V>, bindings: map<string, V>, name: string): map<string, V>
    requires ValidCompiled(c) && name in c.dependencies && Computable(c, bindings, name)
    decreases Level(c.dependencies, name), 1
  {
    ParamsLower(c.dependencies, name);
    map d | d in c.dependencies[name].dependsOn :: Eval(c, bindings, d).value
  }

  /** The value of `name` when the inputs are bound by `bindings`, or None when it has none. */
  ghost function Eval<V>(c: CompiledGraph<V>, bindings: map<string, V>, name: string): Option<V>
    requires ValidCompiled(c)
    decreases Level(c.dependencies, name), 2
  {
    if name in bindings then Some(bindings[name])
    else if name !in c.dependencies then Default(c, name)
    else if Computable(c, bindings, name) then Some(c.dependencies[name].call(Args(c, bindings, name)))
    else Default(c, name)
  }

  /** An input has a value exactly when it is bound or has a default; a binding wins over the default. */
  lemma InputEval<V>(c: CompiledGraph<V>, bindings: map<string, V>, name: string)
    requires ValidCompiled(c) && name !in c.dependencies
    ensures Eval(c, bindings, name).Some? <==> name in bindings || name in c.defaults
    ensures name in bindings ==> Eval(c, bindings, name) == Some(bindings[name])
  {
  }

  /**
   * A function whose parameters all have values is called on them, whatever
   * its default; one with a parameter without a value falls back on its
   * default, and fails without one.
   */
  lemma FunctionEval<V>(c: CompiledGraph<V>, bindings: map<string, V>, name: string)
    requires ValidCompiled(c) && name in c.dependencies && name !in bindings
    ensures Computable(c, bindings, name) ==>
      Eval(c, bindings, name) == Some(c.dependencies[name].call(Args(c, bindings, name)))
    ensures !Computable(c, bindings, name) ==>
      (Eval(c, bindings, name).Some? <==> name in c.defaults)
  {
  }

  /** The layers above 0 hold exactly the functions, each in the layer of its level. */
  lemma FunctionsAboveInputs<V>(c: CompiledGraph<V>)
    requires ValidCompiled(c)
    ensures forall n | n in c.dependencies :: 1 <= Level(c.dependencies, n) < |c.layers| && n in c.layers[Level(c.dependencies, n)]
    ensures forall k, n | 1 <= k < |c.layers| && n in c.layers[k] :: n in c.dependencies && Level(c.dependencies, n) == k
  {
    forall n | n in c.dependencies
      ensures 1 <= Level(c.dependencies, n) < |c.layers| && n in c.layers[Level(c.dependencies, n)]
    {
      LevelZeroIff(c.dependencies, n);
    }
    forall k, n | 1 <= k < |c.layers| && n in c.layers[k]
      ensures n in c.dependencies && Level(c.dependencies, n) == k
    {
      LevelZeroIff(c.dependencies, n);
    }
  }

  /**
   * Why `calculate` only looks at layer 0: once every input is bound or has a
   * default, every name of the graph has a value.
   */
  lemma {:induction false} InputsSuffice<V>(c: CompiledGraph<V>, bindings: map<string, V>, n: string)
    requires ValidCompiled(c) && n in Names(c.dependencies)
    requires forall x | x in c.layers[0] :: x in bindings || x in c.defaults
    ensures Eval(c, bindings, n).Some?
    decreases Level(c.dependencies, n)
  {
    if n in bindings {
    } else if n !in c.dependencies {
      FirstLayer(c.dependencies, c.layers);
      assert n in c.layers[0];
    } else {
      ParamsLower(c.dependencies, n);
      forall d | d in c.dependencies[n].dependsOn
        ensures Eval(c, bindings, d).Some?
      {
        InputsSuffice(c, bindings, d);
      }
      assert Computable(c, bindings, n);
    }
  }

  /** Values for all parameters of a function are exactly its call's arguments. */
  lemma ArgsCollected<V>(c: CompiledGraph<V>, bindings: map<string, V>, name: string, kwargs: map<string, V>)
    requires ValidCompiled(c) && name in c.dependencies
    requires kwargs.Keys == c.dependencies[name].dependsOn
    requires forall d | d in kwargs :: Eval(c, bindings, d) == Some(kwargs[d])
    ensures Computable(c, bindings, name) && kwargs == Args(c, bindings, name)
  {
  }

  /** A parameter without a value makes its function not computable. */
  lemma ParamFails<V>(c: CompiledGraph<V>, bindings: map<string, V>, name: string, d: string)
    requires ValidCompiled(c) && name in c.dependencies
    requires d in c.dependencies[name].dependsOn && Eval(c, bindings, d) == None
    ensures !Computable(c, bindings, name)
  {
  }

  /** The names of a list of (name, value) pairs. */
  function NamesOf<V>(items: seq<(string, V)>): (r: seq<string>)
    ensures |r| == |items| && forall i | 0 <= i < |items| :: r[i] == items[i].0
  {
    seq(|items|, i requires 0 <= i < |items| => items[i].0)
  }

  /** Pairs of distinct functions with their values, in non-decreasing layer order. */
  ghost predicate Listed<V>(c: CompiledGraph<V>, bindings: map<string, V>, items: seq<(string, V)>)
    requires ValidCompiled(c)
  {
    && (forall i | 0 <= i < |items| ::
          items[i].0 in c.dependencies && Eval(c, bindings, items[i].0) == Some(items[i].1))
    && (forall i, j | 0 <= i < j < |items| :: items[i].0 != items[j].0)
    && (forall i, j | 0 <= i < j < |items| ::
          Level(c.dependencies, items[i].0) <= Level(c.dependencies, items[j].0))
  }

  /** What `__getitem__` reports. */
  datatype Lookup<V> = Found(value: V) | NoName | NoValue

  /** What `calculate` raises. */
  datatype CalculationError = RedundantArgument(name: string) | MissingInput(name: string)

  // ---------------------------------------------------------------------
  // _Evaluator
  // ---------------------------------------------------------------------

  class Evaluator<!V> {
    const graph: CompiledGraph<V>
    /** The keyword arguments the evaluator was created with. */
    ghost const bindings: map<string, V>
    /** `_cache`. */
    var cache: map<string, V>
    /** `_failed_to_calculate`. */
    var failed: set<string>

    /** The cache holds the bindings and only true values; the failed set holds only names without one. */
    ghost predicate Valid()
      reads this
    {
      && ValidCompiled(graph)
      && (forall n | n in bindings :: n in Names(graph.dependencies) && n !in graph.dependencies && n in cache)
      && (forall n | n in cache :: n in Names(graph.dependencies) && Eval(graph, bindings, n) == Some(cache[n]))
      && (forall n | n in failed :: n in Names(graph.dependencies) && Eval(graph, bindings, n) == None)
    }

    lemma ValidGraph()
      requires Valid()
      ensures ValidCompiled(graph)
    {
    }

    /** A cached name has the cached value; a failed name has none. */
    lemma Recorded(n: string)
      requires Valid()
      ensures n in cache ==> Eval(graph, bindings, n) == Some(cache[n])
      ensures n in failed ==> Eval(graph, bindings, n) == None
    {
    }

    /** `__init__` once every keyword argument has been checked to name an input. */
    constructor (graph: CompiledGraph<V>, kwargs: map<string, V>)
      requires ValidCompiled(graph) && kwargs.Keys <= graph.layers[0]
      ensures this.graph == graph && bindings == kwargs
      ensures cache == kwargs && failed == {}
      ensures Valid()
    {
      this.graph := graph;
      bindings := kwargs;
      cache := kwargs;
      failed := {};
      new;
      FirstLayer(graph.dependencies, graph.layers);
    }

    /** `_calculate_value`. */
    method CalculateValue(name: string) returns (r: Option<V>)
      requires Valid() && name in Names(graph.dependencies)
      modifies this
      ensures Valid()
      ensures r == Eval(graph, bindings, name)
      ensures r.Some? ==> name in cache
      ensures r.None? ==> name in failed
      ensures Extends(old(cache), cache) && old(failed) <= failed
      ensures name in old(cache) || name in old(failed) ==> cache == old(cache) && failed == old(failed)
      decreases Level(graph.dependencies, name), 1
    {
      if name in cache {
        return Some(cache[name]);
      }
      if name in failed {
        return None;
      }
      FirstLayer(graph.dependencies, graph.layers);
      var result;
      if name in graph.layers[0] {
        if name in graph.defaults {
          result := graph.defaults[name];
        } else {
          failed := failed + {name};
          return None;
        }
      } else {
        var v := CalculateDirectly(name);
        if v.Some? {
          result := v.value;
        } else if name in graph.defaults {
          result := graph.defaults[name];
        } else {
          failed := failed + {name};
          return None;
        }
      }
      cache := cache[name := result];
      r := Some(result);
    }

    /** `_calculate_value_directly_from_dependants`: the parameters one by one, stopping at the first without a value. */
    method CalculateDirectly(name: string) returns (r: Option<V>)
      requires Valid() && name in graph.dependencies
      modifies this
      ensures Valid()
      ensures r == if Computable(graph, bindings, name)
                   then Some(graph.dependencies[name].call(Args(graph, bindings, name)))
                   else None
      ensures Extends(old(cache), cache) && old(failed) <= failed
      decreases Level(graph.dependencies, name), 0
    {
      hide Eval, Computable, Args, Valid, Level, ValidCompiled, Layered;
      ValidGraph();
      var params := graph.dependencies[name].dependsOn;
      ParamsLower(graph.dependencies, name);
      var kwargs: map<string, V> := map[];
      var rest := params;
      while rest != {}
        invariant Valid() && rest <= params
        invariant kwargs.Keys == params - rest
        invariant forall d | d in kwargs :: Eval(graph, bindings, d) == Some(kwargs[d])
        invariant Extends(old(cache), cache) && old(failed) <= failed
        decreases |rest|
      {
        NonEmptyHasElement(rest);
        var d :| d in rest;
        var v := CalculateValue(d);
        if v.None? {
          ParamFails(graph, bindings, name, d);
          return None;
        }
        kwargs := kwargs[d := v.value];
        rest := rest - {d};
      }
      ArgsCollected(graph, bindings, name, kwargs);
      r := Some(graph.dependencies[name].call(kwargs));
    }

    /**
     * `calculate_all`: only layer 0 is visited, so this succeeds exactly when
     * every input is bound or has a default; otherwise it reports the first
     * input found without a value.
     */
    method CalculateAll() returns (missing: Option<string>)
      requires Valid()
      modifies this
      ensures Valid()
      ensures missing.None? <==> forall n | n in graph.layers[0] :: n in bindings || n in graph.defaults
      ensures missing.Some? ==>
        missing.value in graph.layers[0] && missing.value !in bindings && missing.value !in graph.defaults
      ensures Extends(old(cache), cache) && old(failed) <= failed
    {
      FirstLayer(graph.dependencies, graph.layers);
      var rest := graph.layers[0];
      while rest != {}
        invariant Valid() && rest <= graph.layers[0]
        invariant forall n | n in graph.layers[0] && n !in rest :: n in bindings || n in graph.defaults
        invariant Extends(old(cache), cache) && old(failed) <= failed
        decreases |rest|
      {
        NonEmptyHasElement(rest);
        var name :| name in rest;
        var v := CalculateValue(name);
        InputEval(graph, bindings, name);
        if v.None? {
          return Some(name);
        }
        rest := rest - {name};
      }
      missing := None;
    }

    /** `calculate_all_possible`: every name above layer 0 ends up cached or failed, and nothing is raised. */
    method CalculateAllPossible()
      requires Valid()
      modifies this
      ensures Valid()
      ensures forall n | n in graph.dependencies :: n in cache || n in failed
      ensures Extends(old(cache), cache) && old(failed) <= failed
    {
      FunctionsAboveInputs(graph);
      var k := 1;
      while k < |graph.layers|
        invariant Valid() && 1 <= k
        invariant forall j, n | 1 <= j < k && j < |graph.layers| && n in graph.layers[j] :: n in cache || n in failed
        invariant Extends(old(cache), cache) && old(failed) <= failed
        decreases |graph.layers| - k
      {
        var rest := graph.layers[k];
        while rest != {}
          invariant Valid() && rest <= graph.layers[k]
          invariant forall j, n | 1 <= j < k && n in graph.layers[j] :: n in cache || n in failed
          invariant forall n | n in graph.layers[k] && n !in rest :: n in cache || n in failed
          invariant Extends(old(cache), cache) && old(failed) <= failed
          decreases |rest|
        {
          NonEmptyHasElement(rest);
          var name :| name in rest;
          var _ := CalculateValue(name);
          rest := rest - {name};
        }
        k := k + 1;
      }
    }

    /** `__getitem__`: only a registered function can be looked up. */
    method GetItem(item: string) returns (r: Lookup<V>)
      requires Valid()
      modifies this
      ensures Valid()
      ensures item !in graph.dependencies ==> r == NoName && cache == old(cache) && failed == old(failed)
      ensures item in old(cache) ==> cache == old(cache) && failed == old(failed)
      ensures item in graph.dependencies ==>
        match Eval(graph, bindings, item)
        case Some(v) => r == Found(v)
        case None => r == NoValue
      ensures Extends(old(cache), cache) && old(failed) <= failed
    {
      if item !in graph.dependencies {
        return NoName;
      }
      var v := CalculateValue(item);
      r := if v.Some? then Found(v.value) else NoValue;
    }

    /**
     * `__iter__`, consumed to the end: (name, value) for the names above
     * layer 0, layer by layer, until a name without a value raises.
     */
    method Iterate() returns (items: seq<(string, V)>, stopped: Option<string>)
      requires Valid()
      modifies this
      ensures Valid() && Listed(graph, bindings, items)
      ensures stopped.None? ==> forall n | n in graph.dependencies :: n in NamesOf(items)
      ensures stopped.Some? ==> stopped.value in graph.dependencies && Eval(graph, bindings, stopped.value) == None
      ensures stopped.Some? ==>
        && stopped.value !in NamesOf(items)
        && forall n | n in graph.dependencies && Level(graph.dependencies, n) < Level(graph.dependencies, stopped.value) ::
             n in NamesOf(items)
      ensures Extends(old(cache), cache) && old(failed) <= failed
    {
      hide Eval, Level, Valid, Listed, ValidCompiled, Layered, Names;
      ValidGraph();
      FunctionsAboveInputs(graph);
      items, stopped := [], None;
      ListedEmpty(graph, bindings);
      var k := 1;
      while k < |graph.layers|
        invariant Valid() && 1 <= k <= |graph.layers| && stopped.None?
        invariant Listed(graph, bindings, items)
        invariant forall i | 0 <= i < |items| :: Level(graph.dependencies, items[i].0) < k
        invariant forall n | n in graph.dependencies && Level(graph.dependencies, n) < k :: n in NamesOf(items)
        invariant Extends(old(cache), cache) && old(failed) <= failed
        decreases |graph.layers| - k
      {
        ghost var before := items;
        items, stopped := IterateLayer(k, items);
        if stopped.Some? {
          assert forall n | n in graph.dependencies && Level(graph.dependencies, n) < k :: n in NamesOf(before);
          return;
        }
        k := k + 1;
      }
    }

    /** The names of layer k, for `__iter__`. */
    method IterateLayer(k: nat, items: seq<(string, V)>) returns (items': seq<(string, V)>, stopped: Option<string>)
      requires Valid() && 1 <= k < |graph.layers| && Listed(graph, bindings, items)
      requires forall i | 0 <= i < |items| :: Level(graph.dependencies, items[i].0) < k
      modifies this
      ensures Valid() && Listed(graph, bindings, items')
      ensures forall i | 0 <= i < |items'| :: Level(graph.dependencies, items'[i].0) <= k
      ensures forall n | n in NamesOf(items) :: n in NamesOf(items')
      ensures stopped.None? ==> forall n | n in graph.layers[k] :: n in NamesOf(items')
      ensures stopped.Some? ==> stopped.value in graph.dependencies && Eval(graph, bindings, stopped.value) == None
      ensures stopped.Some? ==> stopped.value in graph.layers[k] && stopped.value !in NamesOf(items')
      ensures Extends(old(cache), cache) && old(failed) <= failed
    {
      hide Eval, Level, Valid, Listed, ValidCompiled, Layered, Names;
      ValidGraph();
      FunctionsAboveInputs(graph);
      items', stopped := items, None;
      var rest := graph.layers[k];
      while rest != {}
        invariant Valid() && rest <= graph.layers[k]
        invariant Listed(graph, bindings, items')
        invariant forall i | 0 <= i < |items'| ::
          Level(graph.dependencies, items'[i].0) < k || (Level(graph.dependencies, items'[i].0) == k && items'[i].0 !in rest)
        invariant forall n | n in NamesOf(items) :: n in NamesOf(items')
        invariant forall n | n in graph.layers[k] && n !in rest :: n in NamesOf(items')
        invariant Extends(old(cache), cache) && old(failed) <= failed
        decreases |rest|
      {
        NonEmptyHasElement(rest);
        var name :| name in rest;
        var r := GetItem(name);
        if r.NoValue? {
          return items', Some(name);
        }
        ListedAppend(graph, bindings, items', name, r.value);
        items' := items' + [(name, r.value)];
        rest := rest - {name};
      }
    }

    /**
     * `iterate_over_successfully_calculated`: after `calculate_all_possible`,
     * (name, value) for exactly the functions that have a value, layer by layer.
     */
    method IterateOverSuccessfullyCalculated() returns (items: seq<(string, V)>)
      requires Valid()
      modifies this
      ensures Valid() && Listed(graph, bindings, items)
      ensures forall n :: n in NamesOf(items) <==> n in graph.dependencies && Eval(graph, bindings, n).Some?
      ensures Extends(old(cache), cache) && old(failed) <= failed
    {
      hide Eval, Level, Valid, Listed, ValidCompiled, Layered, Names;
      ValidGraph();
      CalculateAllPossible();
      FunctionsAboveInputs(graph);
      items := [];
      ListedEmpty(graph, bindings);
      var k := 1;
      while k < |graph.layers|
        invariant Valid() && 1 <= k <= |graph.layers|
        invariant Listed(graph, bindings, items)
        invariant forall n | n in graph.dependencies :: n in cache || n in failed
        invariant forall i | 0 <= i < |items| :: Level(graph.dependencies, items[i].0) < k
        invariant forall n | n in graph.dependencies && n !in failed && Level(graph.dependencies, n) < k :: n in NamesOf(items)
        invariant Extends(old(cache), cache) && old(failed) <= failed
        decreases |graph.layers| - k
      {
        items := SuccessfulLayer(k, items);
        k := k + 1;
      }
      forall n | n in NamesOf(items)
        ensures n in graph.dependencies && Eval(graph, bindings, n).Some?
      {
        var i :| 0 <= i < |items| && items[i].0 == n;
        ListedAt(graph, bindings, items, i);
      }
      forall n | n in graph.dependencies && Eval(graph, bindings, n).Some?
        ensures n in NamesOf(items)
      {
        Recorded(n);
      }
    }

    /** The names of layer k that have not failed, for `iterate_over_successfully_calculated`. */
    method SuccessfulLayer(k: nat, items: seq<(string, V)>) returns (items': seq<(string, V)>)
      requires Valid() && 1 <= k < |graph.layers| && Listed(graph, bindings, items)
      requires forall n | n in graph.dependencies :: n in cache || n in failed
      requires forall i | 0 <= i < |items| :: Level(graph.dependencies, items[i].0) < k
      modifies this
      ensures Valid() && Listed(graph, bindings, items')
      ensures forall n | n in graph.dependencies :: n in cache || n in failed
      ensures forall i | 0 <= i < |items'| :: Level(graph.dependencies, items'[i].0) <= k
      ensures forall n | n in NamesOf(items) :: n in NamesOf(items')
      ensures forall n | n in graph.layers[k] && n !in failed :: n in NamesOf(items')
      ensures Extends(old(cache), cache) && failed == old(failed)
    {
      hide Eval, Level, Valid, Listed, ValidCompiled, Layered, Names;
      ValidGraph();
      FunctionsAboveInputs(graph);
      items' := items;
      var rest := graph.layers[k];
      while rest != {}
        invariant Valid() && rest <= graph.layers[k]
        invariant Listed(graph, bindings, items')
        invariant forall n | n in graph.dependencies :: n in cache || n in failed
        invariant forall i | 0 <= i < |items'| ::
          Level(graph.dependencies, items'[i].0) < k || (Level(graph.dependencies, items'[i].0) == k && items'[i].0 !in rest)
        invariant forall n | n in NamesOf(items) :: n in NamesOf(items')
        invariant forall n | n in graph.layers[k] && n !in rest && n !in failed :: n in NamesOf(items')
        invariant Extends(old(cache), cache) && failed == old(failed)
        decreases |rest|
      {
        NonEmptyHasElement(rest);
        var name :| name in rest;
        if name !in failed {
          Recorded(name);
          var r := GetItem(name);
          ListedAppend(graph, bindings, items', name, r.value);
          items' := items' + [(name, r.value)];
        }
        rest := rest - {name};
      }
    }
  }

  lemma ListedEmpty<V>(c: CompiledGraph<V>, bindings: map<string, V>)
    requires ValidCompiled(c)
    ensures Listed(c, bindings, [])
  {
  }

  lemma ListedAt<V>(c: CompiledGraph<V>, bindings: map<string, V>, items: seq<(string, V)>, i: nat)
    requires ValidCompiled(c) && Listed(c, bindings, items) && i < |items|
    ensures items[i].0 in c.dependencies && Eval(c, bindings, items[i].0) == Some(items[i].1)
  {
  }

  lemma ListedAppend<V>(c: CompiledGraph<V>, bindings: map<string, V>, items: seq<(string, V)>, name: string, v: V)
    requires ValidCompiled(c) && Listed(c, bindings, items)
    requires name in c.dependencies && Eval(c, bindings, name) == Some(v) && name !in NamesOf(items)
    requires forall i | 0 <= i < |items| :: Level(c.dependencies, items[i].0) <= Level(c.dependencies, name)
    ensures Listed(c, bindings, items + [(name, v)])
    ensures NamesOf(items + [(name, v)]) == NamesOf(items) + [name]
  {
    assert forall i | 0 <= i < |items| :: items[i].0 != name by {
      forall i | 0 <= i < |items|
        ensures items[i].0 != name
      {
        assert NamesOf(items)[i] == items[i].0;
      }
    }
  }

  // ---------------------------------------------------------------------
  // _CompiledGraph.lazily_calculate and calculate
  // ---------------------------------------------------------------------

  /** `lazily_calculate(**kwargs)`: an evaluator, unless some keyword argument is not an input. */
  method LazilyCalculate<V>(c: CompiledGraph<V>, kwargs: map<string, V>) returns (r: Result<Evaluator<V>, CalculationError>)
    requires ValidCompiled(c)
    ensures r.Ok? <==> kwargs.Keys <= c.layers[0]
    ensures r.Err? ==> r.error.RedundantArgument? && r.error.name in kwargs && r.error.name !in c.layers[0]
    ensures r.Ok? ==> fresh(r.value) && r.value.Valid()
    ensures r.Ok? ==> r.value.graph == c && r.value.bindings == kwargs && r.value.cache == kwargs && r.value.failed == {}
  {
    if exists n | n in kwargs :: n !in c.layers[0] {
      var n :| n in kwargs && n !in c.layers[0];
      return Err(RedundantArgument(n));
    }
    var e := new Evaluator(c, kwargs);
    r := Ok(e);
  }

  /** `calculate(**kwargs)`: `lazily_calculate`, then `calculate_all`. */
  method Calculate<V>(c: CompiledGraph<V>, kwargs: map<string, V>) returns (r: Result<Evaluator<V>, CalculationError>)
    requires ValidCompiled(c)
    ensures r.Ok? <==> kwargs.Keys <= c.layers[0] && forall n | n in c.layers[0] :: n in kwargs || n in c.defaults
    ensures r.Err? && r.error.RedundantArgument? ==> r.error.name in kwargs && r.error.name !in c.layers[0]
    ensures r.Err? && r.error.MissingInput? ==>
      r.error.name in c.layers[0] && r.error.name !in kwargs && r.error.name !in c.defaults
    ensures r.Ok? ==> fresh(r.value) && r.value.Valid() && r.value.graph == c && r.value.bindings == kwargs
  {
    r := LazilyCalculate(c, kwargs);
    if r.Err? {
      return;
    }
    var e := r.value;
    var missing := e.CalculateAll();
    if missing.Some? {
      return Err(MissingInput(missing.value));
    }
    r := Ok(e);
  }
}
