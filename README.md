# Verified model of a named-function dependency graph and its helpers

This project models, in Dafny, the core of a small Python repository:

- **The dependency graph** (`t7_graph_without_debug_prints.py`). A `Graph` registers named
  functions; each function's parameter names are its dependencies, and default values live in
  one table shared by the whole graph. `compile` rejects an empty graph and a graph with a
  dependency cycle, and otherwise builds a compiled graph whose names are sorted into layers:
  layer 0 holds the inputs, and every function sits one layer above its highest parameter. An
  `_Evaluator` resolves names on demand with a memo cache, a set of names that failed, and
  fallback on defaults.
- **The strongly-connected-components search** (`t7_scc.py`) that `compile` uses to find
  cycles. It is the two-pass algorithm: a depth-first pass over the reversed edges, then a
  pass over the forward edges in decreasing finishing time, relabelling nodes by their time.
- **`irange`** (`t3_xrange.py`), a clone of Python 2's `xrange` with length, negative indexing
  and slicing.
- **`ireduce`** in three variants (`t4_ireduce*.py`), a generator that yields the running fold.
  The variants differ in how they detect a missing initializer.
- **The incremental Sieve of Eratosthenes** (`t5_eratosthenes.py`), with its probing `add`.

Layout, one module per file:

- `results.dfy`: `Option` and `Result`.
- `arith.dfy`, `sets.dfy`, `order.dfy`: arithmetic, set-cardinality and ordering facts.
  `order.dfy` also holds `sorted(..., reverse=True)` and Python's `<` on strings.
- `digraph.dfy`: adjacency-list graphs, paths, reachability and strong connectivity.
- `dfs.dfy`: one depth-first pass of `_DFS_loop`.
- `kosaraju.dfy`: why the two passes find the components.
- `scc.dfy`: the functions of `t7_scc.py`.
- `layering.dfy`: the level of a name and `_sort_topologically`.
- `depgraph.dfy`: `_split_list`, `Graph.add_function` and `Graph.compile`.
- `evaluator.dfy`: the meaning of a name (`Eval`), `_Evaluator`, `lazily_calculate` and `calculate`.
- `xrange.dfy`, `running_fold.dfy`, `ireduce*.dfy`, `prime_facts.dfy`, `sieve.dfy`: the smaller programs.

How the model is shaped:

- The builder `Graph` and the `_Evaluator` update their dicts and sets in place, so they are
  classes whose methods carry `modifies` clauses.
- The compiled graph is never changed after construction, so it is a datatype value. Its
  layers come from an imperative memoised walk (`Layering.SortTopologically`) that is proved
  against the ghost function `Layering.Level`.
- The state of a DFS pass (`explored`, `leader`, `times`, `t`) is a set of local variables of
  `_DFS_loop` that the nested `DFS` closure updates. It is threaded through the recursive
  methods as a `PassState` value.
- `irange` objects never change after `__init__`, so they are datatype values and their
  operations are functions.

Where the code and its own documentation differ, the model follows the code:

- `calculate_all` only forces layer 0 (`islice(..., 1)`), although its docstring says it
  calculates every function. `Evaluation.InputsSuffice` shows why its verdict still decides
  whether every name has a value.

## Model

| member | source | states |
|---|---|---|
| `Xrange.Construct` | t3_xrange.py:12-29 | More than 3 or fewer than 1 arguments is a TypeError; a non-int argument is a ValueError; a zero step is a ValueError. Otherwise 1, 2 or 3 arguments give `(0, a, 1)`, `(a, b, 1)` or `(a, b, s)`. |
| `Xrange.LenMatchesRange` | t3_xrange.py:40-44 | The `__len__` formula equals the number of elements of Python's `xrange(start, stop, step)`. |
| `Xrange.EmptyWhenPointingAway` | t3_xrange.py:41-42 | The length is 0 exactly when stop - start is zero or points against the step. |
| `Xrange.ElementsAt` | t3_xrange.py:66-67 | For `0 <= i < len`, element i of `xrange` is `start + step * i`. |
| `Xrange.ElementsMatchXrange` | t3_xrange.py:47-62 | Indexing 0, 1, ... up to the length gives exactly the list `xrange` produces. |
| `Xrange.SliceIndices` | t3_xrange.py:52 | `slice.indices(len)` fails exactly for a zero slice step. Otherwise the clamped bounds lie in `[0, len]` for a positive step and in `[-1, len)` for a negative one. |
| `Xrange.GetItem` | t3_xrange.py:47-64 | An index that is neither int nor slice is a TypeError. An int index i succeeds exactly when `-len <= i < len`, and then gives the `xrange` element at i or at `i + len`; anything else is an IndexError. A slice with a zero step fails; any other slice succeeds on the model's unbounded integers. |
| `Xrange.SliceElements` | t3_xrange.py:51-54 | The range returned for a slice lists exactly `r[k]` for k in `range(*slice.indices(len(r)))`, and every such k is a valid index of r. |
| `RunningFold.ScanAt` | t4_ireduce.py:12-15 | The k-th value of the running fold is the left fold of the seed over the first k + 1 elements. |
| `RunningFold.ScanLastIsReduce` | t4_ireduce_variant1.py:7-9 | When anything is yielded, the last value equals the traditional `reduce`. |
| `RunningFold.RunFold` | t4_ireduce.py:12-15 | The accumulator loop yields one value per element; value k is the fold over elements 0..k; the last is the full fold. |
| `IReduce.IReduce` | t4_ireduce.py:5-15 | Fails exactly for an empty input without initializer. With an initializer it yields \|xs\| running-fold values. With `None` it seeds from `xs[0]` and yields \|xs\| - 1 values. |
| `IReduce.ExplicitNoneIsAbsent` | t4_ireduce.py:5-7 | Passing `None` explicitly gives the same outcome as leaving the initializer out. |
| `IReduceVariant1.IReduce` | t4_ireduce_variant1.py:6-18 | More than one extra initializer fails at call time. Otherwise the generator receives the iterable, and the initializer or `None`. |
| `IReduceVariant1.Consume` | t4_ireduce_variant1.py:20-39 | Fails exactly for an empty input with a `None` initializer. Otherwise it yields the running fold without the seed, and the last value is the traditional `reduce`. |
| `IReduceVariant2.PadClass.New` | t4_ireduce_variant2.py:10-14 | `_Pad()` creates the instance on first use and returns the cached one afterwards. |
| `IReduceVariant2.PadIsSingleton` | t4_ireduce_variant2.py:11-14 | Two calls of `_Pad()` return the same object. |
| `IReduceVariant2.IReduce` | t4_ireduce_variant2.py:16-30 | Only the `_Pad` sentinel means "no initializer" (`None` is a real seed). Fails exactly for an empty input with the sentinel; otherwise it yields the running fold from the seed. |
| `PrimeFacts.EuclidWitness` | t5_eratosthenes.py:21-23 | There is a prime above every p >= 1, so the sub-generator always has a next value. |
| `PrimeFacts.NextPrime` | t5_eratosthenes.py:21-23 | The value `next(ps)` yields after p: a prime greater than p with no prime in between. |
| `Sieve.Add` | t5_eratosthenes.py:38-42 | `add(D, x, s)` returns the least `x + k*s` (k >= 0) that is not a key of D. D gains exactly that key, with value s, and grows by one. |
| `Sieve.CompositeIsMarked` | t5_eratosthenes.py:26-28 | An odd candidate below p * p that is not a key of D is prime. |
| `Sieve.StepYield` | t5_eratosthenes.py:26-28 | A candidate that is not in D and is below q is prime, and yielding it keeps the loop invariant. |
| `Sieve.SieveStep` | t5_eratosthenes.py:25-36 | One loop iteration keeps the invariant and appends c to the output exactly when c is prime. |
| `Sieve.InvInit` | t5_eratosthenes.py:17-24 | After `yield 2; yield 3`, with c = 5 and p = 3, the loop invariant holds. |
| `Sieve.Primes` | t5_eratosthenes.py:5-36 | The first n values of `primes()` are strictly increasing and all prime, and no prime below the last one is skipped. |
| `Order.SortedDesc` | t7_scc.py:63 | `sorted(s, reverse=True)`: every element once, from the largest down. |
| `Order.StringLessStrictTotal` | t7_scc.py:63 | Python's `<` on strings is a strict total order, so sorting names is well defined. |
| `Scc.GetDataFromEdges` | t7_scc.py:51-59 | The nodes are exactly the endpoints of the edges. `edges[a]` lists every b of an edge (a, b) in order, and `edges_rev[b]` every such a. |
| `Scc.EdgeGraphs` | t7_scc.py:51-59 | The two adjacency maps stay within the endpoints, and each is the other reversed. |
| `Scc.Invert` | t7_scc.py:20 | `n_t` is the inverse of the one-to-one `t_n`. |
| `Scc.RelabelIso` | t7_scc.py:21-23 | Walking times through `gen_edges` is a graph isomorphism with walking the nodes. |
| `Scc.Group` | t7_scc.py:44-46 | `leaders` holds one list per translated leader, listing each node it leads once. |
| `Dfs.Dfs` | t7_scc.py:30-37 | `DFS(i)` explores exactly the nodes reachable from i through unexplored nodes and gives them leader s. It finishes i after everything it discovered, and keeps finishing times distinct and counting up from 1. |
| `Dfs.Pass` | t7_scc.py:39-42 | The outer loop explores everything reachable from the start list. Each search begins at an unexplored entry, which becomes its leader. |
| `Scc.DfsLoop` | t7_scc.py:13-48 | `_DFS_loop` without `t_n`: the pass above, its finishing times, and leader groups over the explored nodes. |
| `Scc.DfsLoopRelabelled` | t7_scc.py:13-48 | `_DFS_loop` with `t_n`: the pass runs over times on the relabelled graph, and the groups are translated back to nodes. |
| `Kosaraju.StronglyConnectedReversed` | t7_scc.py:63 | Reversing every edge keeps exactly the same strongly connected pairs. |
| `Kosaraju.SearchesAreComponents` | t7_scc.py:64 | Run in the order the first pass guarantees, the second pass's every search takes exactly one strongly connected component. |
| `Scc.GetLeaders` | t7_scc.py:62-65 | The groups returned are exactly the strongly connected components: one list per component, no repeats, every node in exactly one list. |
| `Scc.GetLeadersFromEdges` | t7_scc.py:68-71 | The groups are the strongly connected components of the graph the edge list describes. |
| `Scc.ListedIff` | t7_scc.py:62-65 | A node is in a group exactly when it is a node strongly connected to the group's key. |
| `Scc.SameListIffConnected` | t7_scc.py:62-65 | Two nodes share a group exactly when each reaches the other. |
| `DepGraph.SliceBound` | t7_graph_without_debug_prints.py:20 | Python's slice-bound normalisation: a negative bound counts from the end, then the bound is clamped to `[0, len]`. |
| `DepGraph.SplitListConcat` | t7_graph_without_debug_prints.py:13-20 | For non-decreasing normalised cut points, the pieces of `_split_list` concatenate back to the list. |
| `DepGraph.SplitOffLast` | t7_graph_without_debug_prints.py:82-83 | Splitting at `-m` gives the first \|a\| - m arguments and the last m. |
| `DepGraph.ZipMapAt` | t7_graph_without_debug_prints.py:87 | `dict(izip(names, values))` maps the i-th of distinct names to the i-th value. |
| `DepGraph.TrailingDefaultNames` | t7_graph_without_debug_prints.py:82-87 | A name gets a default from a declaration exactly when it is one of the trailing \|defaults\| arguments. |
| `DepGraph.TrailingDefaultValues` | t7_graph_without_debug_prints.py:82-87 | The i-th trailing argument maps to the matching default value. |
| `DepGraph.Graph.constructor` | t7_graph_without_debug_prints.py:23-33 | A new graph has no functions and no defaults. |
| `DepGraph.Graph.AddFunction` | t7_graph_without_debug_prints.py:43-100 | The call fails as already declared exactly when the name is already registered, and the error names it. A default for a name that already has one anywhere in the graph fails, naming that name. On failure neither table changes. On success `depends_on` is exactly the set of arguments, and exactly the trailing defaults are added. |
| `DepGraph.DependencyEdges` | t7_graph_without_debug_prints.py:111-112 | The generator lists exactly the pairs (function, parameter). |
| `DepGraph.EdgeListGraph` | t7_graph_without_debug_prints.py:111-112 | The edge list describes the dependency graph: the same successors, and every name that reaches another is an endpoint. |
| `DepGraph.CyclicIff` | t7_graph_without_debug_prints.py:113 | Some returned group has more than one member exactly when two distinct names depend on each other, directly or not. |
| `DepGraph.ReportedComponents` | t7_graph_without_debug_prints.py:114-118 | The groups reported in the error are non-empty lists without repeats, each of several members, and each is exactly a cycle's set of names. Every name on a cycle through two distinct names is reported, in exactly one group. |
| `DepGraph.LayerableIff` | t7_graph_without_debug_prints.py:139 | Layering fails exactly when some function depends on itself or has no parameter. |
| `DepGraph.Graph.Compile` | t7_graph_without_debug_prints.py:103-119 | An empty graph fails. A graph with a cycle through two distinct names fails and reports its cycles: every name on such a cycle is in exactly one reported group. A graph that passes both checks but has a self-dependency or a zero-argument function is reported as not layerable. Otherwise it yields a compiled graph with copies of both tables and valid layers. |
| `Layering.DepGraphSucc` | t7_graph_without_debug_prints.py:111-112 | In the dependency graph, b follows a exactly when a is a function with parameter b. |
| `Layering.DependenciesBelow` | t7_graph_without_debug_prints.py:134-139 | In an acyclic graph a parameter depends on strictly fewer names than its function, so the recursive walk terminates. |
| `Layering.ParamsLower` | t7_graph_without_debug_prints.py:139 | Every parameter sits in a lower layer than its function. |
| `Layering.DependencyLower` | t7_graph_without_debug_prints.py:139 | A function's level is one above its highest parameter's. |
| `Layering.LevelBound` | t7_graph_without_debug_prints.py:147 | A level is below the number of names, so the layers are finitely many. |
| `Layering.LevelsContiguous` | t7_graph_without_debug_prints.py:147 | Every level below a used level is used too, so `takewhile` stops only after the last layer. |
| `Layering.Walk` | t7_graph_without_debug_prints.py:134-142 | `walk_depth_first(name)` returns the level of the name and records it with everything it walked, keeping earlier entries. |
| `Layering.WalkParams` | t7_graph_without_debug_prints.py:139 | The `max` over the parameters is one less than the function's level, and every parameter ends up recorded. |
| `Layering.SortTopologically` | t7_graph_without_debug_prints.py:129-147 | Layer k is exactly the names of level k, no layer is empty, and every name has a layer. |
| `Layering.LayerOfName` | t7_graph_without_debug_prints.py:147 | Every name is in exactly one layer, the one of its level. |
| `Layering.FirstLayer` | t7_graph_without_debug_prints.py:147 | There are at least two layers, and layer 0 is exactly the names that are not registered functions. |
| `Layering.NewCompiledGraph` | t7_graph_without_debug_prints.py:123-127 | The compiled graph keeps both tables and holds a valid layering. |
| `Evaluation.InputEval` | t7_graph_without_debug_prints.py:235-240 | An input has a value exactly when it is bound or has a default, and a binding wins over the default. |
| `Evaluation.FunctionEval` | t7_graph_without_debug_prints.py:242-249 | A function whose parameters all have values is called on them, whatever its default. Otherwise it has a value exactly when it has a default. |
| `Evaluation.FunctionsAboveInputs` | t7_graph_without_debug_prints.py:268 | The layers from 1 up hold exactly the functions, each in the layer of its level. |
| `Evaluation.InputsSuffice` | t7_graph_without_debug_prints.py:254-260 | Once every input is bound or has a default, every name has a value. |
| `Evaluation.Evaluator.constructor` | t7_graph_without_debug_prints.py:194-213 | The cache starts as the bindings and the failed set empty, and both agree with `Eval`. |
| `Evaluation.Evaluator.Recorded` | t7_graph_without_debug_prints.py:231-234 | A cached name's value is its meaning, and a failed name has none. |
| `Evaluation.Evaluator.CalculateDirectly` | t7_graph_without_debug_prints.py:224-228 | The function is called on its parameters' values when all of them have one; otherwise this fails. |
| `Evaluation.Evaluator.CalculateValue` | t7_graph_without_debug_prints.py:230-251 | The result is the name's meaning. A success is cached and a failure recorded. A cached or failed name changes nothing. The cache only grows and keeps its entries, and the failed set only grows. |
| `Evaluation.Evaluator.CalculateAll` | t7_graph_without_debug_prints.py:254-260 | Succeeds exactly when every input is bound or has a default. Otherwise it names an input with neither. |
| `Evaluation.Evaluator.CalculateAllPossible` | t7_graph_without_debug_prints.py:263-273 | Afterwards every function is cached or failed, and no failure escapes. |
| `Evaluation.Evaluator.GetItem` | t7_graph_without_debug_prints.py:276-279 | A name that is not a function is a KeyError and changes nothing. Otherwise the result is the function's value or the failure. |
| `Evaluation.Evaluator.Iterate` | t7_graph_without_debug_prints.py:289-290 | Yields distinct functions with their values in layer order. It either covers every function or stops at one without a value. On a stop, that function was not yielded and every function of a lower layer was. |
| `Evaluation.Evaluator.IterateOverSuccessfullyCalculated` | t7_graph_without_debug_prints.py:293-295 | Yields in layer order exactly the functions that have a value, each with that value. |
| `Evaluation.LazilyCalculate` | t7_graph_without_debug_prints.py:163-177 | Succeeds exactly when every keyword names an input; otherwise it names a redundant argument. |
| `Evaluation.Calculate` | t7_graph_without_debug_prints.py:180-190 | Succeeds exactly when every keyword names an input and every input is bound or has a default. Otherwise it names the redundant argument or the missing input. |

## Left out

- `inspect.getargspec` (t7_graph_without_debug_prints.py:76-79) is replaced by an explicit ordered argument list and a list of trailing default values; `DepGraph.Graph.AddFunction` requires the argument names to be distinct, as Python does.
- Host callables are total functions of their keyword-argument map. A host function that raises `ValueError` itself, which `_calculate_value` would also catch, is not modelled.
- `DepGraph.Graph.Compile`: a self-dependency passes the cycle check and then makes `walk_depth_first` recurse without end, and a zero-argument function makes `max()` raise `ValueError`. Both are reported as the error `LayeringFailed` rather than as a hang or an exception.
- `DepGraph.Graph.Compile`: the cyclic error carries the multi-member groups keyed by a member, not the joined message text, and their order within a group is not fixed.
- `Scc.GetLeaders` returns `leaders` keyed by leader (a map) instead of `leaders.values()`. The order of the groups and of the nodes within a group, which follows dict iteration order, is left unspecified.
- `Scc.DfsLoopRelabelled` requires `t_n` to be one-to-one, as the finishing times of a pass always are.
- The edge generator of `compile` is materialised as a sequence.
- Python's recursion limit, in `DFS` and in `walk_depth_first`, is not modelled.
- `Evaluation.Evaluator.Iterate` and `Evaluation.Evaluator.IterateOverSuccessfullyCalculated` return the generators' items as a whole sequence instead of lazily. `Iterate` stops at the first function without a value, where the generator raises.
- `Xrange.GetItem`: the model's integers are unbounded. In Python 2 slice arithmetic can produce a `long`, which the `irange` constructor rejects with `ValueError` (`isinstance(arg, int)` is false for it), and `len()` raises `OverflowError` past the machine word; neither is modelled, so slices succeed there.
- `IReduce.IReduce`, `IReduceVariant2.IReduce`: in t4_ireduce.py and t4_ireduce_variant2.py `ireduce` is a generator, so even the `TypeError` for an empty input without initializer is raised at the first `next()`, not at the call; the model reports it as the result of the whole consuming call.
- `ValueError`, `TypeError`, `KeyError` and `IndexError` are result values (`Result`, `Option`, `Lookup`) instead of exceptions.
- `sort_topologically` is the `layers` field of the compiled graph. `deepcopy` is not needed, because Dafny values cannot be aliased.
- `_debug_print` and verbose levels, `__getattr__`, `example()` and the `unittest` classes are not part of this model.
- File input and `main` of t7_scc.py (lines 10 and 74-88) are not part of this model.
- `irange.__hash__` and `irange.__repr__` are not part of this model.
- `t1_currying.py`, `t2_lazy_decorator.py`, `l2_lazy_decorator.py` and `t6_infix_operator_a.py` are not part of this model.
- `Sieve.Primes`: the sub-generator `ps` is modelled by `PrimeFacts.NextPrime`, the next prime after p, instead of a second run of the generator.
- `Sieve.Primes`: the generator is unbounded; the model returns its first n values (`islice`).
