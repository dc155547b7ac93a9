/** Loading order of the ns-3 libraries: `sort_to_dependencies` in bindings/python/ns__init__.py.

    Modules are loaded level by level.  A chain of dependencies is the independent notion the
    levels are measured against.
 */
module LoadOrder {
  import opened Permutations

  /** A library, by its base name. */
  datatype Module = Module(name: string)
  type Dependencies = map<Module, seq<Module>>

  // The dependency graph, independently of any loading order.

  /** A chain m0, m1, ... in which every module depends on the next one. */
  ghost predicate IsChain(deps: Dependencies, chain: seq<Module>) {
    && chain != []
    && (forall i :: 0 <= i < |chain| ==> chain[i] in deps)
    && (forall i :: 0 <= i < |chain| - 1 ==> chain[i + 1] in deps[chain[i]])
  }

  ghost predicate IsChainFrom(deps: Dependencies, m: Module, chain: seq<Module>) {
    IsChain(deps, chain) && chain[0] == m
  }

  ghost predicate IsCycle(deps: Dependencies, chain: seq<Module>) {
    IsChain(deps, chain) && |chain| >= 2 && chain[0] == chain[|chain| - 1]
  }

  ghost predicate Acyclic(deps: Dependencies) {
    forall chain :: !IsCycle(deps, chain)
  }

  ghost predicate Closed(deps: Dependencies) {
    forall m, d :: m in deps && d in deps[m] ==> d in deps
  }

  /** The longest chain of dependencies below `m` has `n` links. */
  ghost predicate LongestChain(deps: Dependencies, m: Module, n: nat) {
    && (exists chain :: IsChainFrom(deps, m, chain) && |chain| == n + 1)
    && (forall chain :: IsChainFrom(deps, m, chain) ==> |chain| <= n + 1)
  }

  // One level of loading.

  predicate CanBeLoaded(deps: Dependencies, m: Module, current: seq<Module>) {
    m in deps && forall d <- deps[m] :: d in current
  }

  function Loadable(deps: Dependencies, pending: seq<Module>, current: seq<Module>): seq<Module> {
    if pending == [] then []
    else
      var last := pending[|pending| - 1];
      Loadable(deps, pending[..|pending| - 1], current) + if CanBeLoaded(deps, last, current) then [last] else []
  }

  function Without(pending: seq<Module>, loaded: seq<Module>): seq<Module> {
    if pending == [] then []
    else
      var last := pending[|pending| - 1];
      Without(pending[..|pending| - 1], loaded) + if last in loaded then [] else [last]
  }

  lemma {:induction false} LoadableMembers(deps: Dependencies, pending: seq<Module>, current: seq<Module>)
    ensures forall m :: m in Loadable(deps, pending, current) <==> m in pending && CanBeLoaded(deps, m, current)
    ensures Distinct(pending) ==> Distinct(Loadable(deps, pending, current))
  {
    if pending != [] {
      var front, last := pending[..|pending| - 1], pending[|pending| - 1];
      assert pending == front + [last];
      LoadableMembers(deps, front, current);
    }
  }

  lemma {:induction false} WithoutMembers(pending: seq<Module>, loaded: seq<Module>)
    ensures forall m :: m in Without(pending, loaded) <==> m in pending && m !in loaded
    ensures Distinct(pending) ==> Distinct(Without(pending, loaded))
    ensures |Without(pending, loaded)| <= |pending|
  {
    if pending != [] {
      var front, last := pending[..|pending| - 1], pending[|pending| - 1];
      assert pending == front + [last];
      WithoutMembers(front, loaded);
    }
  }

  /** The lists the recursion passes along; `steps[k]` is what call number `k` loaded. */
  datatype State = State(pending: seq<Module>, current: seq<Module>, steps: seq<seq<Module>>)

  function Next(deps: Dependencies, s: State): State {
    var modules := Loadable(deps, s.pending, s.current);
    State(Without(s.pending, modules), s.current + modules, s.steps + [modules])
  }

  /** The state after `n` calls, starting from the modules in dictionary order. */
  function Run(deps: Dependencies, order: seq<Module>, n: nat): (s: State)
    ensures |s.steps| == n
  {
    if n == 0 then State(order, [], []) else Next(deps, Run(deps, order, n - 1))
  }

  /** What call number `k` loads. */
  function Step(deps: Dependencies, order: seq<Module>, k: nat): seq<Module> {
    Loadable(deps, Run(deps, order, k).pending, Run(deps, order, k).current)
  }

  // Invariants of every run.

  ghost predicate IsOrderOf(order: seq<Module>, deps: Dependencies) {
    Distinct(order) && forall m :: m in order <==> m in deps
  }

  function Flatten(steps: seq<seq<Module>>): seq<Module> {
    if steps == [] then [] else Flatten(steps[..|steps| - 1]) + steps[|steps| - 1]
  }

  /** Pending and current modules split the order between them, and the steps list the current ones. */
  ghost predicate Splits(order: seq<Module>, s: State) {
    && s.current == Flatten(s.steps)
    && Distinct(s.pending) && Distinct(s.current)
    && (forall m :: m in s.pending ==> m !in s.current)
    && (forall m :: m in order <==> m in s.pending || m in s.current)
  }

  lemma NextMembers(deps: Dependencies, s: State)
    ensures var t, modules := Next(deps, s), Loadable(deps, s.pending, s.current);
            && t.steps == s.steps + [modules] && t.current == s.current + modules
            && (forall m :: m in t.current <==> m in s.current || m in modules)
            && (forall m :: m in modules <==> m in s.pending && CanBeLoaded(deps, m, s.current))
            && (forall m :: m in t.pending <==> m in s.pending && m !in modules)
            && (Distinct(s.pending) ==> Distinct(modules) && Distinct(t.pending))
  {
    LoadableMembers(deps, s.pending, s.current);
    WithoutMembers(s.pending, Loadable(deps, s.pending, s.current));
    hide Loadable, Without, CanBeLoaded, Distinct;
  }

  /** One call, module by module. */
  lemma StepMembers(deps: Dependencies, order: seq<Module>, k: nat, m: Module)
    ensures m in Step(deps, order, k)
       <==> m in Run(deps, order, k).pending && CanBeLoaded(deps, m, Run(deps, order, k).current)
    ensures m in Run(deps, order, k + 1).current <==> m in Run(deps, order, k).current || m in Step(deps, order, k)
    ensures m in Run(deps, order, k + 1).pending <==> m in Run(deps, order, k).pending && m !in Step(deps, order, k)
  {
    NextMembers(deps, Run(deps, order, k));
    hide Loadable, Without, CanBeLoaded, Distinct;
  }

  lemma NextSplits(deps: Dependencies, order: seq<Module>, s: State)
    requires Splits(order, s)
    ensures Splits(order, Next(deps, s))
  {
    NextMembers(deps, s);
    var modules := Loadable(deps, s.pending, s.current);
    assert (s.steps + [modules])[..|s.steps|] == s.steps;
    DistinctConcat(s.current, modules);
    hide Loadable, Next, Without, CanBeLoaded;
  }

  lemma DistinctConcat(a: seq<Module>, b: seq<Module>)
    requires Distinct(a) && Distinct(b) && forall m :: m in b ==> m !in a
    ensures Distinct(a + b)
  {
    assert forall j :: |a| <= j < |a + b| ==> (a + b)[j] in b;
  }

  lemma StepDependencies(deps: Dependencies, order: seq<Module>, k: nat, m: Module)
    requires m in Step(deps, order, k)
    ensures m in deps && forall d <- deps[m] :: d in Run(deps, order, k).current
  {
    StepMembers(deps, order, k, m);
  }

  lemma {:induction false} RunSplits(deps: Dependencies, order: seq<Module>, n: nat)
    requires IsOrderOf(order, deps)
    ensures Splits(order, Run(deps, order, n))
  {
    if n > 0 {
      RunSplits(deps, order, n - 1);
      NextSplits(deps, order, Run(deps, order, n - 1));
    }
  }

  /** What call `k` loads stays where it is put. */
  lemma {:induction false} RunPrefix(deps: Dependencies, order: seq<Module>, k: nat, n: nat)
    requires k < n
    ensures Run(deps, order, n).steps[k] == Step(deps, order, k)
  {
    hide *;
    StepAppended(deps, order, n - 1);
    var earlier := Run(deps, order, n - 1).steps;
    if k < n - 1 {
      RunPrefix(deps, order, k, n - 1);
      assert (earlier + [Step(deps, order, n - 1)])[k] == earlier[k];
    } else {
      assert (earlier + [Step(deps, order, n - 1)])[|earlier|] == Step(deps, order, n - 1);
    }
  }

  lemma StepAppended(deps: Dependencies, order: seq<Module>, k: nat)
    ensures Run(deps, order, k + 1).steps == Run(deps, order, k).steps + [Step(deps, order, k)]
  {
  }

  // A module's step is the length of its longest chain of dependencies.

  /** What was loaded within `n` calls has no chain longer than `n`. */
  lemma {:induction false} LoadedChainsAreShort(deps: Dependencies, order: seq<Module>, n: nat, chain: seq<Module>)
    requires IsChain(deps, chain) && chain[0] in Run(deps, order, n).current
    ensures |chain| <= n
  {
    assert n > 0;
    hide Run, Step, CanBeLoaded;
    StepMembers(deps, order, n - 1, chain[0]);
    if chain[0] in Run(deps, order, n - 1).current {
      LoadedChainsAreShort(deps, order, n - 1, chain);
    } else if |chain| > 1 {
      TailChain(deps, chain);
      StepDependencies(deps, order, n - 1, chain[0]);
      hide IsChain;
      LoadedChainsAreShort(deps, order, n - 1, chain[1..]);
    }
  }

  lemma TailChain(deps: Dependencies, chain: seq<Module>)
    requires IsChain(deps, chain) && |chain| > 1
    ensures chain[0] in deps && chain[1] in deps[chain[0]] && IsChain(deps, chain[1..]) && chain[1..][0] == chain[1]
  {
  }

  /** What is still pending after `n` calls has a chain of `n` links. */
  lemma {:induction false} PendingHasLongChain(deps: Dependencies, order: seq<Module>, n: nat, m: Module)
    returns (chain: seq<Module>)
    requires IsOrderOf(order, deps) && Closed(deps) && m in Run(deps, order, n).pending
    ensures IsChainFrom(deps, m, chain) && |chain| == n + 1
  {
    RunSplits(deps, order, n);
    hide Run, Step, CanBeLoaded;
    if n == 0 {
      chain := [m];
    } else {
      StepMembers(deps, order, n - 1, m);
      RunSplits(deps, order, n - 1);
      var d := UnmetDependency(deps, order, Run(deps, order, n - 1), m);
      var rest := PendingHasLongChain(deps, order, n - 1, d);
      chain := [m] + rest;
      ConsChain(deps, m, rest);
    }
  }

  lemma UnmetDependency(deps: Dependencies, order: seq<Module>, s: State, m: Module) returns (d: Module)
    requires IsOrderOf(order, deps) && Closed(deps) && Splits(order, s) && m in s.pending
    requires !CanBeLoaded(deps, m, s.current)
    ensures d in deps[m] && d in s.pending
  {
    d :| d in deps[m] && d !in s.current;
  }

  lemma ConsChain(deps: Dependencies, m: Module, chain: seq<Module>)
    requires IsChain(deps, chain) && m in deps && chain[0] in deps[m]
    ensures IsChain(deps, [m] + chain)
  {
  }

  /** The module's step, both ways round: it was loaded by call `k` exactly if its longest chain has `k` links. */
  lemma StepIsLongestChain(deps: Dependencies, order: seq<Module>, n: nat, k: nat, m: Module)
    requires IsOrderOf(order, deps) && Closed(deps) && k < n
    ensures m in Run(deps, order, n).steps[k] <==> LongestChain(deps, m, k)
  {
    RunPrefix(deps, order, k, n);
    if m in Step(deps, order, k) {
      LoadedHasLongestChain(deps, order, k, m);
    }
    if LongestChain(deps, m, k) {
      LongestChainIsLoaded(deps, order, k, m);
    }
  }

  lemma LoadedHasLongestChain(deps: Dependencies, order: seq<Module>, k: nat, m: Module)
    requires IsOrderOf(order, deps) && Closed(deps) && m in Step(deps, order, k)
    ensures LongestChain(deps, m, k)
  {
    StepMembers(deps, order, k, m);
    hide Run, Step, CanBeLoaded;
    var chain := PendingHasLongChain(deps, order, k, m);
    forall chain | IsChainFrom(deps, m, chain) ensures |chain| <= k + 1 {
      LoadedChainsAreShort(deps, order, k + 1, chain);
    }
  }

  lemma LongestChainIsLoaded(deps: Dependencies, order: seq<Module>, k: nat, m: Module)
    requires IsOrderOf(order, deps) && Closed(deps) && LongestChain(deps, m, k)
    ensures m in Step(deps, order, k)
  {
    RunSplits(deps, order, k);
    StepMembers(deps, order, k, m);
    hide Run, Step, CanBeLoaded;
    var chain :| IsChainFrom(deps, m, chain) && |chain| == k + 1;
    if m in Run(deps, order, k).current {
      LoadedChainsAreShort(deps, order, k, chain);
    } else if m in Run(deps, order, k + 1).pending {
      var longer := PendingHasLongChain(deps, order, k + 1, m);
    }
  }

  // Termination: exactly for acyclic maps that name only their own modules.

  /** Each call loads at least one module. */
  lemma Progress(deps: Dependencies, order: seq<Module>, n: nat)
    requires IsOrderOf(order, deps) && Closed(deps) && Acyclic(deps)
    requires Run(deps, order, n).pending != []
    ensures Step(deps, order, n) != []
    ensures |Run(deps, order, n + 1).pending| < |Run(deps, order, n).pending|
  {
    var s := Run(deps, order, n);
    var modules := Step(deps, order, n);
    RunSplits(deps, order, n);
    LoadableMembers(deps, s.pending, s.current);
    if modules == [] {
      var chain := StuckChain(deps, order, s, |deps|);
      RepeatIsCycle(deps, chain);
      assert false;
    }
    WithoutShrinks(s.pending, modules);
  }

  /** When nothing can be loaded, unmet dependencies can be followed for ever. */
  lemma {:induction false} StuckChain(deps: Dependencies, order: seq<Module>, s: State, n: nat)
    returns (chain: seq<Module>)
    requires IsOrderOf(order, deps) && Closed(deps) && Splits(order, s) && s.pending != []
    requires forall m :: m in s.pending ==> m in deps && !CanBeLoaded(deps, m, s.current)
    ensures IsChain(deps, chain) && |chain| == n + 1 && chain[n] in s.pending
  {
    hide CanBeLoaded;
    if n == 0 {
      assert s.pending[0] in s.pending;
      chain := [s.pending[0]];
    } else {
      var shorter := StuckChain(deps, order, s, n - 1);
      var d := UnmetDependency(deps, order, s, shorter[n - 1]);
      chain := shorter + [d];
    }
  }

  lemma RepeatIsCycle(deps: Dependencies, chain: seq<Module>)
    requires IsChain(deps, chain) && |chain| > |deps|
    ensures !Acyclic(deps)
  {
    if Distinct(chain) {
      DistinctFits(chain, deps.Keys);
    }
    var i, j :| 0 <= i < j < |chain| && chain[i] == chain[j];
    assert IsCycle(deps, chain[i..j + 1]);
  }

  lemma {:induction false} WithoutShrinks(pending: seq<Module>, loaded: seq<Module>)
    requires loaded != [] && forall m <- loaded :: m in pending
    ensures |Without(pending, loaded)| < |pending|
  {
    assert loaded[0] in loaded;
    WithoutDrops(pending, loaded);
  }

  lemma {:induction false} WithoutDrops(pending: seq<Module>, loaded: seq<Module>)
    requires exists m :: m in pending && m in loaded
    ensures |Without(pending, loaded)| < |pending|
  {
    var front, last := pending[..|pending| - 1], pending[|pending| - 1];
    assert pending == front + [last];
    if last in loaded {
      WithoutMembers(front, loaded);
    } else {
      WithoutDrops(front, loaded);
    }
  }

  /** A module on a cycle, or one that needs something unknown, is never loaded. */
  lemma {:induction false} CycleNeverLoads(deps: Dependencies, order: seq<Module>, n: nat, cycle: seq<Module>, i: nat)
    requires IsCycle(deps, cycle) && i < |cycle|
    ensures cycle[i] !in Run(deps, order, n).current
  {
    if cycle[i] in Run(deps, order, n).current {
      assert n > 0;
      hide Run, Step, CanBeLoaded;
      StepMembers(deps, order, n - 1, cycle[i]);
      CycleNeverLoads(deps, order, n - 1, cycle, i);
      StepDependencies(deps, order, n - 1, cycle[i]);
      var next := if i + 1 < |cycle| then i + 1 else 1;
      CycleNeverLoads(deps, order, n - 1, cycle, next);
    }
  }

  lemma {:induction false} UnknownNeverLoads(deps: Dependencies, order: seq<Module>, n: nat, m: Module, d: Module)
    requires IsOrderOf(order, deps) && m in deps && d in deps[m] && d !in deps
    ensures m !in Run(deps, order, n).current
  {
    if m in Run(deps, order, n).current {
      assert n > 0;
      hide Run, Step, CanBeLoaded;
      StepMembers(deps, order, n - 1, m);
      UnknownNeverLoads(deps, order, n - 1, m, d);
      StepDependencies(deps, order, n - 1, m);
      RunSplits(deps, order, n - 1);
    }
  }

  lemma {:induction false} RunFinishes(deps: Dependencies, order: seq<Module>, n: nat) returns (last: nat)
    requires IsOrderOf(order, deps) && Closed(deps) && Acyclic(deps)
    ensures Run(deps, order, last).pending == []
    decreases |Run(deps, order, n).pending|
  {
    last := n;
    if Run(deps, order, n).pending != [] {
      Progress(deps, order, n);
      last := RunFinishes(deps, order, n + 1);
    }
  }

  /** The recursion comes to an end exactly for closed acyclic dependency maps. */
  lemma TerminatesExactlyWhenAcyclic(deps: Dependencies, order: seq<Module>)
    requires IsOrderOf(order, deps)
    ensures (exists n: nat :: Run(deps, order, n).pending == []) <==> Closed(deps) && Acyclic(deps)
  {
    if Closed(deps) && Acyclic(deps) {
      var n := RunFinishes(deps, order, 0);
    }
    if n: nat :| Run(deps, order, n).pending == [] {
      RunSplits(deps, order, n);
      forall m, d | m in deps && d in deps[m] ensures d in deps {
        if d !in deps { UnknownNeverLoads(deps, order, n, m, d); }
      }
      forall cycle ensures !IsCycle(deps, cycle) {
        if IsCycle(deps, cycle) { CycleNeverLoads(deps, order, n, cycle, 0); }
      }
    }
  }

  /** In the flattened order every dependency stands strictly before the module that needs it. */
  ghost predicate DependenciesFirst(deps: Dependencies, sorted: seq<Module>) {
    forall i, d :: 0 <= i < |sorted| && sorted[i] in deps && d in deps[sorted[i]] ==> d in sorted[..i]
  }

  lemma {:induction false} RunIsSorted(deps: Dependencies, order: seq<Module>, n: nat)
    requires IsOrderOf(order, deps)
    ensures DependenciesFirst(deps, Run(deps, order, n).current)
  {
    if n > 0 {
      RunIsSorted(deps, order, n - 1);
      var s, modules := Run(deps, order, n - 1), Step(deps, order, n - 1);
      LoadableMembers(deps, s.pending, s.current);
      var all := s.current + modules;
      forall i, d | 0 <= i < |all| && all[i] in deps && d in deps[all[i]] ensures d in all[..i] {
        if i < |s.current| {
          assert all[..i] == s.current[..i];
        } else {
          assert all[i] in modules;
          assert all[..i] == s.current + modules[..i - |s.current|];
        }
      }
    }
  }

  // The code: three lists passed down a recursion and changed in place.

  /** Where `list.remove` finds its argument. */
  function IndexOf(s: seq<Module>, m: Module): (i: nat)
    requires m in s
    ensures i < |s| && s[i] == m && m !in s[..i]
  {
    if s[0] == m then 0 else 1 + IndexOf(s[1..], m)
  }

  lemma {:induction false} WithoutOne(s: seq<Module>, i: nat)
    requires Distinct(s) && i < |s|
    ensures Without(s, [s[i]]) == s[..i] + s[i + 1..]
  {
    var front, last := s[..|s| - 1], s[|s| - 1];
    if i < |front| {
      WithoutOne(front, i);
    } else {
      WithoutNone(front, [last]);
    }
  }

  lemma {:induction false} WithoutNone(s: seq<Module>, loaded: seq<Module>)
    requires forall m <- s :: m !in loaded
    ensures Without(s, loaded) == s
  {
    if s != [] {
      var front, last := s[..|s| - 1], s[|s| - 1];
      assert s == front + [last];
      WithoutNone(front, loaded);
    }
  }

  lemma {:induction false} WithoutTwice(s: seq<Module>, a: seq<Module>, b: seq<Module>)
    ensures Without(Without(s, a), b) == Without(s, a + b)
  {
    if s != [] {
      var front, last := s[..|s| - 1], s[|s| - 1];
      WithoutTwice(front, a, b);
      var kept := Without(front, a);
      assert (kept + [last])[..|kept|] == kept && kept + [] == kept;
      assert last in a + b <==> last in a || last in b;
    }
  }

  /** The dictionary maps 0, 1, ... to the lists of `all`. */
  ghost predicate Numbered(steps: map<nat, seq<Module>>, all: seq<seq<Module>>) {
    (forall k: nat :: k in steps <==> k < |all|) && forall k: nat :: k < |all| ==> steps[k] == all[k]
  }

  class Loader {
    const deps: Dependencies
    const order: seq<Module>
    var pendingModules: seq<Module>
    var currentModules: seq<Module>
    var steps: map<nat, seq<Module>>

    /** `order` lists the keys of `deps` the way the dictionary does. */
    constructor (deps: Dependencies, order: seq<Module>)
      requires IsOrderOf(order, deps)
      ensures this.deps == deps && this.order == order && Reached(0)
    {
      this.deps, this.order := deps, order;
      pendingModules, currentModules, steps := order, [], map[];
    }

    /** The lists stand as they do after `n` calls. */
    ghost predicate Reached(n: nat) reads this {
      && IsOrderOf(order, deps)
      && pendingModules == Run(deps, order, n).pending
      && currentModules == Run(deps, order, n).current
      && Numbered(steps, Run(deps, order, n).steps)
    }

    method ModulesThatCanBeLoaded() returns (modules: seq<Module>)
      requires forall m <- pendingModules :: m in deps
      ensures modules == Loadable(deps, pendingModules, currentModules)
    {
      modules := [];
      for i := 0 to |pendingModules|
        invariant modules == Loadable(deps, pendingModules[..i], currentModules)
      {
        var pendingModule := pendingModules[i];
        var canBeLoaded := true;
        var dependencies := deps[pendingModule];
        for j := 0 to |dependencies|
          invariant canBeLoaded && forall d <- dependencies[..j] :: d in currentModules
        {
          if dependencies[j] !in currentModules {
            canBeLoaded := false;
            break;
          }
        }
        assert dependencies[..|dependencies|] == dependencies;
        assert pendingModules[..i + 1][..i] == pendingModules[..i];
        if !canBeLoaded {
          continue;
        }
        modules := modules + [pendingModule];
      }
      assert pendingModules[..|pendingModules|] == pendingModules;
    }

    /** Call number `step`, with all that follow: every call after it finds something to load. */
    method DependencyOrder(step: nat) returns (ghost last: nat)
      requires Reached(step) && Closed(deps) && Acyclic(deps)
      modifies this
      ensures Reached(last) && pendingModules == []
      decreases |pendingModules|
    {
      last := step;
      if |pendingModules| == 0 {
        return;
      }
      Progress(deps, order, step);
      LoadStep(step);
      last := DependencyOrder(step + 1);
    }

    /** The loop of one call. */
    method LoadStep(step: nat)
      requires Reached(step)
      modifies this
      ensures Reached(step + 1)
    {
      hide Run, Next, Loadable, Without, IndexOf, Distinct, Loading, Numbered;
      ghost var s := Run(deps, order, step);
      RunSplits(deps, order, step);
      StepUnfolds(deps, order, step);
      StepIsDistinct(deps, order, step);
      StepStarts(s, Step(deps, order, step), steps);
      assert Step(deps, order, step) == Loadable(deps, s.pending, s.current);
      if step !in steps {
        steps := steps[step := []];
      }
      var modules := ModulesThatCanBeLoaded();
      for i := 0 to |modules|
        invariant Loading(pendingModules, currentModules, steps, s, modules[..i])
      {
        LoadOne(pendingModules, currentModules, steps, s, modules, i);
        var m := modules[i];
        steps := steps[step := steps[step] + [m]];
        var at := IndexOf(pendingModules, m);
        pendingModules := pendingModules[..at] + pendingModules[at + 1..];
        currentModules := currentModules + [m];
      }
      Loaded(pendingModules, currentModules, steps, s, modules);
    }
  }

  /** In the middle of a call: `loaded` is what it has loaded so far. */
  ghost predicate Loading(pending: seq<Module>, current: seq<Module>, steps: map<nat, seq<Module>>,
                          s: State, loaded: seq<Module>)
  {
    pending == Without(s.pending, loaded) && current == s.current + loaded && Numbered(steps, s.steps + [loaded])
  }

  lemma LoadOne(pending: seq<Module>, current: seq<Module>, steps: map<nat, seq<Module>>, s: State,
                modules: seq<Module>, i: nat)
    requires i < |modules| && Loading(pending, current, steps, s, modules[..i])
    requires Distinct(s.pending) && Distinct(modules) && modules[i] in s.pending
    ensures modules[i] in pending && |s.steps| in steps
    ensures var at, m := IndexOf(pending, modules[i]), modules[i];
            Loading(pending[..at] + pending[at + 1..], current + [m], steps[|s.steps| := steps[|s.steps|] + [m]],
                    s, modules[..i + 1])
  {
    RemoveOne(s.pending, modules, i);
    hide Without, IndexOf, Distinct;
  }

  lemma Loaded(pending: seq<Module>, current: seq<Module>, steps: map<nat, seq<Module>>, s: State,
               modules: seq<Module>)
    requires Loading(pending, current, steps, s, modules[..|modules|])
    ensures pending == Without(s.pending, modules) && current == s.current + modules
    ensures Numbered(steps, s.steps + [modules])
  {
    assert modules[..|modules|] == modules;
  }

  lemma StepUnfolds(deps: Dependencies, order: seq<Module>, step: nat)
    ensures var s, modules := Run(deps, order, step), Step(deps, order, step);
            Run(deps, order, step + 1) == State(Without(s.pending, modules), s.current + modules, s.steps + [modules])
  {
  }

  lemma StepIsDistinct(deps: Dependencies, order: seq<Module>, step: nat)
    requires IsOrderOf(order, deps)
    ensures var s, modules := Run(deps, order, step), Step(deps, order, step);
            Distinct(s.pending) && Distinct(modules) && forall m <- modules :: m in s.pending
  {
    RunSplits(deps, order, step);
    hide Run, Loadable;
    LoadableMembers(deps, Run(deps, order, step).pending, Run(deps, order, step).current);
  }

  lemma StepStarts(s: State, modules: seq<Module>, steps: map<nat, seq<Module>>)
    requires Numbered(steps, s.steps)
    ensures |s.steps| !in steps
    ensures Loading(s.pending, s.current, steps[|s.steps| := []], s, modules[..0])
  {
    WithoutNone(s.pending, []);
  }

  lemma RemoveOne(pending: seq<Module>, modules: seq<Module>, i: nat)
    requires Distinct(pending) && Distinct(modules) && i < |modules| && modules[i] in pending
    ensures modules[..i + 1] == modules[..i] + [modules[i]]
    ensures var left := Without(pending, modules[..i]);
            && modules[i] in left
            && var at := IndexOf(left, modules[i]);
               Without(pending, modules[..i + 1]) == left[..at] + left[at + 1..]
  {
    hide Without, IndexOf;
    var left := Without(pending, modules[..i]);
    WithoutMembers(pending, modules[..i]);
    WithoutOne(left, IndexOf(left, modules[i]));
    WithoutTwice(pending, modules[..i], [modules[i]]);
    assert modules[..i + 1] == modules[..i] + [modules[i]];
  }

  /** All modules exactly once, each after everything it depends on. */
  method SortToDependencies(deps: Dependencies, order: seq<Module>) returns (sorted: seq<Module>)
    requires IsOrderOf(order, deps) && Closed(deps) && Acyclic(deps)
    ensures IsOrderOf(sorted, deps) && multiset(sorted) == multiset(order)
    ensures DependenciesFirst(deps, sorted)
    ensures SortedByStep(deps, sorted) && StableByStep(deps, order, sorted)
  {
    hide StableByStep;
    hide Run, IsOrderOf, Distinct, DependenciesFirst, SortedByStep, Acyclic, Closed;
    var loader := new Loader(deps, order);
    ghost var last := loader.DependencyOrder(0);
    FinishedRun(deps, order, last);
    ghost var steps := Run(deps, order, last).steps;
    var k := 0;
    sorted := [];
    while k in loader.steps
      invariant k <= last && sorted == Flatten(steps[..k])
      decreases last - k
    {
      sorted := sorted + loader.steps[k];
      assert steps[..k + 1][..k] == steps[..k];
      k := k + 1;
    }
    assert steps[..last] == steps;
  }

  lemma FinishedRun(deps: Dependencies, order: seq<Module>, n: nat)
    requires IsOrderOf(order, deps) && Closed(deps) && Run(deps, order, n).pending == []
    ensures var sorted := Flatten(Run(deps, order, n).steps);
            && IsOrderOf(sorted, deps) && multiset(sorted) == multiset(order)
            && DependenciesFirst(deps, sorted) && SortedByStep(deps, sorted) && StableByStep(deps, order, sorted)
  {
    hide Run, StableByStep;
    RunIsStable(deps, order, n);
    RunSplits(deps, order, n);
    RunIsSorted(deps, order, n);
    RunIsSortedByStep(deps, order, n);
    hide DependenciesFirst, SortedByStep;
    SameElements(Run(deps, order, n).current, order);
  }

  /** Modules appear in the order of the length of their longest chains. */
  ghost predicate SortedByStep(deps: Dependencies, sorted: seq<Module>) {
    forall i, j, m: nat, n: nat ::
      0 <= i < j < |sorted| && LongestChain(deps, sorted[i], m) && LongestChain(deps, sorted[j], n) ==> m <= n
  }

  /** Modules with chains of one length keep the order of the dictionary. */
  ghost predicate StableByStep(deps: Dependencies, order: seq<Module>, sorted: seq<Module>) {
    forall x, y, n: nat ::
      Precedes(order, x, y) && x in sorted && y in sorted && LongestChain(deps, x, n) && LongestChain(deps, y, n)
      ==> Precedes(sorted, x, y)
  }

  lemma PrecedesInside(before: seq<Module>, s: seq<Module>, after: seq<Module>, x: Module, y: Module)
    requires Precedes(s, x, y)
    ensures Precedes(before + s + after, x, y)
  {
    var i, j :| 0 <= i < j < |s| && s[i] == x && s[j] == y;
    var all := before + s + after;
    assert all[|before| + i] == x && all[|before| + j] == y;
  }

  lemma {:induction false} LoadableIsStable(deps: Dependencies, pending: seq<Module>, current: seq<Module>, x: Module,
                                            y: Module)
    requires Precedes(pending, x, y) && CanBeLoaded(deps, x, current) && CanBeLoaded(deps, y, current)
    ensures Precedes(Loadable(deps, pending, current), x, y)
  {
    hide CanBeLoaded;
    var i, j :| 0 <= i < j < |pending| && pending[i] == x && pending[j] == y;
    var front, last := pending[..|pending| - 1], pending[|pending| - 1];
    var modules := Loadable(deps, front, current);
    assert front[i] == x && x in front;
    if j < |front| {
      assert front[j] == y && Precedes(front, x, y);
      LoadableIsStable(deps, front, current, x, y);
      PrecedesInside([], modules, if CanBeLoaded(deps, last, current) then [last] else [], x, y);
      assert [] + modules == modules;
    } else {
      LoadableMembers(deps, front, current);
      var k :| 0 <= k < |modules| && modules[k] == x;
      var all := Loadable(deps, pending, current);
      assert all[k] == x && all[|modules|] == y;
    }
  }

  lemma {:induction false} WithoutIsStable(pending: seq<Module>, loaded: seq<Module>, x: Module, y: Module)
    requires Precedes(pending, x, y) && x !in loaded && y !in loaded
    ensures Precedes(Without(pending, loaded), x, y)
  {
    var i, j :| 0 <= i < j < |pending| && pending[i] == x && pending[j] == y;
    var front, last := pending[..|pending| - 1], pending[|pending| - 1];
    var left := Without(front, loaded);
    assert front[i] == x && x in front;
    if j < |front| {
      assert front[j] == y && Precedes(front, x, y);
      WithoutIsStable(front, loaded, x, y);
      PrecedesInside([], left, if last in loaded then [] else [last], x, y);
      assert [] + left == left;
    } else {
      WithoutMembers(front, loaded);
      var k :| 0 <= k < |left| && left[k] == x;
      var all := Without(pending, loaded);
      assert all[k] == x && all[|left|] == y;
    }
  }

  lemma {:induction false} PendingIsStable(deps: Dependencies, order: seq<Module>, n: nat, x: Module, y: Module)
    requires Precedes(order, x, y) && x in Run(deps, order, n).pending && y in Run(deps, order, n).pending
    ensures Precedes(Run(deps, order, n).pending, x, y)
  {
    hide Loadable, Without, Precedes;
    if n > 0 {
      StepMembers(deps, order, n - 1, x);
      StepMembers(deps, order, n - 1, y);
      PendingIsStable(deps, order, n - 1, x, y);
      WithoutIsStable(Run(deps, order, n - 1).pending, Step(deps, order, n - 1), x, y);
    }
  }

  lemma StepIsStable(deps: Dependencies, order: seq<Module>, k: nat, x: Module, y: Module)
    requires Precedes(order, x, y) && x in Step(deps, order, k) && y in Step(deps, order, k)
    ensures Precedes(Step(deps, order, k), x, y)
  {
    StepMembers(deps, order, k, x);
    StepMembers(deps, order, k, y);
    PendingIsStable(deps, order, k, x, y);
    LoadableIsStable(deps, Run(deps, order, k).pending, Run(deps, order, k).current, x, y);
    hide Run, Loadable, Precedes;
  }

  lemma {:induction false} LoadedStaysInFront(deps: Dependencies, order: seq<Module>, k: nat, n: nat, x: Module,
                                              y: Module)
    requires k < n && Precedes(Step(deps, order, k), x, y)
    ensures Precedes(Run(deps, order, n).current, x, y)
  {
    hide Loadable, Precedes, Without;
    var before, step := Run(deps, order, n - 1).current, Step(deps, order, n - 1);
    assert Run(deps, order, n).current == before + step;
    if k == n - 1 {
      PrecedesInside(before, step, [], x, y);
      assert before + step + [] == before + step;
    } else {
      LoadedStaysInFront(deps, order, k, n - 1, x, y);
      PrecedesInside([], before, step, x, y);
      assert [] + before + step == before + step;
    }
  }

  lemma RunIsStable(deps: Dependencies, order: seq<Module>, n: nat)
    requires IsOrderOf(order, deps) && Closed(deps)
    ensures StableByStep(deps, order, Run(deps, order, n).current)
  {
    hide Run, Step, Precedes, LongestChain, IsOrderOf, Closed;
    var sorted := Run(deps, order, n).current;
    forall x, y, k: nat | Precedes(order, x, y) && LongestChain(deps, x, k) && LongestChain(deps, y, k)
                          && x in sorted && y in sorted
      ensures Precedes(sorted, x, y)
    {
      LongestChainIsLoaded(deps, order, k, x);
      LongestChainIsLoaded(deps, order, k, y);
      StepIsStable(deps, order, k, x, y);
      LoadedInTime(deps, order, k, n, x);
      LoadedStaysInFront(deps, order, k, n, x, y);
    }
  }

  /** What call `k` loads is not loaded before. */
  lemma LoadedInTime(deps: Dependencies, order: seq<Module>, k: nat, n: nat, m: Module)
    requires IsOrderOf(order, deps) && m in Step(deps, order, k) && m in Run(deps, order, n).current
    ensures k < n
  {
    if k >= n {
      StaysLoaded(deps, order, n, k, m);
      RunSplits(deps, order, k);
      StepMembers(deps, order, k, m);
      hide Run;
    }
  }

  lemma {:induction false} StaysLoaded(deps: Dependencies, order: seq<Module>, n: nat, k: nat, m: Module)
    requires n <= k && m in Run(deps, order, n).current
    ensures m in Run(deps, order, k).current
  {
    hide Loadable, Without;
    if n < k {
      StaysLoaded(deps, order, n, k - 1, m);
      StepMembers(deps, order, k - 1, m);
    }
  }

  lemma RunIsSortedByStep(deps: Dependencies, order: seq<Module>, n: nat)
    requires IsOrderOf(order, deps) && Closed(deps)
    ensures SortedByStep(deps, Run(deps, order, n).current)
  {
    hide Run, LongestChain;
    var all := Run(deps, order, n).current;
    forall i, j, a: nat, b: nat |
      0 <= i < j < |all| && LongestChain(deps, all[i], a) && LongestChain(deps, all[j], b)
      ensures a <= b
    {
      StartsEmpty(deps, order);
      PairIsSortedByStep(deps, order, n, i, a, j, b);
    }
  }

  lemma StartsEmpty(deps: Dependencies, order: seq<Module>)
    ensures Run(deps, order, 0).current == []
  {
  }

  lemma {:induction false} PairIsSortedByStep(deps: Dependencies, order: seq<Module>, n: nat,
                                              i: nat, a: nat, j: nat, b: nat)
    requires IsOrderOf(order, deps) && Closed(deps)
    requires n > 0 && i < j < |Run(deps, order, n).current|
    requires LongestChain(deps, Run(deps, order, n).current[i], a)
    requires LongestChain(deps, Run(deps, order, n).current[j], b)
    ensures a <= b
  {
    hide *;
    StepUnfolds(deps, order, n - 1);
    var earlier, modules := Run(deps, order, n - 1).current, Step(deps, order, n - 1);
    if j < |earlier| {
      assert (earlier + modules)[i] == earlier[i] && (earlier + modules)[j] == earlier[j];
      StartsEmpty(deps, order);
      PairIsSortedByStep(deps, order, n - 1, i, a, j, b);
    } else {
      assert (earlier + modules)[j] == modules[j - |earlier|];
      StepsAscend(deps, order, n - 1, (earlier + modules)[i], a, modules[j - |earlier|], b);
    }
  }

  lemma StepsAscend(deps: Dependencies, order: seq<Module>, n: nat, early: Module, a: nat, late: Module, b: nat)
    requires IsOrderOf(order, deps) && Closed(deps)
    requires early in Run(deps, order, n + 1).current && late in Step(deps, order, n)
    requires LongestChain(deps, early, a) && LongestChain(deps, late, b)
    ensures a <= b
  {
    hide Run, Step;
    LoadedHasLongestChain(deps, order, n, late);
    var chain :| IsChainFrom(deps, early, chain) && |chain| == a + 1;
    LoadedChainsAreShort(deps, order, n + 1, chain);
    var longest :| IsChainFrom(deps, late, longest) && |longest| == n + 1;
  }
}
