/** The three-colour searches of src/frontend/module_manager.cpp. */
module ModuleManagers {
  import opened ImportGraph

  const WHITE := 0
  const GREY := 1
  const BLACK := 2

  type Colours = map<string, int>

  function ColourIn(state: Colours, n: string): int {
    if n in state then state[n] else WHITE
  }

  // What a topological search has gone through.

  /** All dependencies of n are finished, or all before one that reaches a cycle. */
  ghost predicate GoneThrough(g: Graph, state: Colours, n: string, j: nat) {
    && j <= |Deps(g, n)| && (forall k | 0 <= k < j :: ColourIn(state, Deps(g, n)[k]) == BLACK)
    && (j < |Deps(g, n)| ==> ReachesCycle(g, Deps(g, n)[j]))
  }

  ghost predicate Explored(g: Graph, state: Colours, n: string) {
    exists j: nat :: GoneThrough(g, state, n, j)
  }

  ghost predicate Traced(g: Graph, state: Colours, n: string, path: seq<string>) {
    ColourIn(state, n) != WHITE ==> (n in g || ComesUp(g, n)) && (n in path || Explored(g, state, n))
  }

  /** What was visited is loaded or came up, and what is not in progress was gone through. */
  ghost predicate Tracing(g: Graph, state: Colours, path: seq<string>) {
    forall n :: Traced(g, state, n, path)
  }

  /** Finished names stay finished, so what was gone through stays so. */
  lemma ExploredStays(g: Graph, before: Colours, after: Colours, n: string)
    requires Explored(g, before, n) && forall m | ColourIn(before, m) == BLACK :: ColourIn(after, m) == BLACK
    ensures Explored(g, after, n)
  {
    var j: nat :| GoneThrough(g, before, n, j);
    assert GoneThrough(g, after, n, j);
  }

  lemma TracingStarts(g: Graph, before: Colours, name: string, path: seq<string>)
    requires Tracing(g, before, path) && ColourIn(before, name) == WHITE && (name in g || ComesUp(g, name))
    ensures Tracing(g, before[name := GREY], path + [name])
  {
    var after := before[name := GREY];
    forall n ensures Traced(g, after, n, path + [name]) {
      assert Traced(g, before, n, path);
      if n != name && ColourIn(after, n) != WHITE && n !in path { ExploredStays(g, before, after, n); }
    }
  }

  lemma TracingEnds(g: Graph, before: Colours, after: Colours, name: string, path: seq<string>)
    requires Tracing(g, before, path + [name]) && Explored(g, before, name) && ColourIn(before, name) == GREY
    requires after == before || after == before[name := BLACK]
    ensures Tracing(g, after, path)
  {
    forall n ensures Traced(g, after, n, path) {
      assert Traced(g, before, n, path + [name]);
      if ColourIn(after, n) != WHITE && n !in path { ExploredStays(g, before, after, n); }
    }
  }

  /** What one search captures: the colours so far and the names finished so far. */
  class Search {
    const g: Graph
    var state: Colours
    var order: seq<string>

    constructor (g: Graph)
      ensures this.g == g && state == map[] && order == []
    {
      this.g := g;
      state, order := map[], [];
    }

    function Colour(n: string): int
      reads this
    {
      ColourIn(state, n)
    }

    ghost function Unvisited(): set<string>
      reads this
    {
      set n | n in Names(g) && Colour(n) == WHITE
    }

    /** Black names are the finished ones, in dependency order. */
    ghost predicate Finished()
      reads this
    {
      && DependenciesFirst(g, order) && state.Keys <= Names(g)
      && (forall n :: Colour(n) == BLACK <==> n in order)
      && (forall n :: Colour(n) in {WHITE, GREY, BLACK})
    }

    /** path is the chain of calls in progress; every other grey name was left behind by a failed visit. */
    ghost predicate Ordering(path: seq<string>)
      reads this
    {
      && Finished()
      && (path != [] ==> IsWalk(g, path))
      && (forall n | n in path :: Colour(n) == GREY)
      && (forall n | Colour(n) == GREY :: n in path || ReachesCycle(g, n))
    }

    method Finish(name: string)
      requires Finished() && Colour(name) == GREY
      requires forall d | d in Deps(g, name) :: Colour(d) == BLACK
      modifies this
      ensures Finished() && order == old(order) + [name]
      ensures state == old(state)[name := BLACK]
    {
      ExtendOrder(g, order, name);
      state := state[name := BLACK];
      order := order + [name];
    }

    /** The visit of get_topological_order; a failed visit leaves its name grey. */
    method Visit(name: string, ghost path: seq<string>) returns (ok: bool)
      requires Ordering(path) && Tracing(g, state, path) && name in Names(g) && (name in g || ComesUp(g, name))
      requires path != [] ==> name in Deps(g, path[|path| - 1])
      modifies this
      ensures Ordering(path) && Tracing(g, state, path)
      ensures if ok then Colour(name) == BLACK else Colour(name) == GREY && ReachesCycle(g, name)
      ensures forall n | old(Colour(n)) != WHITE :: Colour(n) == old(Colour(n))
      decreases Unvisited(), 0
    {
      if Colour(name) == GREY {
        if name in path { CycleOnPath(g, path, name); }
        return false;
      }
      if Colour(name) == BLACK { return true; }
      assert name in Unvisited() && name !in path;
      TracingStarts(g, state, name, path);
      state := state[name := GREY];
      WalkOn(g, path, name);
      ok := VisitDependencies(name, path + [name]);
      assert Colour(name) == GREY;
      ghost var before := state;
      if ok {
        Finish(name);
      }
      TracingEnds(g, before, state, name, path);
    }

    lemma DependencyComesUp(name: string, i: nat)
      requires Finished() && i < |Deps(g, name)| && forall k | 0 <= k < i :: Colour(Deps(g, name)[k]) == BLACK
      ensures ComesUp(g, Deps(g, name)[i])
    {
      forall k | 0 <= k < i ensures !ReachesCycle(g, Deps(g, name)[k]) {
        OrderedIsAcyclic(g, order, Deps(g, name)[k]);
      }
      assert ComesUpIn(g, name, i, Deps(g, name)[i]);
    }

    method VisitDependencies(name: string, ghost path: seq<string>) returns (ok: bool)
      requires Ordering(path) && Tracing(g, state, path) && path != [] && path[|path| - 1] == name
      modifies this
      ensures Ordering(path) && Tracing(g, state, path)
      ensures if ok then forall d | d in Deps(g, name) :: Colour(d) == BLACK else ReachesCycle(g, name)
      ensures Explored(g, state, name)
      ensures forall n | old(Colour(n)) != WHITE :: Colour(n) == old(Colour(n))
      decreases Unvisited(), 1
    {
      var deps := Deps(g, name);
      for i := 0 to |deps|
        invariant Ordering(path) && Tracing(g, state, path)
        invariant forall k | 0 <= k < i :: Colour(deps[k]) == BLACK
        invariant forall n | old(Colour(n)) != WHITE :: Colour(n) == old(Colour(n))
        invariant Unvisited() <= old(Unvisited())
      {
        DepsAreNames(g, name, deps[i]);
        DependencyComesUp(name, i);
        var done := Visit(deps[i], path);
        if !done {
          CycleThroughDependency(g, name, deps[i]);
          assert GoneThrough(g, state, name, i);
          return false;
        }
      }
      assert GoneThrough(g, state, name, |deps|);
      return true;
    }

    /** When every loaded module was visited, the finished names are those of a topological order. */
    lemma OrderedAreFinished(n: string)
      requires Ordering([]) && Tracing(g, state, []) && forall m | m in g :: Colour(m) != WHITE
      ensures n in order <==> Ordered(g, n)
    {
      assert Traced(g, state, n, []);
      if n in order { OrderedIsAcyclic(g, order, n); }
      if n !in g && ComesUp(g, n) {
        var m, i: nat :| ComesUpIn(g, m, i, n);
        assert Traced(g, state, m, []);
        var j: nat :| GoneThrough(g, state, m, j);
        NotLoadedReachesNothing(g, n);
        assert i < j;
        assert Deps(g, m)[i] == n;
      }
    }

    /** Until a cycle is found, the grey names are exactly the calls in progress. */
    ghost predicate Checking(path: seq<string>)
      reads this
    {
      && Finished()
      && (path != [] ==> IsWalk(g, path))
      && (forall n :: Colour(n) == GREY <==> n in path)
    }

    /** The check of has_circular_dependencies; order is kept here for the proof alone. */
    method Check(name: string, ghost path: seq<string>) returns (cyclic: bool)
      requires Checking(path) && name in Names(g)
      requires path != [] ==> name in Deps(g, path[|path| - 1])
      modifies this
      ensures if cyclic then ReachesCycle(g, name) else Checking(path) && Colour(name) == BLACK
      ensures !cyclic ==> forall n | old(Colour(n)) != WHITE :: Colour(n) == old(Colour(n))
      decreases Unvisited(), 0
    {
      if Colour(name) == GREY {
        CycleOnPath(g, path, name);
        return true;
      }
      if Colour(name) == BLACK { return false; }
      assert name in Unvisited();
      state := state[name := GREY];
      cyclic := CheckDependencies(name, path + [name]);
      if !cyclic {
        Finish(name);
      }
    }

    method CheckDependencies(name: string, ghost path: seq<string>) returns (cyclic: bool)
      requires Checking(path) && path != [] && path[|path| - 1] == name
      modifies this
      ensures if cyclic then ReachesCycle(g, name)
              else Checking(path) && forall d | d in Deps(g, name) :: Colour(d) == BLACK
      ensures !cyclic ==> forall n | old(Colour(n)) != WHITE :: Colour(n) == old(Colour(n))
      decreases Unvisited(), 1
    {
      var deps := Deps(g, name);
      for i := 0 to |deps|
        invariant Checking(path)
        invariant forall k | 0 <= k < i :: Colour(deps[k]) == BLACK
        invariant forall n | old(Colour(n)) != WHITE :: Colour(n) == old(Colour(n))
        invariant Unvisited() <= old(Unvisited())
      {
        DepsAreNames(g, name, deps[i]);
        var found := Check(deps[i], path);
        if found {
          CycleThroughDependency(g, name, deps[i]);
          return true;
        }
      }
      return false;
    }
  }

  class ModuleManager {
    var modules: Graph

    constructor ()
      ensures modules == map[]
    {
      modules := map[];
    }

    /**
     Whatever order the hash map is walked in: a loaded module is emitted exactly when it cannot reach an
     import cycle, a name that was never loaded exactly when some loaded module gets as far as importing it,
     and every emitted name comes once and after all of its dependencies.
     */
    method GetTopologicalOrder() returns (order: seq<string>)
      ensures DependenciesFirst(modules, order)
      ensures forall n :: n in order <==> Ordered(modules, n)
      ensures forall n | n in order :: n in Names(modules) && !ReachesCycle(modules, n)
    {
      var search := new Search(modules);
      var todo := modules.Keys;
      while todo != {}
        invariant search.g == modules && todo <= modules.Keys && fresh(search)
        invariant search.Ordering([]) && Tracing(modules, search.state, [])
        invariant forall m | m in modules && m !in todo :: search.Colour(m) != WHITE
        decreases todo
      {
        var name :| name in todo;
        todo := todo - {name};
        if search.Colour(name) == WHITE {
          var _ := search.Visit(name, []);
        }
      }
      order := search.order;
      forall n | n in order ensures n in Names(modules) && !ReachesCycle(modules, n) {
        assert search.Colour(n) == BLACK;
        OrderedIsAcyclic(modules, order, n);
      }
      forall n ensures n in order <==> Ordered(modules, n) {
        search.OrderedAreFinished(n);
      }
    }

    /** True exactly when some loaded module can reach an import cycle. */
    method HasCircularDependencies() returns (cyclic: bool)
      ensures cyclic <==> exists m | m in modules :: ReachesCycle(modules, m)
    {
      var search := new Search(modules);
      var todo := modules.Keys;
      while todo != {}
        invariant search.g == modules && todo <= modules.Keys && fresh(search)
        invariant search.Checking([])
        invariant forall m | m in modules && m !in todo :: search.Colour(m) == BLACK
        decreases todo
      {
        var name :| name in todo;
        todo := todo - {name};
        if search.Colour(name) == WHITE {
          var found := search.Check(name, []);
          if found { return true; }
        }
      }
      forall m | m in modules ensures !ReachesCycle(modules, m) {
        OrderedIsAcyclic(modules, search.order, m);
      }
      return false;
    }

    /**
     Loads every module that imports lead to from the roots. files holds the modules whose source
     can be opened and parsed. A module already loaded is not looked into again.
     */
    method ResolveAll(roots: seq<string>, files: Graph)
      modifies this
      ensures forall n :: n in modules <==>
                n in old(modules) || (n in files && Discovered(files, old(modules).Keys, roots, n))
      ensures forall n | n in modules :: modules[n] == if n in old(modules) then old(modules)[n] else files[n]
    {
      ghost var loaded := modules.Keys;
      var worklist := roots;
      var processing: set<string> := {};
      ExploringStarts(files, loaded, roots);
      while worklist != []
        invariant modules == LoadInto(old(modules), files, processing)
        invariant Exploring(files, loaded, roots, processing, worklist)
        decreases AllNames(files, roots) - processing, |worklist|
      {
        ghost var before, list := processing, worklist;
        var futures;
        futures, processing := StartLoads(worklist, processing);
        if futures == [] {
          assert processing == before;
        } else {
          assert futures[0] in AllNames(files, roots) - before && futures[0] in processing;
        }
        worklist := FinishLoads(futures, files);
        LoadTwice(old(modules), files, before, set p | p in futures);
        ExploringStep(files, loaded, roots, before, list, futures, worklist);
      }
      ExploringEnds(files, loaded, roots, processing);
    }

    /** Picks the paths of one round that are neither loaded nor being processed. */
    method StartLoads(worklist: seq<string>, processing: set<string>)
      returns (futures: seq<string>, processing': set<string>)
      ensures processing' == processing + set p | p in futures
      ensures forall p | p in futures :: p in worklist && p !in modules && p !in processing
      ensures forall i, j | 0 <= i < j < |futures| :: futures[i] != futures[j]
      ensures forall p | p in worklist :: p in modules || p in processing'
    {
      futures, processing' := [], processing;
      for i := 0 to |worklist|
        invariant processing' == processing + set p | p in futures
        invariant forall p | p in futures :: p in worklist && p !in modules && p !in processing
        invariant forall i, j | 0 <= i < j < |futures| :: futures[i] != futures[j]
        invariant forall k | 0 <= k < i :: worklist[k] in modules || worklist[k] in processing'
      {
        if worklist[i] !in modules && worklist[i] !in processing' {
          processing' := processing' + {worklist[i]};
          futures := futures + [worklist[i]];
        }
      }
    }

    /** Loads one module unless it is there already; the imports it has, none if it cannot be loaded. */
    method LoadModule(path: string, files: Graph) returns (deps: seq<string>)
      modifies this
      ensures if path in old(modules) then modules == old(modules) && deps == old(modules)[path]
              else modules == LoadInto(old(modules), files, {path}) && deps == Deps(files, path)
    {
      if path in modules { return modules[path]; }
      deps := [];
      if path in files {
        modules := modules[path := files[path]];
        deps := files[path];
      }
    }

    /** Waits for the loads of one round and collects the imports of the modules that have a file. */
    method FinishLoads(futures: seq<string>, files: Graph) returns (next: seq<string>)
      requires forall i | 0 <= i < |futures| :: futures[i] !in modules
      requires forall i, j | 0 <= i < j < |futures| :: futures[i] != futures[j]
      modifies this
      ensures modules == LoadInto(old(modules), files, set p | p in futures)
      ensures forall d :: d in next <==> exists n | n in futures :: d in Deps(files, n)
      ensures futures == [] ==> next == []
    {
      next := [];
      ghost var done: set<string> := {};
      for i := 0 to |futures|
        invariant done == set k | 0 <= k < i :: futures[k]
        invariant forall k | i <= k < |futures| :: futures[k] !in modules
        invariant modules == LoadInto(old(modules), files, done)
        invariant forall d :: d in next <==> exists k | 0 <= k < i :: d in Deps(files, futures[k])
        invariant futures == [] ==> next == []
      {
        LoadTwice(old(modules), files, done, {futures[i]});
        done := done + {futures[i]};
        var deps := LoadModule(futures[i], files);
        next := next + deps;
      }
      assert done == set p | p in futures;
    }
  }
}
