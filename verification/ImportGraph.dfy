/** The import graph of loaded modules: walks, cycles, and orders that put dependencies first. */
module ImportGraph {

  /** Loaded modules and the names they import; a name outside the map was never loaded. */
  type Graph = map<string, seq<string>>

  function Deps(g: Graph, n: string): seq<string> {
    if n in g then g[n] else []
  }

  /** Every name the graph mentions. */
  function Names(g: Graph): set<string> {
    g.Keys + set n, d | n in g && d in g[n] :: d
  }

  lemma DepsAreNames(g: Graph, n: string, d: string)
    requires d in Deps(g, n)
    ensures d in Names(g)
  {
    assert n in g && d in g[n];
  }

  ghost predicate IsWalk(g: Graph, w: seq<string>) {
    |w| > 0 && forall k | 0 <= k < |w| - 1 :: w[k + 1] in Deps(g, w[k])
  }

  lemma WalkOn(g: Graph, w: seq<string>, n: string)
    requires w != [] ==> IsWalk(g, w) && n in Deps(g, w[|w| - 1])
    ensures IsWalk(g, w + [n])
  {
  }

  ghost predicate Repeats(w: seq<string>) {
    exists i, j | 0 <= i < j < |w| :: w[i] == w[j]
  }

  ghost predicate CyclicWalk(g: Graph, w: seq<string>, n: string) {
    IsWalk(g, w) && w[0] == n && Repeats(w)
  }

  /** Following imports from n can come back to a name already passed. */
  ghost predicate ReachesCycle(g: Graph, n: string) {
    exists w :: CyclicWalk(g, w, n)
  }

  lemma CycleThroughDependency(g: Graph, n: string, d: string)
    requires d in Deps(g, n) && ReachesCycle(g, d)
    ensures ReachesCycle(g, n)
  {
    var w :| CyclicWalk(g, w, d);
    var i, j :| 0 <= i < j < |w| && w[i] == w[j];
    var v := [n] + w;
    assert v[i + 1] == v[j + 1];
    assert CyclicWalk(g, v, n);
  }

  /** m imports n, and nothing it imports before n reaches a cycle. */
  ghost predicate ComesUpIn(g: Graph, m: string, i: nat, n: string) {
    m in g && i < |g[m]| && g[m][i] == n && forall k | 0 <= k < i :: !ReachesCycle(g, g[m][k])
  }

  /** Some loaded module gets as far as n when it goes through its imports. */
  ghost predicate ComesUp(g: Graph, n: string) {
    exists m, i: nat :: ComesUpIn(g, m, i, n)
  }

  /** The names a topological order has: loaded ones without cycles, and those of other modules that come up. */
  ghost predicate Ordered(g: Graph, n: string) {
    if n in g then !ReachesCycle(g, n) else ComesUp(g, n)
  }

  lemma NotLoadedReachesNothing(g: Graph, n: string)
    requires n !in g
    ensures !ReachesCycle(g, n)
  {
    forall w | CyclicWalk(g, w, n) ensures false {
      FirstStep(g, w);
    }
  }

  lemma FirstStep(g: Graph, w: seq<string>)
    requires IsWalk(g, w) && |w| > 1
    ensures w[1] in Deps(g, w[0])
  {
    assert w[0 + 1] in Deps(g, w[0]);
  }

  /** A dependency that lies on the path leading to it closes a cycle. */
  lemma CycleOnPath(g: Graph, path: seq<string>, n: string)
    requires IsWalk(g, path) && n in path && n in Deps(g, path[|path| - 1])
    ensures ReachesCycle(g, n)
  {
    var i :| 0 <= i < |path| && path[i] == n;
    var v := path[i..] + [n];
    assert v[0] == v[|v| - 1];
    assert CyclicWalk(g, v, n);
  }

  /** No name twice, and every name after all of its dependencies. */
  ghost predicate DependenciesFirst(g: Graph, order: seq<string>) {
    && (forall i, j | 0 <= i < j < |order| :: order[i] != order[j])
    && (forall i, d | 0 <= i < |order| && d in Deps(g, order[i]) :: d in order[..i])
  }

  lemma ExtendOrder(g: Graph, order: seq<string>, n: string)
    requires DependenciesFirst(g, order) && n !in order
    requires forall d | d in Deps(g, n) :: d in order
    ensures DependenciesFirst(g, order + [n])
  {
    var longer := order + [n];
    forall i, d | 0 <= i < |longer| && d in Deps(g, longer[i]) ensures d in longer[..i] {
      if i < |order| {
        assert longer[..i] == order[..i];
      } else {
        assert longer[..i] == order;
      }
    }
  }

  /** Along a walk that starts inside such an order, the positions strictly fall. */
  lemma {:induction false} WalkDescends(g: Graph, order: seq<string>, w: seq<string>, i: nat, j: nat) returns (p: nat, q: nat)
    requires DependenciesFirst(g, order) && IsWalk(g, w) && w[0] in order && i < j < |w|
    ensures p < |order| && q < p && order[p] == w[i] && order[q] == w[j]
    decreases j
  {
    if i == 0 && j == 1 {
      p :| 0 <= p < |order| && order[p] == w[0];
      assert w[1] in order[..p];
      q :| 0 <= q < p && order[q] == w[1];
    } else {
      var m;
      if i < j - 1 {
        p, m := WalkDescends(g, order, w, i, j - 1);
      } else {
        m, p := WalkDescends(g, order, w, 0, i);
        m := p;
      }
      assert w[j] in Deps(g, w[j - 1]) && w[j] in order[..m];
      q :| 0 <= q < m && order[q] == w[j];
    }
  }

  /** Nothing in such an order can reach a cycle. */
  lemma OrderedIsAcyclic(g: Graph, order: seq<string>, n: string)
    requires DependenciesFirst(g, order) && n in order
    ensures !ReachesCycle(g, n)
  {
    forall w | CyclicWalk(g, w, n) ensures false {
      var i, j :| 0 <= i < j < |w| && w[i] == w[j];
      var p, q := WalkDescends(g, order, w, i, j);
    }
  }

  // ---------- Discovery of modules ----------

  ghost predicate DiscoveryWalk(files: Graph, loaded: set<string>, roots: seq<string>, w: seq<string>, n: string) {
    && IsWalk(files, w) && w[0] in roots && w[|w| - 1] == n
    && forall k | 0 <= k < |w| :: w[k] !in loaded
  }

  /** Imports lead from a root to n without passing a module that was loaded before. */
  ghost predicate Discovered(files: Graph, loaded: set<string>, roots: seq<string>, n: string) {
    exists w :: DiscoveryWalk(files, loaded, roots, w, n)
  }

  lemma RootDiscovered(files: Graph, loaded: set<string>, roots: seq<string>, n: string)
    requires n in roots && n !in loaded
    ensures Discovered(files, loaded, roots, n)
  {
    assert DiscoveryWalk(files, loaded, roots, [n], n);
  }

  lemma DependencyDiscovered(files: Graph, loaded: set<string>, roots: seq<string>, n: string, d: string)
    requires Discovered(files, loaded, roots, n) && d in Deps(files, n) && d !in loaded
    ensures Discovered(files, loaded, roots, d)
  {
    var w :| DiscoveryWalk(files, loaded, roots, w, n);
    assert DiscoveryWalk(files, loaded, roots, w + [d], d);
  }

  /** A set that holds the new roots and the new dependencies of its members holds everything discovered. */
  lemma {:induction false} DiscoveryClosed(files: Graph, loaded: set<string>, roots: seq<string>, s: set<string>, w: seq<string>)
    requires w != [] && DiscoveryWalk(files, loaded, roots, w, w[|w| - 1])
    requires forall r | r in roots :: r in s || r in loaded
    requires forall n, d | n in s && d in Deps(files, n) :: d in s || d in loaded
    ensures w[|w| - 1] in s
  {
    if |w| > 1 {
      var v := w[..|w| - 1];
      assert IsWalk(files, v) by {
        forall k | 0 <= k < |v| - 1 ensures v[k + 1] in Deps(files, v[k]) { assert w[k + 1] in Deps(files, w[k]); }
      }
      DiscoveryClosed(files, loaded, roots, s, v);
      assert w[|w| - 2 + 1] in Deps(files, w[|w| - 2]);
    }
  }

  /** The graph once those of the names that have a file are loaded into it. */
  function LoadInto(g: Graph, files: Graph, names: set<string>): Graph {
    g + map n | n in files && n in names :: files[n]
  }

  lemma LoadTwice(g: Graph, files: Graph, names: set<string>, more: set<string>)
    ensures LoadInto(LoadInto(g, files, names), files, more) == LoadInto(g, files, names + more)
  {
  }

  function AllNames(files: Graph, roots: seq<string>): set<string> {
    Names(files) + set r | r in roots
  }

  /** Between rounds: everything in hand was discovered, and everything discovered so far leads on only to the worklist. */
  ghost predicate Exploring(files: Graph, loaded: set<string>, roots: seq<string>, processing: set<string>, worklist: seq<string>) {
    && processing <= AllNames(files, roots) && processing !! loaded
    && (forall n | n in processing :: Discovered(files, loaded, roots, n))
    && (forall n | n in worklist :: n in AllNames(files, roots) && (n in loaded || Discovered(files, loaded, roots, n)))
    && (forall r | r in roots :: r in processing || r in loaded || r in worklist)
    && (forall n, d | n in processing && d in Deps(files, n) :: d in processing || d in loaded || d in worklist)
  }

  lemma ExploringStarts(files: Graph, loaded: set<string>, roots: seq<string>)
    ensures Exploring(files, loaded, roots, {}, roots)
  {
    forall r | r in roots && r !in loaded ensures Discovered(files, loaded, roots, r) {
      RootDiscovered(files, loaded, roots, r);
    }
  }

  lemma ExploringStep(files: Graph, loaded: set<string>, roots: seq<string>, processing: set<string>,
                      worklist: seq<string>, futures: seq<string>, next: seq<string>)
    requires Exploring(files, loaded, roots, processing, worklist)
    requires forall p | p in futures :: p in worklist && p !in loaded
    requires forall p | p in worklist :: p in loaded || p in processing || p in futures
    requires forall d :: d in next <==> exists n | n in futures :: d in Deps(files, n)
    ensures Exploring(files, loaded, roots, processing + (set p | p in futures), next)
  {
    forall d | d in next ensures d in AllNames(files, roots) && (d in loaded || Discovered(files, loaded, roots, d)) {
      var n :| n in futures && d in Deps(files, n);
      DepsAreNames(files, n, d);
      if d !in loaded { DependencyDiscovered(files, loaded, roots, n, d); }
    }
  }

  lemma ExploringEnds(files: Graph, loaded: set<string>, roots: seq<string>, processing: set<string>)
    requires Exploring(files, loaded, roots, processing, [])
    ensures forall n :: n in processing <==> Discovered(files, loaded, roots, n)
  {
    forall n | Discovered(files, loaded, roots, n) ensures n in processing {
      var w :| DiscoveryWalk(files, loaded, roots, w, n);
      DiscoveryClosed(files, loaded, roots, processing, w);
    }
  }
}
