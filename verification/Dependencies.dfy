/** scripts/update-dockerfile.ts: the walk over the dependency graph that finds the modules to ship. */
module Dependencies {
  import opened Wrappers

  datatype ManagedModule = ManagedModule(name: string, location: string, version: string, isPrivate: bool)

  type Graph = map<string, seq<string>>

  /** `managedModules.find((mod) => mod.name === name)` */
  function Find(modules: seq<ManagedModule>, name: string): (r: Option<ManagedModule>)
    ensures r.Some? ==> r.value in modules && r.value.name == name
    ensures r.None? ==> forall m :: m in modules ==> m.name != name
  {
    if modules == [] then None
    else if modules[0].name == name then Some(modules[0])
    else Find(modules[1..], name)
  }

  /** bitgo is private but still shipped. */
  predicate Shipped(m: ManagedModule) {
    !m.isPrivate || m.name == "bitgo"
  }

  /** m is the module found under one of the names that the package depends on and the graph has. */
  predicate Edge(graph: Graph, modules: seq<ManagedModule>, package: string, m: ManagedModule) {
    && package in graph
    && m.name in graph[package]
    && m.name in graph
    && Find(modules, m.name) == Some(m)
    && Shipped(m)
  }

  /** The names of a path from a package: each step follows an edge to a shipped module. */
  predicate IsPath(graph: Graph, modules: seq<ManagedModule>, from: string, path: seq<ManagedModule>)
    decreases |path|
  {
    path != [] && Edge(graph, modules, from, path[0])
    && (|path| == 1 || IsPath(graph, modules, path[0].name, path[1..]))
  }

  /** m is reached from the package by one or more edges. */
  ghost predicate Reachable(graph: Graph, modules: seq<ManagedModule>, from: string, m: ManagedModule) {
    exists path :: IsPath(graph, modules, from, path) && path[|path| - 1] == m
  }

  /** All shipped modules one edge away from the package are in s. */
  predicate Closed(graph: Graph, modules: seq<ManagedModule>, package: string, s: set<ManagedModule>) {
    forall m :: m in modules && Edge(graph, modules, package, m) ==> m in s
  }

  /** The shared mutable set, as a JavaScript Set keeps it: elements once, in order of insertion. */
  class DependencySet {
    var elements: seq<ManagedModule>

    constructor ()
      ensures elements == []
    {
      elements := [];
    }

    ghost predicate Valid()
      reads this
    {
      forall i, j :: 0 <= i < j < |elements| ==> elements[i] != elements[j]
    }

    ghost function Contents(): set<ManagedModule>
      reads this
    {
      set m | m in elements
    }

    method Add(m: ManagedModule)
      requires Valid() && m !in elements
      modifies this
      ensures Valid() && elements == old(elements) + [m]
    {
      elements := elements + [m];
    }
  }

  function Managed(modules: seq<ManagedModule>): set<ManagedModule> {
    set m | m in modules
  }

  /** Appending to a path. */
  lemma {:induction false} PathExtends(graph: Graph, modules: seq<ManagedModule>, from: string,
                                       path: seq<ManagedModule>, m: ManagedModule)
    requires IsPath(graph, modules, from, path) && Edge(graph, modules, path[|path| - 1].name, m)
    ensures IsPath(graph, modules, from, path + [m])
    decreases |path|
  {
    var longer := path + [m];
    assert longer[0] == path[0];
    if |path| == 1 {
      assert longer[1..] == [m];
    } else {
      PathExtends(graph, modules, path[0].name, path[1..], m);
      assert longer[1..] == path[1..] + [m];
    }
  }

  lemma OneEdge(graph: Graph, modules: seq<ManagedModule>, from: string, m: ManagedModule)
    requires Edge(graph, modules, from, m)
    ensures Reachable(graph, modules, from, m)
  {
    assert IsPath(graph, modules, from, [m]) && [m][|[m]| - 1] == m;
  }

  lemma EdgeThenReach(graph: Graph, modules: seq<ManagedModule>, from: string, m: ManagedModule, n: ManagedModule)
    requires Edge(graph, modules, from, m) && Reachable(graph, modules, m.name, n)
    ensures Reachable(graph, modules, from, n)
  {
    var path :| IsPath(graph, modules, m.name, path) && path[|path| - 1] == n;
    var longer := [m] + path;
    assert longer[1..] == path;
    assert IsPath(graph, modules, from, longer) && longer[|longer| - 1] == n;
  }

  /** A set closed at the root and at all its members holds everything reachable from the root. */
  lemma {:induction false} ClosedHoldsPath(graph: Graph, modules: seq<ManagedModule>, from: string,
                                           path: seq<ManagedModule>, s: set<ManagedModule>)
    requires IsPath(graph, modules, from, path)
    requires Closed(graph, modules, from, s)
    requires forall m :: m in s ==> Closed(graph, modules, m.name, s)
    ensures path[|path| - 1] in s
    decreases |path|
  {
    assert path[0] in modules && path[0] in s;
    if |path| > 1 {
      ClosedHoldsPath(graph, modules, path[0].name, path[1..], s);
    }
  }

  /** From s0 to s only modules reachable from the package were added, and s is closed at each. */
  ghost predicate Explored(graph: Graph, modules: seq<ManagedModule>, package: string,
                           s0: set<ManagedModule>, s: set<ManagedModule>)
  {
    && s0 <= s <= Managed(modules)
    && forall m :: m in s - s0 ==> Reachable(graph, modules, package, m) && Closed(graph, modules, m.name, s)
  }

  /** Following one more edge: m was added to s1 and then explored, giving s2. */
  lemma ExploreEdge(graph: Graph, modules: seq<ManagedModule>, package: string, m: ManagedModule,
                    s0: set<ManagedModule>, s1: set<ManagedModule>, s2: set<ManagedModule>)
    requires Explored(graph, modules, package, s0, s1) && Edge(graph, modules, package, m)
    requires Explored(graph, modules, m.name, s1 + {m}, s2) && Closed(graph, modules, m.name, s2)
    ensures Explored(graph, modules, package, s0, s2)
  {
    hide Reachable;
    forall n | n in s2 - s0
      ensures Reachable(graph, modules, package, n) && Closed(graph, modules, n.name, s2)
    {
      if n in s1 {
      } else if n == m {
        OneEdge(graph, modules, package, m);
      } else {
        EdgeThenReach(graph, modules, package, m, n);
      }
    }
  }

  /** `walkDependencies(packageName, setDeps, graph, managedModules)`.  What it adds is reachable from
      the package; afterwards the set is closed at the package and at everything added.  It ends on
      every graph, cyclic or not: each call deeper has added a managed module that was missing. */
  method Walk(package: string, deps: DependencySet, graph: Graph, modules: seq<ManagedModule>)
    requires deps.Valid() && deps.Contents() <= Managed(modules)
    requires package in graph
    modifies deps
    ensures deps.Valid() && old(deps.elements) <= deps.elements
    ensures Explored(graph, modules, package, old(deps.Contents()), deps.Contents())
    ensures Closed(graph, modules, package, deps.Contents())
    decreases Managed(modules) - deps.Contents()
  {
    hide Explored, Closed, Edge;
    var names := graph[package];
    ghost var s0 := deps.Contents();
    ExploredNothing(graph, modules, package, s0);
    for i := 0 to |names|
      invariant deps.Valid() && old(deps.elements) <= deps.elements
      invariant Explored(graph, modules, package, s0, deps.Contents())
      invariant s0 <= deps.Contents() <= Managed(modules)
      invariant forall m :: m in names[..i] ==> NameDone(graph, modules, m, deps.Contents())
    {
      assert names[..i + 1] == names[..i] + [names[i]];
      if names[i] in graph {
        var found := Find(modules, names[i]);
        if found.Some? && Shipped(found.value) && found.value !in deps.elements {
          var m := found.value;
          ghost var s1 := deps.Contents();
          EdgeFound(graph, modules, package, m);
          deps.Add(m);
          assert deps.Contents() == s1 + {m};
          assert m in Managed(modules) - s1;
          Walk(m.name, deps, graph, modules);
          ExploreEdge(graph, modules, package, m, s0, s1, deps.Contents());
          ExploredGrows(graph, modules, m.name, s1 + {m}, deps.Contents());
        }
      }
    }
    AllNamesDone(graph, modules, package, deps.Contents());
  }

  /** The module behind a dependency name is in s if it is to be shipped. */
  predicate NameDone(graph: Graph, modules: seq<ManagedModule>, name: string, s: set<ManagedModule>) {
    var found := Find(modules, name);
    name in graph && found.Some? && Shipped(found.value) ==> found.value in s
  }

  lemma AllNamesDone(graph: Graph, modules: seq<ManagedModule>, package: string, s: set<ManagedModule>)
    requires package in graph && forall name :: name in graph[package] ==> NameDone(graph, modules, name, s)
    ensures Closed(graph, modules, package, s)
  {
    forall m | m in modules && Edge(graph, modules, package, m)
      ensures m in s
    {
      assert NameDone(graph, modules, m.name, s);
    }
  }

  lemma ExploredNothing(graph: Graph, modules: seq<ManagedModule>, package: string, s: set<ManagedModule>)
    requires s <= Managed(modules)
    ensures Explored(graph, modules, package, s, s)
  {
  }

  lemma ExploredGrows(graph: Graph, modules: seq<ManagedModule>, package: string,
                      s0: set<ManagedModule>, s: set<ManagedModule>)
    requires Explored(graph, modules, package, s0, s)
    ensures s0 <= s <= Managed(modules)
  {
  }

  lemma EdgeFound(graph: Graph, modules: seq<ManagedModule>, package: string, m: ManagedModule)
    requires package in graph && m.name in graph[package] && m.name in graph
    requires Find(modules, m.name) == Some(m) && Shipped(m)
    ensures Edge(graph, modules, package, m)
  {
  }

  /** What a path ends at. */
  lemma {:induction false} PathEnds(graph: Graph, modules: seq<ManagedModule>, from: string, path: seq<ManagedModule>)
    requires IsPath(graph, modules, from, path)
    ensures var m := path[|path| - 1]; m in modules && (!m.isPrivate || m.name == "bitgo")
    decreases |path|
  {
    if |path| > 1 {
      PathEnds(graph, modules, path[0].name, path[1..]);
    }
  }

  /** The first module of a name is found. */
  lemma {:induction false} FindFirst(modules: seq<ManagedModule>, name: string, i: nat)
    requires i < |modules| && modules[i].name == name
    requires forall k :: 0 <= k < i ==> modules[k].name != name
    ensures Find(modules, name) == Some(modules[i])
  {
    if i > 0 {
      FindFirst(modules[1..], name, i - 1);
    }
  }

  lemma EdgeTo(graph: Graph, modules: seq<ManagedModule>, package: string, i: nat)
    requires i < |modules| && package in graph && modules[i].name in graph[package] && modules[i].name in graph
    requires forall k :: 0 <= k < i ==> modules[k].name != modules[i].name
    requires !modules[i].isPrivate || modules[i].name == "bitgo"
    ensures Edge(graph, modules, package, modules[i])
  {
    FindFirst(modules, modules[i].name, i);
  }

  /** Called with an empty set, as `updateDockerFile` does, the walk leaves exactly the modules
      reachable from the root, each once: only modules that are public or called bitgo, and every such
      module that is the first of a name the root or one of them depends on, if the graph has that name.
      It fails if the graph does not have the root. */
  method WalkFromRoot(root: string, graph: Graph, modules: seq<ManagedModule>) returns (r: Option<DependencySet>)
    ensures r.None? <==> root !in graph
    ensures r.Some? ==> fresh(r.value) && r.value.Valid()
    ensures r.Some? ==> forall m :: m in r.value.elements <==> Reachable(graph, modules, root, m)
    ensures r.Some? ==> forall m :: m in r.value.elements ==> m in modules && (!m.isPrivate || m.name == "bitgo")
    ensures r.Some? ==> forall package: string, name: string, i: nat ::
      (package == root || exists m :: m in r.value.elements && m.name == package)
      && package in graph && name in graph[package] && name in graph
      && i < |modules| && modules[i].name == name && (forall k :: 0 <= k < i ==> modules[k].name != name)
      && (!modules[i].isPrivate || name == "bitgo")
      ==> modules[i] in r.value.elements
  {
    if root !in graph {
      return None;
    }
    var deps := new DependencySet();
    assert deps.Contents() == {};
    Walk(root, deps, graph, modules);
    ghost var s := deps.Contents();
    forall m | Reachable(graph, modules, root, m)
      ensures m in s
    {
      var path :| IsPath(graph, modules, root, path) && path[|path| - 1] == m;
      ClosedHoldsPath(graph, modules, root, path, s);
    }
    forall m | Reachable(graph, modules, root, m)
      ensures m in modules && (!m.isPrivate || m.name == "bitgo")
    {
      var path :| IsPath(graph, modules, root, path) && path[|path| - 1] == m;
      PathEnds(graph, modules, root, path);
    }
    forall package: string, name: string, i: nat |
      (package == root || exists m :: m in deps.elements && m.name == package)
      && package in graph && name in graph[package] && name in graph
      && i < |modules| && modules[i].name == name && (forall k :: 0 <= k < i ==> modules[k].name != name)
      && (!modules[i].isPrivate || name == "bitgo")
      ensures modules[i] in deps.elements
    {
      EdgeTo(graph, modules, package, i);
      assert Closed(graph, modules, package, s);
    }
    return Some(deps);
  }
}
