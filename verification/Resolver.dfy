/** The cycle breaker and the graph builder of extension/registry/registry.go. */
module Resolver {
  import opened Common
  import opened CycleDetection
  import opened DependencyGraph
  import opened Sorting

  /** A registered extension: its name, its dependencies and its weak dependencies. */
  datatype Entry = Entry(name: string, dependencies: seq<string>, weak: seq<string>)

  type Registry = map<string, Entry>

  // ----- What the resolver computes, in closed form -----

  /** The extensions that list themselves among their own weak dependencies. */
  ghost function SelfWeak(registry: Registry): set<string> {
    set k | k in registry && registry[k].name in registry[k].weak :: registry[k].name
  }

  ghost function DropEverywhere(g: Graph, names: set<string>): Graph {
    map n | n in g :: Drop(g[n], names)
  }

  /** The nodes by ascending number of dependencies. */
  ghost predicate IsSizeOrder(g: Graph, order: seq<string>) {
    && multiset(order) == multiset(g.Keys)
    && forall i, j :: 0 <= i < j < |order| && order[i] in g && order[j] in g ==> |g[order[i]]| <= |g[order[j]]|
  }

  ghost predicate Precedes(order: seq<string>, a: string, b: string) {
    exists i, j :: 0 <= i < j < |order| && order[i] == a && order[j] == b
  }

  /** An edge from `n` to `d` goes: it can be taken back, and `d` comes first. */
  ghost predicate Loses(g: Graph, order: seq<string>, n: string, d: string) {
    Edge(g, d, n) && Precedes(order, d, n)
  }

  ghost function Losing(g: Graph, order: seq<string>, n: string): set<string> {
    set d | d in Deps(g, n) && Loses(g, order, n, d)
  }

  ghost function BreakMutual(g: Graph, order: seq<string>): Graph {
    map n | n in g :: Drop(g[n], Losing(g, order, n))
  }

  /** The outcome of resolveDependencyGraph for some order of equally sized nodes. */
  ghost predicate IsResolved(registry: Registry, g: Graph, order: seq<string>, resolved: Graph) {
    var weakened := DropEverywhere(g, SelfWeak(registry));
    if !HasCycle(g) then resolved == g
    else if !HasCycle(weakened) then resolved == weakened
    else IsSizeOrder(g, order) && resolved == BreakMutual(weakened, order)
  }

  // ----- Consequences -----

  /** Of two distinct nodes that depend on each other exactly one loses its edge. */
  lemma OneLoses(g: Graph, order: seq<string>, a: string, b: string)
    requires multiset(order) == multiset(g.Keys)
    requires Edge(g, a, b) && Edge(g, b, a) && a != b
    ensures Loses(g, order, a, b) <==> !Loses(g, order, b, a)
  {
    SetListing(order, g.Keys);
    assert a in order && b in order;
    var i :| 0 <= i < |order| && order[i] == a;
    var j :| 0 <= j < |order| && order[j] == b;
    if i < j {
      assert Loses(g, order, b, a);
    } else {
      assert Loses(g, order, a, b);
    }
  }

  lemma KeptEdge(g: Graph, order: seq<string>, a: string, b: string)
    ensures Edge(BreakMutual(g, order), a, b) <==> Edge(g, a, b) && !Loses(g, order, a, b)
  {
  }

  ghost predicate HasResolvedShape(g: Graph, resolved: Graph) {
    && resolved.Keys == g.Keys
    && (forall n :: n in g ==> Subsequence(resolved[n], g[n]))
    && (forall a, b :: a != b && Edge(resolved, a, b) ==> !Edge(resolved, b, a))
  }

  /**
   * The resolver keeps the node set, only ever deletes from the dependency lists, leaves
   * acyclic graphs alone and leaves no two distinct nodes depending on each other.
   */
  lemma ResolvedShape(registry: Registry, g: Graph, order: seq<string>, resolved: Graph)
    requires IsResolved(registry, g, order, resolved)
    ensures HasResolvedShape(g, resolved)
  {
    forall n | n in g ensures Subsequence(resolved[n], g[n]) {
      ResolvedIsSubsequence(registry, g, order, resolved, n);
    }
    forall a, b | a != b && Edge(resolved, a, b) ensures !Edge(resolved, b, a) {
      if Edge(resolved, b, a) {
        ResolvedIsNotMutual(registry, g, order, resolved, a, b);
      }
    }
  }

  lemma ResolvedIsSubsequence(registry: Registry, g: Graph, order: seq<string>, resolved: Graph, n: string)
    requires IsResolved(registry, g, order, resolved) && n in g
    ensures n in resolved && Subsequence(resolved[n], g[n])
  {
    var names := SelfWeak(registry);
    var weakened := DropEverywhere(g, names);
    if resolved == g {
      DropAbsent(g[n], {});
      DropIsSubsequence(g[n], {});
    } else if !HasCycle(weakened) {
      DropIsSubsequence(g[n], names);
    } else {
      DropTwice(g[n], names, Losing(weakened, order, n));
      DropIsSubsequence(g[n], names + Losing(weakened, order, n));
    }
  }

  lemma ResolvedIsNotMutual(registry: Registry, g: Graph, order: seq<string>, resolved: Graph, a: string, b: string)
    requires IsResolved(registry, g, order, resolved)
    requires a != b && Edge(resolved, a, b)
    ensures !Edge(resolved, b, a)
  {
    var weakened := DropEverywhere(g, SelfWeak(registry));
    if Edge(resolved, b, a) {
      if HasCycle(weakened) && HasCycle(g) {
        KeptEdge(weakened, order, a, b);
        KeptEdge(weakened, order, b, a);
        assert weakened.Keys == g.Keys;
        OneLoses(weakened, order, a, b);
      } else {
        assert IsCycle(resolved, [a, b, a]);
      }
    }
  }

  /**
   * An edge is only removed for a reason: its target declares itself weak, or its ends
   * depend on each other and it starts at the end with at least as many dependencies.
   */
  lemma RemovedEdge(registry: Registry, g: Graph, order: seq<string>, resolved: Graph, n: string, d: string)
    requires IsResolved(registry, g, order, resolved)
    requires Edge(g, n, d) && !Edge(resolved, n, d)
    ensures HasCycle(g)
    ensures d in SelfWeak(registry) || (n != d && Edge(g, d, n) && |g[d]| <= |g[n]|)
  {
    var weakened := DropEverywhere(g, SelfWeak(registry));
    if d !in SelfWeak(registry) {
      assert Edge(weakened, n, d);
      assert Loses(weakened, order, n, d);
      assert d in weakened && n in weakened;
      SetListing(order, g.Keys);
    }
  }

  /** The node at `i` and the two behind it are different. */
  ghost predicate ThreeDiffer(p: seq<string>, i: nat) {
    i + 2 < |p| ==> p[i] != p[i + 1] && p[i + 1] != p[i + 2] && p[i] != p[i + 2]
  }

  /** Whatever cycle is left over has different nodes in every three in a row, or a self loop. */
  lemma SurvivingCycle(registry: Registry, g: Graph, order: seq<string>, resolved: Graph, p: seq<string>)
    requires IsResolved(registry, g, order, resolved)
    requires IsCycle(resolved, p)
    ensures (exists a :: a in p && Edge(resolved, a, a)) || (|p| > 3 && forall i: nat :: ThreeDiffer(p, i))
  {
    ResolvedShape(registry, g, order, resolved);
    if forall a :: a in p ==> !Edge(resolved, a, a) {
      forall i: nat ensures ThreeDiffer(p, i) {
        ThreeDifferAt(resolved, p, i);
      }
      assert Edge(resolved, p[0], p[1]) && p[0] in p;
      assert ThreeDiffer(p, 0);
    }
  }

  lemma ThreeDifferAt(resolved: Graph, p: seq<string>, i: nat)
    requires IsPath(resolved, p) && forall a :: a in p ==> !Edge(resolved, a, a)
    requires forall a, b :: a != b && Edge(resolved, a, b) ==> !Edge(resolved, b, a)
    ensures ThreeDiffer(p, i)
  {
    if i + 2 < |p| {
      assert Edge(resolved, p[i + 1 - 1], p[i + 1]) && Edge(resolved, p[i + 2 - 1], p[i + 2]);
      assert p[i] in p && p[i + 1] in p;
    }
  }

  /** No node of the walk declares itself weak. */
  ghost predicate NoneWeak(registry: Registry, p: seq<string>) {
    forall x :: x in p ==> x !in SelfWeak(registry)
  }

  /** The walk has no step that loses. */
  ghost predicate Uncut(g: Graph, order: seq<string>, p: seq<string>) {
    forall i :: 0 < i < |p| ==> !Loses(g, order, p[i - 1], p[i])
  }

  lemma WeakenedEdge(g: Graph, names: set<string>, a: string, b: string)
    ensures Edge(DropEverywhere(g, names), a, b) <==> Edge(g, a, b) && b !in names
  {
  }

  /** Weakening breaks a cycle exactly when one of its nodes is weak. */
  lemma WeakenedCycle(registry: Registry, g: Graph, p: seq<string>)
    requires IsCycle(g, p)
    ensures IsCycle(DropEverywhere(g, SelfWeak(registry)), p) <==> NoneWeak(registry, p)
  {
    var names := SelfWeak(registry);
    var weakened := DropEverywhere(g, names);
    if NoneWeak(registry, p) {
      forall i | 0 < i < |p| ensures Edge(weakened, p[i - 1], p[i]) {
        assert Edge(g, p[i - 1], p[i]) && p[i] in p;
        WeakenedEdge(g, names, p[i - 1], p[i]);
      }
    } else {
      var x :| x in p && x in names;
      var k :| 0 <= k < |p| && p[k] == x;
      var i := if k == 0 then |p| - 1 else k;
      WeakenedEdge(g, names, p[i - 1], p[i]);
      assert !Edge(weakened, p[i - 1], p[i]);
    }
  }

  lemma KeptStep(registry: Registry, g: Graph, order: seq<string>, a: string, b: string)
    requires Edge(g, a, b) && a !in SelfWeak(registry) && b !in SelfWeak(registry)
    ensures var weakened := DropEverywhere(g, SelfWeak(registry));
      Edge(BreakMutual(weakened, order), a, b) <==> !Loses(g, order, a, b)
  {
    var weakened := DropEverywhere(g, SelfWeak(registry));
    WeakenedEdge(g, SelfWeak(registry), a, b);
    WeakenedEdge(g, SelfWeak(registry), b, a);
    KeptEdge(weakened, order, a, b);
  }

  /** Breaking mutual dependencies breaks a cycle without weak nodes exactly when it cuts a step. */
  lemma BrokenCycle(registry: Registry, g: Graph, order: seq<string>, p: seq<string>)
    requires IsCycle(g, p) && NoneWeak(registry, p)
    ensures IsCycle(BreakMutual(DropEverywhere(g, SelfWeak(registry)), order), p) <==> Uncut(g, order, p)
  {
    var broken := BreakMutual(DropEverywhere(g, SelfWeak(registry)), order);
    forall i | 0 < i < |p| ensures Edge(broken, p[i - 1], p[i]) <==> !Loses(g, order, p[i - 1], p[i]) {
      assert Edge(g, p[i - 1], p[i]) && p[i - 1] in p && p[i] in p;
      KeptStep(registry, g, order, p[i - 1], p[i]);
    }
  }

  /**
   * Which cycles get through, exactly: those without a self-weak node in which no step
   * can be taken back by an edge whose start comes first in the size order.
   */
  lemma CycleSurvivesIff(registry: Registry, g: Graph, order: seq<string>, resolved: Graph, p: seq<string>)
    requires IsResolved(registry, g, order, resolved) && IsCycle(g, p)
    ensures IsCycle(resolved, p) <==> NoneWeak(registry, p) && Uncut(g, order, p)
  {
    WeakenedCycle(registry, g, p);
    var weakened := DropEverywhere(g, SelfWeak(registry));
    if NoneWeak(registry, p) {
      assert HasCycle(weakened);
      BrokenCycle(registry, g, order, p);
    } else if HasCycle(weakened) {
      if IsCycle(resolved, p) {
        forall i | 0 < i < |p| ensures Edge(weakened, p[i - 1], p[i]) {
          assert Edge(resolved, p[i - 1], p[i]);
          KeptEdge(weakened, order, p[i - 1], p[i]);
        }
        assert IsCycle(weakened, p);
      }
    }
  }

  lemma ResolvedEdge(registry: Registry, g: Graph, order: seq<string>, resolved: Graph, a: string, b: string)
    requires IsResolved(registry, g, order, resolved) && Edge(resolved, a, b)
    ensures Edge(g, a, b)
  {
    var weakened := DropEverywhere(g, SelfWeak(registry));
    WeakenedEdge(g, SelfWeak(registry), a, b);
    KeptEdge(weakened, order, a, b);
  }

  /** The resolver leaves a cycle behind exactly when the graph has a cycle of this kind. */
  lemma StillCyclicIff(registry: Registry, g: Graph, order: seq<string>, resolved: Graph)
    requires IsResolved(registry, g, order, resolved)
    ensures HasCycle(resolved) <==> exists p :: IsCycle(g, p) && NoneWeak(registry, p) && Uncut(g, order, p)
  {
    if HasCycle(resolved) {
      var p :| IsCycle(resolved, p);
      forall i | 0 < i < |p| ensures Edge(g, p[i - 1], p[i]) {
        assert Edge(resolved, p[i - 1], p[i]);
        ResolvedEdge(registry, g, order, resolved, p[i - 1], p[i]);
      }
      assert IsCycle(g, p);
      CycleSurvivesIff(registry, g, order, resolved, p);
    }
    if p :| IsCycle(g, p) && NoneWeak(registry, p) && Uncut(g, order, p) {
      CycleSurvivesIff(registry, g, order, resolved, p);
    }
  }

  // ----- Whatever the order of equally sized nodes -----

  /** `resolved` is the outcome of some run. */
  ghost predicate MayResolveTo(registry: Registry, g: Graph, resolved: Graph) {
    exists order :: IsResolved(registry, g, order, resolved)
  }

  /** A step that can be taken back starts at a node with strictly fewer dependencies, or is a self loop. */
  ghost predicate StepsGrow(g: Graph, p: seq<string>) {
    forall i :: 0 < i < |p| && Edge(g, p[i], p[i - 1]) ==>
      p[i - 1] == p[i] || |Deps(g, p[i - 1])| < |Deps(g, p[i])|
  }

  /** By number of dependencies, and `first` before all others with as many. */
  ghost function FewerThenFirst(g: Graph, first: string): (string, string) -> bool {
    (a, b) => |Deps(g, a)| < |Deps(g, b)| || (|Deps(g, a)| == |Deps(g, b)| && (a == first || b != first))
  }

  /** Ties can be broken in favour of any node. */
  lemma SizeOrderWithFirst(g: Graph, first: string) returns (order: seq<string>)
    ensures IsSizeOrder(g, order)
    ensures forall x :: x in g && first in g && x != first && |g[first]| <= |g[x]| ==> Precedes(order, first, x)
  {
    var s := Listing(g.Keys);
    order := Sort(FewerThenFirst(g, first), s);
    SortSorted(FewerThenFirst(g, first), s);
    SortedIsSizeOrder(g, first, order);
    forall x | x in g && first in g && x != first && |g[first]| <= |g[x]| ensures Precedes(order, first, x) {
      FirstPrecedes(g, first, order, x);
    }
  }

  lemma SortedIsSizeOrder(g: Graph, first: string, order: seq<string>)
    requires multiset(order) == multiset(g.Keys) && Sorted(FewerThenFirst(g, first), order)
    ensures IsSizeOrder(g, order)
  {
    forall i, j | 0 <= i < j < |order| && order[i] in g && order[j] in g ensures |g[order[i]]| <= |g[order[j]]| {
      assert FewerThenFirst(g, first)(order[i], order[j]);
    }
  }

  lemma FirstPrecedes(g: Graph, first: string, order: seq<string>, x: string)
    requires multiset(order) == multiset(g.Keys) && Sorted(FewerThenFirst(g, first), order)
    requires first in g && x in g && x != first && |g[first]| <= |g[x]|
    ensures Precedes(order, first, x)
  {
    SetListing(order, g.Keys);
    var i, j := Index(order, first), Index(order, x);
    assert !FewerThenFirst(g, first)(x, first);
  }

  lemma SizeOrderAscends(g: Graph, order: seq<string>, a: string, b: string)
    requires IsSizeOrder(g, order) && Precedes(order, a, b)
    ensures a != b && |Deps(g, a)| <= |Deps(g, b)|
  {
    SetListing(order, g.Keys);
    var i, j :| 0 <= i < j < |order| && order[i] == a && order[j] == b;
    assert order[i] in order && order[j] in order;
  }

  lemma GrowingIsUncut(g: Graph, order: seq<string>, p: seq<string>)
    requires IsSizeOrder(g, order) && StepsGrow(g, p)
    ensures Uncut(g, order, p)
  {
    forall i | 0 < i < |p| ensures !Loses(g, order, p[i - 1], p[i]) {
      if Precedes(order, p[i], p[i - 1]) {
        SizeOrderAscends(g, order, p[i], p[i - 1]);
      }
    }
  }

  /** A run that breaks the cycle. */
  lemma SomeRunBreaks(registry: Registry, g: Graph, p: seq<string>) returns (order: seq<string>, resolved: Graph)
    requires IsCycle(g, p) && !(NoneWeak(registry, p) && StepsGrow(g, p))
    ensures IsResolved(registry, g, order, resolved) && !IsCycle(resolved, p)
  {
    var weakened := DropEverywhere(g, SelfWeak(registry));
    assert HasCycle(g);
    var first := p[0];
    if !StepsGrow(g, p) {
      var i :| 0 < i < |p| && Edge(g, p[i], p[i - 1]) && p[i - 1] != p[i] && |Deps(g, p[i - 1])| >= |Deps(g, p[i])|;
      first := p[i];
      order := SizeOrderWithFirst(g, first);
      assert Edge(g, p[i - 1], p[i]);
      assert Precedes(order, p[i], p[i - 1]);
      assert Loses(g, order, p[i - 1], p[i]);
    } else {
      order := SizeOrderWithFirst(g, first);
    }
    resolved := if HasCycle(weakened) then BreakMutual(weakened, order) else weakened;
    CycleSurvivesIff(registry, g, order, resolved, p);
  }

  /**
   * A cycle survives every run exactly when none of its nodes is self-weak and each of its
   * steps that can be taken back is a self loop or leads from strictly fewer dependencies
   * to more.
   */
  lemma CycleAlwaysSurvivesIff(registry: Registry, g: Graph, p: seq<string>)
    requires IsCycle(g, p)
    ensures (forall resolved :: MayResolveTo(registry, g, resolved) ==> IsCycle(resolved, p))
       <==> NoneWeak(registry, p) && StepsGrow(g, p)
  {
    if NoneWeak(registry, p) && StepsGrow(g, p) {
      forall resolved | MayResolveTo(registry, g, resolved) ensures IsCycle(resolved, p) {
        var order :| IsResolved(registry, g, order, resolved);
        WeakenedCycle(registry, g, p);
        assert HasCycle(g) && HasCycle(DropEverywhere(g, SelfWeak(registry)));
        GrowingIsUncut(g, order, p);
        CycleSurvivesIff(registry, g, order, resolved, p);
      }
    } else {
      var order, resolved := SomeRunBreaks(registry, g, p);
      assert MayResolveTo(registry, g, resolved);
    }
  }

  /** Three extensions in a cycle, with one step that can be taken back. */
  function Triangle(a: string, b: string, c: string): Registry {
    map[a := Entry(a, [b], []), b := Entry(b, [c, a], []), c := Entry(c, [a], [])]
  }

  /** No run breaks the cycle that they declare: only the edge from `b` back to `a` is cut. */
  lemma TriangleSurvives(a: string, b: string, c: string, resolved: Graph)
    requires a != b && b != c && c != a
    requires MayResolveTo(Triangle(a, b, c), DeclaredGraph(Triangle(a, b, c)), resolved)
    ensures IsCycle(resolved, [a, b, c, a]) && !Edge(resolved, b, a)
  {
    var registry, p := Triangle(a, b, c), [a, b, c, a];
    var g := DeclaredGraph(registry);
    TriangleIsCycle(a, b, c);
    CycleAlwaysSurvivesIff(registry, g, p);
    var order :| IsResolved(registry, g, order, resolved);
    ResolvedIsNotMutual(registry, g, order, resolved, a, b) by {
      assert Edge(resolved, p[0], p[1]);
    }
  }

  lemma TriangleIsDeclared(a: string, b: string, c: string)
    requires a != b && b != c && c != a
    ensures var g := DeclaredGraph(Triangle(a, b, c));
      Deps(g, a) == [b] && Deps(g, b) == [c, a] && Deps(g, c) == [a]
    ensures SelfWeak(Triangle(a, b, c)) == {}
  {
  }

  lemma TriangleIsCycle(a: string, b: string, c: string)
    requires a != b && b != c && c != a
    ensures var registry, p := Triangle(a, b, c), [a, b, c, a];
      && IsCycle(DeclaredGraph(registry), p)
      && NoneWeak(registry, p) && StepsGrow(DeclaredGraph(registry), p)
  {
    var g, p := DeclaredGraph(Triangle(a, b, c)), [a, b, c, a];
    TriangleIsDeclared(a, b, c);
    forall i | 0 < i < |p| ensures Edge(g, p[i - 1], p[i]) && (Edge(g, p[i], p[i - 1]) ==> i == 1) {
      assert i == 1 || i == 2 || i == 3;
    }
  }

  // ----- The code -----

  method Contains(s: seq<string>, x: string) returns (found: bool)
    ensures found <==> x in s
  {
    for i := 0 to |s|
      invariant x !in s[..i]
    {
      if s[i] == x {
        return true;
      }
    }
    return false;
  }

  method Without(s: seq<string>, x: string) returns (r: seq<string>)
    ensures r == Drop(s, {x})
  {
    r := [];
    for i := 0 to |s|
      invariant r == Drop(s[..i], {x})
    {
      DropSnoc(s[..i], s[i], {x});
      assert s[..i + 1] == s[..i] + [s[i]];
      if s[i] != x {
        r := r + [s[i]];
      }
    }
    assert s[..|s|] == s;
  }

  /** The name that an entry makes every node forget, if any. */
  ghost function WeakName(entry: Entry): set<string> {
    if entry.name in entry.weak then {entry.name} else {}
  }

  /** Lines 177-202 for one node: the range runs over the list as it was before any removal. */
  method WeakenNode(deps: seq<string>, entry: Entry) returns (r: seq<string>)
    ensures r == Drop(deps, WeakName(entry))
  {
    r := deps;
    ghost var names := WeakName(entry);
    for i := 0 to |deps|
      invariant r == deps || r == Drop(deps, names)
      invariant entry.name in names && entry.name in deps[..i] ==> r == Drop(deps, names)
    {
      if deps[i] == entry.name {
        var isWeak := Contains(entry.weak, deps[i]);
        if isWeak {
          assert names == {deps[i]} && names + names == names;
          DropTwice(deps, names, names);
          r := Without(r, deps[i]);
        }
      }
    }
    if entry.name !in names || entry.name !in deps {
      DropAbsent(deps, names);
    }
  }

  /** Lines 170-203 for one entry, over the nodes in arbitrary order. */
  method WeakenAll(graph: Graph, entry: Entry) returns (resolved: Graph)
    ensures resolved == DropEverywhere(graph, WeakName(entry))
  {
    resolved := graph;
    var nodes := graph.Keys;
    while nodes != {}
      invariant nodes <= graph.Keys && resolved.Keys == graph.Keys
      invariant forall n :: n in nodes ==> resolved[n] == graph[n]
      invariant forall n :: n in graph && n !in nodes ==> resolved[n] == Drop(graph[n], WeakName(entry))
    {
      var node :| node in nodes;
      nodes := nodes - {node};
      var deps := WeakenNode(resolved[node], entry);
      resolved := resolved[node := deps];
    }
  }

  lemma DropEverywhereTwice(g: Graph, a: set<string>, b: set<string>)
    ensures DropEverywhere(DropEverywhere(g, a), b) == DropEverywhere(g, a + b)
  {
    forall n | n in g ensures Drop(Drop(g[n], a), b) == Drop(g[n], a + b) {
      DropTwice(g[n], a, b);
    }
  }

  lemma DropNothing(g: Graph)
    ensures DropEverywhere(g, {}) == g
  {
    forall n | n in g ensures Drop(g[n], {}) == g[n] {
      DropAbsent(g[n], {});
    }
  }

  /** Lines 168-204: no module is ever core, so every list loses every self-weak name. */
  method BreakWeak(registry: Registry, graph: Graph) returns (resolved: Graph)
    ensures resolved == DropEverywhere(graph, SelfWeak(registry))
  {
    resolved := graph;
    DropNothing(graph);
    var entries := registry.Keys;
    ghost var names: set<string> := {};
    while entries != {}
      invariant entries <= registry.Keys
      invariant names == set k | k in registry && k !in entries && registry[k].name in registry[k].weak
                             :: registry[k].name
      invariant resolved == DropEverywhere(graph, names)
    {
      var key :| key in entries;
      entries := entries - {key};
      DropEverywhereTwice(graph, names, WeakName(registry[key]));
      resolved := WeakenAll(resolved, registry[key]);
      names := names + WeakName(registry[key]);
    }
    assert names == SelfWeak(registry);
  }

  /** How many dependencies a node has; what lines 159 and 162 record and compare. */
  function FewerDeps(g: Graph): (string, string) -> bool {
    (a, b) => |Deps(g, a)| <= |Deps(g, b)|
  }

  /** Lines 157-163: the nodes in arbitrary order, then sorted by number of dependencies. */
  method SortNodes(graph: Graph) returns (nodes: seq<string>)
    ensures IsSizeOrder(graph, nodes)
  {
    nodes := [];
    var todo := graph.Keys;
    while todo != {}
      invariant todo <= graph.Keys
      invariant multiset(nodes) + multiset(todo) == multiset(graph.Keys)
    {
      var node :| node in todo;
      todo := todo - {node};
      nodes := nodes + [node];
    }
    SortSorted(FewerDeps(graph), nodes);
    nodes := Sort(FewerDeps(graph), nodes);
    assert forall i, j :: 0 <= i < j < |nodes| ==> FewerDeps(graph)(nodes[i], nodes[j]);
  }

  /** The pairs (a, b) that the double loop has handled when it stands at (i, j). */
  ghost predicate Handled(a: int, b: int, i: nat, j: nat) {
    a < i || (a == i && b < j)
  }

  /** `Losing`, restricted to the pairs that have been handled. */
  ghost function LostUpTo(g: Graph, order: seq<string>, i: nat, j: nat, n: string): set<string> {
    set d | d in Deps(g, n) && Edge(g, d, n)
            && exists a, b :: 0 <= a < b < |order| && Handled(a, b, i, j) && order[a] == d && order[b] == n
  }

  /** What the list of `n` has become when the double loop stands at (i, j). */
  ghost function ListUpTo(g: Graph, order: seq<string>, i: nat, j: nat, n: string): seq<string> {
    Drop(Deps(g, n), LostUpTo(g, order, i, j, n))
  }

  ghost function BrokenUpTo(g: Graph, order: seq<string>, i: nat, j: nat): Graph {
    map n | n in g :: ListUpTo(g, order, i, j, n)
  }

  ghost predicate IsListUpTo(g: Graph, order: seq<string>, i: nat, j: nat, r: Graph, n: string) {
    n in r && r[n] == ListUpTo(g, order, i, j, n)
  }

  /** The same, key by key. */
  ghost predicate IsBrokenUpTo(g: Graph, order: seq<string>, i: nat, j: nat, r: Graph) {
    r.Keys == g.Keys && forall n :: n in g ==> IsListUpTo(g, order, i, j, r, n)
  }

  /** Handling the pair (i, j) concerns nobody but order[j], who may lose order[i]. */
  lemma LostStep(g: Graph, order: seq<string>, i: nat, j: nat, n: string)
    requires NoDup(order) && i < j < |order|
    ensures LostUpTo(g, order, i, j + 1, n)
         == LostUpTo(g, order, i, j, n)
            + if n == order[j] && Edge(g, order[i], n) && Edge(g, n, order[i]) then {order[i]} else {}
  {
    var old', new' := LostUpTo(g, order, i, j, n), LostUpTo(g, order, i, j + 1, n);
    if n == order[j] && Edge(g, order[i], n) && Edge(g, n, order[i]) {
      assert Handled(i, j, i, j + 1);
      assert order[i] in new';
    }
    forall d | d in old' ensures d in new' {
      var a, b :| 0 <= a < b < |order| && Handled(a, b, i, j) && order[a] == d && order[b] == n;
      assert Handled(a, b, i, j + 1);
    }
    forall d | d in new' && d !in old' ensures n == order[j] && d == order[i] {
      var a, b :| 0 <= a < b < |order| && Handled(a, b, i, j + 1) && order[a] == d && order[b] == n;
      assert !Handled(a, b, i, j);
    }
  }

  /** What is not handled yet has not been removed yet. */
  lemma NotYetLost(g: Graph, order: seq<string>, i: nat, j: nat)
    requires NoDup(order) && i < j < |order|
    ensures order[i] !in LostUpTo(g, order, i, j, order[j])
    ensures order[j] !in LostUpTo(g, order, i, j, order[i])
  {
  }

  lemma ListStep(g: Graph, order: seq<string>, i: nat, j: nat, n: string)
    requires NoDup(order) && i < j < |order|
    ensures ListUpTo(g, order, i, j + 1, n)
         == if n == order[j] && Edge(g, order[i], n) && Edge(g, n, order[i])
            then Drop(ListUpTo(g, order, i, j, n), {order[i]}) else ListUpTo(g, order, i, j, n)
  {
    LostStep(g, order, i, j, n);
    var lost := LostUpTo(g, order, i, j, n);
    DropTwice(Deps(g, n), lost, {order[i]});
    assert lost + {} == lost;
  }

  lemma StillThere(g: Graph, order: seq<string>, i: nat, j: nat)
    requires NoDup(order) && i < j < |order|
    ensures order[j] in ListUpTo(g, order, i, j, order[i]) <==> Edge(g, order[i], order[j])
    ensures order[i] in ListUpTo(g, order, i, j, order[j]) <==> Edge(g, order[j], order[i])
  {
    NotYetLost(g, order, i, j);
  }

  lemma BreakStepByKey(g: Graph, order: seq<string>, i: nat, j: nat, now: Graph, next: Graph)
    requires NoDup(order) && i < j < |order| && order[i] in g && order[j] in g
    requires IsBrokenUpTo(g, order, i, j, now)
    requires next == if order[j] in now[order[i]] && order[i] in now[order[j]]
                     then now[order[j] := Drop(now[order[j]], {order[i]})] else now
    ensures IsBrokenUpTo(g, order, i, j + 1, next)
  {
    assert IsListUpTo(g, order, i, j, now, order[i]) && IsListUpTo(g, order, i, j, now, order[j]);
    forall n | n in g ensures IsListUpTo(g, order, i, j + 1, next, n) {
      assert IsListUpTo(g, order, i, j, now, n);
      BreakStepAt(g, order, i, j, now, next, n);
    }
  }

  lemma BreakStepAt(g: Graph, order: seq<string>, i: nat, j: nat, now: Graph, next: Graph, n: string)
    requires NoDup(order) && i < j < |order|
    requires IsListUpTo(g, order, i, j, now, n)
    requires IsListUpTo(g, order, i, j, now, order[i]) && IsListUpTo(g, order, i, j, now, order[j])
    requires next == if order[j] in now[order[i]] && order[i] in now[order[j]]
                     then now[order[j] := Drop(now[order[j]], {order[i]})] else now
    ensures IsListUpTo(g, order, i, j + 1, next, n)
  {
    StillThere(g, order, i, j);
    ListStep(g, order, i, j, n);
  }

  lemma KeyByKey(g: Graph, order: seq<string>, i: nat, j: nat, r: Graph)
    ensures IsBrokenUpTo(g, order, i, j, r) <==> r == BrokenUpTo(g, order, i, j)
  {
  }

  lemma BreakStep(g: Graph, order: seq<string>, i: nat, j: nat, now: Graph, next: Graph)
    requires NoDup(order) && i < j < |order| && order[i] in g && order[j] in g
    requires now == BrokenUpTo(g, order, i, j)
    requires next == if order[j] in now[order[i]] && order[i] in now[order[j]]
                     then now[order[j] := Drop(now[order[j]], {order[i]})] else now
    ensures next == BrokenUpTo(g, order, i, j + 1)
  {
    KeyByKey(g, order, i, j, now);
    BreakStepByKey(g, order, i, j, now, next);
    KeyByKey(g, order, i, j + 1, next);
  }

  /** Two loop positions between which there is no pair stand for the same graph. */
  lemma NextRow(g: Graph, order: seq<string>, i: nat)
    ensures BrokenUpTo(g, order, i, i + 1) == BrokenUpTo(g, order, i, 0)
    ensures BrokenUpTo(g, order, i + 1, 0) == BrokenUpTo(g, order, i, |order|)
  {
    assert forall a, b :: 0 <= a < b < |order| ==> (Handled(a, b, i, i + 1) <==> Handled(a, b, i, 0));
    assert forall a, b :: 0 <= a < b < |order| ==> (Handled(a, b, i + 1, 0) <==> Handled(a, b, i, |order|));
    forall n | n in g
      ensures LostUpTo(g, order, i, i + 1, n) == LostUpTo(g, order, i, 0, n)
      ensures LostUpTo(g, order, i + 1, 0, n) == LostUpTo(g, order, i, |order|, n)
    {
    }
  }

  lemma FirstRow(g: Graph, order: seq<string>)
    ensures BrokenUpTo(g, order, 0, 0) == g
  {
    forall n | n in g ensures ListUpTo(g, order, 0, 0, n) == g[n] {
      DropAbsent(g[n], LostUpTo(g, order, 0, 0, n));
    }
  }

  lemma LastRow(g: Graph, order: seq<string>)
    ensures BrokenUpTo(g, order, |order|, 0) == BreakMutual(g, order)
  {
    assert forall a, b :: 0 <= a < b < |order| ==> Handled(a, b, |order|, 0);
    forall n | n in g ensures LostUpTo(g, order, |order|, 0, n) == Losing(g, order, n) {
    }
  }

  /**
   * Lines 216-255 for one pair. The nodes are sorted by the recorded numbers of
   * dependencies, so the alternative of line 245 is never taken.
   */
  method BreakPair(resolved: Graph, node: string, other: string, nodeDeps: nat, otherDeps: nat) returns (next: Graph)
    requires node in resolved && other in resolved && nodeDeps <= otherDeps
    ensures next == if other in resolved[node] && node in resolved[other]
                    then resolved[other := Drop(resolved[other], {node})] else resolved
  {
    next := resolved;
    var dependsOnOther := Contains(resolved[node], other);
    var otherDependsOn := Contains(resolved[other], node);
    if dependsOnOther && otherDependsOn {
      if nodeDeps <= otherDeps {
        var newDeps := Without(resolved[other], node);
        next := resolved[other := newDeps];
      } else {
        assert false;
      }
    }
  }

  /** The dependency counts recorded with the nodes; `counted` is the graph as it was then. */
  ghost predicate AreCounted(graph: Graph, counted: Graph, nodes: seq<string>) {
    && NoDup(nodes)
    && (forall k :: 0 <= k < |nodes| ==> nodes[k] in graph && nodes[k] in counted)
    && (forall i, j :: 0 <= i < j < |nodes| ==> |counted[nodes[i]]| <= |counted[nodes[j]]|)
  }

  method BreakNext(graph: Graph, counted: Graph, nodes: seq<string>, i: nat, j: nat, resolved: Graph)
    returns (next: Graph)
    requires AreCounted(graph, counted, nodes) && i < j < |nodes|
    requires resolved == BrokenUpTo(graph, nodes, i, j)
    ensures next == BrokenUpTo(graph, nodes, i, j + 1)
  {
    next := BreakPair(resolved, nodes[i], nodes[j], |counted[nodes[i]]|, |counted[nodes[j]]|);
    BreakStep(graph, nodes, i, j, resolved, next);
  }

  /** Lines 214-256: one node against all later ones. */
  method BreakRow(graph: Graph, counted: Graph, nodes: seq<string>, i: nat, resolved0: Graph) returns (resolved: Graph)
    requires AreCounted(graph, counted, nodes) && i < |nodes|
    requires resolved0 == BrokenUpTo(graph, nodes, i, i + 1)
    ensures resolved == BrokenUpTo(graph, nodes, i, |nodes|)
  {
    resolved := resolved0;
    for j := i + 1 to |nodes|
      invariant resolved == BrokenUpTo(graph, nodes, i, j)
    {
      resolved := BreakNext(graph, counted, nodes, i, j, resolved);
    }
  }

  /** Lines 211-257. */
  method BreakPairs(graph: Graph, counted: Graph, nodes: seq<string>) returns (resolved: Graph)
    requires AreCounted(graph, counted, nodes)
    ensures resolved == BreakMutual(graph, nodes)
  {
    resolved := graph;
    FirstRow(graph, nodes);
    for i := 0 to |nodes|
      invariant resolved == BrokenUpTo(graph, nodes, i, 0)
    {
      NextRow(graph, nodes, i);
      resolved := BreakRow(graph, counted, nodes, i, resolved);
    }
    LastRow(graph, nodes);
  }

  lemma SizeOrderIsCounted(graph: Graph, counted: Graph, nodes: seq<string>)
    requires graph.Keys == counted.Keys && IsSizeOrder(counted, nodes)
    ensures AreCounted(graph, counted, nodes)
  {
    SetListing(nodes, counted.Keys);
    forall k | 0 <= k < |nodes| ensures nodes[k] in graph && nodes[k] in counted {
      assert nodes[k] in nodes;
    }
  }

  /** resolveDependencyGraph, with the registry that it reads as a parameter. */
  method ResolveDependencyGraph(registry: Registry, graph: Graph) returns (resolved: Graph, ghost order: seq<string>)
    ensures IsResolved(registry, graph, order, resolved)
    ensures !HasCycle(graph) ==> resolved == graph
    ensures HasResolvedShape(graph, resolved)
  {
    resolved, order := Resolve(registry, graph);
    ResolvedShape(registry, graph, order, resolved);
  }

  method Resolve(registry: Registry, graph: Graph) returns (resolved: Graph, ghost order: seq<string>)
    ensures IsResolved(registry, graph, order, resolved)
  {
    order := [];
    var hasCycles, _ := DetectCircularDependencies(graph);
    if !hasCycles {
      return graph, order;
    }
    var nodes := SortNodes(graph);
    order := nodes;
    resolved := BreakWeak(registry, graph);
    var stillHasCycles, _ := DetectCircularDependencies(resolved);
    if stillHasCycles {
      SizeOrderIsCounted(resolved, graph, nodes);
      resolved := BreakPairs(resolved, graph, nodes);
    }
  }

  function IsRegistered(registry: Registry): string -> bool {
    w => w in registry
  }

  /** An entry's dependencies, then those of its weak dependencies that are registered. */
  function Declared(registry: Registry, entry: Entry): seq<string> {
    entry.dependencies + Filter(entry.weak, IsRegistered(registry))
  }

  function DeclaredGraph(registry: Registry): Graph {
    map k | k in registry :: Declared(registry, registry[k])
  }

  /** What the graph builder declares: all dependencies, and the weak ones that are registered. */
  lemma DeclaredEdgeIff(registry: Registry, a: string, b: string)
    ensures Edge(DeclaredGraph(registry), a, b) <==>
      a in registry && (b in registry[a].dependencies || (b in registry[a].weak && b in registry))
  {
  }

  /** In each list the dependencies stand first, and the weak ones follow in their order. */
  lemma DeclaredList(registry: Registry, a: string)
    requires a in registry
    ensures var list, n := DeclaredGraph(registry)[a], |registry[a].dependencies|;
      && n <= |list| && list[..n] == registry[a].dependencies && Subsequence(list[n..], registry[a].weak)
  {
    FilterIsSubsequence(registry[a].weak, IsRegistered(registry));
    var list, n := DeclaredGraph(registry)[a], |registry[a].dependencies|;
    assert list[n..] == Filter(registry[a].weak, IsRegistered(registry));
  }

  /** A name is self-weak if the entry that bears it lists it as weak. */
  lemma SelfWeakIff(registry: Registry, d: string)
    ensures d in SelfWeak(registry) <==> exists k :: k in registry && registry[k].name == d && d in registry[k].weak
  {
  }

  lemma OneWeakMore(registry: Registry, deps: seq<string>, weak: seq<string>, i: nat)
    requires i < |weak|
    ensures deps + Filter(weak[..i + 1], IsRegistered(registry))
         == deps + Filter(weak[..i], IsRegistered(registry)) + if weak[i] in registry then [weak[i]] else []
  {
    FilterSnoc(weak[..i], weak[i], IsRegistered(registry));
    assert weak[..i + 1] == weak[..i] + [weak[i]];
  }

  /** Lines 279-287. */
  method CollectDependencies(registry: Registry, entry: Entry) returns (deps: seq<string>)
    ensures deps == Declared(registry, entry)
  {
    deps := entry.dependencies;
    for i := 0 to |entry.weak|
      invariant deps == entry.dependencies + Filter(entry.weak[..i], IsRegistered(registry))
    {
      OneWeakMore(registry, entry.dependencies, entry.weak, i);
      if entry.weak[i] in registry {
        deps := deps + [entry.weak[i]];
      }
    }
    assert entry.weak[..|entry.weak|] == entry.weak;
  }

  /** GetExtensionsAndDependencies, lines 268-295, over the registry in arbitrary order. */
  method GetExtensionsAndDependencies(registry: Registry) returns (resolved: Graph, ghost order: seq<string>)
    ensures IsResolved(registry, DeclaredGraph(registry), order, resolved)
    ensures HasResolvedShape(DeclaredGraph(registry), resolved)
  {
    var graph: Graph := map[];
    var todo := registry.Keys;
    while todo != {}
      invariant todo <= registry.Keys
      invariant graph == map k | k in registry && k !in todo :: Declared(registry, registry[k])
    {
      var name :| name in todo;
      todo := todo - {name};
      var deps := CollectDependencies(registry, registry[name]);
      graph := graph[name := deps];
    }
    assert graph == DeclaredGraph(registry);
    resolved, order := ResolveDependencyGraph(registry, graph);
  }
}
