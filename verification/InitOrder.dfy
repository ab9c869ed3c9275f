/** The layered initialization order of extension/manager/utils.go. */
module InitOrder {
  import opened Common
  import opened DependencyGraph
  import opened Sorting

  /** A missing (nil) graph is rebuilt from the extensions' own dependency lists. */
  function EffectiveGraph(extensions: Graph, dependencyGraph: Option<Graph>): Graph {
    if dependencyGraph.None? then extensions else dependencyGraph.value
  }

  /** Every extension exactly once, each after all its dependencies. */
  ghost predicate IsInitOrder(g: Graph, all: set<string>, order: seq<string>) {
    multiset(order) == multiset(all) && DependenciesFirst(g, order)
  }

  /** The order starts with the dependency-free extensions, sorted by name. */
  ghost predicate LeadsWithRoots(g: Graph, all: set<string>, order: seq<string>, k: nat) {
    && k <= |order|
    && Sorted(StringLe, order[..k])
    && forall x :: x in order[..k] <==> x in all && Deps(g, x) == []
  }

  predicate AllIn(deps: seq<string>, order: seq<string>) {
    forall d :: d in deps ==> d in order
  }

  /**
   * One pass over the waiting names, on values: the extended order, and the names that
   * still wait. Names admitted earlier in the pass already count for later ones.
   */
  function Sweep(g: Graph, names: seq<string>, order: seq<string>): (seq<string>, seq<string>) {
    if names == [] then (order, [])
    else if AllIn(Deps(g, names[0]), order) then Sweep(g, names[1..], order + [names[0]])
    else
      var (admitted, waiting) := Sweep(g, names[1..], order);
      (admitted, [names[0]] + waiting)
  }

  /** Unrolling one step of a sweep over a suffix. */
  lemma SweepStep(g: Graph, names: seq<string>, i: nat, order: seq<string>)
    requires i < |names|
    ensures Sweep(g, names[i..], order)
         == if AllIn(Deps(g, names[i]), order) then Sweep(g, names[i + 1..], order + [names[i]])
            else var rest := Sweep(g, names[i + 1..], order); (rest.0, [names[i]] + rest.1)
  {
    assert names[i..][1..] == names[i + 1..];
  }

  /** A sweep moves names, loses none, and only admits names whose dependencies are in. */
  lemma {:induction false} SweepProperties(g: Graph, names: seq<string>, order: seq<string>)
    requires DependenciesFirst(g, order)
    ensures var (admitted, waiting) := Sweep(g, names, order);
      && DependenciesFirst(g, admitted) && order <= admitted
      && multiset(admitted + waiting) == multiset(order + names)
      && |waiting| <= |names|
      && (|waiting| == |names| ==> waiting == names && admitted == order)
      && (|waiting| == |names| ==> forall x :: x in names ==> !AllIn(Deps(g, x), order))
  {
    if names == [] {
      return;
    }
    var x, rest := names[0], names[1..];
    assert names == [x] + rest;
    if AllIn(Deps(g, x), order) {
      DependenciesFirstSnoc(g, order, x);
      SweepProperties(g, rest, order + [x]);
      assert order + [x] + rest == order + names;
    } else {
      SweepProperties(g, rest, order);
      var (admitted, waiting) := Sweep(g, rest, order);
      assert multiset(admitted + ([x] + waiting)) == multiset(admitted + waiting) + multiset{x};
      assert multiset(order + names) == multiset(order + rest) + multiset{x};
    }
  }

  /** Lines 46-52. */
  method CanInitialize(deps: seq<string>, initialized: set<string>) returns (can: bool)
    ensures can <==> forall d :: d in deps ==> d in initialized
  {
    for i := 0 to |deps|
      invariant forall k :: 0 <= k < i ==> deps[k] in initialized
    {
      if deps[i] !in initialized {
        return false;
      }
    }
    return true;
  }

  /** A sweep over `before` has come to position `i` and has kept these names so far. */
  ghost predicate IsSweptTo(g: Graph, before: seq<string>, order0: seq<string>, i: nat, order: seq<string>,
                            kept: seq<string>)
    requires i <= |before|
  {
    && Sweep(g, before, order0).0 == Sweep(g, before[i..], order).0
    && Sweep(g, before, order0).1 == kept + Sweep(g, before[i..], order).1
  }

  lemma SweepOn(g: Graph, before: seq<string>, order0: seq<string>, i: nat, order: seq<string>, kept: seq<string>)
    requires i < |before| && IsSweptTo(g, before, order0, i, order, kept)
    ensures if AllIn(Deps(g, before[i]), order) then IsSweptTo(g, before, order0, i + 1, order + [before[i]], kept)
            else IsSweptTo(g, before, order0, i + 1, order, kept + [before[i]])
  {
    SweepStep(g, before, i, order);
    Regroup(kept, [before[i]], Sweep(g, before[i + 1..], order).1);
  }

  /**
   * Lines 42-61. The names that still wait are written back into the array that is
   * being read; the result is nevertheless that of the value-level `Sweep`.
   */
  method SweepInPlace(g: Graph, names: array<string>, n: nat, order0: seq<string>, initialized0: set<string>)
    returns (order: seq<string>, initialized: set<string>, waiting: nat, progress: bool)
    requires n <= names.Length
    requires forall x :: x in initialized0 <==> x in order0
    modifies names
    ensures waiting <= n
    ensures order == Sweep(g, old(names[..n]), order0).0
    ensures names[..waiting] == Sweep(g, old(names[..n]), order0).1
    ensures forall x :: x in initialized <==> x in order
    ensures progress <==> waiting < n
  {
    order, initialized, waiting, progress := order0, initialized0, 0, false;
    ghost var before, kept := names[..n], [];
    assert before[0..] == before;
    for i := 0 to n
      invariant waiting <= i && kept == names[..waiting]
      invariant forall k :: i <= k < n ==> names[k] == before[k]
      invariant forall x :: x in initialized <==> x in order
      invariant progress <==> waiting < i
      invariant IsSweptTo(g, before, order0, i, order, kept)
    {
      SweepOn(g, before, order0, i, order, kept);
      var can := CanInitialize(Deps(g, names[i]), initialized);
      assert can <==> AllIn(Deps(g, before[i]), order);
      if can {
        order := order + [names[i]];
        initialized := initialized + {names[i]};
        progress := true;
      } else {
        kept := kept + [names[i]];
        Keep(names, i, waiting);
        waiting := waiting + 1;
      }
    }
    assert before[n..] == [];
  }

  /** Line 58: one name is written back. */
  method Keep(names: array<string>, i: nat, waiting: nat)
    requires waiting <= i < names.Length
    modifies names
    ensures names[..waiting + 1] == old(names[..waiting]) + [old(names[i])]
    ensures forall k :: i < k < names.Length ==> names[k] == old(names[k])
  {
    names[waiting] := names[i];
  }

  /** The extensions outside `todo`, split by whether they have dependencies. */
  ghost predicate IsClassified(g: Graph, extensions: set<string>, todo: set<string>, roots: seq<string>,
                               others: seq<string>)
  {
    && multiset(roots) + multiset(others) + multiset(todo) == multiset(extensions)
    && (forall x :: x in roots ==> Deps(g, x) == [])
    && (forall x :: x in others ==> Deps(g, x) != [])
  }

  lemma ClassifiedOneMore(g: Graph, extensions: set<string>, todo: set<string>, roots: seq<string>,
                          others: seq<string>, x: string)
    requires IsClassified(g, extensions, todo, roots, others) && x in todo
    ensures Deps(g, x) == [] ==> IsClassified(g, extensions, todo - {x}, roots + [x], others)
    ensures Deps(g, x) != [] ==> IsClassified(g, extensions, todo - {x}, roots, others + [x])
  {
    assert multiset(todo) == multiset(todo - {x}) + multiset{x};
  }

  /** Lines 24-32, over the extensions in an arbitrary order. */
  method Classify(g: Graph, extensions: set<string>)
    returns (noDeps: seq<string>, initialized: set<string>, withDeps: array<string>, n: nat)
    ensures fresh(withDeps) && n <= withDeps.Length
    ensures multiset(noDeps) + multiset(withDeps[..n]) == multiset(extensions)
    ensures forall x :: x in initialized <==> x in noDeps
    ensures forall x :: x in noDeps ==> Deps(g, x) == []
    ensures forall x :: x in withDeps[..n] ==> Deps(g, x) != []
  {
    noDeps, initialized := [], {};
    withDeps, n := new string[|extensions|], 0;
    var todo := extensions;
    while todo != {}
      invariant n + |noDeps| + |todo| == withDeps.Length
      invariant IsClassified(g, extensions, todo, noDeps, withDeps[..n])
      invariant forall x :: x in initialized <==> x in noDeps
    {
      var name :| name in todo;
      ClassifiedOneMore(g, extensions, todo, noDeps, withDeps[..n], name);
      todo := todo - {name};
      if |Deps(g, name)| == 0 {
        noDeps := noDeps + [name];
        initialized := initialized + {name};
      } else {
        ghost var kept := withDeps[..n];
        withDeps[n] := name;
        n := n + 1;
        assert withDeps[..n] == kept + [name];
      }
    }
  }

  /**
   * getInitOrder. It succeeds with a dependencies-first order of all extensions, or
   * fails naming exactly the extensions that reach a cycle or a name that is no
   * extension. The ranges over the extensions take them in an arbitrary order.
   */
  method GetInitOrder(extensions: Graph, dependencyGraph: Option<Graph>) returns (r: Result<seq<string>, seq<string>>)
    ensures var g := if dependencyGraph.None? then extensions else dependencyGraph.value;
      match r
      case Success(order) =>
        && IsInitOrder(g, extensions.Keys, order)
        && (exists k :: LeadsWithRoots(g, extensions.Keys, order, k))
        && (forall x :: x in extensions ==> !Blocked(g, extensions.Keys, x))
      case Failure(remaining) =>
        && remaining != []
        && (forall x :: x in remaining <==> x in extensions && Blocked(g, extensions.Keys, x))
  {
    var g := EffectiveGraph(extensions, dependencyGraph);
    ghost var all := extensions.Keys;
    var noDeps, initialized, withDeps, n := Classify(g, extensions.Keys);
    var order := Sort(StringLe, noDeps);
    RootsAreOrdered(g, all, noDeps, withDeps[..n]);
    r := AdmitAll(g, all, withDeps, n, order, initialized, |order|);
    if r.Success? {
      OrderedAreNotBlocked(g, all, r.value);
    }
  }

  lemma RootsAreOrdered(g: Graph, all: set<string>, roots: seq<string>, others: seq<string>)
    requires IsClassified(g, all, {}, roots, others)
    ensures IsPartialOrder(g, all, Sort(StringLe, roots), others, |roots|)
  {
    var order := Sort(StringLe, roots);
    StringsComparable(roots);
    SortSorted(StringLe, roots);
    RootsLead(g, all, order, others);
    assert multiset(order + others) == multiset(order) + multiset(others);
  }

  /** Lines 41-68. */
  method AdmitAll(g: Graph, ghost all: set<string>, withDeps: array<string>, n0: nat, order0: seq<string>,
                  initialized0: set<string>, ghost k: nat)
    returns (r: Result<seq<string>, seq<string>>)
    requires n0 <= withDeps.Length && IsPartialOrder(g, all, order0, withDeps[..n0], k)
    requires forall x :: x in initialized0 <==> x in order0
    modifies withDeps
    ensures match r
      case Success(order) => IsInitOrder(g, all, order) && LeadsWithRoots(g, all, order, k)
      case Failure(remaining) =>
        remaining != [] && (forall x :: x in remaining <==> x in all && Blocked(g, all, x))
  {
    var order, initialized, n := order0, initialized0, n0;
    while n > 0
      invariant 0 <= n <= withDeps.Length
      invariant forall x :: x in initialized <==> x in order
      invariant IsPartialOrder(g, all, order, withDeps[..n], k)
    {
      var waiting, progress;
      order, initialized, waiting, progress := Round(g, all, withDeps, n, order, initialized, k);
      if !progress {
        var remaining := withDeps[..waiting];
        StuckNamesAreBlocked(g, all, order, remaining);
        return Failure(remaining);
      }
      n := waiting;
    }
    assert order + withDeps[..n] == order;
    return Success(order);
  }

  /** Admitted and waiting names are all the extensions; the admitted ones are in order. */
  ghost predicate IsPartialOrder(g: Graph, all: set<string>, order: seq<string>, waiting: seq<string>, k: nat) {
    && multiset(order + waiting) == multiset(all)
    && DependenciesFirst(g, order) && LeadsWithRoots(g, all, order, k)
  }

  lemma SweepKeepsPartialOrder(g: Graph, all: set<string>, order: seq<string>, names: seq<string>, k: nat)
    requires IsPartialOrder(g, all, order, names, k)
    ensures var (admitted, waiting) := Sweep(g, names, order);
      && IsPartialOrder(g, all, admitted, waiting, k) && |waiting| <= |names|
      && (|waiting| == |names| ==> forall x :: x in waiting ==> !AllIn(Deps(g, x), admitted))
  {
    SweepProperties(g, names, order);
    var admitted := Sweep(g, names, order).0;
    assert admitted[..k] == order[..k];
  }

  /** Lines 42-65: one round. Without progress no waiting name is ready. */
  method Round(g: Graph, ghost all: set<string>, names: array<string>, n: nat, order0: seq<string>,
               initialized0: set<string>, ghost k: nat)
    returns (order: seq<string>, initialized: set<string>, waiting: nat, progress: bool)
    requires n <= names.Length && IsPartialOrder(g, all, order0, names[..n], k)
    requires forall x :: x in initialized0 <==> x in order0
    modifies names
    ensures waiting <= n && (progress <==> waiting < n)
    ensures IsPartialOrder(g, all, order, names[..waiting], k)
    ensures forall x :: x in initialized <==> x in order
    ensures !progress ==> forall x :: x in names[..waiting] ==> !AllIn(Deps(g, x), order)
  {
    SweepKeepsPartialOrder(g, all, order0, names[..n], k);
    order, initialized, waiting, progress := SweepInPlace(g, names, n, order0, initialized0);
  }

  lemma OrderedAreNotBlocked(g: Graph, all: set<string>, order: seq<string>)
    requires IsInitOrder(g, all, order)
    ensures forall x :: x in all ==> !Blocked(g, all, x)
  {
    SetListing(order, all);
    forall x | x in all ensures !Blocked(g, all, x) {
      OrderedIsNotBlocked(g, all, order, x);
    }
  }

  lemma RootsLead(g: Graph, all: set<string>, roots: seq<string>, others: seq<string>)
    requires multiset(roots) + multiset(others) == multiset(all)
    requires Sorted(StringLe, roots)
    requires forall x :: x in roots ==> Deps(g, x) == []
    requires forall x :: x in others ==> Deps(g, x) != []
    ensures LeadsWithRoots(g, all, roots, |roots|)
  {
    assert roots[..|roots|] == roots;
    assert multiset(roots + others) == multiset(all);
    SetListing(roots + others, all);
  }

  /** When a sweep admits nothing, the waiting names are exactly the blocked extensions. */
  lemma StuckNamesAreBlocked(g: Graph, all: set<string>, order: seq<string>, remaining: seq<string>)
    requires multiset(order + remaining) == multiset(all)
    requires DependenciesFirst(g, order)
    requires forall x :: x in remaining ==> !AllIn(Deps(g, x), order)
    ensures forall x :: x in remaining <==> x in all && Blocked(g, all, x)
  {
    SetListing(order + remaining, all);
    var stuck := set x | x in remaining;
    forall x | x in all ensures x in remaining <==> Blocked(g, all, x) {
      if x in order {
        OrderedIsNotBlocked(g, all, order, x);
      } else {
        var p := [x];
        assert IsPath(g, p) && NoDup(p) && forall y :: y in p ==> y in stuck;
        forall y | y in stuck ensures Waits(g, all, stuck, y) {
          var d :| d in Deps(g, y) && d !in order;
          assert Edge(g, y, d);
        }
        StuckIsBlocked(g, all, stuck, p);
      }
      assert x in order && x in remaining ==> multiset(order + remaining)[x] >= 2;
    }
  }

  /**
   * The two algorithms agree: when every dependency of the graph is an extension of the
   * graph, some extension is blocked exactly when the graph has a cycle. Hence
   * GetInitOrder fails exactly when DetectCircularDependencies answers true.
   */
  lemma CycleIffBlocked(g: Graph)
    requires Closed(g)
    ensures HasCycle(g) <==> exists x :: x in g && Blocked(g, g.Keys, x)
  {
    forall p | IsCycle(g, p) ensures exists x :: x in g && Blocked(g, g.Keys, x) {
      CycleIsBlocked(g, g.Keys, p);
    }
    forall x | x in g && Blocked(g, g.Keys, x) ensures HasCycle(g) {
      BlockedInClosedGraph(g, x);
    }
  }
}
