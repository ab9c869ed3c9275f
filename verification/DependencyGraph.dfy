/**
 * Dependency graphs, paths and cycles: the vocabulary in which the cycle detector,
 * the cycle breaker and the initialization order are specified.
 */
module DependencyGraph {
  import opened Common

  /** An extension name mapped to the names it depends on. */
  type Graph = map<string, seq<string>>

  /** Reading a missing key of a Go map yields the empty list. */
  function Deps(g: Graph, n: string): seq<string> {
    if n in g then g[n] else []
  }

  ghost predicate Edge(g: Graph, a: string, b: string) {
    b in Deps(g, a)
  }

  ghost predicate IsPath(g: Graph, p: seq<string>) {
    |p| > 0 && forall i :: 0 < i < |p| ==> Edge(g, p[i - 1], p[i])
  }

  /** A closed walk with at least one edge; a self loop is the walk [a, a]. */
  ghost predicate IsCycle(g: Graph, p: seq<string>) {
    |p| > 1 && IsPath(g, p) && p[0] == p[|p| - 1]
  }

  ghost predicate HasCycle(g: Graph) {
    exists p :: IsCycle(g, p)
  }

  /** The edge from `a` to `b` is one step of some cycle. */
  ghost predicate EdgeOnCycle(g: Graph, a: string, b: string) {
    exists p :: IsCycle(g, p) && p[0] == b && p[|p| - 2] == a
  }

  /** Every element's dependencies appear strictly before it. */
  ghost predicate DependenciesFirst(g: Graph, order: seq<string>) {
    forall i, d :: 0 <= i < |order| && Edge(g, order[i], d) ==> d in order[..i]
  }

  lemma DependenciesFirstSnoc(g: Graph, order: seq<string>, x: string)
    requires DependenciesFirst(g, order)
    requires forall d :: Edge(g, x, d) ==> d in order
    ensures DependenciesFirst(g, order + [x])
  {
    var longer := order + [x];
    forall i, d | 0 <= i < |longer| && Edge(g, longer[i], d) ensures d in longer[..i] {
      if i < |order| {
        assert longer[..i] == order[..i];
      } else {
        assert longer[..i] == order;
      }
    }
  }

  /** A path that starts inside a dependencies-first list moves strictly left at every step. */
  lemma {:induction false} PathDescends(g: Graph, order: seq<string>, p: seq<string>, k: nat)
    requires DependenciesFirst(g, order) && IsPath(g, p)
    requires k <= |order| && p[0] in order[..k]
    ensures |p| <= k && p[|p| - 1] in order[..k - |p| + 1]
    ensures forall x :: x in p ==> x in order
    decreases |p|
  {
    if |p| > 1 {
      var q := p[..|p| - 1];
      PathDescends(g, order, q, k);
      var last := q[|q| - 1];
      assert Edge(g, p[|p| - 2], p[|p| - 1]);
      var i :| 0 <= i < k - |q| + 1 && order[i] == last;
      assert p[|p| - 1] in order[..i];
      assert p == q + [p[|p| - 1]];
    }
  }

  /** No cycle passes through a dependencies-first list. */
  lemma {:induction false} NoCycleThrough(g: Graph, order: seq<string>, p: seq<string>, k: nat)
    requires DependenciesFirst(g, order) && IsCycle(g, p)
    requires k <= |order|
    ensures p[0] !in order[..k]
    decreases k
  {
    if p[0] in order[..k] {
      PathDescends(g, order, p, k);
      NoCycleThrough(g, order, p, k - |p| + 1);
    }
  }

  /** A path that visits a node twice contains a cycle. */
  lemma RepeatIsCycle(g: Graph, p: seq<string>, i: nat, j: nat)
    requires IsPath(g, p) && i < j < |p| && p[i] == p[j]
    ensures IsCycle(g, p[i..j + 1])
  {
    var q := p[i..j + 1];
    forall k | 0 < k < |q| ensures Edge(g, q[k - 1], q[k]) {
      assert Edge(g, p[i + k - 1], p[i + k]);
    }
  }

  /** Witness that `p[0]` can never be initialized: it reaches a cycle or a name outside `all`. */
  ghost predicate Blocks(g: Graph, all: set<string>, p: seq<string>) {
    && IsPath(g, p)
    && (p[|p| - 1] !in all || exists i, j :: 0 <= i < j < |p| && p[i] == p[j])
  }

  ghost predicate Blocked(g: Graph, all: set<string>, x: string) {
    exists p :: Blocks(g, all, p) && p[0] == x
  }

  /** What an order lists dependencies-first is not blocked. */
  lemma OrderedIsNotBlocked(g: Graph, all: set<string>, order: seq<string>, x: string)
    requires DependenciesFirst(g, order) && x in order
    requires forall y :: y in order ==> y in all
    ensures !Blocked(g, all, x)
  {
    forall p | Blocks(g, all, p) && p[0] == x ensures false {
      assert order[..|order|] == order;
      PathDescends(g, order, p, |order|);
      var i, j :| 0 <= i < j < |p| && p[i] == p[j];
      RepeatIsCycle(g, p, i, j);
      NoCycleThrough(g, order, p[i..j + 1], |order|);
    }
  }

  /** Some dependency of `x` is in `stuck` or outside `all`. */
  ghost predicate Waits(g: Graph, all: set<string>, stuck: set<string>, x: string) {
    exists d :: Edge(g, x, d) && (d in stuck || d !in all)
  }

  /**
   * If every member of `stuck` has a dependency that is a member of `stuck` or not in
   * `all`, following such dependencies long enough leaves `all` or repeats a node.
   */
  lemma {:induction false} StuckIsBlocked(g: Graph, all: set<string>, stuck: set<string>, p: seq<string>)
    requires stuck <= all
    requires forall x :: x in stuck ==> Waits(g, all, stuck, x)
    requires IsPath(g, p) && NoDup(p) && forall x :: x in p ==> x in stuck
    ensures Blocked(g, all, p[0])
    decreases |stuck| - |p|
  {
    NoDupLength(p, stuck);
    var last := p[|p| - 1];
    assert last in p;
    var d :| Edge(g, last, d) && (d in stuck || d !in all);
    var q := p + [d];
    assert IsPath(g, q) && q[0] == p[0] && q[|q| - 1] == d;
    if d !in all {
      assert Blocks(g, all, q);
    } else if d in p {
      var i :| 0 <= i < |p| && p[i] == d;
      assert q[i] == q[|q| - 1];
      assert Blocks(g, all, q);
    } else {
      NoDupLength(q, stuck);
      StuckIsBlocked(g, all, stuck, q);
    }
  }

  /** In a closed graph only a cycle can block a node. */
  lemma BlockedInClosedGraph(g: Graph, x: string)
    requires Closed(g) && x in g
    ensures Blocked(g, g.Keys, x) ==> HasCycle(g)
  {
    forall p | Blocks(g, g.Keys, p) && p[0] == x ensures HasCycle(g) {
      PathStaysClosed(g, p);
      assert p[|p| - 1] in p;
      var i, j :| 0 <= i < j < |p| && p[i] == p[j];
      RepeatIsCycle(g, p, i, j);
    }
  }

  /** Every dependency is itself a node of the graph. */
  ghost predicate Closed(g: Graph) {
    forall a, b :: Edge(g, a, b) ==> b in g
  }

  lemma {:induction false} PathStaysClosed(g: Graph, p: seq<string>)
    requires Closed(g) && IsPath(g, p) && p[0] in g
    ensures forall x :: x in p ==> x in g
  {
    forall i | 0 <= i < |p| ensures p[i] in g {
      assert i > 0 ==> Edge(g, p[i - 1], p[i]);
    }
  }

  /** On a cycle every node has a dependency, so every node is a key. */
  lemma CycleIsBlocked(g: Graph, all: set<string>, p: seq<string>)
    requires IsCycle(g, p)
    ensures p[0] in g && Blocked(g, all, p[0])
  {
    assert Edge(g, p[0], p[1]);
    assert Blocks(g, all, p);
  }

  /** An edge leads out of `all`. */
  ghost predicate Leaves(g: Graph, all: set<string>) {
    exists a, b :: Edge(g, a, b) && b !in all
  }

  /** Some name is blocked exactly when there is a cycle or an edge to an unknown name. */
  lemma BlockedIff(g: Graph, all: set<string>)
    requires g.Keys <= all
    ensures (exists x :: x in all && Blocked(g, all, x)) <==> HasCycle(g) || Leaves(g, all)
  {
    forall p | IsCycle(g, p) ensures exists x :: x in all && Blocked(g, all, x) {
      CycleIsBlocked(g, all, p);
    }
    forall a, b | Edge(g, a, b) && b !in all ensures exists x :: x in all && Blocked(g, all, x) {
      assert Blocks(g, all, [a, b]);
      assert a in all && Blocked(g, all, a);
    }
    forall x, p | x in all && Blocks(g, all, p) && p[0] == x ensures HasCycle(g) || Leaves(g, all) {
      BlockingPath(g, all, p);
    }
  }

  lemma BlockingPath(g: Graph, all: set<string>, p: seq<string>)
    requires Blocks(g, all, p) && p[0] in all
    ensures HasCycle(g) || Leaves(g, all)
  {
    if p[|p| - 1] !in all {
      assert Edge(g, p[|p| - 2], p[|p| - 1]);
    } else {
      var i, j :| 0 <= i < j < |p| && p[i] == p[j];
      RepeatIsCycle(g, p, i, j);
    }
  }

  ghost predicate Ready(g: Graph, order: seq<string>, x: string) {
    forall d :: Edge(g, x, d) ==> d in order
  }

  /** In an acyclic graph some unlisted node has all its dependencies listed. */
  lemma AcyclicHasReady(g: Graph, order: seq<string>, rest: set<string>)
    requires Closed(g) && !HasCycle(g)
    requires rest != {} && forall n :: n in rest <==> n in g && n !in order
    ensures exists x :: x in rest && Ready(g, order, x)
  {
    var x :| x in rest;
    var p := [x];
    assert IsPath(g, p) && NoDup(p) && forall y :: y in p ==> y in rest;
    if forall y :: y in rest ==> !Ready(g, order, y) {
      forall y | y in rest ensures Waits(g, g.Keys, rest, y) {
        assert !Ready(g, order, y);
      }
      StuckIsBlocked(g, g.Keys, rest, p);
      BlockedInClosedGraph(g, x);
    }
  }

  /** A finite acyclic graph has a dependencies-first listing of all its nodes. */
  lemma {:induction false} AcyclicHasOrder(g: Graph, order: seq<string>) returns (full: seq<string>)
    requires Closed(g) && !HasCycle(g)
    requires DependenciesFirst(g, order) && NoDup(order) && forall x :: x in order ==> x in g
    ensures DependenciesFirst(g, full) && NoDup(full)
    ensures forall x :: x in full <==> x in g
    decreases |g.Keys| - |order|
  {
    NoDupLength(order, g.Keys);
    var rest := set x | x in g && x !in order;
    if rest == {} {
      assert forall x :: x in g ==> x !in rest;
      return order;
    }
    AcyclicHasReady(g, order, rest);
    var x :| x in rest && Ready(g, order, x);
    DependenciesFirstSnoc(g, order, x);
    NoDupLength(order + [x], g.Keys);
    full := AcyclicHasOrder(g, order + [x]);
  }
}
