/** Building a forest from a flat list, from types/tree.go. */
module Tree {
  import opened Common
  import opened DependencyGraph
  import opened Sorting

  /** What GetSortValue may return, as far as compareSortValues tells it apart. */
  datatype SortValue =
    | IntValue(i: int)
    | Int64Value(i64: int)
    | FloatValue(f: real)
    | StringValue(s: string)
    | OtherValue

  /** The type assertions of compareSortValues panic on values of different types. */
  predicate SameType(a: SortValue, b: SortValue) {
    || (a.IntValue? && b.IntValue?) || (a.Int64Value? && b.Int64Value?) || (a.FloatValue? && b.FloatValue?)
    || (a.StringValue? && b.StringValue?) || (a.OtherValue? && b.OtherValue?)
  }

  /** compareSortValues. */
  predicate Less(a: SortValue, b: SortValue)
    requires SameType(a, b)
  {
    match a
    case IntValue(i) => i < b.i
    case Int64Value(i) => i < b.i64
    case FloatValue(f) => f < b.f
    case StringValue(s) => !StringLe(b.s, s)
    case OtherValue => false
  }

  class Node {
    const id: string
    const parentId: string
    const sortValue: SortValue
    var children: seq<Node>

    constructor (id: string, parentId: string, sortValue: SortValue)
      ensures this.id == id && this.parentId == parentId && this.sortValue == sortValue && children == []
    {
      this.id, this.parentId, this.sortValue, children := id, parentId, sortValue, [];
    }
  }

  /**
   * `a` may stand before `b`. Comparing values of different types panics in the source; this
   * total predicate says nothing about them, and `SameTypes` keeps them out.
   */
  predicate NotAfter(a: Node, b: Node) {
    SameType(a.sortValue, b.sortValue) ==> !Less(b.sortValue, a.sortValue)
  }

  ghost predicate SameTypes(nodes: seq<Node>) {
    forall a, b :: a in nodes && b in nodes ==> SameType(a.sortValue, b.sortValue)
  }

  lemma NodesComparable(nodes: seq<Node>)
    requires SameTypes(nodes)
    ensures Comparable(NotAfter, nodes)
  {
    forall a, b | a in nodes && b in nodes ensures NotAfter(a, b) || NotAfter(b, a) {
      if a.sortValue.StringValue? {
        StringLeTotal(a.sortValue.s, b.sortValue.s);
      }
    }
    forall a, b, c | a in nodes && b in nodes && c in nodes && NotAfter(a, b) && NotAfter(b, c) ensures NotAfter(a, c) {
      if a.sortValue.StringValue? {
        StringLeTransitive(a.sortValue.s, b.sortValue.s, c.sortValue.s);
      }
    }
  }

  // ----- Who belongs where -----

  /** Nodes whose parent is named in `ids`. An empty parent ID names nobody. */
  function ParentIn(ids: set<string>): Node -> bool {
    (m: Node) => m.parentId != "" && m.parentId in ids
  }

  function ParentNotIn(ids: set<string>): Node -> bool {
    (m: Node) => m.parentId == "" || m.parentId !in ids
  }

  function Ids(nodes: seq<Node>): set<string> {
    set n | n in nodes :: n.id
  }

  ghost predicate UniqueIds(nodes: seq<Node>) {
    forall i, j :: 0 <= i < j < |nodes| ==> nodes[i].id != nodes[j].id
  }

  function Kids(nodes: seq<Node>, n: Node): seq<Node> {
    Filter(nodes, ParentIn({n.id}))
  }

  function Roots(nodes: seq<Node>): seq<Node> {
    Filter(nodes, ParentNotIn(Ids(nodes)))
  }

  // ----- Acyclic parent relations -----

  /** Each node with its parent, if that is among the nodes. */
  ghost function ParentGraph(nodes: seq<Node>): (g: Graph)
    requires UniqueIds(nodes)
    ensures g.Keys == Ids(nodes)
    ensures forall n :: n in nodes ==> g[n.id] == if ParentIn(Ids(nodes))(n) then [n.parentId] else []
  {
    map n | n in nodes :: n.id := if ParentIn(Ids(nodes))(n) then [n.parentId] else []
  }

  /** `order` lists every node after its parent. */
  ghost predicate ParentsFirst(nodes: seq<Node>, order: seq<string>) {
    && NoDup(order)
    && (forall n :: n in nodes ==> n.id in order)
    && (forall m, n :: m in nodes && n in nodes && ParentIn({n.id})(m) ==> Index(order, n.id) < Index(order, m.id))
  }

  /** An acyclic parent relation admits such a list. */
  lemma AcyclicHasParentsFirst(nodes: seq<Node>) returns (order: seq<string>)
    requires UniqueIds(nodes) && !HasCycle(ParentGraph(nodes))
    ensures ParentsFirst(nodes, order)
  {
    var g := ParentGraph(nodes);
    ParentGraphIsClosed(nodes);
    order := AcyclicHasOrder(g, []);
    forall m, n | m in nodes && n in nodes && ParentIn({n.id})(m) ensures Index(order, n.id) < Index(order, m.id) {
      ParentComesFirst(nodes, order, m, n);
    }
  }

  lemma ParentGraphIsClosed(nodes: seq<Node>)
    requires UniqueIds(nodes)
    ensures Closed(ParentGraph(nodes))
  {
    var g := ParentGraph(nodes);
    forall a, b | Edge(g, a, b) ensures b in g {
      var n :| n in nodes && n.id == a;
      assert b in g[n.id];
    }
  }

  lemma ParentComesFirst(nodes: seq<Node>, order: seq<string>, m: Node, n: Node)
    requires UniqueIds(nodes) && DependenciesFirst(ParentGraph(nodes), order) && NoDup(order)
    requires m in nodes && n in nodes && m.id in order && n.id in order && ParentIn({n.id})(m)
    ensures Index(order, n.id) < Index(order, m.id)
  {
    var g := ParentGraph(nodes);
    assert n.id in Ids(nodes);
    assert g[m.id] == [n.id];
    assert Edge(g, order[Index(order, m.id)], n.id);
    var i :| 0 <= i < Index(order, m.id) && order[i] == n.id;
  }

  // ----- When the recursive sort ends -----

  /** Nested calls of sortChildrenGeneric, by position: each node is a child of the one before. */
  ghost predicate IsChain(nodes: seq<Node>, c: seq<nat>) {
    && (forall k :: 0 <= k < |c| ==> c[k] < |nodes|)
    && (forall k :: 0 < k < |c| ==> nodes[c[k]] in Kids(nodes, nodes[c[k - 1]]))
  }

  ghost predicate HasChain(nodes: seq<Node>, n: nat) {
    exists c :: IsChain(nodes, c) && |c| == n
  }

  /** Every node on a cycle of parents has a child on it. */
  lemma ChildOnCycle(nodes: seq<Node>, p: seq<string>, i: nat) returns (parent: nat, child: nat)
    requires UniqueIds(nodes) && IsCycle(ParentGraph(nodes), p) && 0 < i < |p|
    ensures parent < |nodes| && child < |nodes| && nodes[child] in Kids(nodes, nodes[parent])
    ensures nodes[parent].id == p[i] && nodes[child].id == p[i - 1]
  {
    var g := ParentGraph(nodes);
    assert Edge(g, p[i - 1], p[i]);
    child :| child < |nodes| && nodes[child].id == p[i - 1];
    ParentGraphIsClosed(nodes);
    parent :| parent < |nodes| && nodes[parent].id == p[i];
    assert nodes[child] in nodes;
    assert g[nodes[child].id] == [nodes[parent].id];
  }

  /** Following a cycle of parents backwards, the calls nest as deeply as one likes. */
  lemma {:induction false} CycleHasChain(nodes: seq<Node>, p: seq<string>, n: nat) returns (c: seq<nat>, i: nat)
    requires UniqueIds(nodes) && IsCycle(ParentGraph(nodes), p)
    ensures IsChain(nodes, c) && |c| == n + 1 && i < |p| - 1 && nodes[c[n]].id == p[i]
    decreases n
  {
    if n == 0 {
      var parent, child := ChildOnCycle(nodes, p, 1);
      c, i := [child], 0;
    } else {
      var shorter, j := CycleHasChain(nodes, p, n - 1);
      var child, k := NextOnCycle(nodes, p, shorter, j);
      c, i := shorter + [child], k;
    }
  }

  lemma NextOnCycle(nodes: seq<Node>, p: seq<string>, c: seq<nat>, j: nat) returns (child: nat, k: nat)
    requires UniqueIds(nodes) && IsCycle(ParentGraph(nodes), p) && IsChain(nodes, c) && c != []
    requires j < |p| - 1 && nodes[c[|c| - 1]].id == p[j]
    ensures child < |nodes| && k < |p| - 1 && nodes[child].id == p[k] && IsChain(nodes, c + [child])
  {
    var i := if j == 0 then |p| - 1 else j;
    var parent;
    parent, child := ChildOnCycle(nodes, p, i);
    k := i - 1;
    SamePosition(nodes, parent, c[|c| - 1]);
    LongerChain(nodes, c, child);
  }

  lemma SamePosition(nodes: seq<Node>, i: nat, j: nat)
    requires UniqueIds(nodes) && i < |nodes| && j < |nodes| && nodes[i].id == nodes[j].id
    ensures i == j
  {
  }

  lemma LongerChain(nodes: seq<Node>, c: seq<nat>, child: nat)
    requires IsChain(nodes, c) && c != [] && child < |nodes|
    requires nodes[child] in Kids(nodes, nodes[c[|c| - 1]])
    ensures IsChain(nodes, c + [child])
  {
  }

  /** Parents first: along a chain the positions in the order grow. */
  lemma {:induction false} ChainIsShort(nodes: seq<Node>, order: seq<string>, c: seq<nat>)
    requires ParentsFirst(nodes, order) && IsChain(nodes, c) && c != []
    ensures nodes[c[|c| - 1]].id in order && Index(order, nodes[c[|c| - 1]].id) >= |c| - 1
    decreases |c|
  {
    if |c| > 1 {
      var n := |c| - 1;
      assert nodes[c[n]] in Kids(nodes, nodes[c[n - 1]]);
      ChainIsShort(nodes, order, c[..n]);
    }
  }

  /** The nesting of the recursive sort is unbounded exactly when some node is its own ancestor. */
  lemma SortNestsEndlesslyIff(nodes: seq<Node>)
    requires UniqueIds(nodes)
    ensures (forall n: nat :: HasChain(nodes, n)) <==> HasCycle(ParentGraph(nodes))
  {
    if HasCycle(ParentGraph(nodes)) {
      var p :| IsCycle(ParentGraph(nodes), p);
      forall n: nat ensures HasChain(nodes, n) {
        var c, i := CycleHasChain(nodes, p, n);
        assert IsChain(nodes, c[..n]);
      }
    } else {
      var order := AcyclicHasParentsFirst(nodes);
      if HasChain(nodes, |order| + 1) {
        var c :| IsChain(nodes, c) && |c| == |order| + 1;
        ChainIsShort(nodes, order, c);
      }
    }
  }

  // ----- The forest, flattened -----

  ghost function MinIndex(order: seq<string>, ns: seq<Node>): (k: nat)
    requires forall n :: n in ns ==> n.id in order
    ensures k <= |order| && forall n :: n in ns ==> k <= Index(order, n.id)
    ensures k == |order| || exists n :: n in ns && Index(order, n.id) == k
  {
    if ns == [] then |order|
    else
      var rest := MinIndex(order, ns[1..]);
      if Index(order, ns[0].id) < rest then Index(order, ns[0].id) else rest
  }

  /** A node followed by its descendants, as a walk over the children lists meets them. */
  ghost function Subtree(nodes: seq<Node>, order: seq<string>, n: Node): seq<Node>
    requires ParentsFirst(nodes, order) && n in nodes
    decreases |order| - Index(order, n.id), 0
  {
    [n] + Subtrees(nodes, order, Kids(nodes, n))
  }

  ghost function Subtrees(nodes: seq<Node>, order: seq<string>, ns: seq<Node>): seq<Node>
    requires ParentsFirst(nodes, order) && forall n :: n in ns ==> n in nodes
    decreases |order| - MinIndex(order, ns), |ns|
  {
    if ns == [] then []
    else
      Subtree(nodes, order, ns[0]) + Subtrees(nodes, order, ns[1..])
  }

  /** How often `t` occurs in the subtrees of `ns`. */
  ghost function Occurs(nodes: seq<Node>, order: seq<string>, ns: seq<Node>, t: Node): nat
    requires ParentsFirst(nodes, order) && forall n :: n in ns ==> n in nodes
  {
    multiset(Subtrees(nodes, order, ns))[t]
  }

  /** The same below the nodes of `ns` only. */
  ghost function OccursBelow(nodes: seq<Node>, order: seq<string>, ns: seq<Node>, t: Node): nat
    requires ParentsFirst(nodes, order) && forall n :: n in ns ==> n in nodes
  {
    if ns == [] then 0
    else Occurs(nodes, order, Kids(nodes, ns[0]), t) + OccursBelow(nodes, order, ns[1..], t)
  }

  lemma OccursCons(nodes: seq<Node>, order: seq<string>, n: Node, ns: seq<Node>, t: Node)
    requires ParentsFirst(nodes, order) && n in nodes && forall m :: m in ns ==> m in nodes
    ensures Occurs(nodes, order, [n] + ns, t) == Occurs(nodes, order, [n], t) + Occurs(nodes, order, ns, t)
  {
    assert ([n] + ns)[1..] == ns;
    assert [n][1..] == [];
    assert Subtrees(nodes, order, [n]) == Subtree(nodes, order, n) + [];
  }

  lemma OccursOne(nodes: seq<Node>, order: seq<string>, n: Node, t: Node)
    requires ParentsFirst(nodes, order) && n in nodes
    ensures Occurs(nodes, order, [n], t) == multiset([n])[t] + Occurs(nodes, order, Kids(nodes, n), t)
  {
    assert [n][1..] == [];
    assert Subtrees(nodes, order, [n]) == Subtree(nodes, order, n) + [];
  }

  lemma {:induction false} OccursAtOrBelow(nodes: seq<Node>, order: seq<string>, ns: seq<Node>, t: Node)
    requires ParentsFirst(nodes, order) && forall n :: n in ns ==> n in nodes
    ensures Occurs(nodes, order, ns, t) == multiset(ns)[t] + OccursBelow(nodes, order, ns, t)
  {
    if ns != [] {
      assert ns == [ns[0]] + ns[1..];
      OccursCons(nodes, order, ns[0], ns[1..], t);
      OccursOne(nodes, order, ns[0], t);
      OccursAtOrBelow(nodes, order, ns[1..], t);
    }
  }

  /** Every node has at most one parent: the kids of disjoint parents are counted apart. */
  lemma {:induction false} SplitByParent(nodes: seq<Node>, order: seq<string>, all: seq<Node>, a: set<string>,
                                         b: set<string>, t: Node)
    requires ParentsFirst(nodes, order) && forall n :: n in all ==> n in nodes
    requires a !! b
    ensures Occurs(nodes, order, Filter(all, ParentIn(a + b)), t)
         == Occurs(nodes, order, Filter(all, ParentIn(a)), t) + Occurs(nodes, order, Filter(all, ParentIn(b)), t)
  {
    if all != [] {
      var n, rest := all[0], all[1..];
      SplitByParent(nodes, order, rest, a, b, t);
      OccursCons(nodes, order, n, Filter(rest, ParentIn(a + b)), t);
      OccursCons(nodes, order, n, Filter(rest, ParentIn(a)), t);
      OccursCons(nodes, order, n, Filter(rest, ParentIn(b)), t);
    }
  }

  lemma {:induction false} SplitRoots(nodes: seq<Node>, order: seq<string>, all: seq<Node>, ids: set<string>, t: Node)
    requires ParentsFirst(nodes, order) && forall n :: n in all ==> n in nodes
    ensures Occurs(nodes, order, all, t)
         == Occurs(nodes, order, Filter(all, ParentNotIn(ids)), t) + Occurs(nodes, order, Filter(all, ParentIn(ids)), t)
  {
    if all != [] {
      var n, rest := all[0], all[1..];
      assert all == [n] + rest;
      SplitRoots(nodes, order, rest, ids, t);
      OccursCons(nodes, order, n, rest, t);
      OccursCons(nodes, order, n, Filter(rest, ParentNotIn(ids)), t);
      OccursCons(nodes, order, n, Filter(rest, ParentIn(ids)), t);
    }
  }

  lemma {:induction false} KidsOfMany(nodes: seq<Node>, order: seq<string>, ns: seq<Node>, t: Node)
    requires ParentsFirst(nodes, order) && UniqueIds(ns) && forall n :: n in ns ==> n in nodes
    ensures OccursBelow(nodes, order, ns, t) == Occurs(nodes, order, Filter(nodes, ParentIn(Ids(ns))), t)
  {
    if ns == [] {
      NobodyIn(nodes);
      assert Ids(ns) == {};
    } else {
      var n, rest := ns[0], ns[1..];
      KidsOfMany(nodes, order, rest, t);
      assert Ids(ns) == {n.id} + Ids(rest);
      assert n.id !in Ids(rest);
      SplitByParent(nodes, order, nodes, {n.id}, Ids(rest), t);
    }
  }

  lemma {:induction false} NobodyIn(nodes: seq<Node>)
    ensures Filter(nodes, ParentIn({})) == []
  {
    if nodes != [] {
      NobodyIn(nodes[1..]);
    }
  }

  /**
   * Flattening the forest yields every node exactly once. Counting over all nodes: the
   * occurrences in all subtrees are those at the roots of the subtrees plus those in the
   * subtrees of all non-roots, and also those of all roots plus those of all non-roots.
   */
  lemma FlatteningIsPermutation(nodes: seq<Node>, order: seq<string>)
    requires ParentsFirst(nodes, order) && UniqueIds(nodes)
    ensures multiset(Subtrees(nodes, order, Roots(nodes))) == multiset(nodes)
  {
    var flat := Subtrees(nodes, order, Roots(nodes));
    forall t | t in flat || t in nodes ensures multiset(flat)[t] == multiset(nodes)[t] {
      EveryNodeOnce(nodes, order, t);
    }
    SameCounts(flat, nodes);
  }

  lemma EveryNodeOnce(nodes: seq<Node>, order: seq<string>, t: Node)
    requires ParentsFirst(nodes, order) && UniqueIds(nodes)
    ensures Occurs(nodes, order, Roots(nodes), t) == multiset(nodes)[t]
  {
    SplitRoots(nodes, order, nodes, Ids(nodes), t);
    OccursAtOrBelow(nodes, order, nodes, t);
    KidsOfMany(nodes, order, nodes, t);
  }

  // ----- The code -----

  /** sort.SliceStable on the given slice. */
  method SortInPlace(a: array<Node>)
    modifies a
    ensures a[..] == Sort(NotAfter, old(a[..]))
  {
    var sorted := Sort(NotAfter, a[..]);
    for i := 0 to a.Length
      invariant a[..i] == sorted[..i]
    {
      a[i] := sorted[i];
    }
  }

  lemma SortMembers(input: seq<Node>, sorted: seq<Node>)
    requires sorted == Sort(NotAfter, input)
    ensures forall n :: n in sorted <==> n in input
  {
    forall n ensures n in sorted <==> n in input {
      assert n in sorted <==> n in multiset(sorted);
    }
  }

  /** Lines 25-28. */
  method IndexNodes(nodes: seq<Node>) returns (nodeMap: map<string, Node>)
    requires UniqueIds(nodes)
    ensures IsIndex(nodes, nodeMap)
  {
    nodeMap := map[];
    for i := 0 to |nodes|
      invariant nodeMap.Keys == set k | 0 <= k < i :: nodes[k].id
      invariant forall k :: 0 <= k < i ==> nodes[k].id in nodeMap && nodeMap[nodes[k].id] == nodes[k]
      invariant forall id :: id in nodeMap ==> nodeMap[id] in nodes && nodeMap[id].id == id
    {
      nodeMap := nodeMap[nodes[i].id := nodes[i]];
    }
  }

  lemma AttachStep(nodes: seq<Node>, i: nat)
    requires i < |nodes|
    ensures Filter(nodes[..i + 1], ParentNotIn(Ids(nodes)))
         == Filter(nodes[..i], ParentNotIn(Ids(nodes))) + if ParentNotIn(Ids(nodes))(nodes[i]) then [nodes[i]] else []
    ensures forall n :: n in nodes ==>
      Filter(nodes[..i + 1], ParentIn({n.id}))
      == Filter(nodes[..i], ParentIn({n.id}))
         + if nodes[i].parentId != "" && nodes[i].parentId == n.id then [nodes[i]] else []
  {
    assert nodes[..i + 1] == nodes[..i] + [nodes[i]];
    FilterSnoc(nodes[..i], nodes[i], ParentNotIn(Ids(nodes)));
    forall n | n in nodes
      ensures Filter(nodes[..i + 1], ParentIn({n.id}))
        == Filter(nodes[..i], ParentIn({n.id}))
         + if nodes[i].parentId != "" && nodes[i].parentId == n.id then [nodes[i]] else []
    {
      FilterSnoc(nodes[..i], nodes[i], ParentIn({n.id}));
    }
  }

  ghost predicate IsIndex(nodes: seq<Node>, nodeMap: map<string, Node>) {
    && nodeMap.Keys == Ids(nodes)
    && (forall n :: n in nodes ==> nodeMap[n.id] == n)
    && (forall id :: id in nodeMap ==> nodeMap[id] in nodes && nodeMap[id].id == id)
  }

  /** Lines 32-40 for one node: to the roots, or to the end of its parent's children. */
  method AttachOne(nodes: seq<Node>, nodeMap: map<string, Node>, node: Node, roots0: seq<Node>)
    returns (roots: seq<Node>)
    requires IsIndex(nodes, nodeMap)
    modifies nodes
    ensures roots == roots0 + if ParentNotIn(Ids(nodes))(node) then [node] else []
    ensures forall n :: n in nodes ==>
      n.children == old(n.children) + if node.parentId != "" && node.parentId == n.id then [node] else []
  {
    roots := roots0;
    if node.parentId == "" {
      roots := roots + [node];
    } else if node.parentId in nodeMap {
      var parent := nodeMap[node.parentId];
      parent.children := parent.children + [node];
    } else {
      roots := roots + [node];
    }
  }

  /** Lines 30-41. */
  method Attach(nodes: seq<Node>, nodeMap: map<string, Node>) returns (roots: seq<Node>)
    requires IsIndex(nodes, nodeMap)
    modifies nodes
    ensures roots == Roots(nodes)
    ensures forall n :: n in nodes ==> n.children == old(n.children) + Kids(nodes, n)
  {
    roots := [];
    for i := 0 to |nodes|
      invariant roots == Filter(nodes[..i], ParentNotIn(Ids(nodes)))
      invariant forall n :: n in nodes ==> n.children == old(n.children) + Filter(nodes[..i], ParentIn({n.id}))
    {
      AttachStep(nodes, i);
      roots := AttachOne(nodes, nodeMap, nodes[i], roots);
      forall n | n in nodes ensures n.children == old(n.children) + Filter(nodes[..i + 1], ParentIn({n.id})) {
        Regroup(old(n.children), Filter(nodes[..i], ParentIn({n.id})),
                if nodes[i].parentId != "" && nodes[i].parentId == n.id then [nodes[i]] else []);
      }
    }
    assert nodes[..|nodes|] == nodes;
  }

  /** These are children lists without cycles: children come later in `order`, and siblings can be compared. */
  ghost predicate IsForestOf(kids: map<Node, seq<Node>>, order: seq<string>) {
    && (forall n :: n in kids ==> n.id in order && Comparable(NotAfter, kids[n]))
    && (forall n, m :: n in kids && m in kids[n] ==> m in kids && Index(order, n.id) < Index(order, m.id))
  }

  ghost predicate IsSorted(kids: map<Node, seq<Node>>, n: Node)
    requires n in kids
    reads n
  {
    n.children == Sort(NotAfter, kids[n])
  }

  /** Every node has its list of children, sorted or as it was. */
  ghost predicate HaveChildren(kids: map<Node, seq<Node>>)
    reads kids.Keys
  {
    forall n :: n in kids ==> n.children == kids[n] || IsSorted(kids, n)
  }

  /** `n` and all that is below it. */
  ghost function Below(kids: map<Node, seq<Node>>, order: seq<string>, n: Node): set<Node>
    requires IsForestOf(kids, order) && n in kids
    decreases |order| - Index(order, n.id)
  {
    {n} + set m, x | m in kids[n] && x in Below(kids, order, m) :: x
  }

  /** Sorting is done after one time. */
  lemma {:induction false} SortTwice(s: seq<Node>)
    requires Comparable(NotAfter, s)
    ensures Sort(NotAfter, Sort(NotAfter, s)) == Sort(NotAfter, s)
  {
    SortSorted(NotAfter, s);
    SortOfSorted(NotAfter, Sort(NotAfter, s));
  }

  ghost predicate AreSorted(kids: map<Node, seq<Node>>, done: set<Node>)
    reads kids.Keys
  {
    forall n :: n in done ==> n in kids && IsSorted(kids, n)
  }

  /** All that is below the first `i` children is among `done`. */
  ghost predicate IsDone(kids: map<Node, seq<Node>>, order: seq<string>, children: seq<Node>, i: nat, done: set<Node>)
    requires IsForestOf(kids, order)
  {
    forall j :: 0 <= j < i && j < |children| ==> children[j] in kids && Below(kids, order, children[j]) <= done
  }

  lemma OneChildMore(kids: map<Node, seq<Node>>, order: seq<string>, children: seq<Node>, i: nat, done: set<Node>)
    requires IsForestOf(kids, order) && IsDone(kids, order, children, i, done) && i < |children| && children[i] in kids
    ensures IsDone(kids, order, children, i + 1, done + Below(kids, order, children[i]))
  {
  }

  lemma BelowIsDone(kids: map<Node, seq<Node>>, order: seq<string>, n: Node, children: seq<Node>, done: set<Node>)
    requires IsForestOf(kids, order) && n in kids && n in done && multiset(children) == multiset(kids[n])
    requires IsDone(kids, order, children, |children|, done)
    ensures Below(kids, order, n) <= done
  {
    forall m | m in kids[n] ensures m in kids && Below(kids, order, m) <= done {
      assert m in multiset(children);
    }
  }

  lemma StepDown(kids: map<Node, seq<Node>>, order: seq<string>, n: Node, children: seq<Node>, m: Node)
    requires IsForestOf(kids, order) && n in kids && multiset(children) == multiset(kids[n]) && m in children
    ensures m in kids && Index(order, n.id) < Index(order, m.id)
  {
    assert m in multiset(children);
  }

  /** Lines 53-57. */
  method SortOwn(node: Node, ghost kids: map<Node, seq<Node>>, ghost order: seq<string>, ghost before: set<Node>)
    returns (children: seq<Node>)
    requires IsForestOf(kids, order) && HaveChildren(kids) && node in kids && AreSorted(kids, before)
    modifies node
    ensures HaveChildren(kids) && AreSorted(kids, before + {node})
    ensures multiset(children) == multiset(kids[node])
  {
    SortTwice(kids[node]);
    children := Sort(NotAfter, node.children);
    node.children := children;
  }

  /**
   * sortChildrenGeneric: without cycles it ends; everything from the node downwards is
   * sorted then, and what was sorted before stays so.
   */
  method SortChildren(node: Node, ghost kids: map<Node, seq<Node>>, ghost order: seq<string>, ghost before: set<Node>)
    requires IsForestOf(kids, order) && HaveChildren(kids) && node in kids && AreSorted(kids, before)
    modifies kids.Keys
    ensures HaveChildren(kids) && AreSorted(kids, before + Below(kids, order, node))
    decreases |order| - Index(order, node.id)
  {
    var children := SortOwn(node, kids, order, before);
    ghost var done := before + {node};
    for i := 0 to |children|
      invariant HaveChildren(kids) && AreSorted(kids, done) && before + {node} <= done
      invariant IsDone(kids, order, children, i, done)
    {
      StepDown(kids, order, node, children, children[i]);
      SortChildren(children[i], kids, order, done);
      OneChildMore(kids, order, children, i, done);
      done := done + Below(kids, order, children[i]);
    }
    BelowIsDone(kids, order, node, children, done);
  }

  /** What the initial sort means for the later steps. */
  ghost predicate IsPrepared(sorted: seq<Node>, order: seq<string>) {
    && SameTypes(sorted) && UniqueIds(sorted)
    && ParentsFirst(sorted, order)
    && (forall n :: n in sorted ==> Sorted(NotAfter, Kids(sorted, n)))
  }

  lemma {:induction false} KidsOfSorted(input: seq<Node>, n: Node)
    requires SameTypes(input)
    ensures var sorted := Sort(NotAfter, input);
      Kids(sorted, n) == Sort(NotAfter, Kids(input, n)) && Sorted(NotAfter, Kids(sorted, n))
  {
    NodesComparable(input);
    FilterSort(NotAfter, input, ParentIn({n.id}));
    SortSorted(NotAfter, Kids(input, n));
  }

  lemma RootsOfSorted(input: seq<Node>)
    requires SameTypes(input)
    ensures Roots(Sort(NotAfter, input)) == Sort(NotAfter, Roots(input))
  {
    NodesComparable(input);
    assert Ids(Sort(NotAfter, input)) == Ids(input);
    FilterSort(NotAfter, input, ParentNotIn(Ids(input)));
  }

  lemma SortingPrepares(input: seq<Node>, sorted: seq<Node>, order: seq<string>)
    requires SameTypes(input) && UniqueIds(input) && ParentsFirst(input, order)
    requires sorted == Sort(NotAfter, input)
    ensures IsPrepared(sorted, order)
  {
    SortKeepsUniqueIds(input);
    forall n | n in sorted ensures Sorted(NotAfter, Kids(sorted, n)) {
      KidsOfSorted(input, n);
    }
  }

  lemma SortKeepsUniqueIds(input: seq<Node>)
    requires UniqueIds(input)
    ensures UniqueIds(Sort(NotAfter, input))
  {
    var sorted := Sort(NotAfter, input);
    PermutationKeepsNoDup(input, sorted);
    forall i, j | 0 <= i < j < |sorted| ensures sorted[i].id != sorted[j].id {
      assert sorted[i] in input && sorted[j] in input;
      var a :| 0 <= a < |input| && input[a] == sorted[i];
      var b :| 0 <= b < |input| && input[b] == sorted[j];
      assert a != b;
    }
  }

  /** What BuildTree asks for: comparable sort values, unique IDs, and no node its own ancestor. */
  ghost predicate CanBuild(input: seq<Node>) {
    SameTypes(input) && UniqueIds(input) && !HasCycle(ParentGraph(input))
  }

  /**
   * What BuildTree returns: the roots and every node's children are the input nodes that
   * belong there, stably sorted; walking the forest meets every node exactly once.
   */
  ghost predicate IsForest(input: seq<Node>, sorted: seq<Node>, order: seq<string>, roots: seq<Node>)
    reads input
  {
    && sorted == Sort(NotAfter, input)
    && roots == Sort(NotAfter, Roots(input))
    && (forall n :: n in input ==> n.children == Sort(NotAfter, Kids(input, n)) == Kids(sorted, n))
    && ParentsFirst(sorted, order)
    && (forall n :: n in roots ==> n in sorted)
    && multiset(Subtrees(sorted, order, roots)) == multiset(input)
  }

  /** Ascending sort values; strings ascend in lexicographic order. */
  ghost predicate ValuesAscend(ns: seq<Node>) {
    forall i, j :: 0 <= i < j < |ns| ==>
      && (ns[i].sortValue.IntValue? && ns[j].sortValue.IntValue? ==> ns[i].sortValue.i <= ns[j].sortValue.i)
      && (ns[i].sortValue.Int64Value? && ns[j].sortValue.Int64Value? ==> ns[i].sortValue.i64 <= ns[j].sortValue.i64)
      && (ns[i].sortValue.FloatValue? && ns[j].sortValue.FloatValue? ==> ns[i].sortValue.f <= ns[j].sortValue.f)
      && (ns[i].sortValue.StringValue? && ns[j].sortValue.StringValue? ==>
            StringLe(ns[i].sortValue.s, ns[j].sortValue.s))
  }

  lemma SortedAscends(ns: seq<Node>)
    requires Sorted(NotAfter, ns)
    ensures ValuesAscend(ns)
  {
    forall i, j | 0 <= i < j < |ns|
      ensures NotAfter(ns[i], ns[j])
    {
    }
  }

  lemma SortAscends(ns: seq<Node>, all: seq<Node>)
    requires SameTypes(all) && forall n :: n in ns ==> n in all
    ensures ValuesAscend(Sort(NotAfter, ns))
  {
    NodesComparable(ns);
    SortSorted(NotAfter, ns);
    SortedAscends(Sort(NotAfter, ns));
  }

  /**
   * What a forest is, node by node: the roots are the nodes without a parent among the nodes,
   * the children of a node are the nodes that name it, and both ascend by their sort values.
   */
  lemma ForestMeans(input: seq<Node>, sorted: seq<Node>, order: seq<string>, roots: seq<Node>)
    requires SameTypes(input) && IsForest(input, sorted, order, roots)
    ensures ValuesAscend(roots)
    ensures forall n :: n in roots <==>
      n in input && (n.parentId == "" || forall m :: m in input ==> m.id != n.parentId)
    ensures forall n :: n in input ==> ValuesAscend(n.children)
    ensures forall n, m :: n in input ==>
      (m in n.children <==> m in input && m.parentId != "" && m.parentId == n.id)
  {
    SortAscends(Roots(input), input);
    forall n | n in input
      ensures ValuesAscend(n.children)
      ensures forall m :: m in n.children <==> m in input && m.parentId != "" && m.parentId == n.id
    {
      SortAscends(Kids(input, n), input);
    }
  }

  /** BuildTree. The order of the range over the node map is arbitrary; `footprint` is the set of the nodes. */
  method BuildTree(nodes: array<Node>, ghost footprint: set<Node>) returns (roots: seq<Node>, ghost order: seq<string>)
    requires CanBuild(nodes[..]) && forall n :: n in nodes[..] <==> n in footprint
    requires forall n :: n in footprint ==> n.children == []
    modifies nodes, footprint
    ensures IsForest(old(nodes[..]), nodes[..], order, roots)
  {
    ghost var input := nodes[..];
    SortInPlace(nodes);
    var sorted := nodes[..];
    SortMembers(input, sorted);
    roots, order := BuildSorted(sorted, input, footprint);
    assert nodes[..] == sorted;
  }

  method BuildSorted(sorted: seq<Node>, ghost input: seq<Node>, ghost footprint: set<Node>)
    returns (roots: seq<Node>, ghost order: seq<string>)
    requires CanBuild(input) && sorted == Sort(NotAfter, input)
    requires forall n :: n in sorted ==> n.children == [] && n in footprint
    modifies footprint
    ensures IsForest(input, sorted, order, roots)
  {
    order := AcyclicHasParentsFirst(input);
    SortingPrepares(input, sorted, order);
    roots := Assemble(sorted, order, footprint);
    AssembledIsForest(input, sorted, order, roots);
  }

  lemma AssembledIsForest(input: seq<Node>, sorted: seq<Node>, order: seq<string>, roots: seq<Node>)
    requires SameTypes(input) && sorted == Sort(NotAfter, input) && IsPrepared(sorted, order)
    requires roots == Roots(sorted)
    requires forall n :: n in sorted ==> n.children == Kids(sorted, n)
    ensures IsForest(input, sorted, order, roots)
  {
    RootsOfSorted(input);
    FlatteningIsPermutation(sorted, order);
    forall n | n in input ensures n.children == Sort(NotAfter, Kids(input, n)) == Kids(sorted, n) {
      KidsOfSorted(input, n);
    }
  }

  ghost function AllKids(nodes: seq<Node>): map<Node, seq<Node>> {
    map n | n in nodes :: Kids(nodes, n)
  }

  lemma KidsAreForest(sorted: seq<Node>, order: seq<string>)
    requires IsPrepared(sorted, order)
    ensures IsForestOf(AllKids(sorted), order)
    ensures forall n :: n in sorted ==> Sort(NotAfter, AllKids(sorted)[n]) == Kids(sorted, n)
  {
    forall n | n in sorted
      ensures Comparable(NotAfter, Kids(sorted, n)) && Sort(NotAfter, Kids(sorted, n)) == Kids(sorted, n)
    {
      NodesComparable(Kids(sorted, n));
      SortOfSorted(NotAfter, Kids(sorted, n));
    }
  }

  /** Lines 25-46, on the sorted nodes. */
  method Assemble(sorted: seq<Node>, ghost order: seq<string>, ghost footprint: set<Node>) returns (roots: seq<Node>)
    requires IsPrepared(sorted, order)
    requires forall n :: n in sorted ==> n.children == [] && n in footprint
    modifies footprint
    ensures roots == Roots(sorted)
    ensures forall n :: n in sorted ==> n.children == Kids(sorted, n)
  {
    var nodeMap := IndexNodes(sorted);
    roots := AttachAll(sorted, nodeMap, footprint);
    KidsAreForest(sorted, order);
    SortAll(nodeMap, AllKids(sorted), order);
  }

  method AttachAll(nodes: seq<Node>, nodeMap: map<string, Node>, ghost footprint: set<Node>) returns (roots: seq<Node>)
    requires IsIndex(nodes, nodeMap)
    requires forall n :: n in nodes ==> n.children == [] && n in footprint
    modifies footprint
    ensures roots == Roots(nodes) && HaveChildren(AllKids(nodes))
  {
    roots := Attach(nodes, nodeMap);
    assert forall n :: n in nodes ==> [] + Kids(nodes, n) == Kids(nodes, n);
  }

  /** Lines 44-46. */
  method SortAll(nodeMap: map<string, Node>, ghost kids: map<Node, seq<Node>>, ghost order: seq<string>)
    requires IsForestOf(kids, order) && HaveChildren(kids) && nodeMap.Values == kids.Keys
    modifies kids.Keys
    ensures AreSorted(kids, kids.Keys)
  {
    var todo := nodeMap.Keys;
    ghost var done: set<Node> := {};
    while todo != {}
      invariant todo <= nodeMap.Keys && HaveChildren(kids) && AreSorted(kids, done)
      invariant forall id :: id in nodeMap && id !in todo ==> nodeMap[id] in done
    {
      var id :| id in todo;
      todo := todo - {id};
      SortChildren(nodeMap[id], kids, order, done);
      done := done + Below(kids, order, nodeMap[id]);
    }
    assert kids.Keys <= done;
  }
}
