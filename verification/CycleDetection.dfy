/** The three-colour depth-first search of extension/registry/registry.go. */
module CycleDetection {
  import opened Common
  import opened DependencyGraph

  datatype Mark = NotVisited | Visiting | Visited

  /** The state that the recursive closure captures: visited, path and cycles. */
  class Search {
    const graph: Graph
    var visited: map<string, Mark>
    var path: seq<string>
    var cycles: seq<(string, string)>
    /** The fully visited nodes in the order in which their visits ended. */
    ghost var finished: seq<string>

    constructor (graph: Graph)
      ensures this.graph == graph && Valid()
      ensures visited == map[] && path == [] && cycles == [] && finished == []
    {
      this.graph := graph;
      visited, path, cycles, finished := map[], [], [], [];
    }

    function MarkOf(n: string): Mark
      reads this
    {
      if n in visited then visited[n] else NotVisited
    }

    /** The path is the grey stack; what is fully visited lists its dependencies first. */
    ghost predicate Valid()
      reads this
    {
      && (forall n :: n in visited ==> visited[n] != NotVisited)
      && (forall n :: n in path <==> MarkOf(n) == Visiting)
      && (forall n :: n in finished <==> MarkOf(n) == Visited)
      && (path != [] ==> IsPath(graph, path))
      && NoDup(path)
      && DependenciesFirst(graph, finished)
    }

    /** Lines 99-101: colour the node grey and push it. */
    method Enter(node: string)
      requires Valid() && MarkOf(node) == NotVisited
      requires path != [] ==> Edge(graph, path[|path| - 1], node)
      modifies this`visited, this`path
      ensures Valid() && path == old(path) + [node] && visited.Keys == old(visited.Keys) + {node}
    {
      visited := visited[node := Visiting];
      path := path + [node];
    }

    /** Lines 117-119: pop the node and colour it black. */
    method Leave(node: string)
      requires Valid() && path != [] && path[|path| - 1] == node
      requires forall d :: Edge(graph, node, d) ==> d in finished
      modifies this`visited, this`path, this`finished
      ensures Valid() && path == old(path)[..|old(path)| - 1] && visited.Keys == old(visited.Keys)
      ensures finished == old(finished) + [node]
    {
      assert node in path;
      DependenciesFirstSnoc(graph, finished, node);
      path := path[..|path| - 1];
      visited := visited[node := Visited];
      finished := finished + [node];
      assert old(path) == path + [node];
      assert forall n :: n in old(path) <==> n in path || n == node;
      assert node !in path;
    }

    /** Lines 106-114: one dependency of the node on top of the stack. */
    method Visit(node: string, dep: string) returns (found: bool)
      requires Valid() && path != [] && path[|path| - 1] == node && Edge(graph, node, dep)
      modifies this
      ensures !found ==> Valid() && path == old(path) && cycles == old(cycles)
      ensures !found ==> dep in finished && old(finished) <= finished
      ensures old(visited.Keys) <= visited.Keys
      ensures found ==> exists a, b :: cycles == old(cycles) + [(a, b)] && EdgeOnCycle(graph, a, b)
      decreases Nodes(graph) - visited.Keys, 1
    {
      if MarkOf(dep) == NotVisited {
        NodesContainDeps(graph, node, dep);
        found := Dfs(dep);
      } else if MarkOf(dep) == Visiting {
        cycles := cycles + [(node, dep)];
        StackEdgeClosesCycle(graph, path, dep);
        found := true;
      } else {
        found := false;
      }
    }

    method Dfs(node: string) returns (found: bool)
      requires Valid() && MarkOf(node) == NotVisited && node in Nodes(graph)
      requires path != [] ==> Edge(graph, path[|path| - 1], node)
      modifies this
      ensures !found ==> Valid() && path == old(path) && cycles == old(cycles)
      ensures !found ==> node in finished && old(finished) <= finished
      ensures old(visited.Keys) <= visited.Keys
      ensures found ==> exists a, b :: cycles == old(cycles) + [(a, b)] && EdgeOnCycle(graph, a, b)
      decreases Nodes(graph) - visited.Keys, 0
    {
      Enter(node);
      found := VisitAll(node);
      if !found {
        Leave(node);
        assert path == old(path);
      }
    }

    /** Lines 104-115: the dependencies of the node on top of the stack. */
    method VisitAll(node: string) returns (found: bool)
      requires Valid() && path != [] && path[|path| - 1] == node
      modifies this
      ensures !found ==> Valid() && path == old(path) && cycles == old(cycles)
      ensures !found ==> old(finished) <= finished && forall d :: Edge(graph, node, d) ==> d in finished
      ensures old(visited.Keys) <= visited.Keys
      ensures found ==> exists a, b :: cycles == old(cycles) + [(a, b)] && EdgeOnCycle(graph, a, b)
      decreases Nodes(graph) - visited.Keys, 2
    {
      var deps := Deps(graph, node);
      for i := 0 to |deps|
        invariant Valid() && path == old(path) && cycles == old(cycles)
        invariant old(visited.Keys) <= visited.Keys && old(finished) <= finished
        invariant forall k :: 0 <= k < i ==> deps[k] in finished
      {
        found := Visit(node, deps[i]);
        if found {
          return;
        }
      }
      return false;
    }
  }

  /** All names that occur in the graph, as a node or as a dependency. */
  ghost function Nodes(g: Graph): set<string> {
    g.Keys + set n, d | n in g && d in g[n] :: d
  }

  lemma NodesContainDeps(g: Graph, n: string, d: string)
    requires Edge(g, n, d)
    ensures d in Nodes(g)
  {
  }

  /** An edge from the top of the grey stack back into the stack closes a cycle. */
  lemma StackEdgeClosesCycle(g: Graph, stack: seq<string>, dep: string)
    requires IsPath(g, stack) && dep in stack && Edge(g, stack[|stack| - 1], dep)
    ensures EdgeOnCycle(g, stack[|stack| - 1], dep)
  {
    var k :| 0 <= k < |stack| && stack[k] == dep;
    var p := stack[k..] + [dep];
    forall i | 0 < i < |p| ensures Edge(g, p[i - 1], p[i]) {
      if i < |p| - 1 {
        assert Edge(g, stack[k + i - 1], stack[k + i]);
      }
    }
    assert IsCycle(g, p);
  }

  /**
   * detectCircularDependencies. The range over the graph's keys takes them in an
   * arbitrary order. The reported message names one edge, here the pair of its ends.
   */
  method DetectCircularDependencies(graph: Graph) returns (hasCycles: bool, cycles: seq<(string, string)>)
    ensures hasCycles <==> HasCycle(graph)
    ensures !hasCycles ==> cycles == []
    ensures hasCycles ==> |cycles| == 1 && EdgeOnCycle(graph, cycles[0].0, cycles[0].1)
  {
    var search := new Search(graph);
    var todo := graph.Keys;
    while todo != {}
      invariant todo <= graph.Keys && search.graph == graph
      invariant search.Valid() && search.path == [] && search.cycles == []
      invariant forall n :: n in graph && n !in todo ==> n in search.finished
    {
      var node :| node in todo;
      todo := todo - {node};
      if search.MarkOf(node) == NotVisited {
        var found := search.Dfs(node);
        if found {
          return true, search.cycles;
        }
      }
    }
    forall p | IsCycle(graph, p) ensures false {
      CycleIsBlocked(graph, {}, p);
      assert search.finished[..|search.finished|] == search.finished;
      NoCycleThrough(graph, search.finished, p, |search.finished|);
    }
    return false, [];
  }
}
