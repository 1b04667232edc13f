/** The graph store the user interface builds and queries: undirected edge
    insertion, clearing, the three frontier searches and the cost
    accumulator, all over the one mutable adjacency map. */
module Store {
  import opened Graphs
  import opened Walks
  import opened Frontier
  import opened Costs
  import opened Loops
  import opened Ordering

  /** What a search hands back: a path, `null` (no path), or the TypeError
      raised when an expanded node has no adjacency list. */
  datatype SearchResult = Found(path: seq<string>) | NotFound | NotAKey

  /** The `for` loop over the neighbours of the expanded path's last node:
      appends the path extended by each neighbour not yet visited, in
      edge-list order. */
  method PushUnvisited(queue: seq<seq<string>>, path: seq<string>, neighbors: seq<Edge>, visited: set<string>)
    returns (queue': seq<seq<string>>)
    ensures queue' == queue + Successors(neighbors, path, visited)
  {
    queue' := queue;
    var k := 0;
    while k < |neighbors|
      invariant 0 <= k <= |neighbors|
      invariant queue' == queue + Successors(neighbors[..k], path, visited)
    {
      assert neighbors[..k + 1][..k] == neighbors[..k];
      if neighbors[k].to !in visited {
        queue' := queue' + [path + [neighbors[k].to]];
      }
      k := k + 1;
    }
    assert neighbors[..k] == neighbors;
  }

  /** The `for` loop over the neighbours in uniform-cost search: appends the
      path extended by each neighbour not yet visited, at the cost so far
      plus that edge's distance, in edge-list order. */
  method PushCosted(queue: seq<Entry>, path: seq<string>, cost: int, neighbors: seq<Edge>, visited: set<string>)
    returns (queue': seq<Entry>)
    ensures queue' == queue + SuccessorEntries(neighbors, path, cost, visited, ByWeight)
  {
    queue' := queue;
    var k := 0;
    while k < |neighbors|
      invariant 0 <= k <= |neighbors|
      invariant queue' == queue + SuccessorEntries(neighbors[..k], path, cost, visited, ByWeight)
    {
      assert neighbors[..k + 1][..k] == neighbors[..k];
      if neighbors[k].to !in visited {
        queue' := queue' + [Entry(path + [neighbors[k].to], cost + neighbors[k].distance)];
      }
      k := k + 1;
    }
    assert neighbors[..k] == neighbors;
  }

  class GraphStore {
    var adj: Graph

    /** Every record has its mirror record at the other end. */
    ghost predicate Valid()
      reads this
    {
      Symmetric(adj)
    }

    constructor ()
      ensures adj == map[] && Valid()
    {
      adj := map[];
    }

    /** Records the undirected edge `from`-`to`: creates missing adjacency
        lists, then appends one record at each end. */
    method AddPath(from: string, to: string, distance: int)
      modifies this
      ensures adj == WithPath(old(adj), from, to, distance)
      ensures old(Valid()) ==> Valid()
    {
      ghost var g0 := adj;
      ghost var w := WithPath(g0, from, to, distance);
      if from !in adj {
        adj := adj[from := []];
      }
      if to !in adj {
        adj := adj[to := []];
      }
      adj := adj[from := adj[from] + [Edge(to, distance)]];
      adj := adj[to := adj[to] + [Edge(from, distance)]];
      assert adj.Keys == w.Keys;
      forall u | u in adj ensures adj[u] == w[u] {
      }
      assert adj == w;
      if Symmetric(g0) {
        WithPathSymmetric(g0, from, to, distance);
      }
    }

    /** Deletes every key. */
    method Reset()
      modifies this
      ensures adj == map[] && Valid()
    {
      adj := map[];
    }

    /** Breadth-first search over a FIFO queue of partial paths. */
    method Bfs(start: string, end: string) returns (r: SearchResult)
      ensures start == end ==> r == Found([start])
      ensures start != end && start !in adj ==> r == NotAKey
      ensures r == NotAKey ==> start !in adj || !Closed(adj)
      ensures Valid() ==> (r == NotAKey <==> start != end && start !in adj)
      ensures r.Found? ==> IsWalk(adj, r.path) && r.path[0] == start && r.path[|r.path| - 1] == end
      ensures r.Found? ==> Distinct(r.path)
      ensures r.Found? ==> forall w :: IsWalk(adj, w) && w[0] == start && w[|w| - 1] == end ==> |r.path| <= |w|
      ensures r == NotFound ==> !Reachable(adj, start, end)
    {
      var g: Graph := adj;
      var queue: seq<seq<string>> := [[start]];
      var visited: set<string> := {};
      ghost var best: map<string, int> := map[];
      BfsStart(g, start, end);
      while queue != []
        invariant BfsLoop(g, start, end, visited, queue, best)
        decreases |g.Keys - visited|, |queue|
      {
        ghost var Q0 := queue;
        BfsHead(g, start, end, visited, Q0, best);
        var path := queue[0];
        queue := queue[1..];
        var current := path[|path| - 1];
        if current == end {
          BfsFound(g, start, end, visited, Q0, best);
          return Found(path);
        }
        if current !in visited {
          if current !in g {
            BfsMissing(g, start, end, visited, Q0, best);
            return NotAKey;
          }
          ghost var V0 := visited;
          visited := visited + {current};
          queue := PushUnvisited(queue, path, g[current], visited);
          BfsExpand(g, start, end, V0, Q0, best, queue);
          best := best[current := |path| - 1];
        } else {
          BfsDrop(g, start, end, visited, Q0, best);
        }
      }
      HopExhausted(g, start, end, visited, best, ByHops);
      return NotFound;
    }

    /** Depth-first search over a LIFO stack of partial paths. */
    method Dfs(start: string, end: string) returns (r: SearchResult)
      ensures start == end ==> r == Found([start])
      ensures start != end && start !in adj ==> r == NotAKey
      ensures r == NotAKey ==> start !in adj || !Closed(adj)
      ensures Valid() ==> (r == NotAKey <==> start != end && start !in adj)
      ensures r.Found? ==> IsWalk(adj, r.path) && r.path[0] == start && r.path[|r.path| - 1] == end
      ensures r.Found? ==> Distinct(r.path)
      ensures r == NotFound ==> !Reachable(adj, start, end)
      ensures DescentReaches(adj, start, end) ==> r == Found(Descent(adj, end, [start]))
    {
      var g: Graph := adj;
      var stack: seq<seq<string>> := [[start]];
      var visited: set<string> := {};
      ghost var best: map<string, int> := map[];
      ghost var d := Descent(g, end, [start]);
      ghost var depth: nat := 0;
      DfsStart(g, start, end, d);
      while stack != []
        invariant DfsLoop(g, start, end, d, visited, stack, best, depth)
        decreases |g.Keys - visited|, |stack|
      {
        ghost var Q0 := stack;
        DfsTop(g, start, end, d, visited, Q0, best, depth);
        var path := stack[|stack| - 1];
        stack := stack[..|stack| - 1];
        var current := path[|path| - 1];
        if current == end {
          DfsFound(g, start, end, d, visited, Q0, best, depth);
          return Found(path);
        }
        if current !in visited {
          if current !in g {
            DfsMissing(g, start, end, d, visited, Q0, best, depth);
            return NotAKey;
          }
          ghost var V0 := visited;
          visited := visited + {current};
          stack := PushUnvisited(stack, path, g[current], visited);
          DfsExpand(g, start, end, d, V0, Q0, best, depth, stack);
          best := best[current := |path| - 1];
          depth := depth + 1;
        } else {
          DfsDrop(g, start, end, d, visited, Q0, best, depth);
        }
      }
      DfsExhausted(g, start, end, d, visited, best, depth);
      return NotFound;
    }

    /** Uniform-cost search: before every extraction the frontier is sorted
        by accumulated cost (stably) and its head is taken. */
    method Ucs(start: string, end: string) returns (r: SearchResult)
      ensures start == end ==> r == Found([start])
      ensures start != end && start !in adj ==> r == NotAKey
      ensures r == NotAKey ==> start !in adj || !Closed(adj)
      ensures Valid() ==> (r == NotAKey <==> start != end && start !in adj)
      ensures r.Found? ==> IsWalk(adj, r.path) && r.path[0] == start && r.path[|r.path| - 1] == end
      ensures r.Found? ==> Distinct(r.path)
      ensures r.Found? ==> exists R :: IsRoute(adj, start, R) && Nodes(start, R) == r.path
                                       && (NonNegative(adj) ==> LeastDistance(adj, start, end, R))
      ensures r == NotFound ==> !Reachable(adj, start, end)
    {
      var g: Graph := adj;
      var queue: seq<Entry> := [Entry([start], 0)];
      var visited: set<string> := {};
      ghost var best: map<string, int> := map[];
      UcsStart(g, start, end);
      while queue != []
        invariant UcsLoop(g, start, end, visited, queue, best)
        decreases |g.Keys - visited|, |queue|
      {
        UcsSorted(g, start, end, visited, queue, best);
        queue := SortByCost(queue);
        ghost var S := queue;
        var entry := queue[0];
        queue := queue[1..];
        var path, cost := entry.path, entry.cost;
        var current := path[|path| - 1];
        if current == end {
          UcsFound(g, start, end, visited, S, best);
          return Found(path);
        }
        if current !in visited {
          if current !in g {
            UcsMissing(g, start, end, visited, S, best);
            return NotAKey;
          }
          ghost var V0 := visited;
          visited := visited + {current};
          queue := PushCosted(queue, path, cost, g[current], visited);
          UcsExpand(g, start, end, V0, S, best, queue);
          best := best[current := cost];
        } else {
          UcsDrop(g, start, end, visited, S, best);
        }
      }
      UcsExhausted(g, start, end, visited, best);
      return NotFound;
    }

    /** The total distance along `path`, taking for each consecutive pair the
        first edge record that leads on; it fails where the lookup does. */
    method CalculateDistance(path: seq<string>) returns (r: Distance)
      ensures r == PathCost(adj, path)
    {
      var distance := 0;
      var i := 0;
      while i < |path| - 1
        invariant 0 <= i && (i == 0 || i < |path|)
        invariant |path| > 0 ==> PathCost(adj, path[..i + 1]) == Total(distance)
        invariant |path| == 0 ==> distance == 0
      {
        var current := path[i];
        var next := path[i + 1];
        assert path[..i + 2][..i + 1] == path[..i + 1];
        if current !in adj {
          PathCostFailsOnward(adj, path, i + 2);
          return NoSuchEdge;
        }
        var k := FindEdge(adj[current], next);
        if k.None? {
          PathCostFailsOnward(adj, path, i + 2);
          return NoSuchEdge;
        }
        distance := distance + adj[current][k.value].distance;
        i := i + 1;
      }
      if |path| > 0 {
        assert path[..i + 1] == path;
      }
      return Total(distance);
    }
  }
}
