/** Walks, routes and their costs over an adjacency store: the vocabulary in
    which the searches and the cost accumulator are specified. */
module Walks {
  import opened Graphs

  /** A non-empty node sequence whose consecutive nodes are joined by an edge. */
  ghost predicate IsWalk(g: Graph, w: seq<string>)
  {
    |w| >= 1 && forall i :: 0 <= i < |w| - 1 ==> HasEdge(g, w[i], w[i + 1])
  }

  /** No node occurs twice. */
  ghost predicate Distinct(w: seq<string>)
  {
    forall i, j :: 0 <= i < j < |w| ==> w[i] != w[j]
  }

  /** The nodes of a path, as a set. */
  function Elems(p: seq<string>): set<string>
  {
    set x | x in p
  }

  /** Some walk leads from `s` to `t`. */
  ghost predicate Reachable(g: Graph, s: string, t: string)
  {
    exists w :: IsWalk(g, w) && w[0] == s && w[|w| - 1] == t
  }

  /** A route names the edge records it follows, so that parallel edges of
      different weight are told apart: it starts at `s` and takes `R` in order. */
  function End(s: string, R: seq<Edge>): string
  {
    if R == [] then s else R[|R| - 1].to
  }

  /** The nodes a route passes through. */
  function Nodes(s: string, R: seq<Edge>): (w: seq<string>)
    ensures |w| == |R| + 1 && w[0] == s && w[|R|] == End(s, R)
  {
    if R == [] then [s] else Nodes(s, R[..|R| - 1]) + [R[|R| - 1].to]
  }

  /** Every edge record of `R` is stored under the node the route is at. */
  ghost predicate IsRoute(g: Graph, s: string, R: seq<Edge>)
  {
    R == [] ||
    (IsRoute(g, s, R[..|R| - 1]) && End(s, R[..|R| - 1]) in g
     && R[|R| - 1] in g[End(s, R[..|R| - 1])])
  }

  /** What a search ranks its frontier by: hop count (breadth-first), summed
      distance (uniform-cost), or nothing (depth-first). */
  datatype Metric = ByHops | ByWeight | Unranked

  function Step(e: Edge, m: Metric): int
  {
    if m == ByWeight then e.distance else 1
  }

  /** The cost of a route under a metric. */
  function Cost(R: seq<Edge>, m: Metric): int
  {
    if R == [] then 0 else Cost(R[..|R| - 1], m) + Step(R[|R| - 1], m)
  }

  ghost predicate NonNegative(g: Graph)
  {
    forall u, k :: u in g && 0 <= k < |g[u]| ==> g[u][k].distance >= 0
  }

  /** The metric ranks routes and no step lowers a cost. */
  ghost predicate Ranked(g: Graph, m: Metric)
  {
    m == ByHops || (m == ByWeight && NonNegative(g))
  }

  /** No route from `s` to `t` is shorter (under the distances) than `R`. */
  ghost predicate LeastDistance(g: Graph, s: string, t: string, R: seq<Edge>)
  {
    forall R' :: IsRoute(g, s, R') && End(s, R') == t ==> Cost(R, ByWeight) <= Cost(R', ByWeight)
  }

  /** A set of nodes that no edge leaves. */
  ghost predicate Shut(g: Graph, V: set<string>)
  {
    forall u, k :: u in V && u in g && 0 <= k < |g[u]| ==> g[u][k].to in V
  }

  /** Every step of a route is a step of a walk. */
  lemma {:induction false} RouteIsWalk(g: Graph, s: string, R: seq<Edge>)
    requires IsRoute(g, s, R)
    ensures IsWalk(g, Nodes(s, R))
  {
    if R != [] {
      var P := R[..|R| - 1];
      RouteIsWalk(g, s, P);
      var u := End(s, P);
      var e := R[|R| - 1];
      var k :| 0 <= k < |g[u]| && g[u][k] == e;
      assert HasEdge(g, u, e.to);
      var w := Nodes(s, R);
      assert w == Nodes(s, P) + [e.to];
      forall i | 0 <= i < |w| - 1 ensures HasEdge(g, w[i], w[i + 1]) {
        if i < |w| - 2 {
          assert w[i] == Nodes(s, P)[i] && w[i + 1] == Nodes(s, P)[i + 1];
        }
      }
    }
  }

  /** Every walk is followed by some route. */
  lemma {:induction false} WalkHasRoute(g: Graph, w: seq<string>) returns (R: seq<Edge>)
    requires IsWalk(g, w)
    ensures IsRoute(g, w[0], R) && Nodes(w[0], R) == w && |R| == |w| - 1
  {
    if |w| == 1 {
      R := [];
    } else {
      var v := w[..|w| - 1];
      assert IsWalk(g, v) by {
        forall i | 0 <= i < |v| - 1 ensures HasEdge(g, v[i], v[i + 1]) {
          assert v[i] == w[i] && v[i + 1] == w[i + 1];
        }
      }
      var P := WalkHasRoute(g, v);
      var u := w[|w| - 2];
      assert HasEdge(g, u, w[|w| - 1]);
      var k :| 0 <= k < |g[u]| && g[u][k].to == w[|w| - 1];
      R := P + [g[u][k]];
      assert R[..|R| - 1] == P;
      assert End(w[0], P) == u;
      assert IsRoute(g, w[0], R);
      assert Nodes(w[0], R) == Nodes(w[0], P) + [g[u][k].to];
      assert w == v + [w[|w| - 1]];
    }
  }

  /** Hop count is route length. */
  lemma {:induction false} HopCost(R: seq<Edge>)
    ensures Cost(R, ByHops) == |R|
  {
    if R != [] {
      HopCost(R[..|R| - 1]);
    }
  }

  /** A walk that starts inside a shut set stays inside it. */
  lemma {:induction false} ShutHoldsWalks(g: Graph, V: set<string>, w: seq<string>)
    requires Shut(g, V) && IsWalk(g, w) && w[0] in V
    ensures w[|w| - 1] in V
  {
    if |w| > 1 {
      var v := w[..|w| - 1];
      assert IsWalk(g, v) by {
        forall i | 0 <= i < |v| - 1 ensures HasEdge(g, v[i], v[i + 1]) {
          assert v[i] == w[i] && v[i + 1] == w[i + 1];
        }
      }
      ShutHoldsWalks(g, V, v);
      var u := w[|w| - 2];
      assert HasEdge(g, u, w[|w| - 1]);
      var k :| 0 <= k < |g[u]| && g[u][k].to == w[|w| - 1];
    }
  }

  /** Nothing outside a shut set containing `s` is reachable from `s`. */
  lemma ShutBlocksReach(g: Graph, V: set<string>, s: string, t: string)
    requires Shut(g, V) && s in V && t !in V
    ensures !Reachable(g, s, t)
  {
    if Reachable(g, s, t) {
      var w :| IsWalk(g, w) && w[0] == s && w[|w| - 1] == t;
      ShutHoldsWalks(g, V, w);
    }
  }
}
