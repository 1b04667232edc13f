/** The cost accumulator: the total distance of a node path, taking for each
    step the first edge record that leads to the next node. */
module Costs {
  import opened Graphs
  import opened Walks

  /** A path's total distance, or the failure the accumulator runs into when
      a step has no edge record (the adjacency lookup or the edge is
      undefined). */
  datatype Distance = Total(value: int) | NoSuchEdge

  /** The position of the first edge of `es` leading to `v` (`Array.find`). */
  function FindEdge(es: seq<Edge>, v: string): (r: Option<nat>)
    ensures r.Some? ==> r.value < |es| && es[r.value].to == v
    ensures r.Some? ==> forall j :: 0 <= j < r.value ==> es[j].to != v
    ensures r.None? ==> forall j :: 0 <= j < |es| ==> es[j].to != v
  {
    if es == [] then None
    else if es[0].to == v then Some(0)
    else match FindEdge(es[1..], v)
      case None => None
      case Some(k) => Some(k + 1)
  }

  /** The first edge record from `u` to `v`, if `u` has an edge list and
      some record in it leads to `v`. */
  function FirstEdge(g: Graph, u: string, v: string): Option<Edge>
  {
    if u !in g then None
    else match FindEdge(g[u], v)
      case None => None
      case Some(k) => Some(g[u][k])
  }

  /** The total the accumulator computes for `p`: zero for a path of fewer
      than two nodes, otherwise the sum over consecutive pairs of the first
      matching edge's distance. */
  function PathCost(g: Graph, p: seq<string>): Distance
  {
    if |p| <= 1 then Total(0)
    else match PathCost(g, p[..|p| - 1])
      case NoSuchEdge => NoSuchEdge
      case Total(s) =>
        match FirstEdge(g, p[|p| - 2], p[|p| - 1])
        case None => NoSuchEdge
        case Some(e) => Total(s + e.distance)
  }

  /** Once a prefix of the path has no edge record for some step, the
      whole path has none. */
  lemma {:induction false} PathCostFailsOnward(g: Graph, p: seq<string>, n: nat)
    requires 2 <= n <= |p| && PathCost(g, p[..n]) == NoSuchEdge
    ensures PathCost(g, p) == NoSuchEdge
  {
    if n < |p| {
      assert p[..|p| - 1][..n] == p[..n];
      PathCostFailsOnward(g, p[..|p| - 1], n);
    } else {
      assert p[..n] == p;
    }
  }

  /** The route that picks, at every step, the first matching edge record. */
  ghost function FirstRoute(g: Graph, p: seq<string>): seq<Edge>
    requires p != []
  {
    if |p| == 1 then []
    else
      var e := FirstEdge(g, p[|p| - 2], p[|p| - 1]);
      FirstRoute(g, p[..|p| - 1]) + (if e.Some? then [e.value] else [])
  }

  /** Parallel edges, if any, carry equal distances. */
  ghost predicate Unambiguous(g: Graph)
  {
    forall u, i, j :: u in g && 0 <= i < |g[u]| && 0 <= j < |g[u]| && g[u][i].to == g[u][j].to
      ==> g[u][i].distance == g[u][j].distance
  }

  /** The accumulator succeeds exactly on paths whose consecutive nodes are
      joined by an edge. */
  lemma {:induction false} PathCostSucceeds(g: Graph, p: seq<string>)
    requires p != []
    ensures PathCost(g, p).Total? <==> IsWalk(g, p)
  {
    if |p| > 1 {
      var q := p[..|p| - 1];
      PathCostSucceeds(g, q);
      var u, v := p[|p| - 2], p[|p| - 1];
      assert FirstEdge(g, u, v).Some? <==> HasEdge(g, u, v) by {
        if HasEdge(g, u, v) {
          var k :| 0 <= k < |g[u]| && g[u][k].to == v;
        }
      }
      assert IsWalk(g, p) <==> IsWalk(g, q) && HasEdge(g, u, v) by {
        if IsWalk(g, q) && HasEdge(g, u, v) {
          forall i | 0 <= i < |p| - 1 ensures HasEdge(g, p[i], p[i + 1]) {
            if i < |p| - 2 {
              assert p[i] == q[i] && p[i + 1] == q[i + 1];
            }
          }
        }
        if IsWalk(g, p) {
          forall i | 0 <= i < |q| - 1 ensures HasEdge(g, q[i], q[i + 1]) {
            assert p[i] == q[i] && p[i + 1] == q[i + 1];
          }
        }
      }
    }
  }

  /** A successful total is the cost of the first-match route along the path. */
  lemma {:induction false} PathCostIsFirstRoute(g: Graph, p: seq<string>)
    requires p != [] && PathCost(g, p).Total?
    ensures IsRoute(g, p[0], FirstRoute(g, p)) && Nodes(p[0], FirstRoute(g, p)) == p
    ensures Cost(FirstRoute(g, p), ByWeight) == PathCost(g, p).value
  {
    if |p| > 1 {
      var q := p[..|p| - 1];
      PathCostIsFirstRoute(g, q);
      var R0 := FirstRoute(g, q);
      var e := FirstEdge(g, p[|p| - 2], p[|p| - 1]).value;
      var R := FirstRoute(g, p);
      assert R == R0 + [e];
      assert R[..|R| - 1] == R0;
      assert End(p[0], R0) == p[|p| - 2];
      var k := FindEdge(g[p[|p| - 2]], p[|p| - 1]).value;
      assert e == g[p[|p| - 2]][k];
      assert Nodes(p[0], R) == Nodes(p[0], R0) + [e.to];
    }
  }

  /** When parallel edges agree on distance, the accumulator returns the cost
      of every route along the path: it cannot disagree with the cost that
      uniform-cost search accumulated. */
  lemma {:induction false} PathCostOfRoute(g: Graph, s: string, R: seq<Edge>)
    requires Unambiguous(g) && IsRoute(g, s, R)
    ensures PathCost(g, Nodes(s, R)) == Total(Cost(R, ByWeight))
  {
    if R != [] {
      var P := R[..|R| - 1];
      var e := R[|R| - 1];
      var u := End(s, P);
      PathCostOfRoute(g, s, P);
      var p := Nodes(s, R);
      assert p[..|p| - 1] == Nodes(s, P);
      assert p[|p| - 2] == u && p[|p| - 1] == e.to;
      var i :| 0 <= i < |g[u]| && g[u][i] == e;
      var k := FindEdge(g[u], e.to).value;
      assert g[u][k].distance == e.distance;
    }
  }

  /** A cheapest route to the end of `p`, taken along `p`, costs no more
      than what the accumulator reports for `p`, whatever parallel edges
      the first-match rule picks. */
  lemma CheapestAtMostReported(g: Graph, s: string, R0: seq<Edge>)
    requires IsRoute(g, s, R0)
    requires LeastDistance(g, s, End(s, R0), R0)
    ensures PathCost(g, Nodes(s, R0)).Total?
    ensures Cost(R0, ByWeight) <= PathCost(g, Nodes(s, R0)).value
  {
    var p := Nodes(s, R0);
    RouteIsWalk(g, s, R0);
    PathCostSucceeds(g, p);
    PathCostIsFirstRoute(g, p);
    assert End(s, FirstRoute(g, p)) == p[|p| - 1] == End(s, R0);
  }

  /** With parallel edges of different distance the accumulator can report
      more than the cheapest route along the same path: after recording
      A-B at 5 and then A-B at 1, it reports 5 for `[A, B]`, while the
      route over the second record costs 1. */
  lemma ReportedCanExceedCheapest()
    ensures var g := WithPath(WithPath(map[], "A", "B", 5), "A", "B", 1);
      IsRoute(g, "A", [Edge("B", 1)]) && Nodes("A", [Edge("B", 1)]) == ["A", "B"]
      && Cost([Edge("B", 1)], ByWeight) == 1 && PathCost(g, ["A", "B"]) == Total(5)
  {
    var g: Graph := WithPath(WithPath(map[], "A", "B", 5), "A", "B", 1);
    assert g["A"] == [Edge("B", 5), Edge("B", 1)];
    var R := [Edge("B", 1)];
    assert R[..0] == [];
    assert R[0] in g["A"];
    assert FindEdge(g["A"], "B") == Some(0);
    assert ["A", "B"][..1] == ["A"];
  }
}
