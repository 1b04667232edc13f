/** The frontier shared by the three searches: entries of a partial path and
    the cost accumulated along it, the expansion of a path, and the loop
    invariant that all three searches keep, with the lemmas that carry it
    from one iteration to the next. */
module Frontier {
  import opened Graphs
  import opened Walks

  /** A partial path and its accumulated cost (`{path, cost}` in uniform-cost
      search; breadth- and depth-first search keep the path alone). */
  datatype Entry = Entry(path: seq<string>, cost: int)

  function Last(p: seq<string>): string
    requires p != []
  {
    p[|p| - 1]
  }

  ghost predicate Ends(p: seq<string>, v: string)
  {
    p != [] && Last(p) == v
  }

  /** A path-only frontier seen as entries whose cost is the hop count. */
  ghost function HopEntries(Q: seq<seq<string>>): (E: seq<Entry>)
    ensures |E| == |Q|
    ensures forall j :: 0 <= j < |Q| ==> E[j] == Entry(Q[j], |Q[j]| - 1)
  {
    seq(|Q|, j requires 0 <= j < |Q| => Entry(Q[j], |Q[j]| - 1))
  }

  /** The frontier without its `i`-th entry. */
  function Remove<T>(E: seq<T>, i: nat): (r: seq<T>)
    requires i < |E|
    ensures |r| == |E| - 1
    ensures forall j :: 0 <= j < i ==> r[j] == E[j]
    ensures forall j :: i <= j < |r| ==> r[j] == E[j + 1]
  {
    E[..i] + E[i + 1..]
  }

  /** The paths pushed when `path` is expanded over the edge list `es`: one
      per edge whose target is not visited, in edge-list order. */
  function Successors(es: seq<Edge>, path: seq<string>, visited: set<string>): seq<seq<string>>
  {
    if es == [] then []
    else Successors(es[..|es| - 1], path, visited)
         + (if es[|es| - 1].to in visited then [] else [path + [es[|es| - 1].to]])
  }

  /** The entries pushed when an entry `(path, cost)` is expanded: each
      extended path costs one step more. */
  function SuccessorEntries(es: seq<Edge>, path: seq<string>, cost: int, visited: set<string>, m: Metric): seq<Entry>
  {
    if es == [] then []
    else SuccessorEntries(es[..|es| - 1], path, cost, visited, m)
         + (if es[|es| - 1].to in visited then []
            else [Entry(path + [es[|es| - 1].to], cost + Step(es[|es| - 1], m))])
  }

  /** The routes that follow the pushed entries, edge record by edge record. */
  ghost function SuccessorRoutes(es: seq<Edge>, route: seq<Edge>, visited: set<string>): seq<seq<Edge>>
  {
    if es == [] then []
    else SuccessorRoutes(es[..|es| - 1], route, visited)
         + (if es[|es| - 1].to in visited then [] else [route + [es[|es| - 1]]])
  }

  ghost predicate Cheapest(E: seq<Entry>, i: nat)
  {
    i < |E| && forall j :: 0 <= j < |E| ==> E[i].cost <= E[j].cost
  }

  /** `e` is the entry pushed for the `k`-th edge of `es`. */
  ghost predicate Pushed(es: seq<Edge>, path: seq<string>, cost: int, visited: set<string>, m: Metric, k: int, e: Entry)
  {
    0 <= k < |es| && es[k].to !in visited && e == Entry(path + [es[k].to], cost + Step(es[k], m))
  }

  /** How many edges of `es` lead outside `visited`. */
  function PushCount(es: seq<Edge>, visited: set<string>): nat
  {
    if es == [] then 0
    else PushCount(es[..|es| - 1], visited) + (if es[|es| - 1].to in visited then 0 else 1)
  }

  /** The position in `es` of the edge behind the `j`-th pushed entry. */
  ghost function Origin(es: seq<Edge>, visited: set<string>, j: nat): nat
    requires j < PushCount(es, visited)
  {
    if j < PushCount(es[..|es| - 1], visited) then Origin(es[..|es| - 1], visited, j) else |es| - 1
  }

  /** Each pushed entry extends `path` by the target of one unvisited edge,
      at one more step of cost, in edge-list order. */
  lemma {:induction false} PushedSound(es: seq<Edge>, path: seq<string>, cost: int, visited: set<string>, m: Metric)
    ensures |SuccessorEntries(es, path, cost, visited, m)| == PushCount(es, visited)
    ensures forall j :: 0 <= j < PushCount(es, visited) ==>
      Pushed(es, path, cost, visited, m, Origin(es, visited, j), SuccessorEntries(es, path, cost, visited, m)[j])
  {
    if es != [] {
      var n := |es| - 1;
      var P := es[..n];
      PushedSound(P, path, cost, visited, m);
      var N0 := SuccessorEntries(P, path, cost, visited, m);
      var N := SuccessorEntries(es, path, cost, visited, m);
      var T := if es[n].to in visited then [] else [Entry(path + [es[n].to], cost + Step(es[n], m))];
      assert N == N0 + T;
      forall j | 0 <= j < PushCount(es, visited)
        ensures Pushed(es, path, cost, visited, m, Origin(es, visited, j), N[j])
      {
        if j < |N0| {
          var k := Origin(P, visited, j);
          assert es[k] == P[k] && N[j] == N0[j];
        }
      }
    }
  }

  /** Every edge leading outside `visited` is pushed, at the position given
      by the number of such edges before it. */
  lemma {:induction false} PushedComplete(es: seq<Edge>, path: seq<string>, cost: int, visited: set<string>, m: Metric, k: nat)
    requires k < |es| && es[k].to !in visited
    ensures PushCount(es[..k], visited) < |SuccessorEntries(es, path, cost, visited, m)|
    ensures Pushed(es, path, cost, visited, m, k,
                   SuccessorEntries(es, path, cost, visited, m)[PushCount(es[..k], visited)])
  {
    var n := |es| - 1;
    var P := es[..n];
    PushedSound(P, path, cost, visited, m);
    var N0 := SuccessorEntries(P, path, cost, visited, m);
    var N := SuccessorEntries(es, path, cost, visited, m);
    var T := if es[n].to in visited then [] else [Entry(path + [es[n].to], cost + Step(es[n], m))];
    assert N == N0 + T;
    if k < n {
      PushedComplete(P, path, cost, visited, m, k);
      assert P[..k] == es[..k] && es[k] == P[k];
    } else {
      assert es[..k] == P;
    }
  }

  /** Breadth- and depth-first expansion pushes exactly the entries of the
      generic expansion once paths are costed by their hop count. */
  lemma {:induction false} HopsOfSuccessors(es: seq<Edge>, path: seq<string>, visited: set<string>, m: Metric)
    requires m != ByWeight
    ensures HopEntries(Successors(es, path, visited)) == SuccessorEntries(es, path, |path| - 1, visited, m)
  {
    if es != [] {
      HopsOfSuccessors(es[..|es| - 1], path, visited, m);
      var A := Successors(es[..|es| - 1], path, visited);
      var B := if es[|es| - 1].to in visited then [] else [path + [es[|es| - 1].to]];
      assert HopEntries(A + B) == HopEntries(A) + HopEntries(B);
    }
  }

  lemma HopsRemove(Q: seq<seq<string>>, i: nat)
    requires i < |Q|
    ensures HopEntries(Remove(Q, i)) == Remove(HopEntries(Q), i)
  {
  }

  lemma HopsAppend(A: seq<seq<string>>, B: seq<seq<string>>)
    ensures HopEntries(A + B) == HopEntries(A) + HopEntries(B)
  {
  }

  /** The position of the last edge record of `es` whose target is outside
      `seen`: expanding a path whose nodes are `seen` pushes the path to
      that target last. */
  function LastFresh(es: seq<Edge>, seen: set<string>): (r: Option<nat>)
    ensures r.Some? ==> r.value < |es| && es[r.value].to !in seen
    ensures r.Some? ==> forall j :: r.value < j < |es| ==> es[j].to in seen
    ensures r.None? ==> forall j :: 0 <= j < |es| ==> es[j].to in seen
  {
    if es == [] then None
    else if es[|es| - 1].to !in seen then Some(|es| - 1)
    else LastFresh(es[..|es| - 1], seen)
  }

  /** The last pushed path leads to the target of the last fresh record. */
  lemma {:induction false} FreshSuccessor(es: seq<Edge>, path: seq<string>, visited: set<string>)
    requires LastFresh(es, visited).Some?
    ensures var S := Successors(es, path, visited);
      S != [] && S[|S| - 1] == path + [es[LastFresh(es, visited).value].to]
  {
    var n := |es| - 1;
    if es[n].to in visited {
      FreshSuccessor(es[..n], path, visited);
      assert es[..n][LastFresh(es[..n], visited).value] == es[LastFresh(es, visited).value];
    }
  }

  /** Every pushed path is one node longer than the expanded one. */
  lemma {:induction false} SuccessorLengths(es: seq<Edge>, path: seq<string>, visited: set<string>)
    ensures forall j :: 0 <= j < |Successors(es, path, visited)| ==>
      |Successors(es, path, visited)[j]| == |path| + 1
  {
    if es != [] {
      SuccessorLengths(es[..|es| - 1], path, visited);
    }
  }

  /** A breadth-first queue: path lengths never decrease and span at most
      two consecutive values. */
  ghost predicate Layered(Q: seq<seq<string>>)
  {
    forall i, j :: 0 <= i < j < |Q| ==> |Q[i]| <= |Q[j]| <= |Q[i]| + 1
  }

  /** Shifting the head and pushing paths one node longer than it keeps a
      queue layered. */
  lemma LayeredShiftPush(Q: seq<seq<string>>, S: seq<seq<string>>)
    requires Layered(Q) && Q != []
    requires forall j :: 0 <= j < |S| ==> |S[j]| == |Q[0]| + 1
    ensures Layered(Q[1..] + S)
  {
    var Q' := Q[1..] + S;
    forall i, j | 0 <= i < j < |Q'| ensures |Q'[i]| <= |Q'[j]| <= |Q'[i]| + 1 {
      if j < |Q| - 1 {
        assert Q'[i] == Q[i + 1] && Q'[j] == Q[j + 1];
      } else if i < |Q| - 1 {
        assert Q'[i] == Q[i + 1] && Q'[j] == S[j - (|Q| - 1)];
        assert |Q[0]| <= |Q[i + 1]| <= |Q[0]| + 1;
      } else {
        assert Q'[i] == S[i - (|Q| - 1)] && Q'[j] == S[j - (|Q| - 1)];
      }
    }
  }

  /** The head of a layered queue is a cheapest entry by hop count. */
  lemma BfsHeadIsCheapest(Q: seq<seq<string>>)
    requires Layered(Q) && Q != []
    ensures Cheapest(HopEntries(Q), 0)
  {
    forall j | 0 <= j < |Q| ensures |Q[0]| <= |Q[j]| {
      if j > 0 {
        assert |Q[0]| <= |Q[j]| <= |Q[0]| + 1;
      }
    }
  }

  /** A route together with the entry it stands for. */
  ghost predicate RouteOf(g: Graph, start: string, R: seq<Edge>, e: Entry)
  {
    IsRoute(g, start, R) && Nodes(start, R) == e.path && Cost(R, ByWeight) == e.cost
  }

  /** Some route stands for the entry. */
  ghost predicate Traced(g: Graph, start: string, e: Entry)
  {
    exists R :: RouteOf(g, start, R, e)
  }

  /** The routes extended alongside the entries stand for them one by one. */
  lemma {:induction false} SuccessorRoutesMatch(g: Graph, start: string, route: seq<Edge>, e: Entry, es: seq<Edge>, visited: set<string>)
    requires RouteOf(g, start, route, e)
    requires End(start, route) in g
    requires forall k :: 0 <= k < |es| ==> es[k] in g[End(start, route)]
    ensures |SuccessorRoutes(es, route, visited)| == |SuccessorEntries(es, e.path, e.cost, visited, ByWeight)|
    ensures forall j :: 0 <= j < |SuccessorRoutes(es, route, visited)| ==>
      RouteOf(g, start, SuccessorRoutes(es, route, visited)[j], SuccessorEntries(es, e.path, e.cost, visited, ByWeight)[j])
  {
    if es != [] {
      var n := |es| - 1;
      SuccessorRoutesMatch(g, start, route, e, es[..n], visited);
      var Rs := SuccessorRoutes(es, route, visited);
      var Ns := SuccessorEntries(es, e.path, e.cost, visited, ByWeight);
      var Rs0 := SuccessorRoutes(es[..n], route, visited);
      var Ns0 := SuccessorEntries(es[..n], e.path, e.cost, visited, ByWeight);
      var TR := if es[n].to in visited then [] else [route + [es[n]]];
      var TN := if es[n].to in visited then [] else [Entry(e.path + [es[n].to], e.cost + Step(es[n], ByWeight))];
      assert Rs == Rs0 + TR && Ns == Ns0 + TN;
      assert Rs[..|Rs0|] == Rs0 && Ns[..|Ns0|] == Ns0;
      if es[n].to !in visited {
        var R' := route + [es[n]];
        assert R'[..|R'| - 1] == route;
        assert Rs[|Rs| - 1] == R' && Ns[|Ns| - 1] == Entry(e.path + [es[n].to], e.cost + es[n].distance);
        assert RouteOf(g, start, R', Ns[|Ns| - 1]);
      }
      forall j | 0 <= j < |Rs| ensures RouteOf(g, start, Rs[j], Ns[j]) {
        if j < |Rs0| {
          assert Rs[j] == Rs0[j] && Ns[j] == Ns0[j];
        }
      }
    }
  }

  // ---------------------------------------------------------------------
  // The loop invariant of the three searches

  /** A frontier path: it starts at `start`, follows edges, repeats no node,
      and every node but its last has been visited. */
  ghost predicate PathOk(g: Graph, start: string, visited: set<string>, p: seq<string>)
  {
    |p| >= 1 && p[0] == start && IsWalk(g, p) && Distinct(p)
    && forall i :: 0 <= i < |p| - 1 ==> p[i] in visited
  }

  /** Some frontier entry ends at `v`, at cost at most `bound` unless the
      metric is unbounded. */
  ghost predicate Reaches(E: seq<Entry>, v: string, bound: int, m: Metric)
  {
    exists j :: 0 <= j < |E| && Ends(E[j].path, v) && (m == Unranked || E[j].cost <= bound)
  }

  /** Every edge out of the visited node `u` (settled at cost `bu`) leads to a
      visited node or to the end of a frontier entry costing at most one
      more step. */
  ghost predicate NodeCovered(g: Graph, visited: set<string>, E: seq<Entry>, u: string, bu: int, m: Metric)
  {
    u in g && forall k :: 0 <= k < |g[u]| ==>
      g[u][k].to in visited || Reaches(E, g[u][k].to, bu + Step(g[u][k], m), m)
  }

  ghost predicate Covered(g: Graph, start: string, visited: set<string>, E: seq<Entry>, best: map<string, int>, m: Metric)
  {
    (start in visited || Reaches(E, start, 0, m))
    && forall u :: u in visited ==> u in best && NodeCovered(g, visited, E, u, best[u], m)
  }

  /** Every visited node was reached at a cost no route to it undercuts. */
  ghost predicate Settled(g: Graph, start: string, visited: set<string>, best: map<string, int>, m: Metric)
  {
    forall R :: IsRoute(g, start, R) && End(start, R) in visited && End(start, R) in best
      ==> best[End(start, R)] <= Cost(R, m)
  }

  ghost predicate Inv(g: Graph, start: string, end: string, visited: set<string>, E: seq<Entry>, best: map<string, int>, m: Metric)
  {
    visited <= g.Keys && end !in visited
    && (forall j :: 0 <= j < |E| ==> PathOk(g, start, visited, E[j].path))
    && Covered(g, start, visited, E, best, m)
    && (Ranked(g, m) ==> Settled(g, start, visited, best, m))
  }

  /** The search starts from the single entry `([start], 0)`. */
  lemma InvInit(g: Graph, start: string, end: string, m: Metric)
    ensures Inv(g, start, end, {}, [Entry([start], 0)], map[], m)
  {
    assert Ends([Entry([start], 0)][0].path, start);
  }

  /** The Dijkstra argument: a route to an unvisited node costs at least as
      much as some frontier entry. */
  lemma {:induction false} Witness(g: Graph, start: string, visited: set<string>, E: seq<Entry>, best: map<string, int>, m: Metric, R: seq<Edge>)
    requires Covered(g, start, visited, E, best, m) && Settled(g, start, visited, best, m) && Ranked(g, m)
    requires IsRoute(g, start, R) && End(start, R) !in visited
    ensures exists j :: 0 <= j < |E| && E[j].cost <= Cost(R, m)
  {
    if R != [] {
      var P := R[..|R| - 1];
      var e := R[|R| - 1];
      var u := End(start, P);
      var k :| 0 <= k < |g[u]| && g[u][k] == e;
      assert Step(e, m) >= 0;
      if u !in visited {
        Witness(g, start, visited, E, best, m, P);
      } else {
        assert NodeCovered(g, visited, E, u, best[u], m);
        assert Reaches(E, g[u][k].to, best[u] + Step(g[u][k], m), m);
        assert best[u] <= Cost(P, m);
      }
    }
  }

  /** The entry a ranked search extracts, ending at an unvisited node, was
      reached by a cheapest route to that node. */
  lemma PoppedIsOptimal(g: Graph, start: string, end: string, visited: set<string>, E: seq<Entry>, best: map<string, int>, m: Metric, i: nat)
    requires Inv(g, start, end, visited, E, best, m) && Ranked(g, m) && Cheapest(E, i)
    requires E[i].path != [] && Last(E[i].path) !in visited
    ensures forall R :: IsRoute(g, start, R) && End(start, R) == Last(E[i].path) ==> E[i].cost <= Cost(R, m)
  {
    forall R | IsRoute(g, start, R) && End(start, R) == Last(E[i].path)
      ensures E[i].cost <= Cost(R, m)
    {
      Witness(g, start, visited, E, best, m, R);
    }
  }

  lemma ReachesKept(E: seq<Entry>, i: nat, N: seq<Entry>, v: string, bound: int, m: Metric)
    requires i < |E| && E[i].path != [] && v != Last(E[i].path)
    requires Reaches(E, v, bound, m)
    ensures Reaches(Remove(E, i) + N, v, bound, m)
  {
    var j :| 0 <= j < |E| && Ends(E[j].path, v) && (m == Unranked || E[j].cost <= bound);
    var j' := if j < i then j else j - 1;
    assert (Remove(E, i) + N)[j'] == E[j];
  }

  lemma PathOkGrows(g: Graph, start: string, visited: set<string>, more: set<string>, p: seq<string>)
    requires PathOk(g, start, visited, p) && visited <= more
    ensures PathOk(g, start, more, p)
  {
  }

  /** Extending a frontier path by an unvisited neighbour of its last node,
      once that node is visited, gives a frontier path. */
  lemma PathOkExtend(g: Graph, start: string, visited: set<string>, p: seq<string>, k: nat)
    requires PathOk(g, start, visited, p) && Last(p) in g && k < |g[Last(p)]|
    requires g[Last(p)][k].to !in visited + {Last(p)}
    ensures PathOk(g, start, visited + {Last(p)}, p + [g[Last(p)][k].to])
  {
    var c := Last(p);
    var q := p + [g[c][k].to];
    assert HasEdge(g, c, g[c][k].to);
    forall i | 0 <= i < |q| - 1 ensures HasEdge(g, q[i], q[i + 1]) {
      if i < |p| - 1 {
        assert q[i] == p[i] && q[i + 1] == p[i + 1];
      }
    }
    forall i, j | 0 <= i < j < |q| ensures q[i] != q[j] {
      if j == |q| - 1 {
        assert q[i] == p[i] && (i < |p| - 1 || q[i] == c);
      }
    }
  }

  /** Dropping an entry whose last node is already visited keeps the invariant. */
  lemma DropKeepsInv(g: Graph, start: string, end: string, visited: set<string>, E: seq<Entry>, best: map<string, int>, m: Metric, i: nat)
    requires Inv(g, start, end, visited, E, best, m)
    requires i < |E| && E[i].path != [] && Last(E[i].path) in visited
    ensures Inv(g, start, end, visited, Remove(E, i), best, m)
  {
    var c := Last(E[i].path);
    var E' := Remove(E, i);
    assert E' == Remove(E, i) + [];
    if start !in visited {
      ReachesKept(E, i, [], start, 0, m);
    }
    forall u | u in visited ensures NodeCovered(g, visited, E', u, best[u], m) {
      assert NodeCovered(g, visited, E, u, best[u], m);
      forall k | 0 <= k < |g[u]| && g[u][k].to !in visited
        ensures Reaches(E', g[u][k].to, best[u] + Step(g[u][k], m), m)
      {
        ReachesKept(E, i, [], g[u][k].to, best[u] + Step(g[u][k], m), m);
      }
    }
  }

  /** The invariant speaks of the frontier's entries, not of their order. */
  lemma InvPermuted(g: Graph, start: string, end: string, visited: set<string>, E: seq<Entry>, E': seq<Entry>, best: map<string, int>, m: Metric)
    requires Inv(g, start, end, visited, E, best, m) && multiset(E') == multiset(E)
    ensures Inv(g, start, end, visited, E', best, m)
  {
    forall j | 0 <= j < |E'| ensures PathOk(g, start, visited, E'[j].path) {
      assert E'[j] in multiset(E);
      var k :| 0 <= k < |E| && E[k] == E'[j];
    }
    forall v, bound | Reaches(E, v, bound, m) ensures Reaches(E', v, bound, m) {
      var k :| 0 <= k < |E| && Ends(E[k].path, v) && (m == Unranked || E[k].cost <= bound);
      assert E[k] in multiset(E');
      var j :| 0 <= j < |E'| && E'[j] == E[k];
    }
    forall u | u in visited ensures NodeCovered(g, visited, E', u, best[u], m) {
      assert NodeCovered(g, visited, E, u, best[u], m);
    }
  }

  /** Expanding the extracted entry: its last node becomes visited (settled
      at the entry's cost) and the unvisited neighbours are pushed. */
  lemma ExpandKeepsInv(g: Graph, start: string, end: string, visited: set<string>, E: seq<Entry>, best: map<string, int>, m: Metric, i: nat)
    requires Inv(g, start, end, visited, E, best, m)
    requires i < |E| && E[i].path != []
    requires Ranked(g, m) ==> Cheapest(E, i)
    requires Last(E[i].path) !in visited && Last(E[i].path) in g && Last(E[i].path) != end
    ensures var c := Last(E[i].path);
      Inv(g, start, end, visited + {c},
          Remove(E, i) + SuccessorEntries(g[c], E[i].path, E[i].cost, visited + {c}, m),
          best[c := E[i].cost], m)
  {
    var p := E[i].path;
    var c := Last(p);
    var V' := visited + {c};
    var N := SuccessorEntries(g[c], p, E[i].cost, V', m);
    var E' := Remove(E, i) + N;
    var best' := best[c := E[i].cost];
    ExpandPaths(g, start, visited, E, m, i, N);
    ExpandCovered(g, start, visited, E, best, m, i, N);
    if Ranked(g, m) {
      PoppedIsOptimal(g, start, end, visited, E, best, m, i);
      forall R | IsRoute(g, start, R) && End(start, R) in V' && End(start, R) in best'
        ensures best'[End(start, R)] <= Cost(R, m)
      {
      }
    }
  }

  lemma ExpandPaths(g: Graph, start: string, visited: set<string>, E: seq<Entry>, m: Metric, i: nat, N: seq<Entry>)
    requires forall j :: 0 <= j < |E| ==> PathOk(g, start, visited, E[j].path)
    requires i < |E| && E[i].path != [] && Last(E[i].path) in g
    requires N == SuccessorEntries(g[Last(E[i].path)], E[i].path, E[i].cost, visited + {Last(E[i].path)}, m)
    ensures forall j :: 0 <= j < |Remove(E, i) + N| ==>
      PathOk(g, start, visited + {Last(E[i].path)}, (Remove(E, i) + N)[j].path)
  {
    var p := E[i].path;
    var c := Last(p);
    var V' := visited + {c};
    var R := Remove(E, i);
    forall j | 0 <= j < |R| ensures PathOk(g, start, V', R[j].path) {
      var jj := if j < i then j else j + 1;
      PathOkGrows(g, start, visited, V', E[jj].path);
    }
    PushedPaths(g, start, visited, p, E[i].cost, m, N);
  }

  lemma PushedPaths(g: Graph, start: string, visited: set<string>, p: seq<string>, cost: int, m: Metric, N: seq<Entry>)
    requires PathOk(g, start, visited, p) && Last(p) in g
    requires N == SuccessorEntries(g[Last(p)], p, cost, visited + {Last(p)}, m)
    ensures forall j :: 0 <= j < |N| ==> PathOk(g, start, visited + {Last(p)}, N[j].path)
  {
    var c := Last(p);
    PushedSound(g[c], p, cost, visited + {c}, m);
    forall j | 0 <= j < |N| ensures PathOk(g, start, visited + {c}, N[j].path) {
      PathOkExtend(g, start, visited, p, Origin(g[c], visited + {c}, j));
    }
  }

  lemma ExpandCovered(g: Graph, start: string, visited: set<string>, E: seq<Entry>, best: map<string, int>, m: Metric, i: nat, N: seq<Entry>)
    requires Covered(g, start, visited, E, best, m)
    requires i < |E| && E[i].path != [] && Last(E[i].path) in g && Last(E[i].path) !in visited
    requires N == SuccessorEntries(g[Last(E[i].path)], E[i].path, E[i].cost, visited + {Last(E[i].path)}, m)
    ensures Covered(g, start, visited + {Last(E[i].path)}, Remove(E, i) + N, best[Last(E[i].path) := E[i].cost], m)
  {
    var p := E[i].path;
    var c := Last(p);
    var V' := visited + {c};
    var E' := Remove(E, i) + N;
    var best' := best[c := E[i].cost];
    if start !in V' {
      ReachesKept(E, i, N, start, 0, m);
    }
    forall u | u in visited ensures NodeCovered(g, V', E', u, best'[u], m) {
      OldNodeCovered(g, visited, E, best[u], m, i, N, u);
    }
    NewNodeCovered(g, visited, E, m, i, N);
  }

  lemma OldNodeCovered(g: Graph, visited: set<string>, E: seq<Entry>, bu: int, m: Metric, i: nat, N: seq<Entry>, u: string)
    requires i < |E| && E[i].path != []
    requires NodeCovered(g, visited, E, u, bu, m)
    ensures NodeCovered(g, visited + {Last(E[i].path)}, Remove(E, i) + N, u, bu, m)
  {
    var V' := visited + {Last(E[i].path)};
    forall k | 0 <= k < |g[u]| && g[u][k].to !in V'
      ensures Reaches(Remove(E, i) + N, g[u][k].to, bu + Step(g[u][k], m), m)
    {
      ReachesKept(E, i, N, g[u][k].to, bu + Step(g[u][k], m), m);
    }
  }

  lemma NewNodeCovered(g: Graph, visited: set<string>, E: seq<Entry>, m: Metric, i: nat, N: seq<Entry>)
    requires i < |E| && E[i].path != [] && Last(E[i].path) in g
    requires N == SuccessorEntries(g[Last(E[i].path)], E[i].path, E[i].cost, visited + {Last(E[i].path)}, m)
    ensures NodeCovered(g, visited + {Last(E[i].path)}, Remove(E, i) + N, Last(E[i].path), E[i].cost, m)
  {
    var p := E[i].path;
    var c := Last(p);
    var V' := visited + {c};
    var R := Remove(E, i);
    forall k | 0 <= k < |g[c]| && g[c][k].to !in V'
      ensures Reaches(R + N, g[c][k].to, E[i].cost + Step(g[c][k], m), m)
    {
      PushedComplete(g[c], p, E[i].cost, V', m, k);
      var j := PushCount(g[c][..k], V');
      assert (R + N)[|R| + j] == N[j];
      assert Ends((R + N)[|R| + j].path, g[c][k].to);
    }
  }

  /** An emptied frontier means `end` is unreachable: the visited set then
      contains `start` and no edge leaves it. */
  lemma ExhaustedUnreachable(g: Graph, start: string, end: string, visited: set<string>, best: map<string, int>, m: Metric)
    requires Inv(g, start, end, visited, [], best, m)
    ensures !Reachable(g, start, end)
  {
    forall u, k | u in visited && u in g && 0 <= k < |g[u]| ensures g[u][k].to in visited {
      assert NodeCovered(g, visited, [], u, best[u], m);
    }
    ShutBlocksReach(g, visited, start, end);
  }

  /** The last node of a frontier path is `start` or the target of an edge
      of the graph, so it is a key unless one of those is not. */
  lemma MissingKey(g: Graph, start: string, visited: set<string>, p: seq<string>)
    requires PathOk(g, start, visited, p) && Last(p) !in g
    ensures start !in g || !Closed(g)
  {
    if |p| > 1 {
      var u := p[|p| - 2];
      assert HasEdge(g, u, p[|p| - 1]);
      var k :| 0 <= k < |g[u]| && g[u][k].to == p[|p| - 1];
    }
  }

  /** Visiting a key shrinks the set of keys still unvisited. */
  lemma FewerUnvisited(g: Graph, visited: set<string>, c: string)
    requires c in g && c !in visited
    ensures |g.Keys - (visited + {c})| < |g.Keys - visited|
  {
    assert g.Keys - visited == (g.Keys - (visited + {c})) + {c};
  }

  // ---------------------------------------------------------------------
  // Path-only frontiers (breadth- and depth-first search)

  /** Expanding the `i`-th path of a path-only frontier keeps the invariant
      with the hop count as cost, and visits one more key. */
  lemma HopExpandKeepsInv(g: Graph, start: string, end: string, visited: set<string>, Q: seq<seq<string>>, best: map<string, int>, m: Metric, i: nat,
                           Q': seq<seq<string>>)
    requires m != ByWeight && Inv(g, start, end, visited, HopEntries(Q), best, m)
    requires i < |Q| && Q[i] != []
    requires Ranked(g, m) ==> Cheapest(HopEntries(Q), i)
    requires Last(Q[i]) !in visited && Last(Q[i]) in g && Last(Q[i]) != end
    requires Q' == Remove(Q, i) + Successors(g[Last(Q[i])], Q[i], visited + {Last(Q[i])})
    ensures Inv(g, start, end, visited + {Last(Q[i])}, HopEntries(Q'), best[Last(Q[i]) := |Q[i]| - 1], m)
    ensures |g.Keys - (visited + {Last(Q[i])})| < |g.Keys - visited|
  {
    var c := Last(Q[i]);
    HopsExpanded(Q, i, g[c], visited + {c}, m);
    ExpandKeepsInv(g, start, end, visited, HopEntries(Q), best, m, i);
    FewerUnvisited(g, visited, c);
  }

  /** Every path of a path-only frontier is a frontier path. */
  lemma HopPathOk(g: Graph, start: string, end: string, visited: set<string>, Q: seq<seq<string>>, best: map<string, int>, m: Metric, i: nat)
    requires Inv(g, start, end, visited, HopEntries(Q), best, m) && i < |Q|
    ensures PathOk(g, start, visited, Q[i])
  {
    assert HopEntries(Q)[i].path == Q[i];
  }

  /** The entries of the expanded path-only frontier are those of the
      generic expansion. */
  lemma HopsExpanded(Q: seq<seq<string>>, i: nat, es: seq<Edge>, visited: set<string>, m: Metric)
    requires m != ByWeight && i < |Q|
    ensures HopEntries(Q)[i] == Entry(Q[i], |Q[i]| - 1)
    ensures HopEntries(Remove(Q, i) + Successors(es, Q[i], visited))
         == Remove(HopEntries(Q), i) + SuccessorEntries(es, HopEntries(Q)[i].path, HopEntries(Q)[i].cost, visited, m)
  {
    HopsRemove(Q, i);
    HopsAppend(Remove(Q, i), Successors(es, Q[i], visited));
    HopsOfSuccessors(es, Q[i], visited, m);
  }

  /** Dropping a path whose last node is already visited keeps the
      invariant. */
  lemma HopDropKeepsInv(g: Graph, start: string, end: string, visited: set<string>, Q: seq<seq<string>>, best: map<string, int>, m: Metric, i: nat,
                         Q': seq<seq<string>>)
    requires Inv(g, start, end, visited, HopEntries(Q), best, m)
    requires i < |Q| && Q[i] != [] && Last(Q[i]) in visited
    requires Q' == Remove(Q, i)
    ensures Inv(g, start, end, visited, HopEntries(Q'), best, m)
  {
    HopsRemove(Q, i);
    DropKeepsInv(g, start, end, visited, HopEntries(Q), best, m, i);
  }
}
