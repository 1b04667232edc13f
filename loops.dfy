/** The loop invariants of the three searches (breadth- and depth-first
    search over path-only frontiers, uniform-cost search over costed
    entries), and the lemmas that carry each one through one
    iteration of the search loop: the popped path is found, is a missing
    key, is expanded, or is dropped. */
module Loops {
  import opened Graphs
  import opened Walks
  import opened Frontier
  import opened Ordering

  /** Before the first expansion the frontier is the single path `[start]`. */
  ghost predicate Initial(start: string, visited: set<string>, Q: seq<seq<string>>)
  {
    Q == [[start]] && visited == {}
  }

  // ---------------------------------------------------------------------
  // Breadth-first search

  ghost predicate BfsLoop(g: Graph, start: string, end: string, visited: set<string>, Q: seq<seq<string>>, best: map<string, int>)
  {
    Inv(g, start, end, visited, HopEntries(Q), best, ByHops)
    && Layered(Q)
    && (start == end || start !in g ==> Initial(start, visited, Q))
  }

  lemma BfsStart(g: Graph, start: string, end: string)
    ensures BfsLoop(g, start, end, {}, [[start]], map[])
  {
    InvInit(g, start, end, ByHops);
    assert HopEntries([[start]]) == [Entry([start], 0)];
  }

  /** The head of the queue is a non-empty path. */
  lemma BfsHead(g: Graph, start: string, end: string, visited: set<string>, Q: seq<seq<string>>, best: map<string, int>)
    requires BfsLoop(g, start, end, visited, Q, best) && Q != []
    ensures Q[0] != []
  {
    HopPathOk(g, start, end, visited, Q, best, ByHops, 0);
  }

  /** A head path ending at `end` is a shortest simple walk to it. */
  lemma BfsFound(g: Graph, start: string, end: string, visited: set<string>, Q: seq<seq<string>>, best: map<string, int>)
    requires BfsLoop(g, start, end, visited, Q, best) && Q != [] && Ends(Q[0], end)
    ensures IsWalk(g, Q[0]) && Q[0][0] == start && Distinct(Q[0])
    ensures start == end ==> Q[0] == [start]
    ensures start in g || start == end
    ensures forall w :: IsWalk(g, w) && w[0] == start && w[|w| - 1] == end ==> |Q[0]| <= |w|
  {
    var E := HopEntries(Q);
    HopPathOk(g, start, end, visited, Q, best, ByHops, 0);
    BfsHeadIsCheapest(Q);
    assert E[0] == Entry(Q[0], |Q[0]| - 1);
    PoppedIsOptimal(g, start, end, visited, E, best, ByHops, 0);
    forall w | IsWalk(g, w) && w[0] == start && w[|w| - 1] == end
      ensures |Q[0]| <= |w|
    {
      var R := WalkHasRoute(g, w);
      HopCost(R);
    }
  }

  /** A head path whose last node is not a key throws only when `start` is
      not a key or an edge leads outside the keys. */
  lemma BfsMissing(g: Graph, start: string, end: string, visited: set<string>, Q: seq<seq<string>>, best: map<string, int>)
    requires BfsLoop(g, start, end, visited, Q, best) && Q != [] && Q[0] != []
    requires Last(Q[0]) != end && Last(Q[0]) !in g
    ensures Symmetric(g) ==> start !in g
    ensures start != end && (start !in g || !Closed(g))
  {
    if Symmetric(g) {
      SymmetricIsClosed(g);
    }
    HopPathOk(g, start, end, visited, Q, best, ByHops, 0);
    MissingKey(g, start, visited, Q[0]);
  }

  lemma BfsExpand(g: Graph, start: string, end: string, visited: set<string>, Q: seq<seq<string>>, best: map<string, int>,
                  Q': seq<seq<string>>)
    requires BfsLoop(g, start, end, visited, Q, best) && Q != [] && Q[0] != []
    requires Last(Q[0]) !in visited && Last(Q[0]) in g && Last(Q[0]) != end
    requires Q' == Q[1..] + Successors(g[Last(Q[0])], Q[0], visited + {Last(Q[0])})
    ensures BfsLoop(g, start, end, visited + {Last(Q[0])}, Q', best[Last(Q[0]) := |Q[0]| - 1])
    ensures |g.Keys - (visited + {Last(Q[0])})| < |g.Keys - visited|
  {
    var c := Last(Q[0]);
    var S := Successors(g[c], Q[0], visited + {c});
    BfsHeadIsCheapest(Q);
    assert Remove(Q, 0) == Q[1..];
    HopExpandKeepsInv(g, start, end, visited, Q, best, ByHops, 0, Q');
    SuccessorLengths(g[c], Q[0], visited + {c});
    LayeredShiftPush(Q, S);
  }

  lemma BfsDrop(g: Graph, start: string, end: string, visited: set<string>, Q: seq<seq<string>>, best: map<string, int>)
    requires BfsLoop(g, start, end, visited, Q, best) && Q != [] && Q[0] != []
    requires Last(Q[0]) in visited
    ensures BfsLoop(g, start, end, visited, Q[1..], best)
  {
    assert Remove(Q, 0) == Q[1..];
    HopDropKeepsInv(g, start, end, visited, Q, best, ByHops, 0, Q[1..]);
    LayeredShiftPush(Q, []);
    assert Q[1..] + [] == Q[1..];
  }

  // ---------------------------------------------------------------------
  // Depth-first search

  /** The walk that depth-first search descends along before it first
      backtracks: from the last node of `p`, it steps to the target of the
      last edge record leading off the walk, until it reaches `end`, a node
      without an edge list, or a node whose records all lead back onto it. */
  ghost function Descent(g: Graph, end: string, p: seq<string>): (d: seq<string>)
    requires p != []
    ensures |p| <= |d| && d[..|p|] == p
    decreases |g.Keys - Elems(p)|
  {
    var c := p[|p| - 1];
    if c == end || c !in g then p
    else match LastFresh(g[c], Elems(p))
      case None => p
      case Some(k) =>
        var v := g[c][k].to;
        assert Elems(p + [v]) == Elems(p) + {v};
        if v !in g then p + [v]
        else
          FewerUnvisited(g, Elems(p), v);
          var d := Descent(g, end, p + [v]);
          assert d[..|p|] == d[..|p| + 1][..|p|];
          d
  }

  /** The step from `d[i]` to `d[i + 1]` is a descent step: `d[i]` is not
      `end`, has an edge list, and its last record leading off `d[..i + 1]`
      leads to `d[i + 1]`. */
  ghost predicate Descends(g: Graph, end: string, d: seq<string>, i: nat)
    requires i + 1 < |d|
  {
    d[i] != end && d[i] in g && LastFresh(g[d[i]], Elems(d[..i + 1])).Some?
    && g[d[i]][LastFresh(g[d[i]], Elems(d[..i + 1])).value].to == d[i + 1]
  }

  /** The descent from `start` ends at `end`. */
  ghost predicate DescentReaches(g: Graph, start: string, end: string)
  {
    var d := Descent(g, end, [start]);
    d[|d| - 1] == end
  }

  /** Every step of the descent past `p` is a descent step. */
  lemma {:induction false} DescentStep(g: Graph, end: string, p: seq<string>, i: nat)
    requires p != [] && |p| - 1 <= i < |Descent(g, end, p)| - 1
    ensures Descends(g, end, Descent(g, end, p), i)
    decreases |g.Keys - Elems(p)|
  {
    var d := Descent(g, end, p);
    var c := p[|p| - 1];
    assert c != end && c in g && LastFresh(g[c], Elems(p)).Some?;
    var v := g[c][LastFresh(g[c], Elems(p)).value].to;
    assert d[..|p| + 1] == p + [v] by {
      if v in g {
        assert d == Descent(g, end, p + [v]);
      }
    }
    if i == |p| - 1 {
      assert d[..i + 1] == p && d[i] == c && d[i + 1] == v;
    } else {
      assert v in g;
      assert Elems(p + [v]) == Elems(p) + {v};
      FewerUnvisited(g, Elems(p), v);
      DescentStep(g, end, p + [v], i);
    }
  }

  /** Along the descent from `start`, no node before the last is `end`,
      each has an edge list, and no node repeats. */
  lemma DescentShape(g: Graph, start: string, end: string, i: nat)
    requires i < |Descent(g, end, [start])|
    ensures var d := Descent(g, end, [start]);
      d[i] !in Elems(d[..i]) && (i < |d| - 1 ==> d[i] != end && d[i] in g)
  {
    var d := Descent(g, end, [start]);
    if i < |d| - 1 {
      DescentStep(g, end, [start], i);
    }
    if i > 0 {
      DescentStep(g, end, [start], i - 1);
      assert d[..i - 1 + 1] == d[..i];
    } else {
      assert Elems(d[..0]) == {};
    }
  }

  /** When the last record at `start` leads to `end`, the descent is the
      one step `[start, end]`. */
  lemma DirectDescent(g: Graph, start: string, end: string)
    requires start != end && start in g && g[start] != [] && g[start][|g[start]| - 1].to == end
    ensures Descent(g, end, [start]) == [start, end]
  {
    assert Elems([start]) == {start};
    var k := |g[start]| - 1;
    assert LastFresh(g[start], {start}) == Some(k);
  }

  /** While the descent leads to `end`, the stack's top is the descent so
      far and the visited nodes are those before its last node. */
  ghost predicate OnDescent(end: string, d: seq<string>, visited: set<string>, Q: seq<seq<string>>, depth: nat)
    requires d != []
  {
    d[|d| - 1] == end ==> depth < |d| && visited == Elems(d[..depth]) && Q != [] && Q[|Q| - 1] == d[..depth + 1]
  }

  ghost predicate DfsLoop(g: Graph, start: string, end: string, d: seq<string>, visited: set<string>, Q: seq<seq<string>>,
                          best: map<string, int>, depth: nat)
  {
    d != [] && Inv(g, start, end, visited, HopEntries(Q), best, Unranked)
    && (start == end || start !in g ==> Initial(start, visited, Q))
    && OnDescent(end, d, visited, Q, depth)
  }

  lemma DfsStart(g: Graph, start: string, end: string, d: seq<string>)
    requires d == Descent(g, end, [start])
    ensures DfsLoop(g, start, end, d, {}, [[start]], map[], 0)
  {
    InvInit(g, start, end, Unranked);
    assert HopEntries([[start]]) == [Entry([start], 0)];
    assert d[..0] == [] && Elems([]) == {};
  }

  /** The top of the stack is a non-empty path. */
  lemma DfsTop(g: Graph, start: string, end: string, d: seq<string>, visited: set<string>, Q: seq<seq<string>>, best: map<string, int>, depth: nat)
    requires DfsLoop(g, start, end, d, visited, Q, best, depth) && Q != []
    ensures Q[|Q| - 1] != []
  {
    HopPathOk(g, start, end, visited, Q, best, Unranked, |Q| - 1);
  }

  /** A top path ending at `end` is a simple walk to it, and it is the
      whole descent when the descent reaches `end`. */
  lemma DfsFound(g: Graph, start: string, end: string, d: seq<string>, visited: set<string>, Q: seq<seq<string>>, best: map<string, int>, depth: nat)
    requires d == Descent(g, end, [start])
    requires DfsLoop(g, start, end, d, visited, Q, best, depth) && Q != [] && Ends(Q[|Q| - 1], end)
    ensures IsWalk(g, Q[|Q| - 1]) && Q[|Q| - 1][0] == start && Distinct(Q[|Q| - 1])
    ensures start == end ==> Q[|Q| - 1] == [start]
    ensures start in g || start == end
    ensures DescentReaches(g, start, end) ==> Q[|Q| - 1] == Descent(g, end, [start])
  {
    HopPathOk(g, start, end, visited, Q, best, Unranked, |Q| - 1);
    if d[|d| - 1] == end {
      assert d[..depth + 1][depth] == d[depth];
      DescentShape(g, start, end, depth);
      assert d[..|d|] == d;
    }
  }

  lemma DfsMissing(g: Graph, start: string, end: string, d: seq<string>, visited: set<string>, Q: seq<seq<string>>, best: map<string, int>, depth: nat)
    requires d == Descent(g, end, [start])
    requires DfsLoop(g, start, end, d, visited, Q, best, depth) && Q != [] && Q[|Q| - 1] != []
    requires Last(Q[|Q| - 1]) != end && Last(Q[|Q| - 1]) !in g
    ensures Symmetric(g) ==> start !in g
    ensures start != end && (start !in g || !Closed(g))
    ensures !DescentReaches(g, start, end)
  {
    if Symmetric(g) {
      SymmetricIsClosed(g);
    }
    HopPathOk(g, start, end, visited, Q, best, Unranked, |Q| - 1);
    MissingKey(g, start, visited, Q[|Q| - 1]);
    if d[|d| - 1] == end {
      assert d[..depth + 1][depth] == d[depth];
      DescentShape(g, start, end, depth);
      assert false;
    }
  }

  lemma DfsExpand(g: Graph, start: string, end: string, d: seq<string>, visited: set<string>, Q: seq<seq<string>>, best: map<string, int>,
                  depth: nat, Q': seq<seq<string>>)
    requires d == Descent(g, end, [start])
    requires DfsLoop(g, start, end, d, visited, Q, best, depth) && Q != [] && Q[|Q| - 1] != []
    requires Last(Q[|Q| - 1]) !in visited && Last(Q[|Q| - 1]) in g && Last(Q[|Q| - 1]) != end
    requires Q' == Q[..|Q| - 1] + Successors(g[Last(Q[|Q| - 1])], Q[|Q| - 1], visited + {Last(Q[|Q| - 1])})
    ensures DfsLoop(g, start, end, d, visited + {Last(Q[|Q| - 1])}, Q', best[Last(Q[|Q| - 1]) := |Q[|Q| - 1]| - 1], depth + 1)
    ensures |g.Keys - (visited + {Last(Q[|Q| - 1])})| < |g.Keys - visited|
  {
    var i := |Q| - 1;
    assert Remove(Q, i) == Q[..i];
    HopExpandKeepsInv(g, start, end, visited, Q, best, Unranked, i, Q');
    DescentExpand(g, start, end, d, visited, Q, depth, Q');
  }

  /** Expanding the top of the descent pushes its next step last; no
      expansion happens while `start == end` or `start` is not a key. */
  lemma DescentExpand(g: Graph, start: string, end: string, d: seq<string>, visited: set<string>, Q: seq<seq<string>>, depth: nat,
                      Q': seq<seq<string>>)
    requires Q != [] && Q[|Q| - 1] != []
    requires start == end || start !in g ==> Initial(start, visited, Q)
    requires d == Descent(g, end, [start]) && OnDescent(end, d, visited, Q, depth)
    requires Last(Q[|Q| - 1]) !in visited && Last(Q[|Q| - 1]) in g && Last(Q[|Q| - 1]) != end
    requires Q' == Q[..|Q| - 1] + Successors(g[Last(Q[|Q| - 1])], Q[|Q| - 1], visited + {Last(Q[|Q| - 1])})
    ensures start != end && start in g
    ensures OnDescent(end, d, visited + {Last(Q[|Q| - 1])}, Q', depth + 1)
  {
    var c := Last(Q[|Q| - 1]);
    if d[|d| - 1] == end {
      var top := d[..depth + 1];
      assert top[depth] == d[depth] == c;
      DescentShape(g, start, end, depth);
      DescentStep(g, end, [start], depth);
      assert Elems(top) == Elems(d[..depth]) + {c} by {
        assert top == d[..depth] + [c];
      }
      FreshSuccessor(g[c], top, visited + {c});
      assert d[..depth + 2] == d[..depth + 1] + [d[depth + 1]];
    }
  }

  /** With roads A-B, A-C, C-T and B-T recorded in that order, the descent
      from A steps to C (the last road at A) and then to T. */
  lemma DescentExample()
    ensures var g := WithPath(WithPath(WithPath(WithPath(map[], "A", "B", 1), "A", "C", 1), "C", "T", 1), "B", "T", 1);
      DescentReaches(g, "A", "T") && Descent(g, "T", ["A"]) == ["A", "C", "T"]
  {
    var g := WithPath(WithPath(WithPath(WithPath(map[], "A", "B", 1), "A", "C", 1), "C", "T", 1), "B", "T", 1);
    assert g["A"] == [Edge("B", 1), Edge("C", 1)];
    assert g["C"] == [Edge("A", 1), Edge("T", 1)];
    assert Elems(["A"]) == {"A"};
    assert LastFresh(g["A"], {"A"}) == Some(1);
    assert Elems(["A", "C"]) == {"A", "C"};
    assert LastFresh(g["C"], {"A", "C"}) == Some(1);
    assert Descent(g, "T", ["A", "C"]) == Descent(g, "T", ["A", "C", "T"]) == ["A", "C", "T"];
  }

  /** An empty stack means `end` is unreachable and the descent missed it. */
  lemma DfsExhausted(g: Graph, start: string, end: string, d: seq<string>, visited: set<string>, best: map<string, int>, depth: nat)
    requires d == Descent(g, end, [start])
    requires DfsLoop(g, start, end, d, visited, [], best, depth)
    ensures !Reachable(g, start, end)
    ensures !DescentReaches(g, start, end)
  {
    HopExhausted(g, start, end, visited, best, Unranked);
  }

  lemma DfsDrop(g: Graph, start: string, end: string, d: seq<string>, visited: set<string>, Q: seq<seq<string>>, best: map<string, int>, depth: nat)
    requires d == Descent(g, end, [start])
    requires DfsLoop(g, start, end, d, visited, Q, best, depth) && Q != [] && Q[|Q| - 1] != []
    requires Last(Q[|Q| - 1]) in visited
    ensures DfsLoop(g, start, end, d, visited, Q[..|Q| - 1], best, depth)
  {
    assert Remove(Q, |Q| - 1) == Q[..|Q| - 1];
    HopDropKeepsInv(g, start, end, visited, Q, best, Unranked, |Q| - 1, Q[..|Q| - 1]);
    if d[|d| - 1] == end {
      assert d[..depth + 1][depth] == d[depth];
      DescentShape(g, start, end, depth);
      assert false;
    }
  }

  // ---------------------------------------------------------------------
  // Uniform-cost search

  /** Besides the common invariant, every entry's cost is the distance of
      some route along its path. */
  ghost predicate UcsLoop(g: Graph, start: string, end: string, visited: set<string>, E: seq<Entry>, best: map<string, int>)
  {
    Inv(g, start, end, visited, E, best, ByWeight)
    && (forall j :: 0 <= j < |E| ==> Traced(g, start, E[j]))
    && (start == end || start !in g ==> E == [Entry([start], 0)] && visited == {})
  }

  lemma UcsStart(g: Graph, start: string, end: string)
    ensures UcsLoop(g, start, end, {}, [Entry([start], 0)], map[])
  {
    InvInit(g, start, end, ByWeight);
    assert RouteOf(g, start, [], Entry([start], 0));
  }

  /** Sorting keeps the invariant and brings a cheapest entry to the head. */
  lemma UcsSorted(g: Graph, start: string, end: string, visited: set<string>, E: seq<Entry>, best: map<string, int>)
    requires UcsLoop(g, start, end, visited, E, best) && E != []
    ensures |SortByCost(E)| == |E|
    ensures UcsLoop(g, start, end, visited, SortByCost(E), best)
    ensures Cheapest(SortByCost(E), 0) && SortByCost(E)[0].path != []
  {
    var S := SortByCost(E);
    SortByCostSorts(E);
    assert |S| == |multiset(S)| == |multiset(E)| == |E|;
    InvPermuted(g, start, end, visited, E, S, best, ByWeight);
    forall j | 0 <= j < |S| ensures Traced(g, start, S[j]) {
      assert S[j] in multiset(E);
      var k :| 0 <= k < |E| && E[k] == S[j];
    }
    assert S[0].path != [] by {
      assert PathOk(g, start, visited, S[0].path);
    }
    if start == end || start !in g {
      assert S == Insert(E[0], []);
    }
  }

  /** A cheapest head entry ending at `end` is a simple walk to it, along a
      route no route to `end` undercuts when no distance is negative. */
  lemma UcsFound(g: Graph, start: string, end: string, visited: set<string>, E: seq<Entry>, best: map<string, int>)
    requires UcsLoop(g, start, end, visited, E, best) && E != [] && Cheapest(E, 0) && Ends(E[0].path, end)
    ensures IsWalk(g, E[0].path) && E[0].path[0] == start && Distinct(E[0].path)
    ensures start == end ==> E[0].path == [start]
    ensures start in g || start == end
    ensures exists R :: IsRoute(g, start, R) && Nodes(start, R) == E[0].path && (NonNegative(g) ==> LeastDistance(g, start, end, R))
  {
    assert PathOk(g, start, visited, E[0].path);
    assert Traced(g, start, E[0]);
    var R :| RouteOf(g, start, R, E[0]);
    if NonNegative(g) {
      PoppedIsOptimal(g, start, end, visited, E, best, ByWeight, 0);
    }
  }

  lemma UcsMissing(g: Graph, start: string, end: string, visited: set<string>, E: seq<Entry>, best: map<string, int>)
    requires UcsLoop(g, start, end, visited, E, best) && E != [] && E[0].path != []
    requires Last(E[0].path) != end && Last(E[0].path) !in g
    ensures Symmetric(g) ==> start !in g
    ensures start != end && (start !in g || !Closed(g))
  {
    if Symmetric(g) {
      SymmetricIsClosed(g);
    }
    assert PathOk(g, start, visited, E[0].path);
    MissingKey(g, start, visited, E[0].path);
  }

  lemma UcsExpand(g: Graph, start: string, end: string, visited: set<string>, E: seq<Entry>, best: map<string, int>,
                  E': seq<Entry>)
    requires UcsLoop(g, start, end, visited, E, best) && E != [] && Cheapest(E, 0) && E[0].path != []
    requires Last(E[0].path) !in visited && Last(E[0].path) in g && Last(E[0].path) != end
    requires E' == E[1..] + SuccessorEntries(g[Last(E[0].path)], E[0].path, E[0].cost, visited + {Last(E[0].path)}, ByWeight)
    ensures UcsLoop(g, start, end, visited + {Last(E[0].path)}, E', best[Last(E[0].path) := E[0].cost])
    ensures |g.Keys - (visited + {Last(E[0].path)})| < |g.Keys - visited|
  {
    var c := Last(E[0].path);
    assert Remove(E, 0) == E[1..];
    ExpandKeepsInv(g, start, end, visited, E, best, ByWeight, 0);
    FewerUnvisited(g, visited, c);
    ExpandTraced(g, start, E, visited + {c}, E');
  }

  /** The entries pushed for a traced entry are traced. */
  lemma ExpandTraced(g: Graph, start: string, E: seq<Entry>, visited: set<string>, E': seq<Entry>)
    requires E != [] && E[0].path != [] && Last(E[0].path) in g
    requires forall j :: 0 <= j < |E| ==> Traced(g, start, E[j])
    requires E' == E[1..] + SuccessorEntries(g[Last(E[0].path)], E[0].path, E[0].cost, visited, ByWeight)
    ensures forall j :: 0 <= j < |E'| ==> Traced(g, start, E'[j])
  {
    var c := Last(E[0].path);
    assert Traced(g, start, E[0]);
    var R :| RouteOf(g, start, R, E[0]);
    assert End(start, R) == c;
    SuccessorRoutesMatch(g, start, R, E[0], g[c], visited);
    var Rs := SuccessorRoutes(g[c], R, visited);
    var N := SuccessorEntries(g[c], E[0].path, E[0].cost, visited, ByWeight);
    forall j | 0 <= j < |E'| ensures Traced(g, start, E'[j]) {
      if j < |E| - 1 {
        assert E'[j] == E[j + 1] && Traced(g, start, E[j + 1]);
      } else {
        assert E'[j] == N[j - (|E| - 1)];
        assert RouteOf(g, start, Rs[j - (|E| - 1)], N[j - (|E| - 1)]);
      }
    }
  }

  lemma UcsDrop(g: Graph, start: string, end: string, visited: set<string>, E: seq<Entry>, best: map<string, int>)
    requires UcsLoop(g, start, end, visited, E, best) && E != [] && E[0].path != []
    requires Last(E[0].path) in visited
    ensures UcsLoop(g, start, end, visited, E[1..], best)
  {
    assert Remove(E, 0) == E[1..];
    DropKeepsInv(g, start, end, visited, E, best, ByWeight, 0);
    forall j | 0 <= j < |E| - 1 ensures Traced(g, start, E[1..][j]) {
      assert E[1..][j] == E[j + 1];
    }
  }

  /** An emptied frontier means `end` is unreachable. */
  lemma UcsExhausted(g: Graph, start: string, end: string, visited: set<string>, best: map<string, int>)
    requires UcsLoop(g, start, end, visited, [], best)
    ensures !Reachable(g, start, end)
  {
    ExhaustedUnreachable(g, start, end, visited, best, ByWeight);
  }

  // ---------------------------------------------------------------------

  /** An emptied path-only frontier means `end` is unreachable. */
  lemma HopExhausted(g: Graph, start: string, end: string, visited: set<string>, best: map<string, int>, m: Metric)
    requires Inv(g, start, end, visited, HopEntries([]), best, m)
    ensures !Reachable(g, start, end)
  {
    assert HopEntries([]) == [];
    ExhaustedUnreachable(g, start, end, visited, best, m);
  }
}
