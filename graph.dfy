/** The adjacency store: a map from a node label to the ordered list of edges
    recorded at that node, and the undirected-edge insertion that builds it. */
module Graphs {

  datatype Option<T> = None | Some(value: T)

  /** One adjacency record `{to, distance}`. */
  datatype Edge = Edge(to: string, distance: int)

  /** Node label to its edges, in insertion order. */
  type Graph = map<string, seq<Edge>>

  /** The edge list of `u`, or the empty list for a label that is not a key. */
  function Adjacent(g: Graph, u: string): seq<Edge>
  {
    if u in g then g[u] else []
  }

  /** Some edge recorded at `u` leads to `v`. */
  ghost predicate HasEdge(g: Graph, u: string, v: string)
  {
    u in g && exists k :: 0 <= k < |g[u]| && g[u][k].to == v
  }

  /** Every edge target is itself a key. */
  ghost predicate Closed(g: Graph)
  {
    forall u, k :: u in g && 0 <= k < |g[u]| ==> g[u][k].to in g
  }

  /** How many records `(v, d)` are stored under `u`. */
  function Mult(g: Graph, u: string, v: string, d: int): nat
  {
    multiset(Adjacent(g, u))[Edge(v, d)]
  }

  /** Undirectedness: the records `(v, d)` under `u` mirror, one for one,
      the records `(u, d)` under `v`. */
  ghost predicate Symmetric(g: Graph)
  {
    forall u, v, d {:trigger Mult(g, u, v, d)} :: Mult(g, u, v, d) == Mult(g, v, u, d)
  }

  /** The graph after recording the undirected edge `from`-`to` of weight `d`:
      both ends become keys and one record is appended at each end. */
  function WithPath(g: Graph, from: string, to: string, d: int): (r: Graph)
    ensures r.Keys == g.Keys + {from, to}
    ensures from != to ==> r[from] == Adjacent(g, from) + [Edge(to, d)]
    ensures from != to ==> r[to] == Adjacent(g, to) + [Edge(from, d)]
    ensures from == to ==> r[from] == Adjacent(g, from) + [Edge(to, d), Edge(from, d)]
    ensures forall u :: u in g && u != from && u != to ==> r[u] == g[u]
  {
    var g1 := g[from := Adjacent(g, from) + [Edge(to, d)]];
    g1[to := Adjacent(g1, to) + [Edge(from, d)]]
  }

  /** A symmetric graph is closed: the mirror record of an edge lives under
      its target, which is therefore a key. */
  lemma SymmetricIsClosed(g: Graph)
    requires Symmetric(g)
    ensures Closed(g)
  {
    forall u, k | u in g && 0 <= k < |g[u]|
      ensures g[u][k].to in g
    {
      var e := g[u][k];
      assert e in multiset(g[u]);
      assert Mult(g, u, e.to, e.distance) > 0;
      assert Mult(g, e.to, u, e.distance) > 0;
    }
  }

  /** How many records `(v, d')` one `WithPath` call adds under `u`. */
  function Added(from: string, to: string, d: int, u: string, v: string, d': int): nat
  {
    (if u == from && v == to && d' == d then 1 else 0)
    + (if u == to && v == from && d' == d then 1 else 0)
  }

  /** The records one `WithPath` call appends under `u`. */
  function AppendedAt(from: string, to: string, d: int, u: string): seq<Edge>
  {
    (if u == from then [Edge(to, d)] else []) + (if u == to then [Edge(from, d)] else [])
  }

  lemma AdjacentWithPath(g: Graph, from: string, to: string, d: int, u: string)
    ensures Adjacent(WithPath(g, from, to, d), u) == Adjacent(g, u) + AppendedAt(from, to, d, u)
  {
    var r: Graph := WithPath(g, from, to, d);
    if u == from && u == to {
      assert Adjacent(r, u) == Adjacent(g, u) + [Edge(to, d)] + [Edge(from, d)];
    }
  }

  lemma MultWithPath(g: Graph, from: string, to: string, d: int, u: string, v: string, d': int)
    ensures Mult(WithPath(g, from, to, d), u, v, d') == Mult(g, u, v, d') + Added(from, to, d, u, v, d')
  {
    var L := AppendedAt(from, to, d, u);
    AdjacentWithPath(g, from, to, d, u);
    assert multiset(Adjacent(g, u) + L) == multiset(Adjacent(g, u)) + multiset(L);
    assert multiset(L)[Edge(v, d')] == Added(from, to, d, u, v, d');
  }

  /** Recording an undirected edge keeps the graph symmetric, even for a
      self-loop or a repeated (parallel) edge. */
  lemma WithPathSymmetric(g: Graph, from: string, to: string, d: int)
    requires Symmetric(g)
    ensures Symmetric(WithPath(g, from, to, d))
  {
    var r: Graph := WithPath(g, from, to, d);
    forall u, v, d' ensures Mult(r, u, v, d') == Mult(r, v, u, d') {
      assert Mult(g, u, v, d') == Mult(g, v, u, d');
      MultWithPath(g, from, to, d, u, v, d');
      MultWithPath(g, from, to, d, v, u, d');
    }
  }

  /** Recording an edge makes it visible in both directions. */
  lemma WithPathHasEdge(g: Graph, from: string, to: string, d: int)
    ensures HasEdge(WithPath(g, from, to, d), from, to)
    ensures HasEdge(WithPath(g, from, to, d), to, from)
  {
    var r: Graph := WithPath(g, from, to, d);
    var n := |Adjacent(g, from)|;
    assert r[from][n].to == to;
    if from != to {
      assert r[to][|Adjacent(g, to)|].to == from;
    }
  }
}
