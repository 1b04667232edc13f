/** The ascending sort by accumulated cost that uniform-cost search applies
    to its frontier before every extraction. The sort is stable (entries of
    equal cost keep their order), as `Array.prototype.sort` is required to
    be, so its head is the first frontier entry of least cost. */
module Ordering {
  import opened Frontier

  ghost predicate Sorted(E: seq<Entry>)
  {
    forall i, j :: 0 <= i < j < |E| ==> E[i].cost <= E[j].cost
  }

  /** The entries of cost `c`, in order. */
  function OfCost(E: seq<Entry>, c: int): seq<Entry>
  {
    if E == [] then []
    else (if E[0].cost == c then [E[0]] else []) + OfCost(E[1..], c)
  }

  /** Inserts `e` before the first entry that costs at least as much. */
  function Insert(e: Entry, S: seq<Entry>): seq<Entry>
  {
    if S == [] || e.cost <= S[0].cost then [e] + S
    else [S[0]] + Insert(e, S[1..])
  }

  /** Stable insertion sort by ascending cost; it rearranges the frontier
      without adding or losing an entry. */
  function SortByCost(E: seq<Entry>): (r: seq<Entry>)
    ensures multiset(r) == multiset(E)
  {
    if E == [] then []
    else
      InsertPermutes(E[0], SortByCost(E[1..]));
      assert E == [E[0]] + E[1..];
      Insert(E[0], SortByCost(E[1..]))
  }

  lemma {:induction false} InsertPermutes(e: Entry, S: seq<Entry>)
    ensures multiset(Insert(e, S)) == multiset(S) + multiset{e}
  {
    if S != [] && e.cost > S[0].cost {
      InsertPermutes(e, S[1..]);
      assert S == [S[0]] + S[1..];
    }
  }

  lemma {:induction false} InsertSorted(e: Entry, S: seq<Entry>)
    requires Sorted(S)
    ensures Sorted(Insert(e, S))
  {
    if S != [] && e.cost > S[0].cost {
      InsertSorted(e, S[1..]);
      InsertPermutes(e, S[1..]);
      var r := Insert(e, S);
      forall j | 1 <= j < |r| ensures S[0].cost <= r[j].cost {
        assert r[j] in multiset(Insert(e, S[1..]));
        assert r[j] in multiset(S[1..]) || r[j] == e;
      }
    }
  }

  lemma OfCostCons(x: Entry, S: seq<Entry>, c: int)
    ensures OfCost([x] + S, c) == (if x.cost == c then [x] else []) + OfCost(S, c)
  {
    assert ([x] + S)[0] == x && ([x] + S)[1..] == S;
  }

  /** Inserting `e` puts it ahead of every entry of its own cost. */
  lemma {:induction false} InsertStable(e: Entry, S: seq<Entry>, c: int)
    ensures OfCost(Insert(e, S), c) == (if e.cost == c then [e] else []) + OfCost(S, c)
  {
    if S == [] || e.cost <= S[0].cost {
      OfCostCons(e, S, c);
    } else {
      InsertStable(e, S[1..], c);
      OfCostCons(S[0], Insert(e, S[1..]), c);
      OfCostCons(S[0], S[1..], c);
      assert S == [S[0]] + S[1..];
    }
  }

  /** The sort leaves the frontier in ascending cost. */
  lemma {:induction false} SortByCostSorts(E: seq<Entry>)
    ensures Sorted(SortByCost(E))
  {
    if E != [] {
      SortByCostSorts(E[1..]);
      InsertSorted(E[0], SortByCost(E[1..]));
    }
  }

  /** The sort is stable: entries of equal cost keep their original order. */
  lemma {:induction false} SortByCostIsStable(E: seq<Entry>, c: int)
    ensures OfCost(SortByCost(E), c) == OfCost(E, c)
  {
    if E != [] {
      SortByCostIsStable(E[1..], c);
      InsertStable(E[0], SortByCost(E[1..]), c);
      OfCostCons(E[0], E[1..], c);
      assert E == [E[0]] + E[1..];
    }
  }

  /** The first entry of cost `c` heads the entries of cost `c`. */
  lemma {:induction false} OfCostHead(E: seq<Entry>, i: nat)
    requires i < |E| && forall j :: 0 <= j < i ==> E[j].cost != E[i].cost
    ensures OfCost(E, E[i].cost) != [] && OfCost(E, E[i].cost)[0] == E[i]
  {
    if i > 0 {
      OfCostHead(E[1..], i - 1);
    }
  }

  /** The index of the first entry of least cost. */
  function FirstMin(E: seq<Entry>): (i: nat)
    requires E != []
    ensures i < |E|
    ensures forall j :: 0 <= j < |E| ==> E[i].cost <= E[j].cost
    ensures forall j :: 0 <= j < i ==> E[j].cost > E[i].cost
  {
    if |E| == 1 then 0
    else
      var i := FirstMin(E[..|E| - 1]);
      if E[|E| - 1].cost < E[i].cost then |E| - 1 else i
  }

  /** Sorting then taking the head extracts the first entry of least cost. */
  lemma SortHeadIsFirstMin(E: seq<Entry>)
    requires E != []
    ensures SortByCost(E) != [] && SortByCost(E)[0] == E[FirstMin(E)]
  {
    var r := SortByCost(E);
    var i := FirstMin(E);
    SortByCostSorts(E);
    SortByCostIsStable(E, E[i].cost);
    assert E[i] in multiset(r);
    OfCostHead(E, i);
    var h := r[0];
    assert h in multiset(E);
    assert h.cost == E[i].cost by {
      var k :| 0 <= k < |r| && r[k] == E[i];
      var l :| 0 <= l < |E| && E[l] == h;
    }
    OfCostHead(r, 0);
  }
}
