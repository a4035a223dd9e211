/** The undirected graph store of src/graph/graph.ts: a map from node id to the
    node's edge set. JavaScript's `Map` and `Set` iterate in insertion order, so
    the map is kept together with its key order and every edge set is a
    duplicate-free sequence in insertion order. */
module Graphs {
  import opened Collections

  /** `set.add(x)` on an insertion-ordered set: appends `x` unless already present. */
  function SetAdd(s: seq<int>, x: int): (r: seq<int>)
    ensures forall y :: y in r <==> y in s || y == x
    ensures NoDup(s) ==> NoDup(r)
    ensures x in s ==> r == s
    ensures |s| <= |r| && r[..|s|] == s
  {
    if x in s then s else s + [x]
  }

  /** The sum of the edge-set sizes of the nodes listed in `order`. */
  function SizeSum(order: seq<int>, edges: map<int, seq<int>>): nat
  {
    if order == [] then 0
    else
      var last := order[|order| - 1];
      SizeSum(order[..|order| - 1], edges) + (if last in edges then |edges[last]| else 0)
  }

  /** Changing the edge set of one listed node changes the sum by the size difference. */
  lemma {:induction false} SizeSumUpdate(order: seq<int>, edges: map<int, seq<int>>, x: int, s: seq<int>)
    requires NoDup(order) && x in order && x in edges
    ensures SizeSum(order, edges[x := s]) == SizeSum(order, edges) - |edges[x]| + |s|
  {
    var last := order[|order| - 1];
    var init := order[..|order| - 1];
    if last == x {
      assert x !in init;
      SizeSumUnaffected(init, edges, x, s);
    } else {
      assert x in init;
      SizeSumUpdate(init, edges, x, s);
    }
  }

  /** Nodes that are not listed do not contribute. */
  lemma {:induction false} SizeSumUnaffected(order: seq<int>, edges: map<int, seq<int>>, x: int, s: seq<int>)
    requires x !in order
    ensures SizeSum(order, edges[x := s]) == SizeSum(order, edges)
  {
    if order != [] {
      SizeSumUnaffected(order[..|order| - 1], edges, x, s);
    }
  }

  /** The invariant of a graph store: the key order lists the nodes once each, the edge
      sets are symmetric, duplicate-free and name only nodes, and the size sum is twice
      the number of adjacent pairs plus the number of self-loops. */
  ghost predicate Coherent(order: seq<int>, edges: map<int, seq<int>>, pairs: set<(int, int)>, loops: set<int>) {
    && Keyed(order, edges)
    && SymmetricSets(edges)
    && PairsOf(edges, pairs)
    && LoopsOf(edges, loops)
    && SizeSum(order, edges) == 2 * |pairs| + |loops|
  }

  /** The pairs after linking `u` and `v`. */
  function PairsAfter(edges: map<int, seq<int>>, pairs: set<(int, int)>, u: int, v: int): set<(int, int)>
    requires u in edges
  {
    if v in edges[u] || u == v then pairs else pairs + {if u < v then (u, v) else (v, u)}
  }

  /** The self-loops after linking `u` and `v`. */
  function LoopsAfter(loops: set<int>, u: int, v: int): set<int>
  {
    if u == v then loops + {u} else loops
  }

  /** `addEdge` on existing nodes keeps the store coherent. */
  lemma LinkedCoherent(order: seq<int>, edges: map<int, seq<int>>, pairs: set<(int, int)>, loops: set<int>, u: int, v: int)
    requires Coherent(order, edges, pairs, loops) && u in edges && v in edges
    ensures Coherent(order, Linked(edges, u, v), PairsAfter(edges, pairs, u, v), LoopsAfter(loops, u, v))
  {
    LinkedSizeSum(order, edges, u, v);
    LinkedSymmetric(edges, u, v);
    if v in edges[u] {
      LinkedPresent(edges, u, v);
      assert u == v ==> u in loops;
      assert LoopsAfter(loops, u, v) == loops;
    } else if u != v {
      var p := if u < v then (u, v) else (v, u);
      assert p !in pairs;
      LinkedPairs(edges, pairs, u, v);
      LinkedLoops(edges, loops, u, v);
      assert loops + {} == loops;
    } else {
      assert u !in loops;
      LinkedLoops(edges, loops, u, v);
      LinkedPairsLoop(edges, pairs, u);
    }
  }

  /** `order` lists the keys of `edges`, each once. */
  ghost predicate Keyed(order: seq<int>, edges: map<int, seq<int>>) {
    NoDup(order) && forall x :: x in edges <==> x in order
  }

  /** Every edge set is duplicate-free, names only nodes, and is mirrored. */
  ghost predicate SymmetricSets(edges: map<int, seq<int>>) {
    && (forall x :: x in edges ==> NoDup(edges[x]))
    && (forall x, y :: x in edges && y in edges[x] ==> y in edges && x in edges[y])
  }

  /** `pairs` holds the adjacent pairs of distinct nodes, smaller id first. */
  ghost predicate PairsOf(edges: map<int, seq<int>>, pairs: set<(int, int)>) {
    forall p :: p in pairs <==> p.0 < p.1 && p.0 in edges && p.1 in edges[p.0]
  }

  /** `loops` holds the nodes whose edge set contains themselves. */
  ghost predicate LoopsOf(edges: map<int, seq<int>>, loops: set<int>) {
    forall x :: x in loops <==> x in edges && x in edges[x]
  }

  /** The edge sets after `addEdge(u, v)` on existing nodes `u` and `v`. */
  function Linked(edges: map<int, seq<int>>, u: int, v: int): (e: map<int, seq<int>>)
    requires u in edges && v in edges
    ensures e.Keys == edges.Keys
  {
    var e1 := edges[u := SetAdd(edges[u], v)];
    e1[v := SetAdd(e1[v], u)]
  }

  /** Adding a new link between distinct nodes adds two to the size sum, a new self-loop
      one, and an existing link nothing. */
  lemma LinkedSizeSum(order: seq<int>, edges: map<int, seq<int>>, u: int, v: int)
    requires Keyed(order, edges) && SymmetricSets(edges) && u in edges && v in edges
    ensures SizeSum(order, Linked(edges, u, v)) ==
      SizeSum(order, edges) + (if v in edges[u] then 0 else if u == v then 1 else 2)
  {
    var e1 := edges[u := SetAdd(edges[u], v)];
    assert u in order && v in order;
    SizeSumUpdate(order, edges, u, e1[u]);
    SizeSumUpdate(order, e1, v, SetAdd(e1[v], u));
  }

  /** Linking keeps the edge sets symmetric, duplicate-free and within the node set. */
  lemma LinkedSymmetric(edges: map<int, seq<int>>, u: int, v: int)
    requires u in edges && v in edges && SymmetricSets(edges)
    ensures SymmetricSets(Linked(edges, u, v))
  {
    LinkedSymmetric'(edges, u, v);
  }

  /** A new link between distinct nodes adds exactly its ordered pair. */
  lemma LinkedPairs(edges: map<int, seq<int>>, pairs: set<(int, int)>, u: int, v: int)
    requires u in edges && v in edges && u != v && v !in edges[u]
    requires SymmetricSets(edges) && PairsOf(edges, pairs)
    ensures PairsOf(Linked(edges, u, v), pairs + {if u < v then (u, v) else (v, u)})
  {
    LinkedSymmetric'(edges, u, v);
  }

  /** A self-loop adds no pair. */
  lemma LinkedPairsLoop(edges: map<int, seq<int>>, pairs: set<(int, int)>, u: int)
    requires u in edges && PairsOf(edges, pairs)
    ensures PairsOf(Linked(edges, u, u), pairs)
  {
    LinkedSymmetric'(edges, u, u);
  }

  /** Linking a node to itself adds it to the self-loops; linking distinct nodes changes none. */
  lemma LinkedLoops(edges: map<int, seq<int>>, loops: set<int>, u: int, v: int)
    requires u in edges && v in edges && LoopsOf(edges, loops)
    ensures LoopsOf(Linked(edges, u, v), loops + (if u == v then {u} else {}))
  {
    LinkedSymmetric'(edges, u, v);
  }

  /** Linking nodes that are already adjacent changes nothing. */
  lemma LinkedPresent(edges: map<int, seq<int>>, u: int, v: int)
    requires u in edges && v in edges && SymmetricSets(edges) && v in edges[u]
    ensures Linked(edges, u, v) == edges
  {
    assert u in edges[v];
    assert edges[u := edges[u]] == edges;
    assert edges[v := edges[v]] == edges;
  }

  lemma LinkedSymmetric'(edges: map<int, seq<int>>, u: int, v: int)
    requires u in edges && v in edges
    ensures var e := Linked(edges, u, v);
      forall x, y :: x in e && y in e[x] <==> (x in edges && y in edges[x]) || (x == u && y == v) || (x == v && y == u)
  {
  }

  class Graph {
    /** The node ids, in the order they were added (the `Map`'s key order). */
    var order: seq<int>
    /** Each node's edge set: the ids of its neighbours, in insertion order. */
    var edges: map<int, seq<int>>
    /** The unordered pairs of distinct adjacent nodes, each written smaller id first. */
    ghost var Pairs: set<(int, int)>
    /** The nodes whose edge set contains themselves. */
    ghost var Loops: set<int>

    ghost predicate Valid()
      reads this
    {
      Coherent(order, edges, Pairs, Loops)
    }

    /** `new Graph(nodeCount = 0)`: nodes `0 .. nodeCount-1`, added in that order, no edges. */
    constructor (nodeCount: int := 0)
      ensures Valid()
      ensures forall x :: x in edges <==> 0 <= x < nodeCount
      ensures forall x :: x in edges ==> edges[x] == []
      ensures |order| == (if nodeCount < 0 then 0 else nodeCount)
      ensures forall i :: 0 <= i < |order| ==> order[i] == i
    {
      order := [];
      edges := map[];
      Pairs := {};
      Loops := {};
      new;
      // `for (let i = 0; i < nodeCount; i++)` runs no iteration for a negative count.
      var count := if nodeCount < 0 then 0 else nodeCount;
      for i := 0 to count
        invariant Valid()
        invariant |order| == i
        invariant forall k :: 0 <= k < |order| ==> order[k] == k
        invariant forall x :: x in edges <==> 0 <= x < i
        invariant forall x :: x in edges ==> edges[x] == []
      {
        AddNode(i);
      }
    }

    /** `addNode(id)`: creates an empty node unless `id` is already a node. */
    method AddNode(id: int)
      requires Valid()
      modifies this
      ensures Valid()
      ensures old(id in edges) ==> edges == old(edges) && order == old(order)
      ensures old(id !in edges) ==> edges == old(edges)[id := []] && order == old(order) + [id]
    {
      if id !in edges {
        SizeSumUnaffected(order, edges, id, []);
        assert SizeSum(order + [id], edges[id := []]) == SizeSum(order, edges[id := []]);
        order := order + [id];
        edges := edges[id := []];
      }
    }

    /** `addEdge(fromId, toId)`: when both nodes exist, adds each to the other's edge set;
        otherwise nothing changes. Adding an edge that is already present changes nothing. */
    method AddEdge(fromId: int, toId: int)
      requires Valid()
      modifies this
      ensures Valid()
      ensures order == old(order)
      ensures old(fromId in edges && toId in edges) ==> edges == Linked(old(edges), fromId, toId)
      ensures old(fromId !in edges || toId !in edges) ==> edges == old(edges)
      ensures old(fromId in edges && toId in edges[fromId]) ==> edges == old(edges)
    {
      if fromId in edges && toId in edges {
        LinkedCoherent(order, edges, Pairs, Loops, fromId, toId);
        if toId in edges[fromId] {
          LinkedPresent(edges, fromId, toId);
        }
        Pairs := PairsAfter(edges, Pairs, fromId, toId);
        Loops := LoopsAfter(Loops, fromId, toId);
        edges := Linked(edges, fromId, toId);
      }
    }

    /** `getNeighbors(id)`: the neighbour ids in edge-set order; `[]` for an unknown id. */
    function GetNeighbors(id: int): (r: seq<int>)
      reads this
      requires Valid()
      ensures NoDup(r)
      ensures forall y :: y in r <==> id in edges && y in edges[id]
      ensures id in edges ==> r == edges[id]
    {
      if id in edges then KnownNodes(edges[id]) else []
    }

    /** The ids in `s` that name a node, in order (`.map(get).filter(n => n)`). */
    function KnownNodes(s: seq<int>): (r: seq<int>)
      reads this
      ensures forall y :: y in r <==> y in s && y in edges
      ensures (forall y :: y in s ==> y in edges) ==> r == s
      ensures NoDup(s) ==> NoDup(r)
    {
      if s == [] then []
      else
        var rest := KnownNodes(s[1..]);
        assert forall y :: y in s <==> y == s[0] || y in s[1..];
        if s[0] in edges then [s[0]] + rest else rest
    }

    /** `getEdgeCount()`: half the sum of the edge-set sizes. A self-loop adds one to that
        sum, so the result is the number of unordered adjacent pairs plus half the number
        of self-loops; without self-loops it is the number of edges. */
    method GetEdgeCount() returns (count: real)
      requires Valid()
      ensures count == (2 * |Pairs| + |Loops|) as real / 2.0
      ensures Loops == {} ==> count == |Pairs| as real
    {
      assert Keyed(order, edges);
      var total := 0;
      var i := 0;
      while i < |order|
        invariant 0 <= i <= |order|
        invariant total == SizeSum(order[..i], edges)
        invariant Keyed(order, edges)
      {
        assert order[..i + 1][..i] == order[..i];
        assert order[i] in order;
        assert forall x :: x in edges <==> x in order;
        assert order[i] in edges;
        total := total + |edges[order[i]]|;
        i := i + 1;
      }
      assert order[..|order|] == order;
      count := total as real / 2.0;
    }

    /** `getNodeCount()`: the number of distinct ids ever added. */
    function GetNodeCount(): (r: nat)
      reads this
      requires Valid()
      ensures r == |edges.Keys|
    {
      NoDupCardinality(order);
      assert forall x :: x in edges.Keys <==> x in (set y | y in order);
      assert edges.Keys == set x | x in order;
      |order|
    }
  }
}
