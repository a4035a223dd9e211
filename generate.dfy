/** Building adjacency structures (src/graph/generate.ts): reading a tab-separated
    edge list, turning an edge list into adjacency lists, and reading a `Graph`
    store out as adjacency lists. */
module Generate {
  import opened Collections
  import opened Text
  import Graphs

  /** An edge as `readEdgeList` produces it from two digit-only fields. */
  type Edge = (nat, nat)

  /** `{ [vertex: number]: number[] }`: a JavaScript object with integer keys, which
      `for ... in`, `Object.keys` and `Object.values` visit in ascending key order. */
  type AdjacencyList = map<nat, seq<int>>

  /** The lines of the trimmed text. */
  function Lines(data: string): seq<string> {
    Split(Trim(data), '\n')
  }

  /** The tab-separated fields of a line. */
  function Fields(line: string): seq<string> {
    Split(line, '\t')
  }

  /** A line whose first two fields are runs of decimal digits (further fields are ignored). */
  predicate IsEdgeLine(line: string) {
    var f := Fields(line);
    |f| >= 2 && IsDigits(f[0]) && IsDigits(f[1])
  }

  /** Text every line of which, after trimming, is an edge line. */
  predicate IsEdgeListText(data: string) {
    forall i :: 0 <= i < |Lines(data)| ==> IsEdgeLine(Lines(data)[i])
  }

  /** The edge a line denotes: its first two fields read as numbers. */
  function ParseLine(line: string): Edge
    requires IsEdgeLine(line)
  {
    var f := Fields(line);
    (DecimalValue(f[0]), DecimalValue(f[1]))
  }

  /** The edges `readEdgeList` returns: one per line of the trimmed text, in order. */
  function ParseEdgeList(data: string): (edges: seq<Edge>)
    requires IsEdgeListText(data)
    ensures |edges| == |Lines(data)|
  {
    var ls := Lines(data);
    seq(|ls|, i requires 0 <= i < |ls| => ParseLine(ls[i]))
  }

  /** `readEdgeList(data)`. */
  method ReadEdgeList(data: string) returns (edges: seq<Edge>)
    requires IsEdgeListText(data)
    ensures edges == ParseEdgeList(data)
  {
    var lines := Lines(data);
    edges := ParseLines(lines);
  }

  /** The loop of `readEdgeList` over the lines. */
  method ParseLines(lines: seq<string>) returns (edges: seq<Edge>)
    requires forall i :: 0 <= i < |lines| ==> IsEdgeLine(lines[i])
    ensures |edges| == |lines|
    ensures forall i :: 0 <= i < |lines| ==> edges[i] == ParseLine(lines[i])
  {
    edges := [];
    for i := 0 to |lines|
      invariant |edges| == i
      invariant forall k :: 0 <= k < i ==> edges[k] == ParseLine(lines[k])
    {
      edges := edges + [ParseLine(lines[i])];
    }
  }

  /** The vertices that occur as an endpoint of some edge. */
  ghost function Endpoints(edges: seq<Edge>): set<nat> {
    (set e | e in edges :: e.0) + (set e | e in edges :: e.1)
  }

  /** What one edge appends to the list of `x`: the other end when `x` is the first
      end, then the first end when `x` is the second end (a self-loop gives both). */
  function Contribution(e: Edge, x: nat): seq<int> {
    (if e.0 == x then [e.1 as int] else []) + (if e.1 == x then [e.0 as int] else [])
  }

  /** The list `edgeListToAdjacencyList` builds for `x`: its neighbours in edge-list
      order, repeats and self-loops included. */
  function Neighbours(edges: seq<Edge>, x: nat): seq<int> {
    if edges == [] then []
    else Neighbours(edges[..|edges| - 1], x) + Contribution(edges[|edges| - 1], x)
  }

  /** A vertex no edge touches has an empty list. */
  lemma {:induction false} NeighboursOutside(edges: seq<Edge>, x: nat)
    requires x !in Endpoints(edges)
    ensures Neighbours(edges, x) == []
  {
    if edges != [] {
      NeighboursOutside(edges[..|edges| - 1], x);
    }
  }

  /** Appending `y` to the list of `x`, creating the list first when `x` has none
      (src/graph/generate.ts:33-36, and 37-40 with the roles swapped). */
  function Append(adj: AdjacencyList, x: nat, y: int): AdjacencyList {
    adj[x := (if x in adj then adj[x] else []) + [y]]
  }

  /** The two appends for one more edge keep the lists those of the longer edge list. */
  lemma AppendEdge(adj: AdjacencyList, edges: seq<Edge>, i: nat)
    requires i < |edges|
    requires adj.Keys == Endpoints(edges[..i])
    requires forall x :: x in adj ==> adj[x] == Neighbours(edges[..i], x)
    ensures var r := Append(Append(adj, edges[i].0, edges[i].1), edges[i].1, edges[i].0);
      && r.Keys == Endpoints(edges[..i + 1])
      && forall x :: x in r ==> r[x] == Neighbours(edges[..i + 1], x)
  {
    var init, u, v := edges[..i], edges[i].0, edges[i].1;
    assert edges[..i + 1] == init + [(u, v)];
    NeighboursStep(init, (u, v), u);
    forall x | x in Append(Append(adj, u, v), v, u) {
      AppendEdgeAt(adj, init, u, v, x);
    }
  }

  /** The list of one vertex after the two appends. */
  lemma AppendEdgeAt(adj: AdjacencyList, init: seq<Edge>, u: nat, v: nat, x: nat)
    requires x in adj <==> x in Endpoints(init)
    requires x in adj ==> adj[x] == Neighbours(init, x)
    ensures var r := Append(Append(adj, u, v), v, u);
      x in r ==> r[x] == Neighbours(init + [(u, v)], x)
  {
    NeighboursStep(init, (u, v), x);
    if x !in adj {
      NeighboursOutside(init, x);
    }
  }

  /** `edgeListToAdjacencyList(edges)`. */
  method EdgeListToAdjacencyList(edges: seq<Edge>) returns (adj: AdjacencyList)
    ensures adj.Keys == Endpoints(edges)
    ensures forall x :: x in adj ==> adj[x] == Neighbours(edges, x)
  {
    adj := map[];
    for i := 0 to |edges|
      invariant adj.Keys == Endpoints(edges[..i])
      invariant forall x :: x in adj ==> adj[x] == Neighbours(edges[..i], x)
    {
      var u: nat, v: nat := edges[i].0, edges[i].1;
      AppendEdge(adj, edges, i);
      adj := Append(adj, u, v);
      adj := Append(adj, v, u);
    }
    assert edges[..|edges|] == edges;
  }

  /** The adjacency lists of an edge list, as a map. */
  ghost function AdjacencyOf(edges: seq<Edge>): AdjacencyList {
    map x | x in Endpoints(edges) :: Neighbours(edges, x)
  }

  /** The length of each list. */
  ghost function Lengths(adj: AdjacencyList): map<nat, nat> {
    map x | x in adj :: |adj[x]|
  }

  /** No deduplication: `y` occurs in the list of `x` once per edge `(x, y)` and once per
      edge `(y, x)`, and a self-loop `(x, x)` puts `x` into its own list twice. */
  lemma {:induction false} NeighbourMultiplicity(edges: seq<Edge>, x: nat, y: nat)
    ensures multiset(Neighbours(edges, x))[y] ==
      if x == y then 2 * multiset(edges)[(x, x)]
      else multiset(edges)[(x, y)] + multiset(edges)[(y, x)]
  {
    if edges != [] {
      var init := edges[..|edges| - 1];
      var e := edges[|edges| - 1];
      assert edges == init + [e];
      NeighbourMultiplicity(init, x, y);
      MultiplicityStep(init, e, x, y);
      ContributionCount(e, x, y);
      assert multiset(edges)[(x, y)] == multiset(init)[(x, y)] + (if e == (x, y) then 1 else 0);
      assert multiset(edges)[(y, x)] == multiset(init)[(y, x)] + (if e == (y, x) then 1 else 0);
    }
  }

  /** What one more edge adds to the count of `y` in the list of `x`. */
  lemma MultiplicityStep(init: seq<Edge>, e: Edge, x: nat, y: nat)
    ensures multiset(Neighbours(init + [e], x))[y] ==
      multiset(Neighbours(init, x))[y] + multiset(Contribution(e, x))[y]
    ensures multiset(init + [e]) == multiset(init) + multiset{e}
  {
    NeighboursStep(init, e, x);
  }

  /** The count of `y` in what edge `e` appends to the list of `x`. */
  lemma ContributionCount(e: Edge, x: nat, y: nat)
    ensures multiset(Contribution(e, x))[y] ==
      if x == y then (if e == (x, x) then 2 else 0)
      else (if e == (x, y) then 1 else 0) + (if e == (y, x) then 1 else 0)
  {
    var first: seq<int> := if e.0 == x then [e.1 as int] else [];
    var second: seq<int> := if e.1 == x then [e.0 as int] else [];
    assert Contribution(e, x) == first + second;
    assert multiset(first)[y] == if e.0 == x && e.1 == y then 1 else 0;
    assert multiset(second)[y] == if e.1 == x && e.0 == y then 1 else 0;
  }

  /** Appending an edge appends its contribution to every list. */
  lemma NeighboursStep(init: seq<Edge>, e: Edge, x: nat)
    ensures Neighbours(init + [e], x) == Neighbours(init, x) + Contribution(e, x)
    ensures Endpoints(init + [e]) == Endpoints(init) + {e.0, e.1}
  {
    var edges := init + [e];
    assert edges[..|edges| - 1] == init;
  }

  /** One more edge `(u, v)` adds one to the length of the lists of `u` and of `v`
      (two to that of `u` for a self-loop) and leaves the other lengths alone. */
  lemma LengthsStep(init: seq<Edge>, u: nat, v: nat, du: nat, dv: nat)
    requires du == |Neighbours(init, u)|
    requires dv == if v == u then du + 1 else |Neighbours(init, v)|
    ensures Lengths(AdjacencyOf(init + [(u, v)])) == Lengths(AdjacencyOf(init))[u := du + 1][v := dv + 1]
  {
    var l2 := Lengths(AdjacencyOf(init))[u := du + 1][v := dv + 1];
    var after := Lengths(AdjacencyOf(init + [(u, v)]));
    LengthsValues(init, u, v, du, dv);
    assert after.Keys == l2.Keys;
  }

  /** The lengths after one more edge, vertex by vertex. */
  lemma LengthsValues(init: seq<Edge>, u: nat, v: nat, du: nat, dv: nat)
    requires du == |Neighbours(init, u)|
    requires dv == if v == u then du + 1 else |Neighbours(init, v)|
    ensures var l2 := Lengths(AdjacencyOf(init))[u := du + 1][v := dv + 1];
      var after := Lengths(AdjacencyOf(init + [(u, v)]));
      && after.Keys == Endpoints(init) + {u, v} == l2.Keys
      && forall x :: x in after ==> after[x] == l2[x]
  {
    NeighboursStep(init, (u, v), u);
    forall x | x in Endpoints(init) + {u, v}
      ensures |Neighbours(init + [(u, v)], x)| ==
        if x == v then dv + 1 else if x == u then du + 1 else |Neighbours(init, x)|
    {
      LengthAt(init, u, v, du, dv, x);
    }
  }

  /** The new length of one list. */
  lemma LengthAt(init: seq<Edge>, u: nat, v: nat, du: nat, dv: nat, x: nat)
    requires du == |Neighbours(init, u)|
    requires dv == if v == u then du + 1 else |Neighbours(init, v)|
    ensures |Neighbours(init + [(u, v)], x)| ==
      if x == v then dv + 1 else if x == u then du + 1 else |Neighbours(init, x)|
  {
    NeighboursStep(init, (u, v), x);
  }

  /** The list lengths add up to twice the number of edges. */
  lemma {:induction false} Handshake(edges: seq<Edge>)
    ensures SumOver(Lengths(AdjacencyOf(edges))) == 2 * |edges|
  {
    if edges == [] {
      assert Lengths(AdjacencyOf(edges)) == map[];
    } else {
      var init := edges[..|edges| - 1];
      var e := edges[|edges| - 1];
      assert edges == init + [e];
      Handshake(init);
      HandshakeStep(init, e.0, e.1);
    }
  }

  /** One more edge adds two to the total length. */
  lemma HandshakeStep(init: seq<Edge>, u: nat, v: nat)
    ensures SumOver(Lengths(AdjacencyOf(init + [(u, v)]))) == SumOver(Lengths(AdjacencyOf(init))) + 2
  {
    var before := Lengths(AdjacencyOf(init));
    var du := |Neighbours(init, u)|;
    var dv := if v == u then du + 1 else |Neighbours(init, v)|;
    var l1 := before[u := du + 1];
    LengthsStep(init, u, v, du, dv);
    assert (if u in before then before[u] else 0) == du by {
      if u !in Endpoints(init) {
        NeighboursOutside(init, u);
      }
    }
    assert (if v in l1 then l1[v] else 0) == dv by {
      if v != u && v !in Endpoints(init) {
        NeighboursOutside(init, v);
      }
    }
    SumOverUpdate<nat>(before, u, du + 1);
    SumOverUpdate<nat>(l1, v, dv + 1);
  }

  /** `graphToAdjacencyList(graph)`: keys `0 .. getNodeCount()-1`, each mapped to the ids
      `getNeighbors` returns for it. */
  method GraphToAdjacencyList(graph: Graphs.Graph) returns (adj: AdjacencyList)
    requires graph.Valid()
    ensures forall i: nat :: i in adj <==> i < graph.GetNodeCount()
    ensures forall i :: i in adj ==> adj[i] == graph.GetNeighbors(i)
  {
    adj := map[];
    var i := 0;
    while i < graph.GetNodeCount()
      invariant i <= graph.GetNodeCount()
      invariant forall k: nat :: k in adj <==> k < i
      invariant forall k :: k in adj ==> adj[k] == graph.GetNeighbors(k)
    {
      adj := adj[i := graph.GetNeighbors(i)];
      i := i + 1;
    }
  }
}
