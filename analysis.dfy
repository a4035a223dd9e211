/** Degree statistics of an adjacency list (src/graph/analysis.ts): the degree list
    `getDegreesOfAdjacencyList` and the histogram `adjacencyListToDegreeDistribution`. */
module Analysis {
  import opened Collections
  import opened Generate

  /** The list lengths of the given keys, in the order of the keys. */
  function DegreesOf(adj: AdjacencyList, keys: seq<nat>): seq<nat>
    requires forall i :: 0 <= i < |keys| ==> keys[i] in adj
  {
    seq(|keys|, i requires 0 <= i < |keys| => |adj[keys[i]]|)
  }

  /** `getDegreesOfAdjacencyList(adj)`: the list lengths in the order `Object.values`
      visits them, ascending vertex number. */
  ghost function Degrees(adj: AdjacencyList): (ds: seq<nat>)
    ensures |ds| == |adj|
    ensures forall v :: v in adj ==> |adj[v]| in ds
  {
    var keys := AscendingKeys(adj.Keys);
    var ds := DegreesOf(adj, keys);
    assert forall v :: v in adj ==> |adj[v]| in ds by {
      forall v | v in adj ensures |adj[v]| in ds {
        var i :| 0 <= i < |keys| && keys[i] == v;
        assert ds[i] == |adj[v]|;
      }
    }
    ds
  }

  /** For vertices numbered `0 .. n-1` the degree list is indexed by vertex. */
  lemma DegreesOfRange(adj: AdjacencyList, n: nat)
    requires forall v: nat :: v in adj <==> v < n
    ensures |Degrees(adj)| == n
    ensures forall v :: 0 <= v < n ==> Degrees(adj)[v] == |adj[v]|
  {
    AscendingKeysOfRange(adj.Keys, n);
  }

  /** The vertices among `keys` whose degree is `d`. */
  ghost function WithDegree(adj: AdjacencyList, keys: seq<nat>, d: nat): set<nat>
    requires forall i :: 0 <= i < |keys| ==> keys[i] in adj
  {
    set i | 0 <= i < |keys| && |adj[keys[i]]| == d :: keys[i]
  }

  lemma {:induction false} CountWithDegree(adj: AdjacencyList, keys: seq<nat>, d: nat)
    requires forall i :: 0 <= i < |keys| ==> keys[i] in adj
    requires NoDup(keys)
    ensures multiset(DegreesOf(adj, keys))[d] == |WithDegree(adj, keys, d)|
  {
    if keys != [] {
      var init := keys[..|keys| - 1];
      var last := keys[|keys| - 1];
      assert keys == init + [last];
      CountWithDegree(adj, init, d);
      DegreesOfStep(adj, init, last, d);
      WithDegreeStep(adj, init, last, d);
    }
  }

  /** One more key adds its degree to the degree list. */
  lemma DegreesOfStep(adj: AdjacencyList, init: seq<nat>, last: nat, d: nat)
    requires forall i :: 0 <= i < |init| ==> init[i] in adj
    requires last in adj
    ensures multiset(DegreesOf(adj, init + [last]))[d] ==
      multiset(DegreesOf(adj, init))[d] + if |adj[last]| == d then 1 else 0
  {
    assert DegreesOf(adj, init + [last]) == DegreesOf(adj, init) + [|adj[last]|];
  }

  /** One more key, not seen before, joins the vertices of its degree. */
  lemma WithDegreeStep(adj: AdjacencyList, init: seq<nat>, last: nat, d: nat)
    requires forall i :: 0 <= i < |init| ==> init[i] in adj
    requires last in adj && last !in init
    ensures |WithDegree(adj, init + [last], d)| ==
      |WithDegree(adj, init, d)| + if |adj[last]| == d then 1 else 0
  {
    var keys := init + [last];
    var before, after := WithDegree(adj, init, d), WithDegree(adj, keys, d);
    assert last !in before;
    forall v | v in after ensures v in before || (v == last && |adj[last]| == d) {
      var i :| 0 <= i < |keys| && |adj[keys[i]]| == d && keys[i] == v;
      if i < |init| {
        assert keys[i] == init[i];
      }
    }
    forall v | v in before ensures v in after {
      var i :| 0 <= i < |init| && |adj[init[i]]| == d && init[i] == v;
      assert keys[i] == init[i];
    }
    if |adj[last]| == d {
      assert keys[|init|] == last;
      assert after == before + {last};
    } else {
      assert after == before;
    }
  }

  /** Counting degrees along any ascending enumeration of the keys counts the vertices
      of each degree. */
  lemma CountInKeys(adj: AdjacencyList, keys: seq<nat>, d: nat)
    requires Increasing(keys) && forall k :: k in keys <==> k in adj
    ensures forall i :: 0 <= i < |keys| ==> keys[i] in adj
    ensures |keys| == |adj.Keys|
    ensures multiset(DegreesOf(adj, keys))[d] == |set v | v in adj && |adj[v]| == d|
  {
    CountWithDegree(adj, keys, d);
    assert WithDegree(adj, keys, d) == set v | v in adj && |adj[v]| == d by {
      forall v | v in adj && |adj[v]| == d ensures v in WithDegree(adj, keys, d) {
        var i :| 0 <= i < |keys| && keys[i] == v;
      }
    }
    assert NoDup(keys);
    NoDupCardinality<nat>(keys);
    assert (set k: nat | k in keys) == adj.Keys;
  }

  /** The degree list holds `d` exactly as often as there are vertices of degree `d`. */
  lemma DegreeCount(adj: AdjacencyList, d: nat)
    ensures multiset(Degrees(adj))[d] == |set v | v in adj && |adj[v]| == d|
  {
    CountInKeys(adj, AscendingKeys(adj.Keys), d);
  }

  /** The count a distribution records for `d`, zero when `d` is absent
      (`degreeDistribution.get(degree) || 0`). */
  function Tally(dist: map<nat, nat>, d: nat): nat {
    if d in dist then dist[d] else 0
  }

  /** `dist` is the tally of the first `i` entries of the degree list. */
  ghost predicate Counted(dist: map<nat, nat>, degrees: seq<nat>, i: nat)
    requires i <= |degrees|
  {
    && (forall d :: Tally(dist, d) == multiset(degrees[..i])[d])
    && (forall d :: d in dist ==> dist[d] > 0)
    && SumOver(dist) == i
  }

  /** Counting the vertex at position `i` of the degree list. */
  lemma TallyStep(dist: map<nat, nat>, degrees: seq<nat>, i: nat)
    requires i < |degrees| && Counted(dist, degrees, i)
    ensures Counted(dist[degrees[i] := Tally(dist, degrees[i]) + 1], degrees, i + 1)
  {
    assert degrees[..i + 1] == degrees[..i] + [degrees[i]];
    SumOverUpdate<nat>(dist, degrees[i], Tally(dist, degrees[i]) + 1);
  }

  /** `adjacencyListToDegreeDistribution(adj)`: for each degree that occurs, the number
      of vertices having it (see `DegreeCount`); degrees that do not occur are absent,
      and the counts add up to the number of vertices. */
  method DegreeDistribution(adj: AdjacencyList) returns (dist: map<nat, nat>)
    ensures forall d :: Tally(dist, d) == |set v | v in adj && |adj[v]| == d|
    ensures forall d :: d in dist ==> dist[d] > 0
    ensures SumOver(dist) == |adj.Keys|
  {
    var keys := KeysInOrder(adj);
    assert forall i :: 0 <= i < |keys| ==> keys[i] in adj;
    ghost var degrees := DegreesOf(adj, keys);
    dist := map[];
    assert degrees[..0] == [];
    assert Counted(dist, degrees, 0);
    for i := 0 to |keys|
      invariant Counted(dist, degrees, i)
    {
      var degree: nat := |adj[keys[i]]|;
      assert degree == degrees[i];
      TallyStep(dist, degrees, i);
      dist := dist[degree := Tally(dist, degree) + 1];
    }
    assert degrees[..|keys|] == degrees;
    TallyOfKeys(adj, keys, dist);
  }

  /** A tally of the degrees along an ascending enumeration of the keys is the
      distribution. */
  lemma TallyOfKeys(adj: AdjacencyList, keys: seq<nat>, dist: map<nat, nat>)
    requires Increasing(keys) && forall k :: k in keys <==> k in adj
    requires forall i :: 0 <= i < |keys| ==> keys[i] in adj
    requires forall d :: Tally(dist, d) == multiset(DegreesOf(adj, keys))[d]
    requires SumOver(dist) == |keys|
    ensures forall d :: Tally(dist, d) == |set v | v in adj && |adj[v]| == d|
    ensures SumOver(dist) == |adj.Keys|
  {
    forall d ensures Tally(dist, d) == |set v | v in adj && |adj[v]| == d| {
      CountInKeys(adj, keys, d);
    }
    CountInKeys(adj, keys, 0);
  }
}
