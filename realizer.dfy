/** `generateSimpleGraphWithDegrees` (src/graph/analysis.ts): builds a graph on the
    vertices `0 .. n-1` in which vertex `v` is to get the `v`-th smallest of the given
    degrees, first greedily and then by repeatedly moving edges around. */
module Realizer {
  import opened Collections
  import Generate
  import Analysis

  /** The adjacency object while it is being built: vertex `v`'s list is `g[v]`. Its keys
      are exactly `0 .. n-1` from the first line of the function to the last. */
  type Lists = seq<seq<nat>>

  /** Every listed neighbour is a vertex. */
  predicate InRange(g: Lists) {
    forall v, j :: 0 <= v < |g| && 0 <= j < |g[v]| ==> g[v][j] < |g|
  }

  /** A simple undirected graph: no self-loops, no repeated neighbours, and `v` lists `u`
      whenever `u` lists `v`. */
  predicate Simple(g: Lists) {
    && InRange(g)
    && (forall v :: 0 <= v < |g| ==> NoDup(g[v]) && v !in g[v])
    && (forall u, v :: 0 <= u < |g| && 0 <= v < |g| && v in g[u] ==> u in g[v])
  }

  /** `adjacencyList[v].push(x)`. */
  function Push(g: Lists, v: nat, x: nat): Lists
    requires v < |g|
  {
    g[v := g[v] + [x]]
  }

  /** `adjacencyList[v] = adjacencyList[v].filter((e) => e != x)`. */
  function Drop(g: Lists, v: nat, x: nat): Lists
    requires v < |g|
  {
    g[v := Remove(g[v], x)]
  }

  /** The two pushes that connect `u` and `v`. */
  function Connect(g: Lists, u: nat, v: nat): Lists
    requires u < |g| && v < |g|
  {
    Push(Push(g, u, v), v, u)
  }

  /** Connecting two distinct vertices that are not yet adjacent keeps the graph simple
      and gives each of them exactly one more neighbour. */
  lemma ConnectSimple(g: Lists, u: nat, v: nat)
    requires Simple(g) && u < |g| && v < |g| && u != v && v !in g[u]
    ensures Simple(Connect(g, u, v))
    ensures Connect(g, u, v)[u] == g[u] + [v] && Connect(g, u, v)[v] == g[v] + [u]
    ensures forall w :: 0 <= w < |g| && w != u && w != v ==> Connect(g, u, v)[w] == g[w]
  {
    var r := Connect(g, u, v);
    assert u !in g[v];
    forall x, y | 0 <= x < |r| && 0 <= y < |r| && y in r[x] ensures x in r[y] {
      if !(x == u && y == v) && !(x == v && y == u) {
        assert y in g[x];
      }
    }
  }

  /** A list that gains `x` and loses `y` keeps its length and its distinct entries. */
  lemma ReplaceNeighbour(s: seq<nat>, x: nat, y: nat)
    requires NoDup(s) && x !in s && y in s && x != y
    ensures var r := Remove(s + [x], y);
      NoDup(r) && |r| == |s| && forall z :: z in r <==> z == x || (z in s && z != y)
  {
    assert NoDup(s + [x]);
    RemoveOne(s + [x], y);
    RemoveNoDup(s + [x], y);
  }

  lemma AppendNoDup(s: seq<nat>, x: nat, y: nat)
    requires NoDup(s) && x !in s && y !in s && x != y
    ensures NoDup(s + [x] + [y])
  {
  }

  /** The two-edge transfer (lines 149-155): `id` is connected to `i` and to `k`, and the
      edge between `i` and `k` is removed, in the source's order of operations. */
  function Transfer(g: Lists, id: nat, i: nat, k: nat): (r: Lists)
    requires id < |g| && i < |g| && k < |g|
    ensures |r| == |g| && forall v :: 0 <= v < |g| && v != id && v != i && v != k ==> r[v] == g[v]
  {
    var g1 := Push(g, id, i);
    var g2 := Push(g1, i, id);
    var g3 := Push(g2, id, k);
    var g4 := Push(g3, k, id);
    var g5 := Drop(g4, i, k);
    Drop(g5, k, i)
  }

  /** The conditions the transfer loop checks before moving the edge `i`-`k` to `id`:
      `i` is not a neighbour of `id`, `k` is a neighbour of `i` but not of `id`. */
  predicate TransferPoint(g: Lists, id: nat, i: nat, k: nat)
    requires id < |g|
  {
    i < |g| && i !in g[id] && k in g[i] && k !in g[id]
  }

  /** On a simple graph the transfer keeps it simple, gives `id` two more neighbours (`i`
      and `k`), leaves the degrees of `i` and `k` as they were (each swaps the other for
      `id`) and touches no other vertex. */
  lemma TransferSimple(g: Lists, id: nat, i: nat, k: nat)
    requires Simple(g) && id < |g| && TransferPoint(g, id, i, k)
    ensures var r := Transfer(g, id, i, k);
      && Simple(r) && |r| == |g|
      && r[id] == g[id] + [i, k]
      && |r[i]| == |g[i]| && (forall y :: y in r[i] <==> y == id || (y in g[i] && y != k))
      && |r[k]| == |g[k]| && (forall y :: y in r[k] <==> y == id || (y in g[k] && y != i))
      && (forall v :: 0 <= v < |g| && v != id && v != i && v != k ==> r[v] == g[v])
  {
    assert k < |g| by { var j :| 0 <= j < |g[i]| && g[i][j] == k; }
    assert id !in g[i] && id !in g[k] && i in g[k];
    var r := Transfer(g, id, i, k);
    TransferEntries(g, id, i, k);
    ReplaceNeighbour(g[i], id, k);
    ReplaceNeighbour(g[k], id, i);
    AppendNoDup(g[id], i, k);
    forall v | 0 <= v < |r| ensures NoDup(r[v]) {
      if v != id && v != i && v != k {
        assert r[v] == g[v];
      }
    }
    TransferSymmetric(g, id, i, k, r);
  }

  lemma TransferEntries(g: Lists, id: nat, i: nat, k: nat)
    requires id < |g| && i < |g| && k < |g| && i != id && k != id && k != i
    ensures var r := Transfer(g, id, i, k);
      && |r| == |g|
      && r[id] == g[id] + [i] + [k]
      && r[i] == Remove(g[i] + [id], k)
      && r[k] == Remove(g[k] + [id], i)
      && (forall v :: 0 <= v < |g| && v != id && v != i && v != k ==> r[v] == g[v])
  {
  }

  lemma TransferSymmetric(g: Lists, id: nat, i: nat, k: nat, r: Lists)
    requires Simple(g) && id < |g| && i < |g| && k < |g|
    requires i != id && k != id && k != i && i !in g[id] && k !in g[id] && k in g[i]
    requires |r| == |g| && r[id] == g[id] + [i] + [k]
    requires forall y :: y in r[i] <==> y == id || (y in g[i] && y != k)
    requires forall y :: y in r[k] <==> y == id || (y in g[k] && y != i)
    requires forall v :: 0 <= v < |g| && v != id && v != i && v != k ==> r[v] == g[v]
    requires forall v :: 0 <= v < |r| ==> NoDup(r[v])
    ensures Simple(r)
  {
    TransferInRange(g, id, i, k, r);
    forall x, y | 0 <= x < |r| && 0 <= y < |r| && y in r[x] ensures x in r[y] {
      if x != id && y != id {
        assert y in g[x];
      }
    }
  }

  /** The lists after a transfer name only vertices of the graph. */
  lemma TransferInRange(g: Lists, id: nat, i: nat, k: nat, r: Lists)
    requires InRange(g) && id < |g| && i < |g| && k < |g|
    requires |r| == |g| && r[id] == g[id] + [i] + [k]
    requires forall y :: y in r[i] ==> y == id || y in g[i]
    requires forall y :: y in r[k] ==> y == id || y in g[k]
    requires forall v :: 0 <= v < |g| && v != id && v != i && v != k ==> r[v] == g[v]
    ensures InRange(r)
  {
    forall v, j | 0 <= v < |r| && 0 <= j < |r[v]| ensures r[v][j] < |r| {
      var y := r[v][j];
      assert y in r[v];
      if v != id && v != i && v != k {
        assert y in g[v];
      } else if v == i || v == k {
        if y != id {
          assert y in g[v];
          var j' :| 0 <= j' < |g[v]| && g[v][j'] == y;
        }
      } else if y != i && y != k {
        assert y in g[id];
        var j' :| 0 <= j' < |g[id]| && g[id][j'] == y;
      }
    }
  }

  /** The one-for-one swap (lines 195-200): `a` is connected to `da`, `b` to `db`, and the
      edge between `da` and `db` is removed, in the source's order of operations. */
  function Swap(g: Lists, a: nat, b: nat, da: nat, db: nat): (r: Lists)
    requires a < |g| && b < |g| && da < |g| && db < |g|
    ensures |r| == |g| && forall v :: 0 <= v < |g| && v != a && v != b && v != da && v != db ==> r[v] == g[v]
  {
    var g1 := Push(g, a, da);
    var g2 := Push(g1, da, a);
    var g3 := Push(g2, b, db);
    var g4 := Push(g3, db, b);
    var g5 := Drop(g4, da, db);
    Drop(g5, db, da)
  }

  /** The conditions under which a swap is the intended edge move. The loop checks the
      first three of them (`da` not a neighbour of `a`, `db` a neighbour of `da`, `db`
      not a neighbour of `b`) but not that the donors differ from the recipients. */
  predicate SwapSafe(g: Lists, a: nat, b: nat, da: nat, db: nat)
    requires a < |g| && b < |g|
  {
    && da < |g| && da !in g[a] && db in g[da] && db !in g[b]
    && a != b && da != a && db != b
  }

  /** A safe swap on a simple graph keeps it simple, gives `a` and `b` one more neighbour
      each (`da` and `db`), leaves the degrees of the donors as they were and touches no
      other vertex. */
  lemma SwapSimple(g: Lists, a: nat, b: nat, da: nat, db: nat)
    requires Simple(g) && a < |g| && b < |g| && SwapSafe(g, a, b, da, db)
    ensures db < |g|
    ensures var r := Swap(g, a, b, da, db);
      && Simple(r) && |r| == |g|
      && r[a] == g[a] + [da] && r[b] == g[b] + [db]
      && |r[da]| == |g[da]| && (forall y :: y in r[da] <==> y == a || (y in g[da] && y != db))
      && |r[db]| == |g[db]| && (forall y :: y in r[db] <==> y == b || (y in g[db] && y != da))
      && (forall v :: 0 <= v < |g| && v != a && v != b && v != da && v != db ==> r[v] == g[v])
  {
    assert db < |g| by { var j :| 0 <= j < |g[da]| && g[da][j] == db; }
    assert a !in g[da] && b !in g[db] && da in g[db];
    var r := Swap(g, a, b, da, db);
    SwapEntries(g, a, b, da, db);
    ReplaceNeighbour(g[da], a, db);
    ReplaceNeighbour(g[db], b, da);
    assert NoDup(g[a] + [da]) && NoDup(g[b] + [db]);
    forall v | 0 <= v < |r| ensures NoDup(r[v]) {
      if v != a && v != b && v != da && v != db {
        assert r[v] == g[v];
      }
    }
    SwapSymmetric(g, a, b, da, db, r);
  }

  lemma SwapEntries(g: Lists, a: nat, b: nat, da: nat, db: nat)
    requires a < |g| && b < |g| && da < |g| && db < |g|
    requires a != b && da != a && db != b && da != b && db != a && da != db
    ensures var r := Swap(g, a, b, da, db);
      && |r| == |g|
      && r[a] == g[a] + [da] && r[b] == g[b] + [db]
      && r[da] == Remove(g[da] + [a], db)
      && r[db] == Remove(g[db] + [b], da)
      && (forall v :: 0 <= v < |g| && v != a && v != b && v != da && v != db ==> r[v] == g[v])
  {
  }

  lemma SwapSymmetric(g: Lists, a: nat, b: nat, da: nat, db: nat, r: Lists)
    requires Simple(g) && a < |g| && b < |g| && da < |g| && db < |g|
    requires a != b && da != a && db != b && da != b && db != a && da != db
    requires da !in g[a] && db !in g[b] && db in g[da]
    requires |r| == |g| && r[a] == g[a] + [da] && r[b] == g[b] + [db]
    requires forall y :: y in r[da] <==> y == a || (y in g[da] && y != db)
    requires forall y :: y in r[db] <==> y == b || (y in g[db] && y != da)
    requires forall v :: 0 <= v < |g| && v != a && v != b && v != da && v != db ==> r[v] == g[v]
    requires forall v :: 0 <= v < |r| ==> NoDup(r[v])
    ensures Simple(r)
  {
    assert InRange(r) by {
      forall v, j | 0 <= v < |r| && 0 <= j < |r[v]| ensures r[v][j] < |r| {
        var y := r[v][j];
        assert y in r[v];
        if v != a && v != b && v != da && v != db {
          assert y in g[v];
        } else if v == da || v == db {
          if y != a && y != b {
            assert y in g[v];
            var j' :| 0 <= j' < |g[v]| && g[v][j'] == y;
          }
        } else if y != da && y != db {
          assert y in g[v];
          var j' :| 0 <= j' < |g[v]| && g[v][j'] == y;
        }
      }
    }
    forall x, y | 0 <= x < |r| && 0 <= y < |r| && y in r[x] ensures x in r[y] {
      if !(x == a && y == da) && !(x == da && y == a) && !(x == b && y == db) && !(x == db && y == b) {
        assert y in g[x];
      }
    }
  }

  /** The swap loop does not check `donerA != recipientA`: on the simple graph with edges
      0-2 and 1-3, recipients 0 and 1 pass every check with donors 0 and 2, and the swap
      makes vertex 0 its own neighbour. */
  lemma SwapCanLoop()
    ensures var g: Lists := [[2], [3], [0], [1]];
      && Simple(g)
      && 0 !in g[0] && 2 in g[0] && 2 !in g[1]
      && 0 in Swap(g, 0, 1, 0, 2)[0]
  {
    var g: Lists := [[2], [3], [0], [1]];
    assert InRange(g);
    forall v | 0 <= v < |g| ensures NoDup(g[v]) && v !in g[v] {
      assert g[v] == [(v + 2) % 4];
    }
    forall u, v | 0 <= u < |g| && 0 <= v < |g| && v in g[u] ensures u in g[v] {
      assert g[u] == [(u + 2) % 4];
      assert g[v] == [(v + 2) % 4];
    }
    var g4 := Push(Push(Push(Push(g, 0, 0), 0, 0), 1, 2), 2, 1);
    assert g4[0] == [2, 0, 0];
    var g5 := Drop(g4, 0, 2);
    assert 0 in g4[0];
    assert 0 in g5[0];
    assert Swap(g, 0, 1, 0, 2) == Drop(g5, 2, 0);
  }

  /** The greedy phase's bound: a vertex never gets more neighbours than its target,
      unless it has none at all (a negative target). */
  predicate Bounded(g: Lists, target: seq<int>) {
    |g| == |target| && forall v :: 0 <= v < |g| ==> |g[v]| <= target[v] || |g[v]| == 0
  }

  /** The state of the greedy phase: the adjacency lists and the working copy of the
      degrees. */
  datatype Fill = Fill(g: Lists, working: seq<int>)

  /** The visit of candidate position `d` in the greedy turn for `i` (lines 91-101): the
      candidate `n-1-d` is connected to `i` when it is not `i`, not yet a neighbour of `i`
      and still has working degree, and both working degrees drop by one. */
  function FillNext(g: Lists, working: seq<int>, i: nat, d: nat): (r: Fill)
    requires InRange(g) && |working| == |g| && i < |g| && d < |g|
    ensures InRange(r.g) && |r.g| == |g| && |r.working| == |g|
  {
    var p := |g| - 1 - d;
    if p != i && p !in g[i] && working[p] > 0 then
      PushInRange(g, i, p);
      PushInRange(Push(g, i, p), p, i);
      Fill(Connect(g, i, p), working[p := working[p] - 1][i := working[i] - 1])
    else Fill(g, working)
  }

  /** The greedy turn for `i` from candidate position `d` on (lines 87-103): it ends once
      `i` has `degree` neighbours or the candidates run out. */
  function FillFrom(g: Lists, working: seq<int>, i: nat, degree: int, d: nat): (r: Fill)
    requires InRange(g) && |working| == |g| && i < |g| && d <= |g|
    ensures InRange(r.g) && |r.g| == |g| && |r.working| == |g|
    decreases |g| - d
  {
    if d == |g| || |g[i]| >= degree then Fill(g, working)
    else
      var next := FillNext(g, working, i, d);
      FillFrom(next.g, next.working, i, degree, d + 1)
  }

  /** `n` vertices without edges. */
  function NoEdges(n: nat): (g: Lists)
    ensures |g| == n && forall v :: 0 <= v < n ==> g[v] == []
  {
    seq(n, _ => [])
  }

  /** The lists and the working copy after the greedy turns of the vertices `0 .. m-1`
      (lines 70-115); each turn reads its degree from the working copy. */
  function GreedyUpTo(target: seq<int>, m: nat): (r: Fill)
    requires m <= |target|
    ensures InRange(r.g) && |r.g| == |target| && |r.working| == |target|
  {
    if m == 0 then Fill(NoEdges(|target|), target)
    else
      var prev := GreedyUpTo(target, m - 1);
      FillFrom(prev.g, prev.working, m - 1, prev.working[m - 1], 0)
  }

  /** What a turn of the greedy phase for `i` keeps while it adds neighbours: the graph
      stays simple, each vertex's working degree plus its list length stays as it was,
      `i` only gains neighbours (at most `degree` in all once it gains any), and every
      other vertex either is untouched or gained `i` while its working degree was
      positive. */
  predicate FillState(g0: Lists, working0: seq<int>, i: nat, g: Lists, working: seq<int>, degree: int) {
    && |g0| == |working0| && Simple(g) && |g| == |g0| && |working| == |g0| && i < |g0|
    && (forall v :: 0 <= v < |g| ==> working[v] + |g[v]| == working0[v] + |g0[v]|)
    && |g0[i]| <= |g[i]| && g[i][..|g0[i]|] == g0[i]
    && (forall v :: 0 <= v < |g| && v != i ==>
      g[v] == g0[v] || (g[v] == g0[v] + [i] && working0[v] > 0))
    && (g[i] == g0[i] || |g[i]| <= degree)
  }

  /** Connecting `i` to an eligible candidate `p` (lines 94-101) keeps the turn's state. */
  lemma FillConnect(g0: Lists, working0: seq<int>, i: nat, g: Lists, working: seq<int>, degree: int, p: nat)
    requires FillState(g0, working0, i, g, working, degree)
    requires p < |g| && p != i && p !in g[i] && working[p] > 0 && |g[i]| < degree
    ensures var r := Connect(g, i, p);
      var w := working[p := working[p] - 1][i := working[i] - 1];
      && FillState(g0, working0, i, r, w, degree)
      && r[i] == g[i] + [p]
      && forall v :: 0 <= v < |g| && v != p && v != i ==> w[v] == working[v]
  {
    ConnectSimple(g, i, p);
    var r := Connect(g, i, p);
    assert i !in g[p] && i in g0[p] + [i];
    assert g[p] == g0[p];
    assert r[i][..|g0[i]|] == g[i][..|g0[i]|];
  }

  /** A vertex the turn has not connected to `i` still has the working degree it had when
      the turn began. */
  lemma Unpicked(g0: Lists, working0: seq<int>, i: nat, g: Lists, working: seq<int>, degree: int, q: nat)
    requires FillState(g0, working0, i, g, working, degree) && q < |g| && q != i && q !in g[i]
    ensures g[q] == g0[q] && working[q] == working0[q]
  {
    assert i !in g[q];
  }

  /** The state of a turn of the greedy phase for `i` after the candidates at positions
      `0 .. d-1`: what `FillState` keeps, the picks so far (below
      the list `i` started with) descending and all at least `n-d`, and every candidate
      passed over in that range ineligible. */
  ghost predicate FillLoop(g0: Lists, working0: seq<int>, i: nat, degree: int, d: nat, g: Lists, working: seq<int>)
  {
    && Simple(g0) && FillState(g0, working0, i, g, working, degree) && d <= |g|
    && (forall k, l :: |g0[i]| <= k < l < |g[i]| ==> g[i][k] > g[i][l])
    && (forall k :: |g0[i]| <= k < |g[i]| ==> |g| - d <= g[i][k])
    && forall q :: |g| - d <= q < |g| && q != i && q !in g[i] ==> working0[q] <= 0
  }

  /** A turn starts in its state. */
  lemma FillStart(g0: Lists, working0: seq<int>, i: nat, degree: int)
    requires Simple(g0) && |working0| == |g0| && i < |g0|
    ensures FillLoop(g0, working0, i, degree, 0, g0, working0)
  {
    assert g0[i][..|g0[i]|] == g0[i];
  }

  /** One candidate of the turn keeps its state. */
  lemma FillStep(g0: Lists, working0: seq<int>, i: nat, degree: int, d: nat, g: Lists, working: seq<int>,
                 g': Lists, working': seq<int>)
    returns (next: Fill)
    requires FillLoop(g0, working0, i, degree, d, g, working) && d < |g| && |g[i]| < degree
    requires Fill(g', working') == FillFrom(g, working, i, degree, d)
    ensures InRange(next.g) && |next.g| == |g| && |next.working| == |g|
    ensures FillLoop(g0, working0, i, degree, d + 1, next.g, next.working)
    ensures Fill(g', working') == FillFrom(next.g, next.working, i, degree, d + 1)
  {
    next := FillNext(g, working, i, d);
    var p := |g| - 1 - d;
    if p != i && p !in g[i] && working[p] > 0 {
      FillPick(g0, working0, i, degree, d, g, working);
    } else {
      FillSkip(g0, working0, i, degree, d, g, working);
    }
  }

  /** Connecting `i` to the candidate at position `d` keeps the turn's state. */
  lemma FillPick(g0: Lists, working0: seq<int>, i: nat, degree: int, d: nat, g: Lists, working: seq<int>)
    requires FillLoop(g0, working0, i, degree, d, g, working) && d < |g| && |g[i]| < degree
    requires var p := |g| - 1 - d; p != i && p !in g[i] && working[p] > 0
    ensures var p := |g| - 1 - d;
      FillLoop(g0, working0, i, degree, d + 1, Connect(g, i, p), working[p := working[p] - 1][i := working[i] - 1])
  {
    var p := |g| - 1 - d;
    FillConnect(g0, working0, i, g, working, degree, p);
    var r := Connect(g, i, p);
    assert r[i] == g[i] + [p];
    assert forall k :: |g0[i]| <= k < |g[i]| ==> r[i][k] == g[i][k] && p < r[i][k];
    assert forall k, l :: |g0[i]| <= k < l < |r[i]| ==> r[i][k] > r[i][l];
    forall q | |g| - (d + 1) <= q < |g| && q != i && q !in r[i] ensures working0[q] <= 0 {
      assert q != p;
    }
  }

  /** Passing over the candidate at position `d` when it is not eligible keeps the turn's
      state. */
  lemma FillSkip(g0: Lists, working0: seq<int>, i: nat, degree: int, d: nat, g: Lists, working: seq<int>)
    requires FillLoop(g0, working0, i, degree, d, g, working) && d < |g|
    requires var p := |g| - 1 - d; !(p != i && p !in g[i] && working[p] > 0)
    ensures FillLoop(g0, working0, i, degree, d + 1, g, working)
  {
    var p := |g| - 1 - d;
    if p != i && p !in g[i] {
      Unpicked(g0, working0, i, g, working, degree, p);
    }
  }

  /** What a whole turn of the greedy phase for `i` achieves: its state, the picks
      descending, and only ineligible candidates passed over after the last pick, or at
      all when the turn ended short. */
  ghost predicate FillEnd(g0: Lists, working0: seq<int>, i: nat, degree: int, g: Lists, working: seq<int>)
  {
    && FillState(g0, working0, i, g, working, degree)
    && Decreasing(g[i][|g0[i]|..])
    && (|g0[i]| < |g[i]| ==>
      forall q :: g[i][|g[i]| - 1] < q < |g| && q != i && q !in g[i] ==> working0[q] <= 0)
    && (|g[i]| < degree ==>
      forall q :: 0 <= q < |g| && q != i && q !in g[i] ==> working0[q] <= 0)
  }

  /** A turn that has run out of candidates or filled `i` has achieved its end. */
  lemma FillDone(g0: Lists, working0: seq<int>, i: nat, degree: int, d: nat, g: Lists, working: seq<int>)
    requires FillLoop(g0, working0, i, degree, d, g, working) && (d == |g| || |g[i]| >= degree)
    ensures FillEnd(g0, working0, i, degree, g, working)
  {
    var picks := g[i][|g0[i]|..];
    assert forall k :: 0 <= k < |picks| ==> picks[k] == g[i][|g0[i]| + k];
    if |g0[i]| < |g[i]| {
      var last := g[i][|g[i]| - 1];
      assert |g| - d <= last;
    }
  }

  /** A whole turn of the greedy phase for `i`, from a simple graph: the graph stays
      simple, each vertex's working degree plus its list length stays as it was, `i` only
      gains neighbours (at most its working degree in all once it gains any), every other
      vertex either is untouched or gained `i` while its working degree was positive, the
      picks are descending, and only ineligible candidates were passed over after the last
      pick, or at all when the turn ended short. */
  lemma Turn(g0: Lists, working0: seq<int>, i: nat, g: Lists, working: seq<int>)
    requires Simple(g0) && |working0| == |g0| && i < |g0|
    requires Fill(g, working) == FillFrom(g0, working0, i, working0[i], 0)
    ensures Simple(g) && |g| == |g0| && |working| == |g0|
    ensures forall v :: 0 <= v < |g| ==> working[v] + |g[v]| == working0[v] + |g0[v]|
    ensures |g0[i]| <= |g[i]| && g[i][..|g0[i]|] == g0[i]
    ensures forall v :: 0 <= v < |g| && v != i ==>
      g[v] == g0[v] || (g[v] == g0[v] + [i] && working0[v] > 0)
    ensures g[i] == g0[i] || |g[i]| <= working0[i]
    ensures Decreasing(g[i][|g0[i]|..])
    ensures |g0[i]| < |g[i]| ==>
      forall q :: g[i][|g[i]| - 1] < q < |g| && q != i && q !in g[i] ==> working0[q] <= 0
    ensures |g[i]| < working0[i] ==>
      forall q :: 0 <= q < |g| && q != i && q !in g[i] ==> working0[q] <= 0
  {
    TurnEnds(g0, working0, i, g, working);
  }

  /** A whole turn, from a simple graph, achieves its end. */
  lemma TurnEnds(g0: Lists, working0: seq<int>, i: nat, g: Lists, working: seq<int>)
    requires Simple(g0) && |working0| == |g0| && i < |g0|
    requires Fill(g, working) == FillFrom(g0, working0, i, working0[i], 0)
    ensures FillEnd(g0, working0, i, working0[i], g, working)
  {
    var d, g1, w1 := TurnLoop(g0, working0, i, g, working);
    assert g1 == g && w1 == working;
    FillDone(g0, working0, i, working0[i], d, g1, w1);
  }

  /** The turn's loop keeps its state from candidate to candidate until it runs out of
      candidates or fills `i`. */
  lemma TurnLoop(g0: Lists, working0: seq<int>, i: nat, g: Lists, working: seq<int>)
    returns (d: nat, g1: Lists, w1: seq<int>)
    requires Simple(g0) && |working0| == |g0| && i < |g0|
    requires Fill(g, working) == FillFrom(g0, working0, i, working0[i], 0)
    ensures FillLoop(g0, working0, i, working0[i], d, g1, w1)
    ensures Fill(g, working) == FillFrom(g1, w1, i, working0[i], d)
    ensures d == |g1| || |g1[i]| >= working0[i]
  {
    var degree := working0[i];
    FillStart(g0, working0, i, degree);
    d, g1, w1 := 0, g0, working0;
    while d < |g1| && |g1[i]| < degree
      invariant FillLoop(g0, working0, i, degree, d, g1, w1)
      invariant Fill(g, working) == FillFrom(g1, w1, i, degree, d)
      decreases |g1| - d
    {
      var next := FillStep(g0, working0, i, degree, d, g1, w1, g, working);
      d, g1, w1 := d + 1, next.g, next.working;
    }
  }

  /** One turn of the greedy phase (lines 86-103). `degree` is read from the working copy,
      so it is the target minus the neighbours `i` already received from earlier turns,
      while the loop compares it with the full length of `i`'s list. The candidates are
      `n-1, ..., 0`, all of them scanned every turn, so the turn connects `i` to eligible
      candidates in descending order, passing over only ineligible ones. */
  method FillVertex(g0: Lists, working0: seq<int>, i: nat) returns (g: Lists, working: seq<int>)
    requires InRange(g0) && |working0| == |g0| && i < |g0|
    ensures Fill(g, working) == FillFrom(g0, working0, i, working0[i], 0)
  {
    g, working := g0, working0;
    var n := |g0|;
    var candidates := seq(n, d requires 0 <= d < n => n - 1 - d);
    var degree := working[i];
    var d := 0;
    while d < n && |g[i]| < degree
      invariant 0 <= d <= n && InRange(g) && |g| == n && |working| == n
      invariant FillFrom(g, working, i, degree, d) == FillFrom(g0, working0, i, degree, 0)
    {
      var p: nat := candidates[d];
      assert p == |g| - 1 - d;
      ghost var next := FillNext(g, working, i, d);
      if p != i && p !in g[i] && working[p] > 0 {
        PushInRange(g, i, p);
        PushInRange(Push(g, i, p), p, i);
        g := Connect(g, i, p);
        working := working[p := working[p] - 1];
        working := working[i := working[i] - 1];
      }
      assert Fill(g, working) == next;
      d := d + 1;
    }
  }

  /** The greedy phase (lines 68-115) on the sorted degrees `target`: the turns of
      `0, ..., n-1` in order, leaving a simple graph in which the working copy holds each
      vertex's remaining degree and no vertex exceeds its target. */
  method Greedy(target: seq<int>) returns (g: Lists, working: seq<int>)
    ensures Fill(g, working) == GreedyUpTo(target, |target|)
    ensures Simple(g) && Bounded(g, target) && |working| == |target|
    ensures forall v :: 0 <= v < |g| ==> working[v] == target[v] - |g[v]|
  {
    var n := |target|;
    g := [];
    for i := 0 to n
      invariant |g| == i && forall v :: 0 <= v < i ==> g[v] == []
    {
      g := g + [[]];
    }
    assert g == NoEdges(n);
    working := target;
    for i := 0 to n
      invariant Fill(g, working) == GreedyUpTo(target, i)
      invariant Simple(g) && Bounded(g, target) && |working| == n
      invariant forall v :: 0 <= v < n ==> working[v] == target[v] - |g[v]|
    {
      ghost var before, left := g, working;
      g, working := FillVertex(g, working, i);
      GreedyTurn(target, i, before, left, g, working);
    }
  }

  /** A turn of the greedy phase keeps the phase's state: the graph simple, no vertex
      above its target, and the working copy holding each vertex's remaining degree. */
  lemma GreedyTurn(target: seq<int>, i: nat, g: Lists, working: seq<int>, g': Lists, working': seq<int>)
    requires i < |target| && Fill(g, working) == GreedyUpTo(target, i)
    requires Simple(g) && Bounded(g, target) && |working| == |target|
    requires forall v :: 0 <= v < |target| ==> working[v] == target[v] - |g[v]|
    requires Fill(g', working') == FillFrom(g, working, i, working[i], 0)
    ensures Fill(g', working') == GreedyUpTo(target, i + 1)
    ensures Simple(g') && Bounded(g', target) && |working'| == |target|
    ensures forall v :: 0 <= v < |target| ==> working'[v] == target[v] - |g'[v]|
  {
    Turn(g, working, i, g', working');
    assert forall v :: 0 <= v < |target| && v != i && g'[v] != g[v] ==> |g'[v]| == |g[v]| + 1;
  }

  /** The vertices below their target, ascending: the list computed at lines 117-119. */
  function Unsatisfied(g: Lists, target: seq<int>): (r: seq<nat>)
    requires |g| == |target|
    ensures Increasing(r)
    ensures forall v: nat :: v in r <==> v < |g| && |g[v]| < target[v]
  {
    ShortAmong(g, target, |g|)
  }

  /** The vertices among `0 .. m-1` still below their target, in ascending order (the
      loop at lines 117-119 stopped after `m` vertices). */
  function ShortAmong(g: Lists, target: seq<int>, m: nat): (r: seq<nat>)
    requires |g| == |target| && m <= |g|
    ensures Increasing(r)
    ensures forall v: nat :: v in r <==> v < m && |g[v]| < target[v]
  {
    if m == 0 then []
    else
      var r := ShortAmong(g, target, m - 1);
      if |g[m - 1]| < target[m - 1] then
        assert forall j :: 0 <= j < |r| ==> r[j] in r;
        AppendIncreasing(r, m - 1);
        r + [m - 1]
      else r
  }

  /** `unsat` lists exactly the vertices below their target, ascending. */
  ghost predicate Tracks(unsat: seq<nat>, g: Lists, target: seq<int>) {
    && |g| == |target| && Increasing(unsat)
    && forall v: nat :: v in unsat <==> v < |g| && |g[v]| < target[v]
  }

  /** The state the repair loop keeps while every edge move is the intended one. */
  ghost predicate Good(g: Lists, unsat: seq<nat>, target: seq<int>) {
    Simple(g) && Bounded(g, target) && Tracks(unsat, g, target)
  }

  /** The state the repair loop keeps in any case. */
  predicate WellFormed(g: Lists, unsat: seq<nat>, target: seq<int>) {
    |g| == |target| && InRange(g) && Increasing(unsat) && forall v :: v in unsat ==> v < |g|
  }

  lemma PushInRange(g: Lists, v: nat, x: nat)
    requires InRange(g) && v < |g| && x < |g|
    ensures InRange(Push(g, v, x))
  {
    var r := Push(g, v, x);
    forall w, j | 0 <= w < |r| && 0 <= j < |r[w]| ensures r[w][j] < |r| {
      if w == v && j < |g[v]| {
        assert r[w][j] == g[v][j];
      }
    }
  }

  lemma DropInRange(g: Lists, v: nat, x: nat)
    requires InRange(g) && v < |g|
    ensures InRange(Drop(g, v, x))
  {
    var r := Drop(g, v, x);
    forall w, j | 0 <= w < |r| && 0 <= j < |r[w]| ensures r[w][j] < |r| {
      if w == v {
        assert r[w][j] in g[v];
        var j' :| 0 <= j' < |g[v]| && g[v][j'] == r[w][j];
      }
    }
  }

  /** Whatever the state, the edge moves only list vertices. */
  lemma MovesInRange(g: Lists, a: nat, b: nat, c: nat, d: nat)
    requires InRange(g) && a < |g| && b < |g| && c < |g| && d < |g|
    ensures InRange(Transfer(g, a, b, c)) && |Transfer(g, a, b, c)| == |g|
    ensures InRange(Swap(g, a, b, c, d)) && |Swap(g, a, b, c, d)| == |g|
  {
    var t1 := Push(g, a, b);
    PushInRange(g, a, b);
    var t2 := Push(t1, b, a);
    PushInRange(t1, b, a);
    var t3 := Push(t2, a, c);
    PushInRange(t2, a, c);
    var t4 := Push(t3, c, a);
    PushInRange(t3, c, a);
    DropInRange(t4, b, c);
    DropInRange(Drop(t4, b, c), c, b);
    var s1 := Push(g, a, c);
    PushInRange(g, a, c);
    var s2 := Push(s1, c, a);
    PushInRange(s1, c, a);
    var s3 := Push(s2, b, d);
    PushInRange(s2, b, d);
    var s4 := Push(s3, d, b);
    PushInRange(s3, d, b);
    DropInRange(s4, c, d);
    DropInRange(Drop(s4, c, d), d, c);
  }

  /** The first position `k >= j` of `s` whose entry is not in `t`, or `|s|` if none. */
  function OutsideFrom(s: seq<nat>, t: seq<nat>, j: nat): (k: nat)
    requires j <= |s|
    ensures j <= k <= |s| && (k < |s| ==> s[k] !in t)
    ensures forall j' :: j <= j' < k ==> s[j'] in t
    decreases |s| - j
  {
    if j == |s| || s[j] !in t then j else OutsideFrom(s, t, j + 1)
  }

  /** No edge at `i` can be moved: `i` is a neighbour of `x`, or every neighbour of `i` is
      a neighbour of `y`. */
  predicate NoMoveAt(g: Lists, x: nat, y: nat, i: nat)
    requires x < |g| && y < |g| && i < |g|
  {
    i in g[x] || forall z :: z in g[i] ==> z in g[y]
  }

  /** `g[i][j]` is the first entry of `i`'s list that is not a neighbour of `y`. */
  predicate FirstOutside(g: Lists, y: nat, i: nat, j: nat)
    requires y < |g| && i < |g|
  {
    j < |g[i]| && g[i][j] !in g[y] && forall j' :: 0 <= j' < j ==> g[i][j'] in g[y]
  }

  /** The edge a donor search picks: the donor and the position of its neighbour. */
  datatype Donors = NoDonors | Donors(donor: nat, at: nat)

  /** The donor search of lines 142-145 (with `x == y == id`) and of lines 189-193 (with
      `x`, `y` the recipients), from vertex `from` on: the first vertex `i`, ascending,
      that is not a neighbour of `x` and has a neighbour that is not a neighbour of `y`,
      with the position of the first such neighbour in `i`'s list. */
  function FindMove(g: Lists, x: nat, y: nat, from: nat): (r: Donors)
    requires x < |g| && y < |g| && from <= |g|
    ensures r.Donors? ==> from <= r.donor < |g| && r.donor !in g[x] && FirstOutside(g, y, r.donor, r.at)
    ensures r.Donors? ==> forall i :: from <= i < r.donor ==> NoMoveAt(g, x, y, i)
    ensures r.NoDonors? ==> forall i :: from <= i < |g| ==> NoMoveAt(g, x, y, i)
    decreases |g| - from
  {
    if from == |g| then NoDonors
    else if from !in g[x] && OutsideFrom(g[from], g[y], 0) < |g[from]| then
      Donors(from, OutsideFrom(g[from], g[y], 0))
    else
      assert NoMoveAt(g, x, y, from) by {
        if from !in g[x] {
          forall z | z in g[from] ensures z in g[y] {
            var j :| 0 <= j < |g[from]| && g[from][j] == z;
          }
        }
      }
      FindMove(g, x, y, from + 1)
  }

  /** The search of lines 141-160 for an edge to move to `id`: it finds exactly the donor
      and neighbour `FindMove` names and then makes the transfer. Until the move, the
      lists it reads are those of `g`. */
  method TryTransfer(g: Lists, id: nat) returns (r: Lists, found: bool, donor: nat, neighbour: nat)
    requires InRange(g) && id < |g|
    ensures InRange(r) && |r| == |g|
    ensures found == FindMove(g, id, id, 0).Donors?
    ensures found ==> var m := FindMove(g, id, id, 0); donor == m.donor && neighbour == g[m.donor][m.at]
    ensures found ==> TransferPoint(g, id, donor, neighbour) && r == Transfer(g, id, donor, neighbour)
    ensures !found ==> r == g
  {
    r, found, donor, neighbour := g, false, 0, 0;
    var n := |g|;
    ghost var at := 0;
    var i := 0;
    while i < n && !found
      invariant 0 <= i <= n && r == g
      invariant !found ==> FindMove(g, id, id, i) == FindMove(g, id, id, 0)
      invariant found ==> FindMove(g, id, id, 0) == Donors(donor, at) && neighbour == g[donor][at]
    {
      if i !in g[id] {
        var j := 0;
        while j < |g[i]| && !found
          invariant 0 <= j <= |g[i]|
          invariant !found ==> OutsideFrom(g[i], g[id], j) == OutsideFrom(g[i], g[id], 0)
          invariant found ==> donor == i && at == OutsideFrom(g[i], g[id], 0) && at < |g[i]| && neighbour == g[i][at]
        {
          if g[i][j] !in g[id] {
            found := true;
            donor, neighbour, at := i, g[i][j], j;
          }
          j := j + 1;
        }
      }
      i := i + 1;
    }
    if found {
      assert g[donor][at] in g[donor];
      MovesInRange(g, id, donor, neighbour, 0);
      r := Transfer(g, id, donor, neighbour);
    }
  }

  /** A transfer to a vertex at least two short keeps the repair state, and the list
      update of lines 156-157 keeps `unsat` exact. */
  lemma TransferGood(g: Lists, unsat: seq<nat>, target: seq<int>, id: nat, i: nat, k: nat)
    requires Good(g, unsat, target) && id < |g| && target[id] - |g[id]| >= 2
    requires TransferPoint(g, id, i, k)
    ensures var r := Transfer(g, id, i, k);
      Good(r, Settle(unsat, r, target, id), target) && forall v :: 0 <= v < |g| ==> |g[v]| <= |r[v]|
  {
    TransferSimple(g, id, i, k);
    var r := Transfer(g, id, i, k);
    var u := Settle(unsat, r, target, id);
    RemoveIncreasing(unsat, id);
    assert forall v :: 0 <= v < |g| && v != id ==> |r[v]| == |g[v]|;
    assert Tracks(u, r, target);
  }

  /** Lines 156-157 and 201-211: a vertex that reached its target leaves the list. */
  function Settle(unsat: seq<nat>, g: Lists, target: seq<int>, v: nat): (r: seq<nat>)
    requires |g| == |target| && v < |g|
    ensures forall w :: w in r <==> w in unsat && (w != v || |g[v]| < target[v])
  {
    if |g[v]| >= target[v] then Remove(unsat, v) else unsat
  }

  /** The visit of `id` by the transfer pass (lines 137-160): when `id` is at least two
      short, the first edge found is moved to it, and `id` leaves the list once it has
      reached its target. The list never gains a vertex. */
  function TransferAt(g: Lists, unsat: seq<nat>, target: seq<int>, id: nat): (r: (Lists, seq<nat>))
    requires WellFormed(g, unsat, target) && id < |g|
    ensures WellFormed(r.0, r.1, target) && |r.1| <= |unsat| && forall v :: v in r.1 ==> v in unsat
  {
    if target[id] - |g[id]| >= 2 then
      match FindMove(g, id, id, 0)
      case NoDonors => (g, unsat)
      case Donors(i, at) =>
        var k := g[i][at];
        MovesInRange(g, id, i, k, 0);
        RemoveIncreasing(unsat, id);
        var t := Transfer(g, id, i, k);
        (t, Settle(unsat, t, target, id))
    else (g, unsat)
  }

  /** The transfer pass (lines 136-162) from position `toFix` of the list on. The position
      advances after every visit, also after the visited vertex has left the list, so the
      vertex after a removed one is not visited. */
  function TransferPassFrom(g: Lists, unsat: seq<nat>, target: seq<int>, toFix: nat): (r: (Lists, seq<nat>))
    requires WellFormed(g, unsat, target)
    ensures WellFormed(r.0, r.1, target) && forall v :: v in r.1 ==> v in unsat
    decreases |unsat| - toFix
  {
    if toFix >= |unsat| then (g, unsat)
    else
      assert unsat[toFix] in unsat;
      var next := TransferAt(g, unsat, target, unsat[toFix]);
      TransferPassFrom(next.0, next.1, target, toFix + 1)
  }

  /** The first kind of fix (lines 136-162), as `TransferPassFrom` describes it. From a
      good state it keeps the state good and never shortens a list. */
  method TransferPass(g0: Lists, unsat0: seq<nat>, target: seq<int>) returns (g: Lists, unsat: seq<nat>)
    requires WellFormed(g0, unsat0, target)
    ensures (g, unsat) == TransferPassFrom(g0, unsat0, target, 0)
    ensures WellFormed(g, unsat, target) && forall v :: v in unsat ==> v in unsat0
    ensures Good(g0, unsat0, target) ==>
      Good(g, unsat, target) && forall v :: 0 <= v < |g| ==> |g0[v]| <= |g[v]|
  {
    g, unsat := g0, unsat0;
    ghost var good := Good(g0, unsat0, target);
    var toFix := 0;
    while toFix < |unsat|
      invariant WellFormed(g, unsat, target) && |g| == |g0|
      invariant TransferPassFrom(g, unsat, target, toFix) == TransferPassFrom(g0, unsat0, target, 0)
      invariant forall v :: v in unsat ==> v in unsat0
      invariant good ==> Good(g, unsat, target) && forall v :: 0 <= v < |g| ==> |g0[v]| <= |g[v]|
      decreases |unsat| - toFix
    {
      var id := unsat[toFix];
      assert id in unsat;
      ghost var visit := TransferAt(g, unsat, target, id);
      var desiredDegree := target[id];
      var realDegree := |g[id]|;
      if desiredDegree - realDegree >= 2 {
        ghost var before := g;
        var found, i, k;
        g, found, i, k := TryTransfer(g, id);
        if found {
          if good {
            TransferGood(before, unsat, target, id, i, k);
          }
          if |g[id]| >= desiredDegree {
            RemoveIncreasing(unsat, id);
            unsat := Remove(unsat, id);
          }
        }
      }
      assert (g, unsat) == visit;
      toFix := toFix + 1;
    }
  }

  /** Vertex `v` needs exactly one more neighbour. */
  predicate OneShort(g: Lists, target: seq<int>, v: nat)
    requires |g| == |target|
  {
    v < |g| && target[v] - |g[v]| == 1
  }

  /** The entries at `i < j` of `unsat` both need exactly one more neighbour. */
  predicate PairAt(g: Lists, target: seq<int>, unsat: seq<nat>, i: int, j: int)
    requires |g| == |target|
  {
    0 <= i < j < |unsat| && OneShort(g, target, unsat[i]) && OneShort(g, target, unsat[j])
  }

  /** The inner loop of lines 175-180 from position `j` on, `last` being the position it
      last matched: the position of the last vertex one short, or `last` if none. */
  function LastOneShort(g: Lists, target: seq<int>, unsat: seq<nat>, j: nat, last: int): (k: int)
    requires |g| == |target| && j <= |unsat| && last < j
    ensures k == last || (j <= k < |unsat| && OneShort(g, target, unsat[k]))
    ensures forall k' :: j <= k' < |unsat| && k < k' ==> !OneShort(g, target, unsat[k'])
    decreases |unsat| - j
  {
    if j == |unsat| then last
    else LastOneShort(g, target, unsat, j + 1, if OneShort(g, target, unsat[j]) then j else last)
  }

  /** The positions of the recipients a pair selection picks. */
  datatype Recipients = NoRecipients | Recipients(ia: nat, ib: nat)

  /** The pair selection of lines 170-183 from position `i` on: `ia` is the first position
      holding a vertex one short that has a later one one short, and `ib` the last such
      later position. */
  function PairFrom(g: Lists, target: seq<int>, unsat: seq<nat>, i: nat): (r: Recipients)
    requires |g| == |target| && i <= |unsat|
    ensures r.Recipients? ==> i <= r.ia && PairAt(g, target, unsat, r.ia, r.ib)
    ensures r.Recipients? ==> forall j :: r.ib < j < |unsat| ==> !PairAt(g, target, unsat, r.ia, j)
    ensures r.Recipients? ==>
      forall i', j :: i <= i' < r.ia && i' < j < |unsat| ==> !PairAt(g, target, unsat, i', j)
    ensures r.NoRecipients? ==> forall i', j :: i <= i' < j < |unsat| ==> !PairAt(g, target, unsat, i', j)
    decreases |unsat| - i
  {
    if i == |unsat| then NoRecipients
    else
      var k := LastOneShort(g, target, unsat, i + 1, -1);
      if OneShort(g, target, unsat[i]) && k >= 0 then Recipients(i, k)
      else PairFrom(g, target, unsat, i + 1)
  }

  /** The pair selection of lines 170-183, as `PairFrom` describes it, with the vertices
      at the positions it picks. */
  method SelectPair(g: Lists, unsat: seq<nat>, target: seq<int>)
    returns (found: bool, a: nat, b: nat, ia: nat, ib: nat)
    requires |g| == |target| && forall v :: v in unsat ==> v < |g|
    ensures found == PairFrom(g, target, unsat, 0).Recipients?
    ensures found ==> PairFrom(g, target, unsat, 0) == Recipients(ia, ib)
    ensures found ==> PairAt(g, target, unsat, ia, ib) && a == unsat[ia] && b == unsat[ib]
  {
    found, a, b, ia, ib := false, 0, 0, 0, 0;
    var i := 0;
    while i < |unsat|
      invariant 0 <= i <= |unsat| && !found
      invariant PairFrom(g, target, unsat, i) == PairFrom(g, target, unsat, 0)
    {
      var vertexA := unsat[i];
      assert vertexA in unsat;
      if target[vertexA] - |g[vertexA]| == 1 {
        found, ib := LastShortAfter(g, target, unsat, i);
        if found {
          a, b, ia := vertexA, unsat[ib], i;
          return;
        }
      }
      i := i + 1;
    }
  }

  /** The inner loop of lines 175-181: the last position after `i` whose vertex is one
      short, as `LastOneShort` finds it. */
  method LastShortAfter(g: Lists, target: seq<int>, unsat: seq<nat>, i: nat) returns (found: bool, ib: nat)
    requires |g| == |target| && (forall v :: v in unsat ==> v < |g|) && i < |unsat|
    ensures found == (LastOneShort(g, target, unsat, i + 1, -1) >= 0)
    ensures found ==> ib == LastOneShort(g, target, unsat, i + 1, -1) && i < ib < |unsat|
  {
    found, ib := false, 0;
    var j := i + 1;
    while j < |unsat|
      invariant i < j <= |unsat|
      invariant found ==> i < ib < j
      invariant LastOneShort(g, target, unsat, j, if found then ib else -1) == LastOneShort(g, target, unsat, i + 1, -1)
    {
      var vertexB := unsat[j];
      assert vertexB in unsat;
      if target[vertexB] - |g[vertexB]| == 1 {
        found, ib := true, j;
      }
      j := j + 1;
    }
  }

  /** A swap and the list updates after it keep the state well formed. */
  lemma SwapWellFormed(g: Lists, unsat: seq<nat>, target: seq<int>, a: nat, b: nat, da: nat, db: nat)
    requires WellFormed(g, unsat, target) && a < |g| && b < |g| && da < |g| && db < |g|
    ensures var r := Swap(g, a, b, da, db);
      WellFormed(r, Settle(Settle(unsat, r, target, a), r, target, b), target)
  {
    MovesInRange(g, a, b, da, db);
    RemoveIncreasing(unsat, a);
    var r := Swap(g, a, b, da, db);
    RemoveIncreasing(Settle(unsat, r, target, a), b);
  }

  /** What one safe swap achieves from a good state with `a` and `b` one short. */
  ghost predicate SwappedOnce(g0: Lists, unsat0: seq<nat>, g: Lists, unsat: seq<nat>, target: seq<int>, a: nat, b: nat)
  {
    && Good(g, unsat, target) && unsat == Remove(Remove(unsat0, a), b)
    && |g0| == |g| && forall v :: 0 <= v < |g| ==> |g0[v]| <= |g[v]|
  }

  /** A safe swap for two vertices one short keeps the repair state and takes both of
      them off the list (lines 201-211). */
  lemma SwapGood(g: Lists, unsat: seq<nat>, target: seq<int>, a: nat, b: nat, da: nat, db: nat)
    requires Good(g, unsat, target) && OneShort(g, target, a) && OneShort(g, target, b)
    requires SwapSafe(g, a, b, da, db)
    ensures db < |g|
    ensures var r := Swap(g, a, b, da, db);
      && SwappedOnce(g, unsat, r, Settle(Settle(unsat, r, target, a), r, target, b), target, a, b)
      && da in r[a]
  {
    SwapSimple(g, a, b, da, db);
    var r := Swap(g, a, b, da, db);
    RemoveIncreasing(unsat, a);
    RemoveIncreasing(Remove(unsat, a), b);
    assert forall v :: 0 <= v < |g| && v != a && v != b ==> |r[v]| == |g[v]|;
    assert Tracks(Remove(Remove(unsat, a), b), r, target);
  }

  /** A one-for-one swap as made: the lists before it, the recipients and the donors. */
  datatype SwapMove = SwapMove(before: Lists, a: nat, b: nat, da: nat, db: nat)

  /** What a run of swaps leaves: the lists, the list of unsatisfied vertices, the swaps
      made, in order, and whether a bound cut a scan short. */
  datatype SwapRun = SwapRun(g: Lists, unsat: seq<nat>, moves: seq<SwapMove>, cut: bool)

  /** The swap was the intended edge move (see `SwapSafe`). */
  predicate SafeMove(m: SwapMove) {
    m.a < |m.before| && m.b < |m.before| && SwapSafe(m.before, m.a, m.b, m.da, m.db)
  }

  /** Every swap made was a safe one. */
  predicate AllSafe(moves: seq<SwapMove>) {
    forall k :: 0 <= k < |moves| ==> SafeMove(moves[k])
  }

  /** The scan of `da`'s list from position `j` on (lines 191-212), with `budget` visits
      left: every entry `db` that is not a neighbour of `b` is swapped, and the list is
      read again after each swap. Its first swap is at the first entry that is not a
      neighbour of `b`, and without a cut that entry is always swapped. */
  function SwapScan(g: Lists, unsat: seq<nat>, target: seq<int>, a: nat, b: nat, da: nat, j: nat, budget: nat): (r: SwapRun)
    requires WellFormed(g, unsat, target) && a < |g| && b < |g| && da < |g|
    ensures WellFormed(r.g, r.unsat, target) && forall v :: v in r.unsat ==> v in unsat
    ensures r.moves == [] ==> r.g == g && r.unsat == unsat
    ensures r.moves != [] ==>
      j < |g[da]| && OutsideFrom(g[da], g[b], j) < |g[da]| &&
      r.moves[0] == SwapMove(g, a, b, da, g[da][OutsideFrom(g[da], g[b], j)])
    ensures !r.cut && j <= |g[da]| && OutsideFrom(g[da], g[b], j) < |g[da]| ==> r.moves != []
    decreases budget
  {
    if j >= |g[da]| then SwapRun(g, unsat, [], false)
    else if budget == 0 then SwapRun(g, unsat, [], true)
    else
      var db := g[da][j];
      if db !in g[b] then
        SwapWellFormed(g, unsat, target, a, b, da, db);
        var t := Swap(g, a, b, da, db);
        var rest := SwapScan(t, Settle(Settle(unsat, t, target, a), t, target, b), target, a, b, da, j + 1, budget - 1);
        SwapRun(rest.g, rest.unsat, [SwapMove(g, a, b, da, db)] + rest.moves, rest.cut)
      else SwapScan(g, unsat, target, a, b, da, j + 1, budget - 1)
  }

  /** The donor loop of lines 189-214 from `da` on, each scan bounded by `fuel` visits:
      the first donor that is not a neighbour of `a` and whose scan swaps (or is cut short)
      ends the pass. Its first swap moves the edge `FindMove` names, and without a cut a
      swap happens whenever there is such an edge. */
  function SwapFrom(g: Lists, unsat: seq<nat>, target: seq<int>, a: nat, b: nat, da: nat, fuel: nat): (r: SwapRun)
    requires WellFormed(g, unsat, target) && a < |g| && b < |g| && da <= |g|
    ensures WellFormed(r.g, r.unsat, target) && forall v :: v in r.unsat ==> v in unsat
    ensures r.moves == [] ==> r.g == g && r.unsat == unsat
    ensures r.moves != [] ==> var m := FindMove(g, a, b, da);
      m.Donors? && r.moves[0] == SwapMove(g, a, b, m.donor, g[m.donor][m.at])
    ensures !r.cut && FindMove(g, a, b, da).Donors? ==> r.moves != []
    decreases |g| - da
  {
    if da == |g| then SwapRun(g, unsat, [], false)
    else if da in g[a] then SwapFrom(g, unsat, target, a, b, da + 1, fuel)
    else
      var run := SwapScan(g, unsat, target, a, b, da, 0, fuel);
      if run.moves != [] || run.cut then run
      else SwapFrom(g, unsat, target, a, b, da + 1, fuel)
  }

  /** When every swap of the run `r` from `g` and `unsat` is safe and there is one, there
      is exactly one, and `r` holds that swap's lists and the list updates after it. */
  ghost predicate AtMostOnce(g: Lists, unsat: seq<nat>, target: seq<int>, a: nat, b: nat, r: SwapRun)
    requires WellFormed(g, unsat, target) && a < |g| && b < |g|
  {
    AllSafe(r.moves) && r.moves != [] ==>
      && |r.moves| == 1 && r.moves[0].da < |g| && r.moves[0].db < |g|
      && r.g == Swap(g, a, b, r.moves[0].da, r.moves[0].db)
      && r.unsat == Settle(Settle(unsat, r.g, target, a), r.g, target, b)
  }

  /** After a safe swap `da` is a neighbour of `a`, so no later swap of the same scan is
      a safe one: when every swap of a scan of a simple graph is safe, there is at most
      one, and the scan leaves exactly that swap's lists. */
  lemma {:induction false} ScanOnce(g: Lists, unsat: seq<nat>, target: seq<int>, a: nat, b: nat, da: nat, j: nat, budget: nat)
    requires WellFormed(g, unsat, target) && Simple(g) && a < |g| && b < |g| && da < |g|
    ensures AtMostOnce(g, unsat, target, a, b, SwapScan(g, unsat, target, a, b, da, j, budget))
    decreases budget
  {
    if j < |g[da]| && budget > 0 {
      var db := g[da][j];
      if db !in g[b] {
        SwapWellFormed(g, unsat, target, a, b, da, db);
        var t := Swap(g, a, b, da, db);
        var u := Settle(Settle(unsat, t, target, a), t, target, b);
        var rest := SwapScan(t, u, target, a, b, da, j + 1, budget - 1);
        var first := SwapMove(g, a, b, da, db);
        if rest.moves != [] && SafeMove(first) {
          SwapSimple(g, a, b, da, db);
          assert !SafeMove(rest.moves[0]);
          assert ([first] + rest.moves)[1] == rest.moves[0];
        }
      } else {
        ScanOnce(g, unsat, target, a, b, da, j + 1, budget - 1);
      }
    }
  }

  /** The same for the whole swap pass: when every swap it makes from a simple graph is
      safe, it makes at most one, and leaves exactly that swap's lists. */
  lemma {:induction false} SwapFromOnce(g: Lists, unsat: seq<nat>, target: seq<int>, a: nat, b: nat, da: nat, fuel: nat)
    requires WellFormed(g, unsat, target) && Simple(g) && a < |g| && b < |g| && da <= |g|
    ensures AtMostOnce(g, unsat, target, a, b, SwapFrom(g, unsat, target, a, b, da, fuel))
    decreases |g| - da
  {
    if da < |g| {
      var r := SwapFrom(g, unsat, target, a, b, da, fuel);
      if da in g[a] {
        SwapFromOnce(g, unsat, target, a, b, da + 1, fuel);
        OnceSame(g, unsat, target, a, b, SwapFrom(g, unsat, target, a, b, da + 1, fuel), r);
      } else {
        var run := SwapScan(g, unsat, target, a, b, da, 0, fuel);
        if run.moves == [] && !run.cut {
          SwapFromOnce(g, unsat, target, a, b, da + 1, fuel);
          SwapFromNext(g, unsat, target, a, b, da, fuel);
          OnceSame(g, unsat, target, a, b, SwapFrom(g, unsat, target, a, b, da + 1, fuel), r);
        } else {
          ScanOnce(g, unsat, target, a, b, da, 0, fuel);
          OnceSame(g, unsat, target, a, b, run, r);
        }
      }
    }
  }

  /** A donor loop whose scan of `da` makes no swap and is not cut goes on with `da + 1`. */
  lemma SwapFromNext(g: Lists, unsat: seq<nat>, target: seq<int>, a: nat, b: nat, da: nat, fuel: nat)
    requires WellFormed(g, unsat, target) && a < |g| && b < |g| && da < |g| && da !in g[a]
    requires var run := SwapScan(g, unsat, target, a, b, da, 0, fuel); run.moves == [] && !run.cut
    ensures SwapFrom(g, unsat, target, a, b, da, fuel) == SwapFrom(g, unsat, target, a, b, da + 1, fuel)
  {
  }

  /** `AtMostOnce` carries over to an equal run. */
  lemma OnceSame(g: Lists, unsat: seq<nat>, target: seq<int>, a: nat, b: nat, r: SwapRun, r': SwapRun)
    requires WellFormed(g, unsat, target) && a < |g| && b < |g|
    requires AtMostOnce(g, unsat, target, a, b, r) && r == r'
    ensures AtMostOnce(g, unsat, target, a, b, r')
  {
  }

  /** The run of a scan of `da`'s list that has already made the swaps `moves` and goes on
      from position `j` with `budget` visits left. */
  function ScanRemaining(g: Lists, unsat: seq<nat>, target: seq<int>, a: nat, b: nat, da: nat, j: nat, budget: nat,
                         moves: seq<SwapMove>): SwapRun
    requires WellFormed(g, unsat, target) && a < |g| && b < |g| && da < |g|
  {
    var rest := SwapScan(g, unsat, target, a, b, da, j, budget);
    SwapRun(rest.g, rest.unsat, moves + rest.moves, rest.cut)
  }

  /** The scan starts with no swaps logged. */
  lemma ScanStart(g: Lists, unsat: seq<nat>, target: seq<int>, a: nat, b: nat, da: nat, fuel: nat)
    requires WellFormed(g, unsat, target) && a < |g| && b < |g| && da < |g|
    ensures ScanRemaining(g, unsat, target, a, b, da, 0, fuel, []) == SwapScan(g, unsat, target, a, b, da, 0, fuel)
  {
    var rest := SwapScan(g, unsat, target, a, b, da, 0, fuel);
    assert [] + rest.moves == rest.moves;
  }

  /** At the end of the list the scan ends, and out of visits it is cut short. */
  lemma ScanHalt(g: Lists, unsat: seq<nat>, target: seq<int>, a: nat, b: nat, da: nat, j: nat, budget: nat,
                 moves: seq<SwapMove>)
    requires WellFormed(g, unsat, target) && a < |g| && b < |g| && da < |g|
    ensures j >= |g[da]| ==> ScanRemaining(g, unsat, target, a, b, da, j, budget, moves) == SwapRun(g, unsat, moves, false)
    ensures j < |g[da]| && budget == 0 ==>
      ScanRemaining(g, unsat, target, a, b, da, j, budget, moves) == SwapRun(g, unsat, moves, true)
  {
    assert moves + [] == moves;
  }

  /** A visit of the scan with visits left goes on from the next position, after a swap
      when the entry is not a neighbour of `b`. */
  lemma ScanStep(g: Lists, unsat: seq<nat>, target: seq<int>, a: nat, b: nat, da: nat, j: nat, budget: nat,
                 moves: seq<SwapMove>, j': nat, budget': nat)
    requires WellFormed(g, unsat, target) && a < |g| && b < |g| && da < |g|
    requires j < |g[da]| && budget > 0 && j' == j + 1 && budget' == budget - 1
    ensures g[da][j] in g[b] ==>
      ScanRemaining(g, unsat, target, a, b, da, j, budget, moves) == ScanRemaining(g, unsat, target, a, b, da, j', budget', moves)
    ensures g[da][j] !in g[b] ==>
      var t := Swap(g, a, b, da, g[da][j]);
      var u := Settle(Settle(unsat, t, target, a), t, target, b);
      && WellFormed(t, u, target)
      && ScanRemaining(g, unsat, target, a, b, da, j, budget, moves) ==
        ScanRemaining(t, u, target, a, b, da, j', budget', moves + [SwapMove(g, a, b, da, g[da][j])])
  {
    if g[da][j] !in g[b] {
      var db := g[da][j];
      SwapWellFormed(g, unsat, target, a, b, da, db);
      var t := Swap(g, a, b, da, db);
      var u := Settle(Settle(unsat, t, target, a), t, target, b);
      var rest := SwapScan(t, u, target, a, b, da, j + 1, budget - 1);
      assert moves + ([SwapMove(g, a, b, da, db)] + rest.moves) == (moves + [SwapMove(g, a, b, da, db)]) + rest.moves;
    }
  }

  /** The scan of donor `da`'s list (lines 191-212), as `SwapScan` describes it: `moves`
      logs the swaps it makes, `added` reports one, and `cut` that `fuel` visits did not
      suffice. */
  method ScanDonor(g0: Lists, unsat0: seq<nat>, target: seq<int>, a: nat, b: nat, da: nat, fuel: nat)
    returns (g: Lists, unsat: seq<nat>, added: bool, cut: bool, ghost moves: seq<SwapMove>)
    requires WellFormed(g0, unsat0, target) && a < |g0| && b < |g0| && da < |g0|
    ensures SwapRun(g, unsat, moves, cut) == SwapScan(g0, unsat0, target, a, b, da, 0, fuel)
    ensures added == (moves != [])
  {
    g, unsat, added, cut, moves := g0, unsat0, false, false, [];
    var j := 0;
    var budget := fuel;
    ScanStart(g, unsat, target, a, b, da, fuel);
    while j < |g[da]|
      invariant WellFormed(g, unsat, target) && |g| == |g0| && added == (moves != [])
      invariant ScanRemaining(g, unsat, target, a, b, da, j, budget, moves) == SwapScan(g0, unsat0, target, a, b, da, 0, fuel)
      decreases budget
    {
      if budget == 0 {
        ScanHalt(g, unsat, target, a, b, da, j, budget, moves);
        cut := true;
        return;
      }
      var swapped;
      g, unsat, swapped, j, budget, moves := ScanVisit(g, unsat, target, a, b, da, j, budget, moves);
      added := added || swapped;
    }
    ScanHalt(g, unsat, target, a, b, da, j, budget, moves);
  }

  /** One visit of the scan with visits left (lines 193-210): the entry at `j` of the
      donor's list is swapped in when it is not a neighbour of `b`, and the rest of the
      scan goes on from the next position. */
  method ScanVisit(g0: Lists, unsat0: seq<nat>, target: seq<int>, a: nat, b: nat, da: nat, j0: nat, budget0: nat,
                   ghost moves0: seq<SwapMove>)
    returns (g: Lists, unsat: seq<nat>, swapped: bool, j: nat, budget: nat, ghost moves: seq<SwapMove>)
    requires WellFormed(g0, unsat0, target) && a < |g0| && b < |g0| && da < |g0|
    requires j0 < |g0[da]| && budget0 > 0
    ensures WellFormed(g, unsat, target) && |g| == |g0|
    ensures j == j0 + 1 && budget == budget0 - 1
    ensures swapped == (g0[da][j0] !in g0[b])
    ensures moves == if swapped then moves0 + [SwapMove(g0, a, b, da, g0[da][j0])] else moves0
    ensures ScanRemaining(g, unsat, target, a, b, da, j, budget, moves)
      == ScanRemaining(g0, unsat0, target, a, b, da, j0, budget0, moves0)
  {
    g, unsat, moves, j, budget := g0, unsat0, moves0, j0 + 1, budget0 - 1;
    ScanStep(g0, unsat0, target, a, b, da, j0, budget0, moves0, j, budget);
    var db := g0[da][j0];
    swapped := db !in g0[b];
    if swapped {
      moves := moves + [SwapMove(g0, a, b, da, db)];
      g := Swap(g0, a, b, da, db);
      unsat := Settle(unsat, g, target, a);
      unsat := Settle(unsat, g, target, b);
    }
  }

  /** A swap pass from a good state, with `a` and `b` one short, that makes swaps and
      only safe ones makes exactly one, keeps the state good and takes both recipients off
      the list. */
  lemma SwapFromGood(g: Lists, unsat: seq<nat>, target: seq<int>, a: nat, b: nat, fuel: nat)
    requires Good(g, unsat, target) && WellFormed(g, unsat, target)
    requires OneShort(g, target, a) && OneShort(g, target, b)
    ensures var r := SwapFrom(g, unsat, target, a, b, 0, fuel);
      AllSafe(r.moves) && r.moves != [] ==>
        && |r.moves| == 1 && r.moves[0].da < |g| && r.moves[0].db < |g|
        && r.g == Swap(g, a, b, r.moves[0].da, r.moves[0].db)
        && SwappedOnce(g, unsat, r.g, r.unsat, target, a, b)
  {
    var r := SwapFrom(g, unsat, target, a, b, 0, fuel);
    SwapFromOnce(g, unsat, target, a, b, 0, fuel);
    if AllSafe(r.moves) && r.moves != [] {
      assert SafeMove(r.moves[0]);
      SwapGood(g, unsat, target, a, b, r.moves[0].da, r.moves[0].db);
    }
  }

  /** The one-for-one swap pass (lines 185-215) for the recipients `a` and `b`, as
      `SwapFrom` describes it; `moves` logs the swaps made. The scan of `da`'s list goes
      on after a swap; `fuel` bounds it, and `cut` reports that the bound was reached. Its
      first swap moves the edge the donor search names, and without a cut it swaps
      whenever there is such an edge. A pass whose swaps are all safe, from a good state
      with `a` and `b` one short, makes exactly one swap, keeps the state good and takes
      both recipients off the list. */
  method SwapPass(g0: Lists, unsat0: seq<nat>, target: seq<int>, a: nat, b: nat, fuel: nat)
    returns (g: Lists, unsat: seq<nat>, swapped: bool, cut: bool, ghost moves: seq<SwapMove>)
    requires WellFormed(g0, unsat0, target) && a < |g0| && b < |g0|
    ensures SwapRun(g, unsat, moves, cut) == SwapFrom(g0, unsat0, target, a, b, 0, fuel)
    ensures swapped == (moves != [])
    ensures WellFormed(g, unsat, target) && forall v :: v in unsat ==> v in unsat0
    ensures !swapped ==> g == g0 && unsat == unsat0
    ensures swapped ==> var m := FindMove(g0, a, b, 0);
      m.Donors? && moves[0] == SwapMove(g0, a, b, m.donor, g0[m.donor][m.at])
    ensures !swapped && !cut ==> FindMove(g0, a, b, 0).NoDonors?
    ensures AllSafe(moves) && swapped && Good(g0, unsat0, target) && OneShort(g0, target, a) && OneShort(g0, target, b) ==>
      && |moves| == 1 && moves[0].da < |g0| && moves[0].db < |g0|
      && g == Swap(g0, a, b, moves[0].da, moves[0].db)
      && SwappedOnce(g0, unsat0, g, unsat, target, a, b)
  {
    g, unsat, swapped, cut, moves := g0, unsat0, false, false, [];
    var n := |g0|;
    var da := 0;
    while da < n
      invariant da <= n && g == g0 && unsat == unsat0 && moves == [] && !swapped && !cut
      invariant SwapFrom(g0, unsat0, target, a, b, da, fuel) == SwapFrom(g0, unsat0, target, a, b, 0, fuel)
    {
      if da !in g[a] {
        g, unsat, swapped, cut, moves := ScanDonor(g, unsat, target, a, b, da, fuel);
        if swapped || cut {
          break;
        }
      }
      da := da + 1;
    }
    if Good(g0, unsat0, target) && OneShort(g0, target, a) && OneShort(g0, target, b) {
      SwapFromGood(g0, unsat0, target, a, b, fuel);
    }
  }

  /** One round of the repair loop (lines 123-215), each swap scan bounded by `fuel`
      visits: a transfer pass, then the pair selection and, when it finds a pair, a swap
      pass. The run holds the swaps of the round and whether a scan was cut short. */
  function Round(g: Lists, unsat: seq<nat>, target: seq<int>, fuel: nat): (r: SwapRun)
    requires WellFormed(g, unsat, target)
    ensures WellFormed(r.g, r.unsat, target) && forall v :: v in r.unsat ==> v in unsat
  {
    var pass := TransferPassFrom(g, unsat, target, 0);
    match PairFrom(pass.0, target, pass.1, 0)
    case NoRecipients => SwapRun(pass.0, pass.1, [], false)
    case Recipients(ia, ib) =>
      assert pass.1[ia] in pass.1 && pass.1[ib] in pass.1;
      SwapFrom(pass.0, pass.1, target, pass.1[ia], pass.1[ib], 0, fuel)
  }

  /** The repair loop (lines 122-216) for at most `rounds` more rounds, after the swaps
      `moves`: it stops when the list is empty, the rounds run out or a scan was cut
      short, and gathers the swaps of every round after `moves`. */
  function Repair(g: Lists, unsat: seq<nat>, target: seq<int>, rounds: nat, fuel: nat, moves: seq<SwapMove>): (r: SwapRun)
    requires WellFormed(g, unsat, target)
    ensures WellFormed(r.g, r.unsat, target) && forall v :: v in r.unsat ==> v in unsat
    ensures |moves| <= |r.moves| && r.moves[..|moves|] == moves
    decreases rounds, 1
  {
    if unsat == [] || rounds == 0 then SwapRun(g, unsat, moves, false)
    else
      var run := Round(g, unsat, target, fuel);
      var r := Resume(run, target, rounds - 1, fuel, moves);
      assert r.moves[..|moves|] == (moves + run.moves)[..|moves|];
      r
  }

  /** The repair loop once a round has ended in `run`: it stops there when a scan was cut
      short, and otherwise goes on for at most `rounds` more rounds. */
  function Resume(run: SwapRun, target: seq<int>, rounds: nat, fuel: nat, moves: seq<SwapMove>): (r: SwapRun)
    requires WellFormed(run.g, run.unsat, target)
    ensures WellFormed(r.g, r.unsat, target) && forall v :: v in r.unsat ==> v in run.unsat
    ensures |moves + run.moves| <= |r.moves| && r.moves[..|moves + run.moves|] == moves + run.moves
    decreases rounds, 2
  {
    if run.cut then SwapRun(run.g, run.unsat, moves + run.moves, true)
    else Repair(run.g, run.unsat, target, rounds, fuel, moves + run.moves)
  }

  /** A repair loop with vertices short and rounds left begins with a round: when the
      round was not cut short the loop goes on from its end with one round fewer, and
      otherwise it ends with it. */
  lemma RepairStep(g: Lists, unsat: seq<nat>, target: seq<int>, rounds: nat, fuel: nat, moves: seq<SwapMove>,
                   g': Lists, unsat': seq<nat>, cut: bool, more: seq<SwapMove>, rounds': nat, result: SwapRun)
    requires WellFormed(g, unsat, target) && unsat != [] && rounds == rounds' + 1
    requires Repair(g, unsat, target, rounds, fuel, moves) == result
    requires SwapRun(g', unsat', more, cut) == Round(g, unsat, target, fuel)
    ensures WellFormed(g', unsat', target)
    ensures !cut ==> Repair(g', unsat', target, rounds', fuel, moves + more) == result
    ensures cut ==> SwapRun(g', unsat', moves + more, true) == result
  {
  }

  /** A repair loop with nobody short or no rounds left makes no more swaps. */
  lemma RepairDone(g: Lists, unsat: seq<nat>, target: seq<int>, rounds: nat, fuel: nat, moves: seq<SwapMove>, result: SwapRun)
    requires WellFormed(g, unsat, target) && (unsat == [] || rounds == 0)
    requires Repair(g, unsat, target, rounds, fuel, moves) == result
    ensures SwapRun(g, unsat, moves, false) == result
  {
  }

  /** The whole of `generateSimpleGraphWithDegrees(degrees)` with the repair loop bounded
      by `fuel` rounds: the greedy phase on the sorted degrees, then the repair loop from
      the vertices it left short. */
  function Realization(degrees: seq<int>, fuel: nat): SwapRun {
    var target := SortAscending(degrees);
    var g := GreedyUpTo(target, |target|).g;
    Repair(g, Unsatisfied(g, target), target, fuel, fuel, [])
  }

  /** The lists as the adjacency object the function returns, keyed `0 .. n-1`. */
  function AsObject(g: Lists): (adj: Generate.AdjacencyList)
    ensures forall v: nat :: v in adj <==> v < |g|
  {
    map v: nat | v < |g| :: g[v]
  }

  /** Every vertex has exactly its target degree, none for a negative target. */
  predicate Realizes(g: Lists, target: seq<int>) {
    |g| == |target| && forall v :: 0 <= v < |g| ==> |g[v]| == if target[v] < 0 then 0 else target[v]
  }

  /** With nobody left on the list, the repair state is a realization of the target. */
  lemma GoodRealizes(g: Lists, target: seq<int>)
    requires Good(g, [], target)
    ensures Realizes(g, target)
  {
    forall v | 0 <= v < |g| ensures |g[v]| == if target[v] < 0 then 0 else target[v] {
      assert v !in [];
    }
  }

  /** One round of the repair loop, as `Round` describes it. When its swaps are all safe,
      a good state stays good. */
  method RepairRound(g0: Lists, unsat0: seq<nat>, target: seq<int>, fuel: nat)
    returns (g: Lists, unsat: seq<nat>, cut: bool, ghost more: seq<SwapMove>)
    requires WellFormed(g0, unsat0, target)
    ensures SwapRun(g, unsat, more, cut) == Round(g0, unsat0, target, fuel)
    ensures AllSafe(more) && Good(g0, unsat0, target) ==> Good(g, unsat, target)
  {
    g, unsat := TransferPass(g0, unsat0, target);
    var found, a, b, ia, ib := SelectPair(g, unsat, target);
    cut, more := false, [];
    if found {
      assert a in unsat && b in unsat;
      var swapped;
      g, unsat, swapped, cut, more := SwapPass(g, unsat, target, a, b, fuel);
    }
  }

  /** One iteration of the repair loop: a round, with the rounds left counted down and
      its swaps appended to those made so far. The loop's state keeps to `Repair`. */
  method NextRound(g0: Lists, unsat0: seq<nat>, target: seq<int>, fuel: nat, left0: nat,
                   ghost moves0: seq<SwapMove>, ghost good: bool, ghost result: SwapRun)
    returns (g: Lists, unsat: seq<nat>, cut: bool, left: nat, ghost moves: seq<SwapMove>)
    requires WellFormed(g0, unsat0, target) && unsat0 != [] && left0 > 0
    requires AllSafe(moves0) && good ==> Good(g0, unsat0, target)
    requires Repair(g0, unsat0, target, left0, fuel, moves0) == result
    ensures left == left0 - 1
    ensures WellFormed(g, unsat, target)
    ensures AllSafe(moves) && good ==> Good(g, unsat, target)
    ensures !cut ==> Repair(g, unsat, target, left, fuel, moves) == result
    ensures cut ==> SwapRun(g, unsat, moves, true) == result
  {
    ghost var more;
    g, unsat, cut, more := RepairRound(g0, unsat0, target, fuel);
    AllSafeAppend(moves0, more);
    left, moves := left0 - 1, moves0 + more;
    RepairStep(g0, unsat0, target, left0, fuel, moves0, g, unsat, cut, more, left, result);
  }

  /** The repair loop (lines 122-216), as `Repair` describes it with `fuel` rounds: the
      rounds go on while a vertex is short, rounds are left and no scan was cut short.
      While every swap is a safe one, a good state stays good. */
  method RepairLoop(g0: Lists, unsat0: seq<nat>, target: seq<int>, fuel: nat)
    returns (g: Lists, unsat: seq<nat>, cut: bool, ghost moves: seq<SwapMove>)
    requires WellFormed(g0, unsat0, target)
    ensures SwapRun(g, unsat, moves, cut) == Repair(g0, unsat0, target, fuel, fuel, [])
    ensures AllSafe(moves) && Good(g0, unsat0, target) ==> Good(g, unsat, target)
  {
    g, unsat, cut, moves := g0, unsat0, false, [];
    ghost var good := Good(g0, unsat0, target);
    ghost var result := Repair(g0, unsat0, target, fuel, fuel, []);
    var left: nat := fuel;
    while unsat != [] && left > 0 && !cut
      invariant WellFormed(g, unsat, target)
      invariant AllSafe(moves) && good ==> Good(g, unsat, target)
      invariant !cut ==> Repair(g, unsat, target, left, fuel, moves) == result
      invariant cut ==> SwapRun(g, unsat, moves, true) == result
      decreases left
    {
      g, unsat, cut, left, moves := NextRound(g, unsat, target, fuel, left, moves, good, result);
    }
    if !cut {
      RepairDone(g, unsat, target, left, fuel, moves, result);
    }
  }

  /** `generateSimpleGraphWithDegrees(degrees)`. The vertices are renumbered: vertex `v`
      is given the `v`-th smallest degree. The repair loop (lines 122-216) may run
      forever (for `[1]` the list never empties and nothing can be moved), so `fuel`
      bounds its rounds and each swap scan; `done` reports that it ended on its own with
      every vertex satisfied, `unsat` holds the vertices still short and `cut` that a
      swap scan was cut short. `g` holds the returned lists by vertex, the object being
      `AsObject(g)`, and `moves` logs the one-for-one swaps made. The list of short
      vertices only shrinks. While every swap is a safe one the result stays simple and
      within the targets, and `unsat` is exact. */
  method GenerateSimpleGraphWithDegrees(degrees: seq<int>, fuel: nat)
    returns (adj: Generate.AdjacencyList, g: Lists, unsat: seq<nat>, done: bool, cut: bool, ghost moves: seq<SwapMove>)
    ensures SwapRun(g, unsat, moves, cut) == Realization(degrees, fuel)
    ensures adj == AsObject(g) && |g| == |degrees| && InRange(g)
    ensures done == (unsat == [] && !cut)
    ensures var target := SortAscending(degrees);
      forall v :: v in unsat ==> v in Unsatisfied(GreedyUpTo(target, |target|).g, target)
    ensures AllSafe(moves) ==>
      && Simple(g) && Bounded(g, SortAscending(degrees)) && Tracks(unsat, g, SortAscending(degrees))
    ensures AllSafe(moves) && done ==> Realizes(g, SortAscending(degrees))
  {
    var target := SortAscending(degrees);
    var lists, working := Greedy(target);
    unsat := Unsatisfied(lists, target);
    ghost var unsat0 := unsat;
    lists, unsat, cut, moves := RepairLoop(lists, unsat, target, fuel);
    done := unsat == [] && !cut;
    g := lists;
    if AllSafe(moves) && done {
      GoodRealizes(g, target);
    }
    adj := AsObject(lists);
  }

  /** The swaps of two runs are all safe exactly when those of each run are. */
  lemma AllSafeAppend(m1: seq<SwapMove>, m2: seq<SwapMove>)
    ensures AllSafe(m1 + m2) <==> AllSafe(m1) && AllSafe(m2)
  {
    if AllSafe(m1 + m2) {
      forall k | 0 <= k < |m1| ensures SafeMove(m1[k]) {
        assert (m1 + m2)[k] == m1[k];
      }
      forall k | 0 <= k < |m2| ensures SafeMove(m2[k]) {
        assert (m1 + m2)[|m1| + k] == m2[k];
      }
    }
    if AllSafe(m1) && AllSafe(m2) {
      forall k | 0 <= k < |m1 + m2| ensures SafeMove((m1 + m2)[k]) {
        if k < |m1| {
          assert (m1 + m2)[k] == m1[k];
        } else {
          assert (m1 + m2)[k] == m2[k - |m1|];
        }
      }
    }
  }

  /** The sorted degrees are non-negative when the degrees are. */
  lemma SortedNonNegative(degrees: seq<int>)
    requires forall i :: 0 <= i < |degrees| ==> degrees[i] >= 0
    ensures forall v :: 0 <= v < |SortAscending(degrees)| ==> SortAscending(degrees)[v] >= 0
  {
    var target := SortAscending(degrees);
    forall v | 0 <= v < |target| ensures target[v] >= 0 {
      assert target[v] in multiset(target);
    }
  }

  /** The degree list of a realization of a non-negative target is the target. */
  lemma DegreesOfRealization(g: Lists, target: seq<int>)
    requires forall v :: 0 <= v < |target| ==> target[v] >= 0
    requires Realizes(g, target)
    ensures Analysis.Degrees(AsObject(g)) == target
  {
    var adj := AsObject(g);
    Analysis.DegreesOfRange(adj, |g|);
  }

  /** A realization read back through `getDegreesOfAdjacencyList` gives the degrees asked
      for, in ascending order, when none of them is negative. */
  lemma RealizedDegrees(degrees: seq<int>, g: Lists)
    requires forall i :: 0 <= i < |degrees| ==> degrees[i] >= 0
    requires Realizes(g, SortAscending(degrees))
    ensures Analysis.Degrees(AsObject(g)) == SortAscending(degrees)
    ensures multiset(Analysis.Degrees(AsObject(g))) == multiset(degrees)
  {
    SortedNonNegative(degrees);
    DegreesOfRealization(g, SortAscending(degrees));
  }

  /** A round that makes no swap, is not cut short and leaves the state as it found it is
      repeated for as long as rounds are left: the loop of lines 122-216, which has no
      bound on its rounds, then never ends. */
  lemma {:induction false} RepairStuck(g: Lists, unsat: seq<nat>, target: seq<int>, rounds: nat, fuel: nat, moves: seq<SwapMove>)
    requires WellFormed(g, unsat, target)
    requires Round(g, unsat, target, fuel) == SwapRun(g, unsat, [], false)
    ensures Repair(g, unsat, target, rounds, fuel, moves) == SwapRun(g, unsat, moves, false)
    decreases rounds
  {
    if unsat != [] && rounds > 0 {
      RepairStuck(g, unsat, target, rounds - 1, fuel, moves);
      assert moves + [] == moves;
    }
  }

  /** A visit of the greedy turn for `i` that connects the candidate `p`, with the lists
      after the first push and after both pushes spelled out, and the new working
      degrees. */
  lemma FillConnects(g: Lists, working: seq<int>, i: nat, d: nat, pushed: Lists, g': Lists, working': seq<int>)
    requires InRange(g) && |working| == |g| && i < |g| && d < |g|
    requires var p := |g| - 1 - d; p != i && p !in g[i] && working[p] > 0
    requires var p := |g| - 1 - d; pushed == Push(g, i, p) && g' == Push(pushed, p, i)
    requires var p := |g| - 1 - d; working' == working[p := working[p] - 1][i := working[i] - 1]
    ensures FillNext(g, working, i, d) == Fill(g', working')
  {
  }

  /** A greedy turn for `m` that connects the first candidate and is then done. */
  lemma OneVisitTurn(target: seq<int>, m: nat, g: Lists, working: seq<int>, g': Lists, working': seq<int>)
    requires m < |target| && GreedyUpTo(target, m) == Fill(g, working)
    requires |g[m]| < working[m] && FillNext(g, working, m, 0) == Fill(g', working')
    requires |g'[m]| >= working[m]
    ensures GreedyUpTo(target, m + 1) == Fill(g', working')
  {
    assert FillFrom(g', working', m, working[m], 1) == Fill(g', working');
  }

  /** The greedy turn of vertex 0 on the triangle's degrees `[2, 2, 2]`: it takes the
      candidates 2 and 1. */
  lemma TriangleFirstTurn()
    ensures GreedyUpTo([2, 2, 2], 1) == Fill([[2, 1], [0], [0]], [0, 1, 1])
  {
    var t := [2, 2, 2];
    var tri: Lists := [[2, 1], [0], [0]];
    var empty: Lists := [[], [], []];
    assert GreedyUpTo(t, 0) == Fill(empty, t);
    assert Push(empty, 0, 2) == [[2], [], []] by { assert empty[0] + [2] == [2]; }
    assert Push([[2], [], []], 2, 0) == [[2], [], [0]] by { assert empty[2] + [0] == [0]; }
    FillConnects(empty, t, 0, 0, [[2], [], []], [[2], [], [0]], [1, 2, 1]);
    assert Push([[2], [], [0]], 0, 1) == [[2, 1], [], [0]] by { assert [2] + [1] == [2, 1]; }
    assert Push([[2, 1], [], [0]], 1, 0) == tri by { assert empty[1] + [0] == [0]; }
    FillConnects([[2], [], [0]], [1, 2, 1], 0, 1, [[2, 1], [], [0]], tri, [0, 1, 1]);
    assert FillFrom(tri, [0, 1, 1], 0, 2, 2) == Fill(tri, [0, 1, 1]);
    assert FillFrom([[2], [], [0]], [1, 2, 1], 0, 2, 1) == Fill(tri, [0, 1, 1]);
  }

  /** The greedy phase on the triangle's degrees `[2, 2, 2]`, which are already in
      order: after vertex 0 has taken 2 and 1, vertices 1 and 2 each read a working
      degree of 1 that they already have, so both stay one short. */
  lemma TriangleGreedy()
    ensures SortAscending([2, 2, 2]) == [2, 2, 2]
    ensures GreedyUpTo([2, 2, 2], 3).g == [[2, 1], [0], [0]]
    ensures Unsatisfied([[2, 1], [0], [0]], [2, 2, 2]) == [1, 2]
  {
    TriangleSorted();
    TriangleLastTurns();
    TriangleShort();
  }

  /** The greedy turns of vertices 1 and 2 on `[2, 2, 2]` add nothing. */
  lemma TriangleLastTurns()
    ensures GreedyUpTo([2, 2, 2], 3).g == [[2, 1], [0], [0]]
  {
    var t := [2, 2, 2];
    var tri: Lists := [[2, 1], [0], [0]];
    TriangleFirstTurn();
    assert GreedyUpTo(t, 2) == Fill(tri, [0, 1, 1]);
  }

  /** `[2, 2, 2]` is already in order. */
  lemma TriangleSorted()
    ensures SortAscending([2, 2, 2]) == [2, 2, 2]
  {
    SortAscendingSorted([2, 2, 2]);
  }

  /** After the greedy phase on `[2, 2, 2]` vertices 1 and 2 are one short. */
  lemma TriangleShort()
    ensures Unsatisfied([[2, 1], [0], [0]], [2, 2, 2]) == [1, 2]
  {
    var t := [2, 2, 2];
    var tri: Lists := [[2, 1], [0], [0]];
    assert ShortAmong(tri, t, 1) == [];
    assert ShortAmong(tri, t, 2) == [1];
  }

  /** A repair round on the triangle's greedy result: neither short vertex is two short,
      so no edge is transferred; the pair is 1 and 2, and every donor that is not a
      neighbour of 1 only lists 0, which 2 already has, so nothing is swapped. */
  lemma TriangleRound(fuel: nat)
    requires fuel >= 1
    ensures WellFormed([[2, 1], [0], [0]], [1, 2], [2, 2, 2])
    ensures Round([[2, 1], [0], [0]], [1, 2], [2, 2, 2], fuel) == SwapRun([[2, 1], [0], [0]], [1, 2], [], false)
  {
    var t := [2, 2, 2];
    var tri: Lists := [[2, 1], [0], [0]];
    var u: seq<nat> := [1, 2];
    assert WellFormed(tri, u, t);
    assert TransferAt(tri, u, t, 1) == (tri, u);
    assert TransferAt(tri, u, t, 2) == (tri, u);
    assert TransferPassFrom(tri, u, t, 0) == (tri, u);
    assert LastOneShort(tri, t, u, 1, -1) == 1;
    assert PairFrom(tri, t, u, 0) == Recipients(0, 1);
    var none := SwapRun(tri, u, [], false);
    assert SwapScan(tri, u, t, 1, 2, 1, 0, fuel) == none;
    assert SwapScan(tri, u, t, 1, 2, 2, 0, fuel) == none;
    assert SwapFrom(tri, u, t, 1, 2, 3, fuel) == none;
    assert SwapFrom(tri, u, t, 1, 2, 2, fuel) == none;
    assert SwapFrom(tri, u, t, 1, 2, 1, fuel) == none;
    assert SwapFrom(tri, u, t, 1, 2, 0, fuel) == none;
  }

  /** The triangle is a simple graph with every degree 2. */
  lemma TriangleGraphical()
    ensures Simple([[1, 2], [0, 2], [0, 1]]) && Realizes([[1, 2], [0, 2], [0, 1]], [2, 2, 2])
  {
  }

  /** The triangle realizes `[2, 2, 2]`, yet after any number of rounds the repair loop
      still has vertices 1 and 2 one short and has not changed a list: on these degrees
      `generateSimpleGraphWithDegrees` never returns. */
  lemma TriangleNeverRealized(fuel: nat)
    ensures Simple([[1, 2], [0, 2], [0, 1]]) && Realizes([[1, 2], [0, 2], [0, 1]], [2, 2, 2])
    ensures Realization([2, 2, 2], fuel) == SwapRun([[2, 1], [0], [0]], [1, 2], [], false)
  {
    TriangleGraphical();
    TriangleGreedy();
    var t := [2, 2, 2];
    var tri: Lists := [[2, 1], [0], [0]];
    var u: seq<nat> := [1, 2];
    if fuel >= 1 {
      TriangleRound(fuel);
      RepairStuck(tri, u, t, fuel, fuel, []);
    }
    assert Repair(tri, u, t, fuel, fuel, []) == SwapRun(tri, u, [], false);
  }

  /** The first visit of the greedy turn of vertex 0 on the degrees `[3, 3, 3, 3]` of
      the complete graph on four vertices: it connects 3. */
  lemma K4TakesThree()
    ensures FillNext([[], [], [], []], [3, 3, 3, 3], 0, 0) == Fill([[3], [], [], [0]], [2, 3, 3, 2])
  {
    var empty: Lists := [[], [], [], []];
    assert Push(empty, 0, 3) == [[3], [], [], []] by { assert empty[0] + [3] == [3]; }
    assert Push([[3], [], [], []], 3, 0) == [[3], [], [], [0]] by { assert empty[3] + [0] == [0]; }
    FillConnects(empty, [3, 3, 3, 3], 0, 0, [[3], [], [], []], [[3], [], [], [0]], [2, 3, 3, 2]);
  }

  /** The second visit of the greedy turn of vertex 0 on `[3, 3, 3, 3]`: it connects 2. */
  lemma K4TakesTwo()
    ensures FillNext([[3], [], [], [0]], [2, 3, 3, 2], 0, 1) == Fill([[3, 2], [], [0], [0]], [1, 3, 2, 2])
  {
    var g1: Lists := [[3], [], [], [0]];
    assert Push(g1, 0, 2) == [[3, 2], [], [], [0]] by { assert [3] + [2] == [3, 2]; }
    assert Push([[3, 2], [], [], [0]], 2, 0) == [[3, 2], [], [0], [0]] by { assert g1[2] + [0] == [0]; }
    FillConnects(g1, [2, 3, 3, 2], 0, 1, [[3, 2], [], [], [0]], [[3, 2], [], [0], [0]], [1, 3, 2, 2]);
  }

  /** The third visit of the greedy turn of vertex 0 on `[3, 3, 3, 3]`: it connects 1. */
  lemma K4TakesOne()
    ensures FillNext([[3, 2], [], [0], [0]], [1, 3, 2, 2], 0, 2) == Fill([[3, 2, 1], [0], [0], [0]], [0, 2, 2, 2])
  {
    var g2: Lists := [[3, 2], [], [0], [0]];
    assert Push(g2, 0, 1) == [[3, 2, 1], [], [0], [0]] by { assert [3, 2] + [1] == [3, 2, 1]; }
    assert Push([[3, 2, 1], [], [0], [0]], 1, 0) == [[3, 2, 1], [0], [0], [0]] by { assert g2[1] + [0] == [0]; }
    FillConnects(g2, [1, 3, 2, 2], 0, 2, [[3, 2, 1], [], [0], [0]], [[3, 2, 1], [0], [0], [0]], [0, 2, 2, 2]);
  }

  /** The greedy turn of vertex 0 on `[3, 3, 3, 3]`: it takes the candidates 3, 2 and 1. */
  lemma K4FirstTurn()
    ensures GreedyUpTo([3, 3, 3, 3], 1) == Fill([[3, 2, 1], [0], [0], [0]], [0, 2, 2, 2])
  {
    var t := [3, 3, 3, 3];
    var g1: Lists := [[3], [], [], [0]];
    var g2: Lists := [[3, 2], [], [0], [0]];
    var g3: Lists := [[3, 2, 1], [0], [0], [0]];
    K4TakesThree();
    K4TakesTwo();
    K4TakesOne();
    assert GreedyUpTo(t, 0) == Fill([[], [], [], []], t);
    assert FillFrom(g3, [0, 2, 2, 2], 0, 3, 3) == Fill(g3, [0, 2, 2, 2]);
    assert FillFrom(g2, [1, 3, 2, 2], 0, 3, 2) == Fill(g3, [0, 2, 2, 2]);
    assert FillFrom(g1, [2, 3, 3, 2], 0, 3, 1) == Fill(g3, [0, 2, 2, 2]);
  }

  /** The visit of the greedy turn of vertex 1 on `[3, 3, 3, 3]` that connects 3. */
  lemma K4SecondVisit()
    ensures FillNext([[3, 2, 1], [0], [0], [0]], [0, 2, 2, 2], 1, 0)
      == Fill([[3, 2, 1], [0, 3], [0], [0, 1]], [0, 1, 2, 1])
  {
    var g3: Lists := [[3, 2, 1], [0], [0], [0]];
    var g4: Lists := [[3, 2, 1], [0, 3], [0], [0, 1]];
    assert Push(g3, 1, 3) == [[3, 2, 1], [0, 3], [0], [0]] by { assert [0] + [3] == [0, 3]; }
    assert Push([[3, 2, 1], [0, 3], [0], [0]], 3, 1) == g4 by { assert [0] + [1] == [0, 1]; }
    FillConnects(g3, [0, 2, 2, 2], 1, 0, [[3, 2, 1], [0, 3], [0], [0]], g4, [0, 1, 2, 1]);
  }

  /** The greedy turn of vertex 1 on `[3, 3, 3, 3]`: it reads a working degree of 2,
      has 0 already and takes 3. */
  lemma K4SecondTurn()
    ensures GreedyUpTo([3, 3, 3, 3], 2) == Fill([[3, 2, 1], [0, 3], [0], [0, 1]], [0, 1, 2, 1])
  {
    K4FirstTurn();
    K4SecondVisit();
    OneVisitTurn([3, 3, 3, 3], 1, [[3, 2, 1], [0], [0], [0]], [0, 2, 2, 2],
                 [[3, 2, 1], [0, 3], [0], [0, 1]], [0, 1, 2, 1]);
  }

  /** The visit of the greedy turn of vertex 2 on `[3, 3, 3, 3]` that connects 3. */
  lemma K4ThirdVisit()
    ensures FillNext([[3, 2, 1], [0, 3], [0], [0, 1]], [0, 1, 2, 1], 2, 0)
      == Fill([[3, 2, 1], [0, 3], [0, 3], [0, 1, 2]], [0, 1, 1, 0])
  {
    var g4: Lists := [[3, 2, 1], [0, 3], [0], [0, 1]];
    var k: Lists := [[3, 2, 1], [0, 3], [0, 3], [0, 1, 2]];
    assert Push(g4, 2, 3) == [[3, 2, 1], [0, 3], [0, 3], [0, 1]] by { assert [0] + [3] == [0, 3]; }
    assert Push([[3, 2, 1], [0, 3], [0, 3], [0, 1]], 3, 2) == k by { assert [0, 1] + [2] == [0, 1, 2]; }
    FillConnects(g4, [0, 1, 2, 1], 2, 0, [[3, 2, 1], [0, 3], [0, 3], [0, 1]], k, [0, 1, 1, 0]);
  }

  /** The greedy turn of vertex 2 on `[3, 3, 3, 3]`: it reads a working degree of 2,
      has 0 already and takes 3. */
  lemma K4ThirdTurn()
    ensures GreedyUpTo([3, 3, 3, 3], 3) == Fill([[3, 2, 1], [0, 3], [0, 3], [0, 1, 2]], [0, 1, 1, 0])
  {
    K4SecondTurn();
    K4ThirdVisit();
    OneVisitTurn([3, 3, 3, 3], 2, [[3, 2, 1], [0, 3], [0], [0, 1]], [0, 1, 2, 1],
                 [[3, 2, 1], [0, 3], [0, 3], [0, 1, 2]], [0, 1, 1, 0]);
  }

  /** The greedy phase on `[3, 3, 3, 3]`: vertex 3 reads a working degree of 0 and takes
      nothing. */
  lemma K4Greedy()
    ensures GreedyUpTo([3, 3, 3, 3], 4).g == [[3, 2, 1], [0, 3], [0, 3], [0, 1, 2]]
  {
    K4ThirdTurn();
  }

  /** `[3, 3, 3, 3]` is already in order. */
  lemma K4Sorted()
    ensures SortAscending([3, 3, 3, 3]) == [3, 3, 3, 3]
  {
    SortAscendingSorted([3, 3, 3, 3]);
  }

  /** After the greedy phase on `[3, 3, 3, 3]` vertices 1 and 2 are one short. */
  lemma K4Short()
    ensures Unsatisfied([[3, 2, 1], [0, 3], [0, 3], [0, 1, 2]], [3, 3, 3, 3]) == [1, 2]
  {
    var t := [3, 3, 3, 3];
    var k: Lists := [[3, 2, 1], [0, 3], [0, 3], [0, 1, 2]];
    assert ShortAmong(k, t, 1) == [];
    assert ShortAmong(k, t, 2) == [1];
    assert ShortAmong(k, t, 3) == [1, 2];
  }

  /** The transfer pass and the pair selection on the greedy result for `[3, 3, 3, 3]`:
      neither short vertex is two short, so no edge is transferred, and the pair is 1 and
      2. */
  lemma K4Pair()
    ensures WellFormed([[3, 2, 1], [0, 3], [0, 3], [0, 1, 2]], [1, 2], [3, 3, 3, 3])
    ensures TransferPassFrom([[3, 2, 1], [0, 3], [0, 3], [0, 1, 2]], [1, 2], [3, 3, 3, 3], 0)
      == ([[3, 2, 1], [0, 3], [0, 3], [0, 1, 2]], [1, 2])
    ensures PairFrom([[3, 2, 1], [0, 3], [0, 3], [0, 1, 2]], [3, 3, 3, 3], [1, 2], 0) == Recipients(0, 1)
  {
    var t := [3, 3, 3, 3];
    var k: Lists := [[3, 2, 1], [0, 3], [0, 3], [0, 1, 2]];
    var u: seq<nat> := [1, 2];
    assert WellFormed(k, u, t);
    assert TransferAt(k, u, t, 1) == (k, u);
    assert TransferAt(k, u, t, 2) == (k, u);
    assert LastOneShort(k, t, u, 1, -1) == 1;
  }

  /** The swap pass for the pair 1 and 2 on the greedy result for `[3, 3, 3, 3]`: the
      donors that are not neighbours of 1 are 1 and 2, whose lists `[0, 3]` hold only
      neighbours of 2. Reading one such list takes two visits, so with one visit per
      scan the pass is cut short, and with two or more it swaps nothing. */
  lemma K4Swaps(fuel: nat)
    requires fuel >= 1
    requires WellFormed([[3, 2, 1], [0, 3], [0, 3], [0, 1, 2]], [1, 2], [3, 3, 3, 3])
    ensures SwapFrom([[3, 2, 1], [0, 3], [0, 3], [0, 1, 2]], [1, 2], [3, 3, 3, 3], 1, 2, 0, fuel)
      == SwapRun([[3, 2, 1], [0, 3], [0, 3], [0, 1, 2]], [1, 2], [], fuel == 1)
  {
    var t := [3, 3, 3, 3];
    var k: Lists := [[3, 2, 1], [0, 3], [0, 3], [0, 1, 2]];
    var u: seq<nat> := [1, 2];
    var none := SwapRun(k, u, [], false);
    if fuel == 1 {
      assert SwapScan(k, u, t, 1, 2, 1, 1, 0) == SwapRun(k, u, [], true);
      assert SwapScan(k, u, t, 1, 2, 1, 0, 1) == SwapRun(k, u, [], true);
      assert SwapFrom(k, u, t, 1, 2, 1, fuel) == SwapRun(k, u, [], true);
    } else {
      assert SwapScan(k, u, t, 1, 2, 1, 1, fuel - 1) == none;
      assert SwapScan(k, u, t, 1, 2, 1, 0, fuel) == none;
      assert SwapScan(k, u, t, 1, 2, 2, 1, fuel - 1) == none;
      assert SwapScan(k, u, t, 1, 2, 2, 0, fuel) == none;
      assert SwapFrom(k, u, t, 1, 2, 3, fuel) == none;
      assert SwapFrom(k, u, t, 1, 2, 2, fuel) == none;
      assert SwapFrom(k, u, t, 1, 2, 1, fuel) == none;
    }
  }

  /** A repair round on the greedy result for `[3, 3, 3, 3]` changes nothing; it is cut
      short exactly when a scan may make only one visit. */
  lemma K4Round(fuel: nat)
    requires fuel >= 1
    ensures WellFormed([[3, 2, 1], [0, 3], [0, 3], [0, 1, 2]], [1, 2], [3, 3, 3, 3])
    ensures Round([[3, 2, 1], [0, 3], [0, 3], [0, 1, 2]], [1, 2], [3, 3, 3, 3], fuel)
      == SwapRun([[3, 2, 1], [0, 3], [0, 3], [0, 1, 2]], [1, 2], [], fuel == 1)
  {
    K4Pair();
    K4Swaps(fuel);
  }

  /** The complete graph on four vertices is simple with every degree 3. */
  lemma K4Graphical()
    ensures var k4: Lists := [[1, 2, 3], [0, 2, 3], [0, 1, 3], [0, 1, 2]];
      Simple(k4) && Realizes(k4, [3, 3, 3, 3])
  {
  }

  /** On `[3, 3, 3, 3]` the repair loop starts from the greedy result with 1 and 2 short. */
  lemma K4Start(fuel: nat)
    ensures WellFormed([[3, 2, 1], [0, 3], [0, 3], [0, 1, 2]], [1, 2], [3, 3, 3, 3])
    ensures Realization([3, 3, 3, 3], fuel)
      == Repair([[3, 2, 1], [0, 3], [0, 3], [0, 1, 2]], [1, 2], [3, 3, 3, 3], fuel, fuel, [])
  {
    K4Sorted();
    K4Greedy();
    K4Short();
    K4Pair();
  }

  /** The complete graph on four vertices realizes `[3, 3, 3, 3]`, yet the repair loop
      never changes a list and keeps vertices 1 and 2 one short: with one visit per scan
      it stops after a cut-short round, and with more it runs out of rounds however many
      it is given. On these degrees `generateSimpleGraphWithDegrees` never returns. */
  lemma K4NeverRealized(fuel: nat)
    ensures var k4: Lists := [[1, 2, 3], [0, 2, 3], [0, 1, 3], [0, 1, 2]];
      Simple(k4) && Realizes(k4, [3, 3, 3, 3])
    ensures Realization([3, 3, 3, 3], fuel)
      == SwapRun([[3, 2, 1], [0, 3], [0, 3], [0, 1, 2]], [1, 2], [], fuel == 1)
  {
    K4Graphical();
    K4Start(fuel);
    var t := [3, 3, 3, 3];
    var k: Lists := [[3, 2, 1], [0, 3], [0, 3], [0, 1, 2]];
    var u: seq<nat> := [1, 2];
    if fuel == 1 {
      K4Round(fuel);
      assert Resume(SwapRun(k, u, [], true), t, 0, fuel, []) == SwapRun(k, u, [], true);
    } else if fuel >= 2 {
      K4Round(fuel);
      RepairStuck(k, u, t, fuel, fuel, []);
    }
  }
}
