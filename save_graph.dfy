/** The edge-list text `saveGraphToFile` writes (src/graph/question6.ts): every pair
    `u < v` with `v` in the list of `u`, once each, one `u<TAB>v` line per pair. */
module SaveGraph {
  import opened Collections
  import opened Text
  import opened Generate

  /** The line `${u}\t${v}`. */
  function EdgeLine(u: nat, v: nat): string {
    Decimal(u) + ['\t'] + Decimal(v)
  }

  /** A run of digits holds neither separator. */
  lemma DigitsHaveNoSeparator(s: string)
    requires IsDigits(s)
    ensures '\t' !in s && '\n' !in s && s != []
    ensures !IsSpace(s[0]) && !IsSpace(s[|s| - 1])
  {
  }

  /** An edge line holds no line break and reads back as the pair it was made from. */
  lemma LineRoundTrip(u: nat, v: nat)
    ensures '\n' !in EdgeLine(u, v)
    ensures IsEdgeLine(EdgeLine(u, v)) && ParseLine(EdgeLine(u, v)) == (u, v)
  {
    var a, b := Decimal(u), Decimal(v);
    DigitsHaveNoSeparator(a);
    DigitsHaveNoSeparator(b);
    SplitAtSeparator(a, b, '\t');
    SplitNoSeparator(b, '\t');
    assert Fields(EdgeLine(u, v)) == [a, b];
  }

  /** The lines of a sequence of pairs, in order. */
  function Rendered(pairs: seq<Edge>): (lines: seq<string>)
    ensures |lines| == |pairs|
  {
    seq(|pairs|, i requires 0 <= i < |pairs| => EdgeLine(pairs[i].0, pairs[i].1))
  }

  /** Distinct pairs give distinct lines, so the line is in the rendering exactly when the
      pair is among the pairs. */
  lemma RenderedMember(pairs: seq<Edge>, u: nat, v: nat)
    ensures EdgeLine(u, v) in Rendered(pairs) <==> (u, v) in pairs
  {
    if EdgeLine(u, v) in Rendered(pairs) {
      var i :| 0 <= i < |pairs| && Rendered(pairs)[i] == EdgeLine(u, v);
      LineRoundTrip(u, v);
      LineRoundTrip(pairs[i].0, pairs[i].1);
    }
    if (u, v) in pairs {
      var i :| 0 <= i < |pairs| && pairs[i] == (u, v);
      assert Rendered(pairs)[i] == EdgeLine(u, v);
    }
  }

  /** An edge line starts and ends with a digit. */
  lemma EdgeLineEnds(u: nat, v: nat)
    ensures var line := EdgeLine(u, v);
      line != [] && IsDigit(line[0]) && IsDigit(line[|line| - 1])
  {
    var a, b := Decimal(u), Decimal(v);
    DigitsHaveNoSeparator(a);
    DigitsHaveNoSeparator(b);
    assert EdgeLine(u, v)[0] == a[0];
    assert EdgeLine(u, v)[|EdgeLine(u, v)| - 1] == b[|b| - 1];
  }

  /** Trimming and splitting the joined lines of a non-empty sequence of pairs gives the
      lines back. */
  lemma TextLines(pairs: seq<Edge>)
    requires pairs != []
    ensures Join(Rendered(pairs), '\n') != []
    ensures Lines(Join(Rendered(pairs), '\n')) == Rendered(pairs)
  {
    var lines := Rendered(pairs);
    var data := Join(lines, '\n');
    forall i | 0 <= i < |lines|
      ensures '\n' !in lines[i]
      ensures lines[i] != [] && IsDigit(lines[i][0]) && IsDigit(lines[i][|lines[i]| - 1])
    {
      LineRoundTrip(pairs[i].0, pairs[i].1);
      EdgeLineEnds(pairs[i].0, pairs[i].1);
    }
    JoinEdges(lines);
    TrimNoEdgeSpace(data);
    SplitJoin(lines, '\n');
  }

  /** Text whose lines are the lines of `pairs` reads back as `pairs`. */
  lemma ParseRendered(data: string, pairs: seq<Edge>)
    requires Lines(data) == Rendered(pairs)
    ensures IsEdgeListText(data) && ParseEdgeList(data) == pairs
  {
    var lines := Rendered(pairs);
    forall i | 0 <= i < |lines| ensures IsEdgeLine(lines[i]) && ParseLine(lines[i]) == pairs[i] {
      LineRoundTrip(pairs[i].0, pairs[i].1);
    }
  }

  /** For a non-empty sequence of pairs, `readEdgeList` reads the joined lines back as
      the same pairs in the same order. */
  lemma TextRoundTrip(pairs: seq<Edge>)
    requires pairs != []
    ensures Join(Rendered(pairs), '\n') != []
    ensures IsEdgeListText(Join(Rendered(pairs), '\n'))
    ensures ParseEdgeList(Join(Rendered(pairs), '\n')) == pairs
  {
    TextLines(pairs);
    ParseRendered(Join(Rendered(pairs), '\n'), pairs);
  }

  /** Lines that start and end with a digit join into text that does. */
  lemma {:induction false} JoinEdges(lines: seq<string>)
    requires lines != []
    requires forall i :: 0 <= i < |lines| ==> lines[i] != [] && IsDigit(lines[i][0]) && IsDigit(lines[i][|lines[i]| - 1])
    ensures var data := Join(lines, '\n');
      data != [] && IsDigit(data[0]) && IsDigit(data[|data| - 1])
  {
    if |lines| > 1 {
      JoinEdges(lines[1..]);
    }
  }

  /** The pairs are ordered by their first vertex. */
  predicate FirstAscending(pairs: seq<Edge>) {
    forall k, l :: 0 <= k < l < |pairs| ==> pairs[k].0 <= pairs[l].0
  }

  /** Every pair starts at one of the first `m` keys. */
  predicate FirstsAmong(pairs: seq<Edge>, keys: seq<nat>, m: nat)
    requires m <= |keys|
  {
    forall k :: 0 <= k < |pairs| ==> pairs[k].0 in keys[..m]
  }

  /** Pairs appended after ordered pairs that all start below `u` keep the order when
      each of them starts at `u`. */
  lemma ExtendOrdered(pairs: seq<Edge>, more: seq<Edge>, keys: seq<nat>, i: nat)
    requires Increasing(keys) && i < |keys|
    requires FirstAscending(pairs) && FirstsAmong(pairs, keys, i)
    requires |pairs| <= |more| && more[..|pairs|] == pairs
    requires forall k :: |pairs| <= k < |more| ==> more[k].0 == keys[i]
    ensures FirstAscending(more) && FirstsAmong(more, keys, i + 1)
  {
    forall k | 0 <= k < |pairs| ensures pairs[k].0 < keys[i] && pairs[k].0 in keys[..i + 1] {
      var m :| 0 <= m < i && keys[m] == pairs[k].0;
      assert keys[..i + 1][m] == keys[m];
    }
    forall k | 0 <= k < |more| ensures more[k].0 in keys[..i + 1] {
      if k < |pairs| {
        assert more[k] == pairs[k];
      } else {
        assert keys[..i + 1][i] == keys[i];
      }
    }
    forall k, l | 0 <= k < l < |more| ensures more[k].0 <= more[l].0 {
      if l < |pairs| {
        assert more[k] == pairs[k] && more[l] == pairs[l];
      } else if k < |pairs| {
        assert more[k] == pairs[k];
      }
    }
  }

  /** One visit of the inner loop (lines 10-12): the pair `(u, v)` is added when `u < v`
      and it is not there yet. */
  function CollectStep(u: nat, v: int, pairs: seq<Edge>): seq<Edge> {
    if u < v && (u, v as nat) !in pairs then pairs + [(u, v as nat)] else pairs
  }

  /** The pairs the `Set` holds once the inner loop (lines 9-13) has visited `list[j..]`
      for the key `u`, starting from `pairs`: each entry `v > u`, in list order, is added
      unless its pair is already there. */
  function CollectList(u: nat, list: seq<int>, j: nat, pairs: seq<Edge>): seq<Edge>
    requires j <= |list|
    decreases |list| - j
  {
    if j == |list| then pairs
    else CollectList(u, list, j + 1, CollectStep(u, list[j], pairs))
  }

  /** The pairs the `Set` holds once the outer loop (lines 8-14) has visited `keys[i..]`. */
  function CollectKeys(adj: AdjacencyList, keys: seq<nat>, i: nat, pairs: seq<Edge>): seq<Edge>
    requires i <= |keys| && forall k :: k in keys ==> k in adj
    decreases |keys| - i
  {
    if i == |keys| then pairs
    else CollectKeys(adj, keys, i + 1, CollectList(keys[i], adj[keys[i]], 0, pairs))
  }

  /** What the inner loop for `u` has built after visiting `list[..j]`: the pairs of
      `pairs0` followed by the new pairs `(u, v)`, `v > u`, in the order of their first
      occurrence in `list`. */
  ghost predicate CollectedUpTo(u: nat, list: seq<int>, j: nat, pairs0: seq<Edge>, pairs: seq<Edge>)
    requires j <= |list|
  {
    && NoDup(pairs)
    && CollectList(u, list, j, pairs) == CollectList(u, list, 0, pairs0)
    && Members(u, list, j, pairs0, pairs)
    && |pairs0| <= |pairs| && pairs[..|pairs0|] == pairs0
    && NewFrom(u, list, j, pairs0, pairs)
    && NewInOrder(list, pairs0, pairs)
  }

  /** The pairs are those of `pairs0` and the pairs `(u, v)` with `v > u` in `list[..j]`. */
  ghost predicate Members(u: nat, list: seq<int>, j: nat, pairs0: seq<Edge>, pairs: seq<Edge>)
    requires j <= |list|
  {
    forall x: nat, v: nat :: (x, v) in pairs <==> (x, v) in pairs0 || (x == u && u < v && v as int in list[..j])
  }

  /** The pairs after `pairs0` start at `u` and end at a vertex first seen in `list[..j]`. */
  ghost predicate NewFrom(u: nat, list: seq<int>, j: nat, pairs0: seq<Edge>, pairs: seq<Edge>) {
    forall k :: |pairs0| <= k < |pairs| ==>
      pairs[k].0 == u && pairs[k].1 as int in list && IndexOf(list, pairs[k].1 as int) < j
  }

  /** The pairs after `pairs0` follow the first occurrences of their second vertex in
      `list`. */
  ghost predicate NewInOrder(list: seq<int>, pairs0: seq<Edge>, pairs: seq<Edge>)
    requires forall k :: |pairs0| <= k < |pairs| ==> pairs[k].1 as int in list
  {
    forall k, l :: |pairs0| <= k < l < |pairs| ==> IndexOf(list, pairs[k].1 as int) < IndexOf(list, pairs[l].1 as int)
  }

  /** One visit of the inner loop keeps what it has built. */
  lemma CollectedStep(u: nat, list: seq<int>, j: nat, pairs0: seq<Edge>, pairs: seq<Edge>)
    requires j < |list| && CollectedUpTo(u, list, j, pairs0, pairs)
    ensures CollectedUpTo(u, list, j + 1, pairs0, CollectStep(u, list[j], pairs))
  {
    var v := list[j];
    if u < v && (u, v as nat) !in pairs {
      CollectedAdd(u, list, j, pairs0, pairs);
    } else {
      MembersSkip(u, list, j, pairs0, pairs);
    }
  }

  /** A visit that adds the pair of `list[j]` keeps what the inner loop has built. */
  lemma CollectedAdd(u: nat, list: seq<int>, j: nat, pairs0: seq<Edge>, pairs: seq<Edge>)
    requires j < |list| && CollectedUpTo(u, list, j, pairs0, pairs)
    requires u < list[j] && (u, list[j] as nat) !in pairs
    ensures CollectedUpTo(u, list, j + 1, pairs0, pairs + [(u, list[j] as nat)])
  {
    var v := list[j];
    var r := pairs + [(u, v as nat)];
    MembersAdd(u, list, j, pairs0, pairs);
    assert v !in list[..j];
    forall k | 0 <= k < j ensures list[k] != v {
      assert list[..j][k] == list[k];
    }
    FirstAt(list, j);
    NewAdd(u, list, j, pairs0, pairs);
    assert r[..|pairs0|] == pairs[..|pairs0|];
  }

  /** Visiting `list[j]` adds its pair to the members when it is new. */
  lemma MembersAdd(u: nat, list: seq<int>, j: nat, pairs0: seq<Edge>, pairs: seq<Edge>)
    requires j < |list| && Members(u, list, j, pairs0, pairs) && u < list[j]
    ensures Members(u, list, j + 1, pairs0, pairs + [(u, list[j] as nat)])
  {
    assert list[..j + 1] == list[..j] + [list[j]];
  }

  /** Visiting `list[j]` adds nothing when its pair is there or it is not above `u`. */
  lemma MembersSkip(u: nat, list: seq<int>, j: nat, pairs0: seq<Edge>, pairs: seq<Edge>)
    requires j < |list| && Members(u, list, j, pairs0, pairs)
    requires !(u < list[j] && (u, list[j] as nat) !in pairs)
    ensures Members(u, list, j + 1, pairs0, pairs)
  {
    assert list[..j + 1] == list[..j] + [list[j]];
  }

  /** An entry not seen before position `j` first occurs at `j`. */
  lemma FirstAt(list: seq<int>, j: nat)
    requires j < |list| && forall k :: 0 <= k < j ==> list[k] != list[j]
    ensures IndexOf(list, list[j]) == j
  {
  }

  /** The pair of an entry first seen at `j` extends the new pairs in order. */
  lemma NewAdd(u: nat, list: seq<int>, j: nat, pairs0: seq<Edge>, pairs: seq<Edge>)
    requires j < |list| && 0 <= list[j] && IndexOf(list, list[j]) == j && |pairs0| <= |pairs|
    requires NewFrom(u, list, j, pairs0, pairs) && NewInOrder(list, pairs0, pairs)
    ensures NewFrom(u, list, j + 1, pairs0, pairs + [(u, list[j] as nat)])
    ensures NewInOrder(list, pairs0, pairs + [(u, list[j] as nat)])
  {
    var r := pairs + [(u, list[j] as nat)];
    assert forall k :: 0 <= k < |pairs| ==> r[k] == pairs[k];
  }

  /** The inner loop of `saveGraphToFile` (lines 9-13) for key `u` and its list: each
      `v > u` not yet collected adds the pair `(u, v)` and its line. The pairs it adds
      follow the first occurrences of their second vertex in `list`. */
  method CollectFrom(u: nat, list: seq<int>, lines0: seq<string>, ghost pairs0: seq<Edge>)
    returns (lines: seq<string>, ghost pairs: seq<Edge>)
    requires lines0 == Rendered(pairs0) && NoDup(pairs0)
    ensures lines == Rendered(pairs) && NoDup(pairs)
    ensures pairs == CollectList(u, list, 0, pairs0)
    ensures forall x: nat, v: nat :: (x, v) in pairs <==> (x, v) in pairs0 || (x == u && u < v && v as int in list)
    ensures |pairs0| <= |pairs| && pairs[..|pairs0|] == pairs0
    ensures forall k :: |pairs0| <= k < |pairs| ==> pairs[k].0 == u && pairs[k].1 as int in list
    ensures forall k, l {:trigger IndexOf(list, pairs[k].1 as int), IndexOf(list, pairs[l].1 as int)} ::
      |pairs0| <= k < l < |pairs| ==> IndexOf(list, pairs[k].1 as int) < IndexOf(list, pairs[l].1 as int)
  {
    lines, pairs := lines0, pairs0;
    for j := 0 to |list|
      invariant lines == Rendered(pairs) && CollectedUpTo(u, list, j, pairs0, pairs)
    {
      ghost var before := pairs;
      lines, pairs := CollectVisit(u, list[j], lines, pairs);
      CollectedStep(u, list, j, pairs0, before);
    }
    assert list[..|list|] == list;
  }

  /** One visit of the inner loop (lines 10-12): when `u < v` the line of `(u, v)` is
      added to the `Set`, which keeps it once. */
  method CollectVisit(u: nat, v: int, lines0: seq<string>, ghost pairs0: seq<Edge>)
    returns (lines: seq<string>, ghost pairs: seq<Edge>)
    requires lines0 == Rendered(pairs0)
    ensures lines == Rendered(pairs) && pairs == CollectStep(u, v, pairs0)
  {
    lines, pairs := lines0, pairs0;
    if u < v {
      var w: nat := v;
      var line := EdgeLine(u, w);
      RenderedMember(pairs0, u, w);
      if line !in lines {
        lines := lines + [line];
        pairs := pairs + [(u, w)];
      }
    }
  }

  /** `saveGraphToFile(adjacencyList, filePath)` up to the write: the joined lines of the
      pairs collected in the `Set`, in first-insertion order. Keys are visited in ascending
      order and each list in its own order. The pairs are exactly those `(u, v)` with
      `u < v` and `v` in the list of `u`, each once, ordered by their first vertex and,
      for the same first vertex, by the first occurrence of the second in the list; the
      text reads back as those pairs. */
  method SaveGraphText(adj: AdjacencyList) returns (data: string, ghost pairs: seq<Edge>)
    ensures data == Join(Rendered(pairs), '\n')
    ensures pairs == CollectKeys(adj, AscendingKeys(adj.Keys), 0, [])
    ensures NoDup(pairs)
    ensures forall u: nat, v: nat :: (u, v) in pairs <==> u in adj && u < v && v as int in adj[u]
    ensures forall i, j :: 0 <= i < j < |pairs| ==> pairs[i].0 <= pairs[j].0
    ensures SameFirstInListOrder(adj, pairs)
    ensures pairs != [] ==> IsEdgeListText(data) && ParseEdgeList(data) == pairs
    ensures pairs == [] <==> data == ""
    ensures data == "" ==> forall u: nat, v: int :: u in adj && v in adj[u] ==> v <= u
    ensures data != "" ==> IsEdgeListText(data) && NoDup(ParseEdgeList(data))
    ensures data != "" ==> forall u: nat, v: nat :: (u, v) in ParseEdgeList(data) <==> u in adj && u < v && v as int in adj[u]
  {
    var lines;
    lines, pairs := CollectAll(adj);
    data := Join(lines, '\n');
    SavedText(adj, pairs);
    if data != "" {
      assert pairs != [] && ParseEdgeList(data) == pairs;
    }
  }

  /** What the outer loop has built after visiting `keys[..i]`. */
  ghost predicate CollectedKeysUpTo(adj: AdjacencyList, keys: seq<nat>, i: nat, pairs: seq<Edge>)
    requires i <= |keys| && forall k :: k in keys ==> k in adj
  {
    && NoDup(pairs) && FirstAscending(pairs) && FirstsAmong(pairs, keys, i)
    && CollectKeys(adj, keys, i, pairs) == CollectKeys(adj, keys, 0, [])
    && KeyMembers(adj, keys, i, pairs)
    && SameFirstInListOrder(adj, pairs)
  }

  /** The pairs are those `(u, v)` with `u` among `keys[..i]` and `v > u` in its list. */
  ghost predicate KeyMembers(adj: AdjacencyList, keys: seq<nat>, i: nat, pairs: seq<Edge>)
    requires i <= |keys| && forall k :: k in keys ==> k in adj
  {
    forall u: nat, v: nat :: (u, v) in pairs <==> u in keys[..i] && u < v && v as int in adj[u]
  }

  /** The pairs of the next key extend the members to it. */
  lemma KeyMembersStep(adj: AdjacencyList, keys: seq<nat>, i: nat, pairs: seq<Edge>, more: seq<Edge>)
    requires i < |keys| && (forall k :: k in keys ==> k in adj) && KeyMembers(adj, keys, i, pairs)
    requires forall x: nat, v: nat :: (x, v) in more <==> (x, v) in pairs || (x == keys[i] && keys[i] < v && v as int in adj[keys[i]])
    ensures KeyMembers(adj, keys, i + 1, more)
  {
    assert keys[..i + 1] == keys[..i] + [keys[i]];
  }

  /** Visiting the next key with the inner loop keeps what the outer loop has built. */
  lemma CollectedKeysStep(adj: AdjacencyList, keys: seq<nat>, i: nat, pairs: seq<Edge>, more: seq<Edge>)
    requires Increasing(keys) && i < |keys| && forall k :: k in keys <==> k in adj
    requires CollectedKeysUpTo(adj, keys, i, pairs)
    requires NoDup(more) && more == CollectList(keys[i], adj[keys[i]], 0, pairs)
    requires forall x: nat, v: nat :: (x, v) in more <==> (x, v) in pairs || (x == keys[i] && keys[i] < v && v as int in adj[keys[i]])
    requires |pairs| <= |more| && more[..|pairs|] == pairs
    requires forall k :: |pairs| <= k < |more| ==> more[k].0 == keys[i] && more[k].1 as int in adj[keys[i]]
    requires forall k, l {:trigger IndexOf(adj[keys[i]], more[k].1 as int), IndexOf(adj[keys[i]], more[l].1 as int)} ::
      |pairs| <= k < l < |more| ==> IndexOf(adj[keys[i]], more[k].1 as int) < IndexOf(adj[keys[i]], more[l].1 as int)
    ensures CollectedKeysUpTo(adj, keys, i + 1, more)
  {
    KeyMembersStep(adj, keys, i, pairs, more);
    ExtendOrdered(pairs, more, keys, i);
    ExtendListOrder(adj, pairs, more, keys, i);
  }

  /** Pairs with the same first vertex `u` follow the first occurrences of their second
      vertex in the list of `u`. */
  ghost predicate SameFirstInListOrder(adj: AdjacencyList, pairs: seq<Edge>) {
    forall i, j {:trigger IndexOf(adj[pairs[i].0], pairs[i].1 as int), IndexOf(adj[pairs[i].0], pairs[j].1 as int)} ::
      0 <= i < j < |pairs| && pairs[i].0 == pairs[j].0 ==>
      pairs[i].0 in adj && pairs[i].1 as int in adj[pairs[i].0] && pairs[j].1 as int in adj[pairs[i].0] &&
      IndexOf(adj[pairs[i].0], pairs[i].1 as int) < IndexOf(adj[pairs[i].0], pairs[j].1 as int)
  }

  /** Appending the pairs of the next key in list order keeps pairs with the same first
      vertex in list order. */
  lemma ExtendListOrder(adj: AdjacencyList, pairs: seq<Edge>, more: seq<Edge>, keys: seq<nat>, i: nat)
    requires Increasing(keys) && i < |keys| && keys[i] in adj
    requires FirstsAmong(pairs, keys, i) && SameFirstInListOrder(adj, pairs)
    requires |pairs| <= |more| && more[..|pairs|] == pairs
    requires forall k :: |pairs| <= k < |more| ==> more[k].0 == keys[i] && more[k].1 as int in adj[keys[i]]
    requires forall k, l {:trigger IndexOf(adj[keys[i]], more[k].1 as int), IndexOf(adj[keys[i]], more[l].1 as int)} ::
      |pairs| <= k < l < |more| ==> IndexOf(adj[keys[i]], more[k].1 as int) < IndexOf(adj[keys[i]], more[l].1 as int)
    ensures SameFirstInListOrder(adj, more)
  {
    forall k, l | 0 <= k < |pairs| <= l < |more| ensures more[k].0 < more[l].0 {
      assert more[k] == pairs[k];
      var m :| 0 <= m < i && keys[m] == pairs[k].0;
    }
    forall k, l | 0 <= k < l < |more| && more[k].0 == more[l].0
      ensures more[k].0 in adj && more[k].1 as int in adj[more[k].0] && more[l].1 as int in adj[more[k].0]
      ensures IndexOf(adj[more[k].0], more[k].1 as int) < IndexOf(adj[more[k].0], more[l].1 as int)
    {
      if l < |pairs| {
        assert more[k] == pairs[k] && more[l] == pairs[l];
        var u := pairs[k].0;
        assert u in adj && pairs[k].1 as int in adj[u] && pairs[l].1 as int in adj[u]
          && IndexOf(adj[u], pairs[k].1 as int) < IndexOf(adj[u], pairs[l].1 as int);
      }
    }
  }

  /** The two loops of lines 8-14: the pairs the `Set` ends up with, and their lines. */
  method CollectAll(adj: AdjacencyList) returns (lines: seq<string>, ghost pairs: seq<Edge>)
    ensures lines == Rendered(pairs)
    ensures pairs == CollectKeys(adj, AscendingKeys(adj.Keys), 0, [])
    ensures NoDup(pairs) && FirstAscending(pairs) && SameFirstInListOrder(adj, pairs)
    ensures forall u: nat, v: nat :: (u, v) in pairs <==> u in adj && u < v && v as int in adj[u]
  {
    var keys := KeysInOrder(adj);
    IncreasingUnique(keys, AscendingKeys(adj.Keys));
    lines := [];
    pairs := [];
    for i := 0 to |keys|
      invariant lines == Rendered(pairs) && CollectedKeysUpTo(adj, keys, i, pairs)
    {
      var u := keys[i];
      ghost var before := pairs;
      lines, pairs := CollectFrom(u, adj[u], lines, pairs);
      CollectedKeysStep(adj, keys, i, before, pairs);
    }
    CollectedAllKeys(adj, keys, pairs);
  }

  /** Once the outer loop has visited every key, the pairs are those of the whole
      adjacency list. */
  lemma CollectedAllKeys(adj: AdjacencyList, keys: seq<nat>, pairs: seq<Edge>)
    requires keys == AscendingKeys(adj.Keys)
    requires CollectedKeysUpTo(adj, keys, |keys|, pairs)
    ensures pairs == CollectKeys(adj, keys, 0, [])
    ensures NoDup(pairs) && FirstAscending(pairs) && SameFirstInListOrder(adj, pairs)
    ensures forall u: nat, v: nat :: (u, v) in pairs <==> u in adj && u < v && v as int in adj[u]
  {
    assert keys[..|keys|] == keys;
  }

  /** The text written for the upper pairs of `adj` is empty exactly when there are none,
      and otherwise reads back as each of them once. */
  lemma SavedText(adj: AdjacencyList, pairs: seq<Edge>)
    requires forall u: nat, v: nat :: (u, v) in pairs <==> u in adj && u < v && v as int in adj[u]
    ensures var data := Join(Rendered(pairs), '\n');
      && (pairs != [] ==> IsEdgeListText(data) && ParseEdgeList(data) == pairs)
      && (pairs == [] <==> data == "")
      && (data == "" ==> forall u: nat, v: int :: u in adj && v in adj[u] ==> v <= u)
  {
    if pairs != [] {
      TextRoundTrip(pairs);
    } else {
      forall u: nat, v: int | u in adj && v in adj[u] ensures v <= u {
        assert 0 <= v ==> (u, v as nat) !in pairs;
      }
    }
  }
}
