/** Sequence, set and map helpers shared by the graph modules: JavaScript's
    `Array.prototype.filter(e => e != x)`, numeric `sort`, the ascending
    enumeration of integer object keys, and sums over finite maps. */
module Collections {

  /** No value occurs twice in `s` (the contents of an insertion-ordered set). */
  predicate NoDup<T(==)>(s: seq<T>) {
    forall i, j :: 0 <= i < j < |s| ==> s[i] != s[j]
  }

  /** Non-decreasing order. */
  predicate Ascending(s: seq<int>) {
    forall i, j :: 0 <= i < j < |s| ==> s[i] <= s[j]
  }

  /** Strictly increasing order. */
  predicate Increasing(s: seq<int>) {
    forall i, j :: 0 <= i < j < |s| ==> s[i] < s[j]
  }

  /** Strictly decreasing order. */
  predicate Decreasing(s: seq<int>) {
    forall i, j :: 0 <= i < j < |s| ==> s[i] > s[j]
  }

  /** `s.filter(e => e != x)`: every occurrence of `x` dropped, the rest kept in order
      (see `RemoveCount`). */
  function Remove<T(==, !new)>(s: seq<T>, x: T): (r: seq<T>)
    ensures forall y :: y in r <==> y in s && y != x
    ensures |r| <= |s|
  {
    if s == [] then []
    else
      var t := Remove(s[1..], x);
      if s[0] == x then t else [s[0]] + t
  }

  /** The position of the first occurrence of `x` in `s` (`s.indexOf(x)`). */
  ghost function IndexOf<T>(s: seq<T>, x: T): (i: nat)
    requires x in s
    ensures i < |s| && s[i] == x && forall k :: 0 <= k < i ==> s[k] != x
  {
    FirstOccurrence(s, x);
    var i :| 0 <= i < |s| && s[i] == x && forall k :: 0 <= k < i ==> s[k] != x;
    i
  }

  /** An element of a sequence has a first occurrence in it. */
  lemma {:induction false} FirstOccurrence<T>(s: seq<T>, x: T)
    requires x in s
    ensures exists i :: 0 <= i < |s| && s[i] == x && forall k :: 0 <= k < i ==> s[k] != x
  {
    if s[0] != x {
      assert x in s[1..];
      FirstOccurrence(s[1..], x);
      var i :| 0 <= i < |s[1..]| && s[1..][i] == x && forall k :: 0 <= k < i ==> s[1..][k] != x;
      assert s[i + 1] == x && forall k :: 0 <= k < i + 1 ==> s[k] != x;
    }
  }

  /** Filtering drops exactly the occurrences of `x`. */
  lemma {:induction false} RemoveCount<T(!new)>(s: seq<T>, x: T)
    ensures multiset(Remove(s, x)) == multiset(s)[x := 0]
    ensures |Remove(s, x)| == |s| - multiset(s)[x]
  {
    if s != [] {
      assert s == [s[0]] + s[1..];
      RemoveCount(s[1..], x);
    }
  }

  /** Filtering keeps a list free of repeats. */
  lemma {:induction false} RemoveNoDup<T(!new)>(s: seq<T>, x: T)
    requires NoDup(s)
    ensures NoDup(Remove(s, x))
  {
    if s != [] {
      RemoveNoDup(s[1..], x);
      assert s[0] !in s[1..];
    }
  }

  /** Filtering keeps the relative order, so an increasing list stays increasing. */
  lemma {:induction false} RemoveIncreasing(s: seq<nat>, x: nat)
    requires Increasing(s)
    ensures Increasing(Remove(s, x))
  {
    if s != [] {
      var t := Remove(s[1..], x);
      RemoveIncreasing(s[1..], x);
      forall y | y in t ensures s[0] < y {
        var i :| 0 <= i < |s[1..]| && s[1..][i] == y;
        assert s[i + 1] == y;
      }
      if s[0] != x {
        PrependIncreasing(s[0], t);
      }
    }
  }

  lemma PrependIncreasing(x: int, t: seq<int>)
    requires Increasing(t) && forall y :: y in t ==> x < y
    ensures Increasing([x] + t)
  {
    var r := [x] + t;
    forall i, j | 0 <= i < j < |r| ensures r[i] < r[j] {
      assert r[j] == t[j - 1];
      if i == 0 { assert t[j - 1] in t; } else { assert r[i] == t[i - 1]; }
    }
  }

  lemma PrependAscending(x: int, t: seq<int>)
    requires Ascending(t) && forall y :: y in t ==> x <= y
    ensures Ascending([x] + t)
  {
    var r := [x] + t;
    forall i, j | 0 <= i < j < |r| ensures r[i] <= r[j] {
      assert r[j] == t[j - 1];
      if i == 0 { assert t[j - 1] in t; } else { assert r[i] == t[i - 1]; }
    }
  }

  /** A NoDup sequence that contains `x` loses exactly one element when `x` is filtered out. */
  lemma RemoveOne<T(!new)>(s: seq<T>, x: T)
    requires NoDup(s) && x in s
    ensures |Remove(s, x)| == |s| - 1
  {
    NoDupCount(s, x);
    RemoveCount(s, x);
  }

  lemma {:induction false} NoDupCount<T>(s: seq<T>, x: T)
    requires NoDup(s)
    ensures multiset(s)[x] == if x in s then 1 else 0
  {
    if s != [] {
      assert s == [s[0]] + s[1..];
      NoDupCount(s[1..], x);
    }
  }

  /** The number of distinct values of a NoDup sequence is its length. */
  lemma {:induction false} NoDupCardinality<T>(s: seq<T>)
    requires NoDup(s)
    ensures |set x | x in s| == |s|
  {
    if s != [] {
      var last := s[|s| - 1];
      var init := s[..|s| - 1];
      NoDupCardinality(init);
      assert (set x | x in s) == (set x | x in init) + {last};
      assert last !in (set x | x in init);
    }
  }

  /** The head of an ascending sequence is its least element. */
  lemma AscendingHead(s: seq<int>)
    requires Ascending(s) && s != []
    ensures forall y :: y in s ==> s[0] <= y
  {
    forall y | y in s ensures s[0] <= y {
      var i :| 0 <= i < |s| && s[i] == y;
    }
  }

  /** Inserts `x` into an ascending sequence, before the first element not below it. */
  function Insert(x: int, s: seq<int>): (r: seq<int>)
    requires Ascending(s)
    ensures Ascending(r)
    ensures forall y :: y in r ==> y == x || y in s
    ensures multiset(r) == multiset(s) + multiset{x}
  {
    if s == [] || x <= s[0] then
      if s != [] then AscendingHead(s); PrependAscending(x, s); [x] + s
      else [x]
    else
      assert s == [s[0]] + s[1..];
      AscendingHead(s);
      var t := Insert(x, s[1..]);
      PrependAscending(s[0], t);
      [s[0]] + t
  }

  /** `[...s].sort((a, b) => a - b)`: the ascending permutation of `s` (for integers
      the stable sort has exactly one possible result). */
  function SortAscending(s: seq<int>): (r: seq<int>)
    ensures Ascending(r)
    ensures multiset(r) == multiset(s)
    ensures |r| == |s|
  {
    if s == [] then []
    else
      assert s == [s[0]] + s[1..];
      Insert(s[0], SortAscending(s[1..]))
  }

  /** A sequence already in ascending order sorts to itself. */
  lemma {:induction false} SortAscendingSorted(s: seq<int>)
    requires Ascending(s)
    ensures SortAscending(s) == s
  {
    if s != [] {
      var rest := s[1..];
      assert Ascending(rest) by {
        forall i, j | 0 <= i < j < |rest| ensures rest[i] <= rest[j] {
          assert rest[i] == s[i + 1] && rest[j] == s[j + 1];
        }
      }
      SortAscendingSorted(rest);
      assert rest == [] || s[0] <= rest[0];
      assert s == [s[0]] + rest;
    }
  }

  /** `m` is the smallest element of `s`. */
  predicate IsLeast(m: nat, s: set<nat>) {
    m in s && forall y :: y in s ==> m <= y
  }

  /** A non-empty set of naturals has a smallest element. */
  lemma {:induction false} LeastExists(s: set<nat>)
    requires s != {}
    ensures exists m :: IsLeast(m, s)
    decreases |s|
  {
    var x :| x in s;
    if s == {x} {
      assert IsLeast(x, s);
    } else {
      var rest := s - {x};
      LeastExists(rest);
      var m :| IsLeast(m, rest);
      assert s == rest + {x};
      if x < m {
        assert IsLeast(x, s);
      } else {
        assert IsLeast(m, s);
      }
    }
  }

  /** The keys of a JavaScript object with integer keys, in enumeration order:
      ascending numeric order. */
  ghost function AscendingKeys(s: set<nat>): (r: seq<nat>)
    ensures Increasing(r)
    ensures forall k :: k in r <==> k in s
    ensures |r| == |s|
    decreases |s|
  {
    if s == {} then []
    else
      LeastExists(s);
      var m :| IsLeast(m, s);
      var rest := AscendingKeys(s - {m});
      assert forall k :: k in rest ==> m < k;
      [m] + rest
  }

  /** An increasing enumeration of a set is unique. */
  lemma {:induction false} IncreasingUnique(r: seq<nat>, t: seq<nat>)
    requires Increasing(r) && Increasing(t)
    requires forall k :: k in r <==> k in t
    ensures r == t
    decreases |r|
  {
    assert (set x | x in r) == (set x | x in t);
    NoDupCardinality(r);
    NoDupCardinality(t);
    if r != [] {
      assert r[0] in t && t[0] in r;
      assert r[0] == t[0];
      forall k ensures k in r[1..] <==> k in t[1..] {
        if k in r[1..] {
          var i :| 0 <= i < |r[1..]| && r[1..][i] == k;
          assert r[0] < r[i + 1];
          assert r[i + 1] == k && k in r;
          var j :| 0 <= j < |t| && t[j] == k;
          assert j != 0;
          assert t[1..][j - 1] == k;
        }
        if k in t[1..] {
          var i :| 0 <= i < |t[1..]| && t[1..][i] == k;
          assert t[0] < t[i + 1];
          assert t[i + 1] == k && k in t;
          var j :| 0 <= j < |r| && r[j] == k;
          assert j != 0;
          assert r[1..][j - 1] == k;
        }
      }
      IncreasingUnique(r[1..], t[1..]);
    }
  }

  lemma AppendIncreasing(s: seq<nat>, x: nat)
    requires Increasing(s) && forall i :: 0 <= i < |s| ==> s[i] < x
    ensures Increasing(s + [x])
  {
  }

  method Least(s: set<nat>) returns (m: nat)
    requires s != {}
    ensures m in s && forall y :: y in s ==> m <= y
  {
    LeastExists(s);
    m :| IsLeast(m, s);
  }

  /** Enumerates the keys of `m` in the order a `for ... in` loop visits them: each key
      once, ascending (so `ks == AscendingKeys(m.Keys)` by `IncreasingUnique`). */
  method KeysInOrder<V>(m: map<nat, V>) returns (ks: seq<nat>)
    ensures Increasing(ks)
    ensures forall k :: k in ks <==> k in m
  {
    ks := [];
    var rest := m.Keys;
    while rest != {}
      invariant Increasing(ks)
      invariant forall k :: k in m.Keys <==> k in ks || k in rest
      invariant forall i, y :: 0 <= i < |ks| && y in rest ==> ks[i] < y
      decreases |rest|
    {
      var k := Least(rest);
      AppendIncreasing(ks, k);
      ks := ks + [k];
      rest := rest - {k};
    }
  }

  /** The keys `0 .. n-1` are enumerated as `0, 1, ..., n-1`. */
  lemma {:induction false} AscendingKeysOfRange(s: set<nat>, n: nat)
    requires forall k: nat :: k in s <==> k < n
    ensures AscendingKeys(s) == seq(n, i requires 0 <= i < n => i)
  {
    var t := seq(n, i requires 0 <= i < n => i);
    assert forall k :: k in t <==> k in s by {
      forall k ensures k in t <==> k in s {
        if k in s { assert t[k] == k; }
      }
    }
    IncreasingUnique(t, AscendingKeys(s));
  }

  /** The sum of the values of a finite map. */
  ghost function SumOver<K>(m: map<K, nat>): nat
    decreases |m.Keys|
  {
    if m == map[] then 0
    else
      var k :| k in m;
      m[k] + SumOver(m - {k})
  }

  /** Any key can be taken out first. */
  lemma {:induction false} SumOverPick<K>(m: map<K, nat>, k: K)
    requires k in m
    ensures SumOver(m) == m[k] + SumOver(m - {k})
    decreases |m.Keys|
  {
    var j :| j in m && SumOver(m) == m[j] + SumOver(m - {j});
    if j != k {
      var mj, mk := m - {j}, m - {k};
      assert |mj.Keys| < |m.Keys| by { assert mj.Keys < m.Keys; }
      SumOverPick(mj, k);
      assert |mk.Keys| < |m.Keys| by { assert mk.Keys < m.Keys; }
      SumOverPick(mk, j);
      assert mj - {k} == mk - {j};
    }
  }

  /** Setting one key changes the sum by the difference of the values. */
  lemma SumOverUpdate<K>(m: map<K, nat>, k: K, x: nat)
    ensures SumOver(m[k := x]) == SumOver(m) - (if k in m then m[k] else 0) + x
  {
    var m' := m[k := x];
    SumOverPick(m', k);
    assert m' - {k} == m - {k};
    if k in m {
      SumOverPick(m, k);
    } else {
      assert m - {k} == m;
    }
  }
}
