/** What the database does for `findMany({ where, orderBy })`: select the
    rows of a table that satisfy a filter and order them. Ids are allocated
    in creation order, so "newest first" is "highest id first". */
module Ordering {

  /** The ids below n of the rows satisfying keep, highest first. */
  function IdsDesc<T>(m: map<nat, T>, keep: T -> bool, n: nat): (r: seq<nat>)
    ensures forall i :: 0 <= i < |r| ==> r[i] < n && r[i] in m && keep(m[r[i]])
    ensures forall k :: 0 <= k < n && k in m && keep(m[k]) ==> k in r
    ensures forall i, j :: 0 <= i < j < |r| ==> r[i] > r[j]
    decreases n
  {
    if n == 0 then []
    else if n - 1 in m && keep(m[n - 1]) then [n - 1] + IdsDesc(m, keep, n - 1)
    else IdsDesc(m, keep, n - 1)
  }

  /** The rows with the given ids, in that order. */
  function Rows<T>(m: map<nat, T>, ids: seq<nat>): (r: seq<T>)
    requires forall i :: 0 <= i < |ids| ==> ids[i] in m
    ensures |r| == |ids| && forall i :: 0 <= i < |ids| ==> r[i] == m[ids[i]]
  {
    seq(|ids|, i requires 0 <= i < |ids| => m[ids[i]])
  }

  /** The rows satisfying keep, newest first: the rows at the ids
      `IdsDesc` lists, in that order, so no row is listed twice when
      different keys hold different rows. */
  function SelectNewestFirst<T(==)>(m: map<nat, T>, keep: T -> bool, n: nat): (r: seq<T>)
    ensures forall i :: 0 <= i < |r| ==> r[i] in m.Values && keep(r[i])
    ensures forall k :: 0 <= k < n && k in m && keep(m[k]) ==> m[k] in r
    ensures |r| == |IdsDesc(m, keep, n)|
    ensures forall i :: 0 <= i < |r| ==> IdsDesc(m, keep, n)[i] in m && r[i] == m[IdsDesc(m, keep, n)[i]]
    ensures Injective(m) ==> Distinct(r)
  {
    var ids := IdsDesc(m, keep, n);
    var r := Rows(m, ids);
    assert forall k :: 0 <= k < n && k in m && keep(m[k]) ==> m[k] in r by {
      forall k | 0 <= k < n && k in m && keep(m[k]) ensures m[k] in r {
        var i :| 0 <= i < |ids| && ids[i] == k;
        assert r[i] == m[k];
      }
    }
    r
  }

  /** The keys below n of the rows satisfying keep. */
  ghost function MatchingKeys<T>(m: map<nat, T>, keep: T -> bool, n: nat): set<nat> {
    set k: nat | k < n && k in m && keep(m[k])
  }

  /** The selection holds one row per matching key. */
  lemma SelectedCount<T>(m: map<nat, T>, keep: T -> bool, n: nat)
    ensures |SelectNewestFirst(m, keep, n)| == |MatchingKeys(m, keep, n)|
  {
    var ids := IdsDesc(m, keep, n);
    DecreasingCount(ids);
    assert (set x: nat | x in ids) == MatchingKeys(m, keep, n);
  }

  /** No element occurs twice. */
  ghost predicate Distinct<T>(s: seq<T>) {
    forall i, j :: 0 <= i < j < |s| ==> s[i] != s[j]
  }

  /** Different keys hold different rows, as in a table whose rows carry
      their own id. */
  ghost predicate Injective<T>(m: map<nat, T>) {
    forall a, b :: a in m && b in m && m[a] == m[b] ==> a == b
  }

  /** A sequence without repetitions holds each element at most once. */
  lemma {:induction false} DistinctOnce<T>(s: seq<T>, x: T)
    requires Distinct(s)
    ensures multiset(s)[x] <= 1
    decreases |s|
  {
    if s != [] {
      var init := s[..|s| - 1];
      assert s == init + [s[|s| - 1]];
      assert Distinct(init) by {
        forall i, j | 0 <= i < j < |init| ensures init[i] != init[j] {
          assert init[i] == s[i] && init[j] == s[j];
        }
      }
      DistinctOnce(init, x);
      if s[|s| - 1] == x {
        assert x !in init by {
          forall i | 0 <= i < |init| ensures init[i] != x {
            assert init[i] == s[i];
          }
        }
      }
    }
  }

  /** A sequence holding each element at most once has no repetitions. */
  lemma OnceDistinct<T>(s: seq<T>)
    requires forall x :: multiset(s)[x] <= 1
    ensures Distinct(s)
  {
    forall i, j | 0 <= i < j < |s| ensures s[i] != s[j] {
      assert s == s[..j] + s[j..];
      assert s[..j][i] == s[i] && s[j..][0] == s[j];
      assert multiset(s)[s[j]] == multiset(s[..j])[s[j]] + multiset(s[j..])[s[j]];
    }
  }

  /** Reordering keeps a sequence free of repetitions. */
  lemma PermutationKeepsDistinct<T>(a: seq<T>, b: seq<T>)
    requires multiset(a) == multiset(b) && Distinct(a)
    ensures Distinct(b)
  {
    forall x ensures multiset(b)[x] <= 1 {
      DistinctOnce(a, x);
    }
    OnceDistinct(b);
  }

  /** A strictly decreasing list of ids is as long as the set of its ids. */
  lemma {:induction false} DecreasingCount(s: seq<nat>)
    requires forall i, j :: 0 <= i < j < |s| ==> s[i] > s[j]
    ensures |s| == |set x: nat | x in s|
    decreases |s|
  {
    if s != [] {
      var rest := s[1..];
      DecreasingCount(rest);
      assert s[0] !in rest by {
        forall i | 0 <= i < |rest| ensures rest[i] != s[0] {
          assert rest[i] == s[i + 1];
        }
      }
      var all: set<nat>, tail: set<nat> := set x: nat | x in s, set x: nat | x in rest;
      assert all == tail + {s[0]} by {
        assert forall x :: x in s <==> x == s[0] || x in rest;
      }
      assert |tail + {s[0]}| == |tail| + 1;
      assert |all| == |rest| + 1 == |s|;
    }
  }

  ghost predicate SortedDesc<T>(s: seq<T>, key: T -> int) {
    forall i, j :: 0 <= i < j < |s| ==> key(s[i]) >= key(s[j])
  }

  /** Inserts x before the first element whose key is not larger. */
  function InsertDesc<T>(x: T, s: seq<T>, key: T -> int): (r: seq<T>)
    requires SortedDesc(s, key)
    ensures SortedDesc(r, key)
    ensures multiset(r) == multiset(s) + multiset{x}
    decreases |s|
  {
    if s == [] || key(x) >= key(s[0]) then [x] + s
    else
      var tail := InsertDesc(x, s[1..], key);
      assert s == [s[0]] + s[1..];
      InsertDescHead(x, s, tail, key);
      [s[0]] + tail
  }

  lemma InsertDescHead<T>(x: T, s: seq<T>, tail: seq<T>, key: T -> int)
    requires s != [] && SortedDesc(s, key) && key(x) < key(s[0])
    requires SortedDesc(tail, key) && multiset(tail) == multiset(s[1..]) + multiset{x}
    ensures SortedDesc([s[0]] + tail, key)
  {
    forall j | 0 <= j < |tail| ensures key(s[0]) >= key(tail[j]) {
      assert tail[j] in multiset(tail);
      if tail[j] != x {
        assert tail[j] in multiset(s[1..]);
        var k :| 0 <= k < |s[1..]| && s[1..][k] == tail[j];
        assert s[k + 1] == tail[j];
      }
    }
    var r := [s[0]] + tail;
    forall i, j | 0 <= i < j < |r| ensures key(r[i]) >= key(r[j]) {
      if i > 0 {
        assert r[i] == tail[i - 1] && r[j] == tail[j - 1];
      } else {
        assert r[j] == tail[j - 1];
      }
    }
  }

  /** `orderBy: { key: 'desc' }`, as a stable insertion sort. */
  function SortDesc<T>(s: seq<T>, key: T -> int): (r: seq<T>)
    ensures SortedDesc(r, key)
    ensures multiset(r) == multiset(s)
    decreases |s|
  {
    if s == [] then []
    else
      assert s == [s[0]] + s[1..];
      InsertDesc(s[0], SortDesc(s[1..], key), key)
  }

  /** `findMany({ where: keep, orderBy: { key: 'desc' } })`: the rows
      satisfying keep, ordered by key, largest first; rows with equal keys
      stay newest first. It is a reordering of the selection, so no row is
      listed twice when different keys hold different rows. */
  function SelectSorted<T(==)>(m: map<nat, T>, keep: T -> bool, n: nat, key: T -> int): (r: seq<T>)
    ensures forall i :: 0 <= i < |r| ==> r[i] in m.Values && keep(r[i])
    ensures SortedDesc(r, key)
    ensures forall k :: 0 <= k < n && k in m && keep(m[k]) ==> m[k] in r
    ensures multiset(r) == multiset(SelectNewestFirst(m, keep, n))
    ensures Injective(m) ==> Distinct(r)
  {
    var selected := SelectNewestFirst(m, keep, n);
    var r := SortDesc(selected, key);
    SameElements(r, selected);
    assert Injective(m) ==> Distinct(r) by {
      if Injective(m) {
        PermutationKeepsDistinct(selected, r);
      }
    }
    r
  }

  /** Sequences with the same multiset hold the same elements. */
  lemma SameElements<T>(a: seq<T>, b: seq<T>)
    requires multiset(a) == multiset(b)
    ensures forall i :: 0 <= i < |a| ==> a[i] in b
    ensures forall i :: 0 <= i < |b| ==> b[i] in a
  {
    forall i | 0 <= i < |a| ensures a[i] in b {
      assert a[i] in multiset(a);
    }
    forall i | 0 <= i < |b| ensures b[i] in a {
      assert b[i] in multiset(b);
    }
  }
}
