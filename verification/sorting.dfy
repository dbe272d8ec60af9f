/** The one sort the ledger uses, for every ordered listing: Python's list.sort and the
    SQL ORDER BY clauses are modelled as a stable insertion sort over a total preorder. */
module Sorting {

  /** `le(a, b)` means "a may come before b"; every pair is comparable. */
  ghost predicate TotalPreorder<T(!new)>(le: (T, T) -> bool) {
    && (forall a, b :: le(a, b) || le(b, a))
    && (forall a, b, c :: le(a, b) && le(b, c) ==> le(a, c))
  }

  predicate SortedBy<T>(s: seq<T>, le: (T, T) -> bool) {
    forall i, j :: 0 <= i < j < |s| ==> le(s[i], s[j])
  }

  lemma SortedSlice<T>(s: seq<T>, lo: nat, hi: nat, le: (T, T) -> bool)
    requires lo <= hi <= |s| && SortedBy(s, le)
    ensures SortedBy(s[lo..hi], le)
  {
    forall i, j | 0 <= i < j < hi - lo ensures le(s[lo..hi][i], s[lo..hi][j]) {
      assert s[lo..hi][i] == s[lo + i] && s[lo..hi][j] == s[lo + j];
    }
  }

  /** a and b tie: neither must come before the other. */
  predicate Tied<T>(a: T, b: T, le: (T, T) -> bool) {
    le(a, b) && le(b, a)
  }

  /** The elements of s that tie with x, in their order in s. */
  function Peers<T>(s: seq<T>, x: T, le: (T, T) -> bool): seq<T> {
    if |s| == 0 then []
    else (if Tied(s[0], x, le) then [s[0]] else []) + Peers(s[1..], x, le)
  }

  /** Puts x before the first element it may precede; so x lands ahead of its ties. */
  function Insert<T(!new)>(x: T, s: seq<T>, le: (T, T) -> bool): (r: seq<T>)
    requires TotalPreorder(le)
    requires SortedBy(s, le)
    ensures SortedBy(r, le)
    ensures multiset(r) == multiset(s) + multiset{x}
  {
    if |s| == 0 then
      [x]
    else if le(x, s[0]) then
      [x] + s
    else
      var rest := Insert(x, s[1..], le);
      assert s == [s[0]] + s[1..];
      FirstPrecedesAll(s[0], x, s[1..], rest, le);
      [s[0]] + rest
  }

  lemma FirstPrecedesAll<T(!new)>(first: T, x: T, tail: seq<T>, rest: seq<T>, le: (T, T) -> bool)
    requires TotalPreorder(le)
    requires SortedBy([first] + tail, le) && SortedBy(rest, le)
    requires le(first, x)
    requires multiset(rest) == multiset(tail) + multiset{x}
    ensures SortedBy([first] + rest, le)
  {
    var r := [first] + rest;
    forall i, j | 0 <= i < j < |r| ensures le(r[i], r[j]) {
      assert r[j] == rest[j - 1];
      if i == 0 {
        assert rest[j - 1] in multiset(rest);
        if rest[j - 1] != x {
          assert rest[j - 1] in multiset(tail);
          var k :| 0 <= k < |tail| && tail[k] == rest[j - 1];
          assert ([first] + tail)[k + 1] == tail[k];
          assert le(([first] + tail)[0], ([first] + tail)[k + 1]);
        }
      } else {
        assert r[i] == rest[i - 1];
      }
    }
  }

  /** Inserting x adds x to its own tie group, ahead of the others, and changes no other group. */
  lemma {:induction false} InsertPeers<T(!new)>(x: T, s: seq<T>, le: (T, T) -> bool, y: T)
    requires TotalPreorder(le)
    requires SortedBy(s, le)
    ensures Peers(Insert(x, s, le), y, le) == (if Tied(x, y, le) then [x] else []) + Peers(s, y, le)
    decreases |s|
  {
    if |s| == 0 || le(x, s[0]) {
      InsertFront(x, s, le);
      PeersCons(x, s, y, le);
    } else {
      InsertBehind(x, s, le);
      InsertPeers(x, s[1..], le, y);
      NotBothTied(x, s[0], y, le);
      PeersBehind(x, Insert(x, s[1..], le), s, y, le);
    }
  }

  lemma InsertFront<T(!new)>(x: T, s: seq<T>, le: (T, T) -> bool)
    requires TotalPreorder(le) && SortedBy(s, le)
    requires |s| == 0 || le(x, s[0])
    ensures Insert(x, s, le) == [x] + s
  {
  }

  lemma InsertBehind<T(!new)>(x: T, s: seq<T>, le: (T, T) -> bool)
    requires TotalPreorder(le) && SortedBy(s, le)
    requires |s| > 0 && !le(x, s[0])
    ensures SortedBy(s[1..], le)
    ensures Insert(x, s, le) == [s[0]] + Insert(x, s[1..], le)
  {
  }

  /** x and h cannot both tie with y when x may not come before h. */
  lemma NotBothTied<T(!new)>(x: T, h: T, y: T, le: (T, T) -> bool)
    requires TotalPreorder(le) && !le(x, h)
    ensures !(Tied(x, y, le) && Tied(h, y, le))
  {
    if Tied(x, y, le) {
      assert !le(y, h);
    }
  }

  /** Putting t's first element in front of rest keeps x's place in y's tie group when
      that element and x are not both in it. */
  lemma PeersBehind<T>(x: T, rest: seq<T>, t: seq<T>, y: T, le: (T, T) -> bool)
    requires |t| > 0
    requires Peers(rest, y, le) == (if Tied(x, y, le) then [x] else []) + Peers(t[1..], y, le)
    requires !(Tied(x, y, le) && Tied(t[0], y, le))
    ensures Peers([t[0]] + rest, y, le) == (if Tied(x, y, le) then [x] else []) + Peers(t, y, le)
  {
    PeersCons(t[0], rest, y, le);
  }

  lemma PeersCons<T>(h: T, t: seq<T>, y: T, le: (T, T) -> bool)
    ensures Peers([h] + t, y, le) == (if Tied(h, y, le) then [h] else []) + Peers(t, y, le)
  {
    assert ([h] + t)[1..] == t;
  }

  /** Stable sort: the result is ordered, is a permutation of the input, and keeps every
      group of tied elements in input order. */
  function Sort<T(!new)>(s: seq<T>, le: (T, T) -> bool): (r: seq<T>)
    requires TotalPreorder(le)
    ensures SortedBy(r, le)
    ensures multiset(r) == multiset(s)
    ensures |r| == |s|
    ensures forall y :: Peers(r, y, le) == Peers(s, y, le)
  {
    if |s| == 0 then []
    else
      assert s == [s[0]] + s[1..];
      var sorted := Sort(s[1..], le);
      var r := Insert(s[0], sorted, le);
      assert |r| == |multiset(r)|;
      InsertPeersAll(s[0], sorted, le);
      r
  }

  lemma InsertPeersAll<T(!new)>(x: T, s: seq<T>, le: (T, T) -> bool)
    requires TotalPreorder(le)
    requires SortedBy(s, le)
    ensures forall y :: Peers(Insert(x, s, le), y, le) == (if Tied(x, y, le) then [x] else []) + Peers(s, y, le)
  {
    forall y { InsertPeers(x, s, le, y); }
  }

  predicate NoDuplicates<T(==)>(s: seq<T>) {
    forall i, j :: 0 <= i < j < |s| ==> s[i] != s[j]
  }

  lemma {:induction false} NoDuplicatesCount<T>(s: seq<T>, x: T)
    requires NoDuplicates(s)
    ensures multiset(s)[x] <= 1
    decreases |s|
  {
    if |s| > 0 {
      var p := s[..|s| - 1];
      assert s == p + [s[|s| - 1]];
      NoDuplicatesCount(p, x);
      if s[|s| - 1] == x {
        assert x !in p;
      }
    }
  }

  lemma RepeatedCount<T>(s: seq<T>, i: nat, j: nat)
    requires i < j < |s| && s[i] == s[j]
    ensures multiset(s)[s[i]] >= 2
  {
    assert s == s[..i] + [s[i]] + s[i + 1..j] + [s[j]] + s[j + 1..];
  }

  /** Reordering cannot create duplicates. */
  lemma PermutationNoDuplicates<T>(a: seq<T>, b: seq<T>)
    requires NoDuplicates(a) && multiset(a) == multiset(b)
    ensures NoDuplicates(b)
  {
    forall i, j | 0 <= i < j < |b| ensures b[i] != b[j] {
      if b[i] == b[j] {
        RepeatedCount(b, i, j);
        NoDuplicatesCount(a, b[i]);
      }
    }
  }

  /** The sum of f over the elements of s. */
  function SumOf<T>(s: seq<T>, f: T -> int): int {
    if |s| == 0 then 0 else f(s[0]) + SumOf(s[1..], f)
  }

  lemma {:induction false} SumOfAppend<T>(a: seq<T>, b: seq<T>, f: T -> int)
    ensures SumOf(a + b, f) == SumOf(a, f) + SumOf(b, f)
    decreases |a|
  {
    if |a| == 0 {
      assert a + b == b;
    } else {
      assert (a + b)[1..] == a[1..] + b;
      SumOfAppend(a[1..], b, f);
    }
  }

  /** Reordering does not change a sum. */
  lemma {:induction false} PermutationSum<T>(a: seq<T>, b: seq<T>, f: T -> int)
    requires multiset(a) == multiset(b)
    ensures SumOf(a, f) == SumOf(b, f)
    decreases |a|
  {
    if |a| == 0 {
      assert |b| == |multiset(b)| == 0;
    } else {
      var x := a[0];
      assert x in multiset(b);
      var j :| 0 <= j < |b| && b[j] == x;
      var rest := b[..j] + b[j + 1..];
      assert b == b[..j] + ([x] + b[j + 1..]);
      assert a == [x] + a[1..];
      calc {
        multiset(b);
        multiset(b[..j] + ([x] + b[j + 1..]));
        multiset(b[..j]) + multiset([x] + b[j + 1..]);
        multiset(b[..j]) + (multiset{x} + multiset(b[j + 1..]));
      }
      assert multiset(a) == multiset{x} + multiset(a[1..]);
      assert multiset(rest) == multiset(b[..j]) + multiset(b[j + 1..]);
      assert multiset(a[1..]) == multiset(a) - multiset{x};
      assert multiset(rest) == multiset(b) - multiset{x};
      PermutationSum(a[1..], rest, f);
      SumOfAppend(b[..j], [x] + b[j + 1..], f);
      SumOfAppend(b[..j], b[j + 1..], f);
      assert ([x] + b[j + 1..])[1..] == b[j + 1..];
    }
  }

  /** No two elements of s share a key. */
  predicate DistinctKeys<T, K(==)>(s: seq<T>, key: T -> K) {
    forall i, j :: 0 <= i < j < |s| ==> key(s[i]) != key(s[j])
  }

  /** Reordering keeps keys distinct. */
  lemma DistinctKeysPermutation<T, K>(u: seq<T>, r: seq<T>, key: T -> K)
    requires multiset(u) == multiset(r) && DistinctKeys(u, key)
    ensures DistinctKeys(r, key)
  {
    assert NoDuplicates(u);
    PermutationNoDuplicates(u, r);
    forall i, j | 0 <= i < j < |r| ensures key(r[i]) != key(r[j]) {
      SameKeyPermutation(u, r, key, i, j);
    }
  }

  lemma SameKeyPermutation<T, K>(u: seq<T>, r: seq<T>, key: T -> K, i: nat, j: nat)
    requires multiset(u) == multiset(r) && NoDuplicates(r) && DistinctKeys(u, key)
    requires i < j < |r|
    ensures key(r[i]) != key(r[j])
  {
    assert r[i] in multiset(u) && r[j] in multiset(u);
    var i' :| 0 <= i' < |u| && u[i'] == r[i];
    var j' :| 0 <= j' < |u| && u[j'] == r[j];
    assert i' != j';
  }
}
