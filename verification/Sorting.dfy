/** The library's stable sort by a `u64` key, and why sortedness and stability determine it. */
module Sorting {
  import opened Bytes

  /** Inserts `x` behind every element whose key is not larger. */
  function Insert<T>(s: seq<T>, key: T -> u64, x: T): seq<T> {
    if s == [] || key(s[|s| - 1]) <= key(x) then s + [x]
    else Insert(s[..|s| - 1], key, x) + [s[|s| - 1]]
  }

  function SortBy<T>(s: seq<T>, key: T -> u64): seq<T> {
    if s == [] then [] else Insert(SortBy(s[..|s| - 1], key), key, s[|s| - 1])
  }

  predicate Sorted<T>(s: seq<T>, key: T -> u64) {
    forall i, j | 0 <= i < j < |s| :: key(s[i]) <= key(s[j])
  }

  /** The elements of `s` with key `k`, in order. */
  function WithKey<T>(s: seq<T>, key: T -> u64, k: u64): seq<T> {
    if s == [] then []
    else WithKey(s[..|s| - 1], key, k) + if key(s[|s| - 1]) == k then [s[|s| - 1]] else []
  }

  lemma WithKeyAppend<T>(s: seq<T>, key: T -> u64, k: u64, x: T)
    ensures WithKey(s + [x], key, k) == if key(x) == k then WithKey(s, key, k) + [x] else WithKey(s, key, k)
  {
    assert (s + [x])[..|s|] == s;
  }

  lemma {:induction false} WithKeyMembers<T>(s: seq<T>, key: T -> u64, k: u64)
    ensures forall x :: x in WithKey(s, key, k) <==> x in s && key(x) == k
  {
    if s != [] {
      WithKeyMembers(s[..|s| - 1], key, k);
      assert s == s[..|s| - 1] + [s[|s| - 1]];
    }
  }

  lemma {:induction false} InsertPermutes<T>(s: seq<T>, key: T -> u64, x: T)
    ensures multiset(Insert(s, key, x)) == multiset(s) + multiset{x}
  {
    if s != [] && key(s[|s| - 1]) > key(x) {
      InsertPermutes(s[..|s| - 1], key, x);
      assert s == s[..|s| - 1] + [s[|s| - 1]];
    }
  }

  lemma AppendSorted<T>(s: seq<T>, key: T -> u64, x: T)
    requires Sorted(s, key)
    requires forall y | y in s :: key(y) <= key(x)
    ensures Sorted(s + [x], key)
  {
  }

  lemma {:induction false} InsertSorted<T>(s: seq<T>, key: T -> u64, x: T)
    requires Sorted(s, key)
    ensures Sorted(Insert(s, key, x), key)
  {
    if s == [] || key(s[|s| - 1]) <= key(x) {
      AppendSorted(s, key, x);
    } else {
      var init, last := s[..|s| - 1], s[|s| - 1];
      var t := Insert(init, key, x);
      InsertSorted(init, key, x);
      InsertPermutes(init, key, x);
      forall y | y in t ensures key(y) <= key(last) {
        assert y in multiset(t);
        assert y in multiset(init) || y == x;
      }
      AppendSorted(t, key, last);
    }
  }

  lemma {:induction false} InsertWithKey<T>(s: seq<T>, key: T -> u64, x: T, k: u64)
    ensures WithKey(Insert(s, key, x), key, k) == WithKey(s, key, k) + if key(x) == k then [x] else []
  {
    if s == [] || key(s[|s| - 1]) <= key(x) {
      WithKeyAppend(s, key, k, x);
    } else {
      var init, last := s[..|s| - 1], s[|s| - 1];
      InsertWithKey(init, key, x, k);
      WithKeyAppend(Insert(init, key, x), key, k, last);
    }
  }

  lemma {:induction false} SortByWithKey<T>(s: seq<T>, key: T -> u64, k: u64)
    ensures WithKey(SortBy(s, key), key, k) == WithKey(s, key, k)
  {
    if s != [] {
      SortByWithKey(s[..|s| - 1], key, k);
      InsertWithKey(SortBy(s[..|s| - 1], key), key, s[|s| - 1], k);
    }
  }

  ghost predicate SameUnderEveryKey<T>(a: seq<T>, b: seq<T>, key: T -> u64) {
    forall k: u64 :: WithKey(a, key, k) == WithKey(b, key, k)
  }

  /** The sort is a permutation into key order that keeps the order of equal keys. */
  lemma {:induction false} SortByProperties<T>(s: seq<T>, key: T -> u64)
    ensures Sorted(SortBy(s, key), key)
    ensures multiset(SortBy(s, key)) == multiset(s)
    ensures SameUnderEveryKey(SortBy(s, key), s, key)
  {
    if s != [] {
      var init, last := s[..|s| - 1], s[|s| - 1];
      assert s == init + [last];
      SortByProperties(init, key);
      InsertSorted(SortBy(init, key), key, last);
      InsertPermutes(SortBy(init, key), key, last);
    }
    forall k: u64 ensures WithKey(SortBy(s, key), key, k) == WithKey(s, key, k) {
      SortByWithKey(s, key, k);
    }
  }

  lemma LastHasLargestKey<T>(a: seq<T>, b: seq<T>, key: T -> u64)
    requires Sorted(b, key) && a != []
    requires SameUnderEveryKey(a, b, key)
    ensures b != [] && key(a[|a| - 1]) <= key(b[|b| - 1])
  {
    var x := a[|a| - 1];
    WithKeyMembers(a, key, key(x));
    WithKeyMembers(b, key, key(x));
    assert x in a;
    assert x in b;
  }

  /** A list in key order is determined by what it holds under each key: there is one stable sort. */
  lemma {:induction false} SortedListIsUnique<T>(a: seq<T>, b: seq<T>, key: T -> u64)
    requires Sorted(a, key) && Sorted(b, key)
    requires SameUnderEveryKey(a, b, key)
    ensures a == b
    decreases |a|
  {
    if a == [] {
      if b != [] {
        LastHasLargestKey(b, a, key);
      }
    } else {
      LastHasLargestKey(a, b, key);
      LastHasLargestKey(b, a, key);
      var a', x := a[..|a| - 1], a[|a| - 1];
      var b', y := b[..|b| - 1], b[|b| - 1];
      assert a == a' + [x] && b == b' + [y];
      DropLast(a', x, b', y, key, key(x));
      forall k: u64 ensures WithKey(a', key, k) == WithKey(b', key, k) {
        DropLast(a', x, b', y, key, k);
      }
      SortedListIsUnique(a', b', key);
    }
  }

  lemma DropLast<T>(a: seq<T>, x: T, b: seq<T>, y: T, key: T -> u64, k: u64)
    requires WithKey(a + [x], key, k) == WithKey(b + [y], key, k) && key(x) == key(y)
    ensures WithKey(a, key, k) == WithKey(b, key, k)
    ensures k == key(x) ==> x == y
  {
    WithKeyAppend(a, key, k, x);
    WithKeyAppend(b, key, k, y);
    if k == key(x) {
      AppendInjective(WithKey(a, key, k), x, WithKey(b, key, k), y);
    }
  }

  lemma AppendInjective<T>(p: seq<T>, x: T, q: seq<T>, y: T)
    requires p + [x] == q + [y]
    ensures p == q && x == y
  {
    assert |p + [x]| == |q + [y]|;
    assert p == (p + [x])[..|p|] && q == (q + [y])[..|q|];
    assert (p + [x])[|p|] == (q + [y])[|q|];
  }

  predicate DistinctKeys<T>(s: seq<T>, key: T -> u64) {
    forall i, j | 0 <= i < j < |s| :: key(s[i]) != key(s[j])
  }

  lemma {:induction false} DistinctKeysSelectOne<T>(s: seq<T>, key: T -> u64, x: T)
    requires DistinctKeys(s, key) && x in s
    ensures WithKey(s, key, key(x)) == [x]
  {
    var init, last := s[..|s| - 1], s[|s| - 1];
    assert s == init + [last];
    if last == x {
      NoneWithKey(init, key, key(x));
    } else {
      DistinctKeysSelectOne(init, key, x);
    }
  }

  lemma {:induction false} NoneWithKey<T>(s: seq<T>, key: T -> u64, k: u64)
    requires forall x | x in s :: key(x) != k
    ensures WithKey(s, key, k) == []
  {
    if s != [] {
      NoneWithKey(s[..|s| - 1], key, k);
    }
  }

  /** When no two keys are equal, the sorted list does not depend on the order of the input. */
  lemma SortIgnoresOrder<T>(p: seq<T>, q: seq<T>, key: T -> u64)
    requires DistinctKeys(p, key) && DistinctKeys(q, key)
    requires forall x :: x in p <==> x in q
    ensures SortBy(p, key) == SortBy(q, key)
  {
    SortByProperties(p, key);
    SortByProperties(q, key);
    forall k: u64 ensures WithKey(p, key, k) == WithKey(q, key, k) {
      if x :| x in p && key(x) == k {
        DistinctKeysSelectOne(p, key, x);
        DistinctKeysSelectOne(q, key, x);
      } else {
        NoneWithKey(p, key, k);
        NoneWithKey(q, key, k);
      }
    }
    SortedListIsUnique(SortBy(p, key), SortBy(q, key), key);
  }

  // ---------- Where each element ends up ----------

  /** How many of the first `n` elements go before element `k`: smaller keys, and equal keys further front. */
  function Before<T>(s: seq<T>, key: T -> u64, k: nat, n: nat): nat
    requires k < |s| && n <= |s|
  {
    if n == 0 then 0
    else
      Before(s, key, k, n - 1)
      + if key(s[n - 1]) < key(s[k]) || (key(s[n - 1]) == key(s[k]) && n - 1 < k) then 1 else 0
  }

  function Rank<T>(s: seq<T>, key: T -> u64, k: nat): nat
    requires k < |s|
  {
    Before(s, key, k, |s|)
  }

  /** How many elements have a key up to `v`. */
  function UpTo<T>(s: seq<T>, key: T -> u64, v: u64): nat {
    if s == [] then 0 else UpTo(s[..|s| - 1], key, v) + if key(s[|s| - 1]) <= v then 1 else 0
  }

  lemma {:induction false} UpToInsert<T>(s: seq<T>, key: T -> u64, x: T, v: u64)
    ensures UpTo(Insert(s, key, x), key, v) == UpTo(s, key, v) + if key(x) <= v then 1 else 0
  {
    if s != [] && key(s[|s| - 1]) > key(x) {
      var init := s[..|s| - 1];
      UpToInsert(init, key, x, v);
      assert (Insert(init, key, x) + [s[|s| - 1]])[..|s|] == Insert(init, key, x) by {
        InsertLength(init, key, x);
      }
    } else {
      assert (s + [x])[..|s|] == s;
    }
  }

  lemma {:induction false} InsertLength<T>(s: seq<T>, key: T -> u64, x: T)
    ensures |Insert(s, key, x)| == |s| + 1
  {
    if s != [] && key(s[|s| - 1]) > key(x) {
      InsertLength(s[..|s| - 1], key, x);
    }
  }

  lemma {:induction false} UpToSort<T>(s: seq<T>, key: T -> u64, v: u64)
    ensures UpTo(SortBy(s, key), key, v) == UpTo(s, key, v) && |SortBy(s, key)| == |s|
  {
    if s != [] {
      var init := s[..|s| - 1];
      UpToSort(init, key, v);
      UpToInsert(SortBy(init, key), key, s[|s| - 1], v);
      InsertLength(SortBy(init, key), key, s[|s| - 1]);
    }
  }

  /** In a sorted list, the keys up to `v` are the first ones. */
  lemma {:induction false} UpToIsPrefix<T>(t: seq<T>, key: T -> u64, v: u64)
    requires Sorted(t, key)
    ensures UpTo(t, key, v) <= |t| && forall j | 0 <= j < |t| :: key(t[j]) <= v <==> j < UpTo(t, key, v)
  {
    if t != [] {
      UpToIsPrefix(t[..|t| - 1], key, v);
    }
  }

  /** Inserting puts the new element behind the keys up to its own, and shifts the rest. */
  lemma {:induction false} InsertAt<T>(t: seq<T>, key: T -> u64, x: T)
    requires Sorted(t, key)
    ensures var c := UpTo(t, key, key(x)); c <= |t| && Insert(t, key, x) == PutAt(t, c, x)
  {
    UpToIsPrefix(t, key, key(x));
    if t != [] && key(t[|t| - 1]) > key(x) {
      InsertAt(t[..|t| - 1], key, x);
      PutAtAppend(t, UpTo(t, key, key(x)), x);
    } else {
      PutAtEnd(t, x);
    }
  }

  function PutAt<T>(t: seq<T>, c: nat, x: T): seq<T>
    requires c <= |t|
  {
    t[..c] + [x] + t[c..]
  }

  lemma PutAtAppend<T>(t: seq<T>, c: nat, x: T)
    requires t != [] && c <= |t| - 1
    ensures PutAt(t, c, x) == PutAt(t[..|t| - 1], c, x) + [t[|t| - 1]]
  {
    assert t[c..] == t[..|t| - 1][c..] + [t[|t| - 1]];
  }

  lemma PutAtEnd<T>(t: seq<T>, x: T)
    ensures PutAt(t, |t|, x) == t + [x]
  {
  }

  lemma PutAtKeeps<T>(t: seq<T>, c: nat, x: T, r: nat)
    requires c <= |t| && r < |t|
    ensures |PutAt(t, c, x)| == |t| + 1 && PutAt(t, c, x)[c] == x
    ensures PutAt(t, c, x)[if r < c then r else r + 1] == t[r]
  {
  }

  lemma {:induction false} BeforeInPrefix<T>(s: seq<T>, key: T -> u64, k: nat, n: nat)
    requires k < |s| - 1 && n <= |s| - 1
    ensures Before(s, key, k, n) == Before(s[..|s| - 1], key, k, n)
  {
    if n > 0 {
      BeforeInPrefix(s, key, k, n - 1);
    }
  }

  lemma {:induction false} BeforeLast<T>(s: seq<T>, key: T -> u64, n: nat)
    requires s != [] && n <= |s| - 1
    ensures Before(s, key, |s| - 1, n) == UpTo(s[..n], key, key(s[|s| - 1]))
  {
    if n > 0 {
      BeforeLast(s, key, n - 1);
      assert s[..n][..n - 1] == s[..n - 1];
    }
  }

  lemma RankOfLonger<T>(s: seq<T>, key: T -> u64, k: nat)
    requires k < |s| - 1
    ensures Rank(s, key, k)
         == Rank(s[..|s| - 1], key, k) + if key(s[|s| - 1]) < key(s[k]) then 1 else 0
  {
    BeforeInPrefix(s, key, k, |s| - 1);
  }

  /** What one more element does to the ranks and to the places. */
  lemma RankStep<T>(s: seq<T>, key: T -> u64, k: nat, r: nat)
    requires k < |s| - 1
    requires r == Rank(s[..|s| - 1], key, k) && r < |SortBy(s[..|s| - 1], key)|
    requires SortBy(s[..|s| - 1], key)[r] == s[k]
    ensures var c := UpTo(s[..|s| - 1], key, key(s[|s| - 1]));
      && Rank(s, key, k) == (if r < c then r else r + 1)
      && Rank(s, key, k) < |SortBy(s, key)| && SortBy(s, key)[Rank(s, key, k)] == s[k]
  {
    var init, x := s[..|s| - 1], s[|s| - 1];
    var t := SortBy(init, key);
    SortByProperties(init, key);
    UpToSort(init, key, key(x));
    UpToIsPrefix(t, key, key(x));
    assert key(s[k]) <= key(x) <==> r < UpTo(t, key, key(x));
    InsertAt(t, key, x);
    PutAtKeeps(t, UpTo(t, key, key(x)), x, r);
    RankOfLonger(s, key, k);
  }

  lemma LastRank<T>(s: seq<T>, key: T -> u64)
    requires s != []
    ensures var n := |s| - 1;
      && Rank(s, key, n) == UpTo(s[..n], key, key(s[n]))
      && Rank(s, key, n) < |SortBy(s, key)| && SortBy(s, key)[Rank(s, key, n)] == s[n]
  {
    var init, x := s[..|s| - 1], s[|s| - 1];
    SortByProperties(init, key);
    UpToSort(init, key, key(x));
    InsertAt(SortBy(init, key), key, x);
    BeforeLast(s, key, |s| - 1);
  }

  /** The sort puts every element at its rank. */
  lemma {:induction false} SortPutsAtRank<T>(s: seq<T>, key: T -> u64, k: nat)
    requires k < |s|
    ensures Rank(s, key, k) < |SortBy(s, key)| && SortBy(s, key)[Rank(s, key, k)] == s[k]
    decreases |s|
  {
    if k < |s| - 1 {
      SortPutsAtRank(s[..|s| - 1], key, k);
      RankStep(s, key, k, Rank(s[..|s| - 1], key, k));
    } else {
      LastRank(s, key);
    }
  }

  /** Every place is some element's rank. */
  lemma {:induction false} EveryPlaceIsARank<T>(s: seq<T>, key: T -> u64, j: nat) returns (k: nat)
    requires j < |s|
    ensures k < |s| && Rank(s, key, k) == j
    decreases |s|
  {
    var init, n := s[..|s| - 1], |s| - 1;
    var c := UpTo(init, key, key(s[n]));
    UpToSort(init, key, key(s[n]));
    if j == c {
      k := n;
      LastRank(s, key);
    } else {
      UpToIsPrefix(SortBy(init, key), key, key(s[n])) by {
        SortByProperties(init, key);
      }
      k := EveryPlaceIsARank(init, key, if j < c then j else j - 1);
      SortPutsAtRank(init, key, k);
      RankStep(s, key, k, Rank(init, key, k));
    }
  }
}
