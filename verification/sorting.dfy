/**
 The stable sort the component gets from `Array.prototype.sort` with a
 key-difference comparator. Section 23.1.3.30 of ECMA-262 (2023 edition)
 requires the sort to be stable; with a consistent comparator that fixes the
 output completely (see `SortedStableUnique`), so a stable insertion sort is
 an exact model of it.
 */
module Sorting {
  import opened Seqs

  /**
   The comparator handed to `sort`: `(a, b) => a.key - b.key` when ascending,
   `(a, b) => b.key - a.key` when descending. A positive value means `b`
   belongs before `a`.
   */
  function Compare<T>(key: T -> real, descending: bool, a: T, b: T): (order: real)
  {
    if descending then key(b) - key(a) else key(a) - key(b)
  }

  /** No pair of elements is out of order under the comparator. */
  ghost predicate Sorted<T>(s: seq<T>, key: T -> real, descending: bool)
  {
    forall i, j :: 0 <= i < j < |s| ==> Compare(key, descending, s[i], s[j]) <= 0.0
  }

  /** The elements whose key is `k`, in order. */
  function SameKey<T>(s: seq<T>, key: T -> real, k: real): (r: seq<T>)
    ensures forall x :: x in r ==> x in s && key(x) == k
  {
    if s == [] then []
    else (if key(s[0]) == k then [s[0]] else []) + SameKey(s[1..], key, k)
  }

  /** One step of `SameKey` on a non-empty sequence. */
  lemma SameKeyUnfold<T(!new)>(s: seq<T>, key: T -> real, k: real)
    requires s != []
    ensures SameKey(s, key, k) == (if key(s[0]) == k then [s[0]] else []) + SameKey(s[1..], key, k)
  {
  }

  /** A key no element carries selects nothing. */
  lemma SameKeyAbsent<T>(s: seq<T>, key: T -> real, k: real)
    requires forall i :: 0 <= i < |s| ==> key(s[i]) != k
    ensures SameKey(s, key, k) == []
  {
  }

  /** `r` keeps, for every key, the relative order that key's elements have in `s`. */
  ghost predicate Stable<T(!new)>(s: seq<T>, r: seq<T>, key: T -> real)
  {
    forall k :: SameKey(r, key, k) == SameKey(s, key, k)
  }

  /**
   Inserts `x`, which came before every element of `t` in the input, in front
   of the first element it does not have to follow.
   */
  function Insert<T(!new)>(x: T, t: seq<T>, key: T -> real, descending: bool): (r: seq<T>)
    ensures multiset(r) == multiset(t) + multiset{x}
  {
    if t == [] || Compare(key, descending, x, t[0]) <= 0.0 then
      [x] + t
    else
      assert t == [t[0]] + t[1..];
      [t[0]] + Insert(x, t[1..], key, descending)
  }

  lemma {:induction false} InsertSorted<T(!new)>(x: T, t: seq<T>, key: T -> real, descending: bool)
    requires Sorted(t, key, descending)
    ensures Sorted(Insert(x, t, key, descending), key, descending)
    decreases |t|
  {
    if t == [] || Compare(key, descending, x, t[0]) <= 0.0 {
      forall j | 0 <= j < |t| ensures Compare(key, descending, x, t[j]) <= 0.0 {
        if j > 0 {
          assert Compare(key, descending, t[0], t[j]) <= 0.0;
        }
      }
      ConsSorted(x, t, key, descending);
    } else {
      var rest := Insert(x, t[1..], key, descending);
      SortedTail(t, key, descending);
      InsertSorted(x, t[1..], key, descending);
      forall j | 0 <= j < |rest| ensures Compare(key, descending, t[0], rest[j]) <= 0.0 {
        assert rest[j] in multiset(rest);
        if rest[j] != x {
          assert rest[j] in multiset(t[1..]);
          var m :| 0 <= m < |t[1..]| && t[1..][m] == rest[j];
          assert t[1..][m] == t[m + 1];
        }
      }
      ConsSorted(t[0], rest, key, descending);
    }
  }

  lemma SortedTail<T>(t: seq<T>, key: T -> real, descending: bool)
    requires t != [] && Sorted(t, key, descending)
    ensures Sorted(t[1..], key, descending)
  {
    forall i, j | 0 <= i < j < |t[1..]| ensures Compare(key, descending, t[1..][i], t[1..][j]) <= 0.0 {
      assert t[1..][i] == t[i + 1] && t[1..][j] == t[j + 1];
    }
  }

  /** A sorted sequence stays sorted behind an element that goes before all of it. */
  lemma ConsSorted<T>(y: T, t: seq<T>, key: T -> real, descending: bool)
    requires Sorted(t, key, descending)
    requires forall j :: 0 <= j < |t| ==> Compare(key, descending, y, t[j]) <= 0.0
    ensures Sorted([y] + t, key, descending)
  {
    var r := [y] + t;
    forall i, j | 0 <= i < j < |r| ensures Compare(key, descending, r[i], r[j]) <= 0.0 {
      assert r[j] == t[j - 1];
      if i > 0 {
        assert r[i] == t[i - 1];
      }
    }
  }

  lemma {:induction false} InsertSameKey<T(!new)>(x: T, t: seq<T>, key: T -> real, descending: bool, k: real)
    ensures SameKey(Insert(x, t, key, descending), key, k) == (if key(x) == k then [x] else []) + SameKey(t, key, k)
    decreases |t|
  {
    if t == [] || Compare(key, descending, x, t[0]) <= 0.0 {
      var r := [x] + t;
      assert r[0] == x && r[1..] == t;
      SameKeyUnfold(r, key, k);
    } else {
      InsertSameKey(x, t[1..], key, descending, k);
      InsertPastHead(x, t, Insert(x, t[1..], key, descending), key, k);
    }
  }

  /** `x` moved past `t[0]`, whose key differs from its own, so their relative order does not matter to `SameKey`. */
  lemma InsertPastHead<T(!new)>(x: T, t: seq<T>, rest: seq<T>, key: T -> real, k: real)
    requires t != [] && key(x) != key(t[0])
    requires SameKey(rest, key, k) == (if key(x) == k then [x] else []) + SameKey(t[1..], key, k)
    ensures SameKey([t[0]] + rest, key, k) == (if key(x) == k then [x] else []) + SameKey(t, key, k)
  {
    var r := [t[0]] + rest;
    assert r[0] == t[0] && r[1..] == rest;
    SameKeyUnfold(r, key, k);
    SameKeyUnfold(t, key, k);
    SwapOneEmpty(if key(x) == k then [x] else [], if key(t[0]) == k then [t[0]] else [], SameKey(t[1..], key, k));
  }

  lemma SwapOneEmpty<T>(a: seq<T>, b: seq<T>, tail: seq<T>)
    requires a == [] || b == []
    ensures b + (a + tail) == a + (b + tail)
  {
  }

  /** Stable insertion sort under the comparator for `key` and `descending`. */
  function SortBy<T(!new)>(s: seq<T>, key: T -> real, descending: bool): (r: seq<T>)
    ensures Sorted(r, key, descending)
    ensures multiset(r) == multiset(s)
    ensures Stable(s, r, key)
  {
    if s == [] then []
    else
      assert s == [s[0]] + s[1..];
      var rest := SortBy(s[1..], key, descending);
      InsertSorted(s[0], rest, key, descending);
      forall k ensures SameKey(Insert(s[0], rest, key, descending), key, k) == SameKey(s, key, k) {
        InsertSameKey(s[0], rest, key, descending, k);
      }
      Insert(s[0], rest, key, descending)
  }

  /** An element of `SameKey(s, key, k)` is an element of `s` whose key is `k`. */
  lemma SameKeyMember<T(!new)>(s: seq<T>, key: T -> real, k: real, x: T)
    requires x in SameKey(s, key, k)
    ensures x in s && key(x) == k
  {
    assert x in multiset(SameKey(s, key, k));
  }

  /** The first element of a non-empty sorted sequence holds the least key (greatest when descending). */
  lemma SortedHeadIsExtreme<T>(s: seq<T>, key: T -> real, descending: bool, y: T)
    requires Sorted(s, key, descending) && s != [] && y in s
    ensures Compare(key, descending, s[0], y) <= 0.0
  {
    var j :| 0 <= j < |s| && s[j] == y;
    if j > 0 {
      assert Compare(key, descending, s[0], s[j]) <= 0.0;
    }
  }

  /**
   Two sequences that are both sorted and agree on the order of every key's
   elements are equal: every stable sort of the same input returns the same
   sequence.
   */
  lemma {:induction false} SortedStableUnique<T(!new)>(a: seq<T>, b: seq<T>, key: T -> real, descending: bool)
    requires Sorted(a, key, descending) && Sorted(b, key, descending)
    requires forall k :: SameKey(a, key, k) == SameKey(b, key, k)
    ensures a == b
    decreases |a|
  {
    if a != [] {
      SameKeyUnfold(a, key, key(a[0]));
    }
    if b != [] {
      SameKeyUnfold(b, key, key(b[0]));
    }
    if a != [] {
      assert b != [];
      var ka, kb := key(a[0]), key(b[0]);
      SameKeyUnfold(a, key, ka);
      SameKeyMember(b, key, ka, a[0]);
      SortedHeadIsExtreme(b, key, descending, a[0]);
      SameKeyUnfold(b, key, kb);
      SameKeyMember(a, key, kb, b[0]);
      SortedHeadIsExtreme(a, key, descending, b[0]);
      assert ka == kb;
      assert a[0] == SameKey(a, key, ka)[0] == SameKey(b, key, kb)[0] == b[0];
      forall k ensures SameKey(a[1..], key, k) == SameKey(b[1..], key, k) {
        var head := if ka == k then [a[0]] else [];
        SameKeyUnfold(a, key, k);
        SameKeyUnfold(b, key, k);
        assert (head + SameKey(a[1..], key, k))[|head|..] == SameKey(a[1..], key, k);
        assert (head + SameKey(b[1..], key, k))[|head|..] == SameKey(b[1..], key, k);
      }
      SortedStableUnique(a[1..], b[1..], key, descending);
      assert a == [a[0]] + a[1..];
      assert b == [b[0]] + b[1..];
    }
  }

  /** Any sorted, stable rearrangement of `s` is exactly `SortBy(s, key, descending)`. */
  lemma SortByIsTheStableSort<T(!new)>(s: seq<T>, r: seq<T>, key: T -> real, descending: bool)
    requires Sorted(r, key, descending) && Stable(s, r, key)
    ensures r == SortBy(s, key, descending)
  {
    var q := SortBy(s, key, descending);
    SortedStableUnique(r, q, key, descending);
  }

  /** `SameKey` is the order-preserving filter on the key. */
  lemma {:induction false} SameKeyIsFilter<T(!new)>(s: seq<T>, key: T -> real, k: real)
    ensures SameKey(s, key, k) == Filter((x: T) => key(x) == k, s)
    decreases |s|
  {
    if s != [] {
      SameKeyIsFilter(s[1..], key, k);
    }
  }

  /** Rearranging a sequence rearranges each key's elements the same way. */
  lemma SameKeyPermutation<T(!new)>(a: seq<T>, b: seq<T>, key: T -> real, k: real)
    requires multiset(a) == multiset(b)
    ensures multiset(SameKey(a, key, k)) == multiset(SameKey(b, key, k))
  {
    SameKeyIsFilter(a, key, k);
    SameKeyIsFilter(b, key, k);
    var fa, fb := Filter((x: T) => key(x) == k, a), Filter((x: T) => key(x) == k, b);
    forall x ensures multiset(fa)[x] == multiset(fb)[x] {
    }
  }

  /** No two positions of `s` hold equal keys. */
  ghost predicate DistinctKeys<T>(s: seq<T>, key: T -> real)
  {
    forall i, j :: 0 <= i < j < |s| ==> key(s[i]) != key(s[j])
  }

  lemma {:induction false} DistinctKeysSameKeyShort<T(!new)>(s: seq<T>, key: T -> real, k: real)
    requires DistinctKeys(s, key)
    ensures |SameKey(s, key, k)| <= 1
    decreases |s|
  {
    if s != [] {
      assert DistinctKeys(s[1..], key) by {
        forall i, j | 0 <= i < j < |s[1..]| ensures key(s[1..][i]) != key(s[1..][j]) {
          assert s[1..][i] == s[i + 1] && s[1..][j] == s[j + 1];
        }
      }
      DistinctKeysSameKeyShort(s[1..], key, k);
      if key(s[0]) == k {
        forall i | 0 <= i < |s[1..]| ensures key(s[1..][i]) != k {
          assert s[1..][i] == s[i + 1];
        }
        SameKeyAbsent(s[1..], key, k);
      }
    }
  }

  /** A subsequence of a sequence with distinct keys has distinct keys. */
  lemma {:induction false} FilterDistinctKeys<T(!new)>(p: T -> bool, s: seq<T>, key: T -> real)
    requires DistinctKeys(s, key)
    ensures DistinctKeys(Filter(p, s), key)
    decreases |s|
  {
    if s != [] {
      DistinctKeysTail(s, key);
      FilterDistinctKeys(p, s[1..], key);
      var rest := Filter(p, s[1..]);
      if p(s[0]) {
        forall j | 0 <= j < |rest| ensures key(s[0]) != key(rest[j]) {
          assert multiset(rest)[rest[j]] > 0;
          assert rest[j] in multiset(s[1..]);
          var m :| 0 <= m < |s[1..]| && s[1..][m] == rest[j];
        }
        ConsDistinct(s[0], rest, key);
      }
    }
  }

  lemma DistinctKeysTail<T>(s: seq<T>, key: T -> real)
    requires s != [] && DistinctKeys(s, key)
    ensures DistinctKeys(s[1..], key)
    ensures forall m :: 0 <= m < |s[1..]| ==> key(s[0]) != key(s[1..][m])
  {
    forall i, j | 0 <= i < j < |s[1..]| ensures key(s[1..][i]) != key(s[1..][j]) {
      assert s[1..][i] == s[i + 1] && s[1..][j] == s[j + 1];
    }
    forall m | 0 <= m < |s[1..]| ensures key(s[0]) != key(s[1..][m]) {
      assert s[1..][m] == s[m + 1];
    }
  }

  lemma ConsDistinct<T>(y: T, t: seq<T>, key: T -> real)
    requires DistinctKeys(t, key)
    requires forall j :: 0 <= j < |t| ==> key(y) != key(t[j])
    ensures DistinctKeys([y] + t, key)
  {
    var r := [y] + t;
    forall i, j | 0 <= i < j < |r| ensures key(r[i]) != key(r[j]) {
      assert r[j] == t[j - 1];
      if i > 0 {
        assert r[i] == t[i - 1];
      }
    }
  }

  /** Sequences of length at most one with the same elements are equal. */
  lemma ShortMultisetEqual<T>(x: seq<T>, y: seq<T>)
    requires |x| <= 1 && multiset(x) == multiset(y)
    ensures x == y
  {
    assert |y| == |multiset(y)| == |multiset(x)| == |x|;
    if |x| == 1 {
      assert x[0] in multiset(y);
    }
  }

  /**
   When no two elements share a key, sorting descending gives exactly the
   reverse of sorting ascending.
   */
  lemma DescendingReversesAscending<T(!new)>(s: seq<T>, key: T -> real)
    requires DistinctKeys(s, key)
    ensures SortBy(s, key, true) == Reverse(SortBy(s, key, false))
  {
    var up := SortBy(s, key, false);
    var r := Reverse(up);
    forall i, j | 0 <= i < j < |r| ensures Compare(key, true, r[i], r[j]) <= 0.0 {
      assert Compare(key, false, up[|up| - 1 - j], up[|up| - 1 - i]) <= 0.0;
    }
    forall k ensures SameKey(r, key, k) == SameKey(s, key, k) {
      DistinctKeysSameKeyShort(s, key, k);
      var gr, gs := SameKey(r, key, k), SameKey(s, key, k);
      SameKeyPermutation(r, s, key, k);
      assert |gr| == |multiset(gr)| == |multiset(gs)| == |gs|;
      ShortMultisetEqual(gs, gr);
    }
    SortByIsTheStableSort(s, r, key, true);
  }
}
