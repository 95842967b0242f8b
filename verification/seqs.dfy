/**
 Sequence vocabulary shared by the catalog pipeline: order-preserving
 filtering (the `Array.prototype.filter` of the component), subsequences and
 reversal.
 */
module Seqs {

  /** `a` is obtained from `b` by deleting zero or more elements. */
  ghost predicate IsSubseq<T>(a: seq<T>, b: seq<T>)
    decreases |b|
  {
    a == [] || (b != [] && ((a[0] == b[0] && IsSubseq(a[1..], b[1..])) || IsSubseq(a, b[1..])))
  }

  /** The elements of `s` satisfying `p`, in their original order. */
  function Filter<T(!new)>(p: T -> bool, s: seq<T>): (r: seq<T>)
    ensures |r| <= |s|
    ensures forall i :: 0 <= i < |r| ==> p(r[i])
    ensures forall x :: multiset(r)[x] == if p(x) then multiset(s)[x] else 0
    ensures IsSubseq(r, s)
  {
    if s == [] then []
    else
      assert s == [s[0]] + s[1..];
      var rest := Filter(p, s[1..]);
      if p(s[0]) then
        assert ([s[0]] + rest)[1..] == rest;
        [s[0]] + rest
      else
        rest
  }

  lemma {:induction false} SubseqRefl<T>(s: seq<T>)
    ensures IsSubseq(s, s)
    decreases |s|
  {
    if s != [] {
      SubseqRefl(s[1..]);
    }
  }

  lemma {:induction false} SubseqMultiset<T>(a: seq<T>, b: seq<T>)
    requires IsSubseq(a, b)
    ensures multiset(a) <= multiset(b)
    decreases |b|
  {
    if a == [] {
    } else if a[0] == b[0] && IsSubseq(a[1..], b[1..]) {
      SubseqMultiset(a[1..], b[1..]);
      assert a == [a[0]] + a[1..];
      assert b == [b[0]] + b[1..];
    } else {
      SubseqMultiset(a, b[1..]);
      assert b == [b[0]] + b[1..];
    }
  }

  /**
   Filter is the only subsequence of `s` that keeps exactly the elements
   satisfying `p`, each as often as it occurs in `s`.
   */
  lemma {:induction false} FilterUnique<T(!new)>(p: T -> bool, s: seq<T>, r: seq<T>)
    requires IsSubseq(r, s)
    requires forall i :: 0 <= i < |r| ==> p(r[i])
    requires forall x :: multiset(r)[x] == if p(x) then multiset(s)[x] else 0
    ensures r == Filter(p, s)
    decreases |s|
  {
    if s == [] {
    } else {
      var x := s[0];
      assert s == [x] + s[1..];
      if p(x) {
        assert multiset(r)[x] == multiset(s)[x] > 0;
        if r[0] == x && IsSubseq(r[1..], s[1..]) {
          assert r == [x] + r[1..];
          forall y ensures multiset(r[1..])[y] == if p(y) then multiset(s[1..])[y] else 0 {
            assert multiset(r)[y] == multiset([x])[y] + multiset(r[1..])[y];
          }
          forall i | 0 <= i < |r[1..]| ensures p(r[1..][i]) {
            assert r[1..][i] == r[i + 1];
          }
          FilterUnique(p, s[1..], r[1..]);
        } else {
          SubseqMultiset(r, s[1..]);
          assert false;
        }
      } else {
        assert r == [] || r[0] != x;
        assert IsSubseq(r, s[1..]);
        forall y ensures multiset(r)[y] == if p(y) then multiset(s[1..])[y] else 0 {
          assert multiset(s)[y] == multiset([x])[y] + multiset(s[1..])[y];
        }
        FilterUnique(p, s[1..], r);
      }
    }
  }

  lemma {:induction false} FilterAppend<T(!new)>(p: T -> bool, a: seq<T>, b: seq<T>)
    ensures Filter(p, a + b) == Filter(p, a) + Filter(p, b)
    decreases |a|
  {
    if a == [] {
      assert a + b == b;
    } else {
      assert (a + b)[0] == a[0];
      assert (a + b)[1..] == a[1..] + b;
      FilterAppend(p, a[1..], b);
    }
  }

  /** Filtering with a predicate every element satisfies changes nothing. */
  lemma {:induction false} FilterKeepsAll<T(!new)>(p: T -> bool, s: seq<T>)
    requires forall i :: 0 <= i < |s| ==> p(s[i])
    ensures Filter(p, s) == s
    decreases |s|
  {
    if s != [] {
      FilterKeepsAll(p, s[1..]);
    }
  }

  /** Filtering with a predicate no element satisfies leaves nothing. */
  lemma {:induction false} FilterDropsAll<T(!new)>(p: T -> bool, s: seq<T>)
    requires forall i :: 0 <= i < |s| ==> !p(s[i])
    ensures Filter(p, s) == []
    decreases |s|
  {
    if s != [] {
      FilterDropsAll(p, s[1..]);
    }
  }

  /** `s` back to front. */
  function Reverse<T>(s: seq<T>): (r: seq<T>)
    ensures |r| == |s|
    ensures forall i :: 0 <= i < |s| ==> r[i] == s[|s| - 1 - i]
    ensures multiset(r) == multiset(s)
  {
    if s == [] then []
    else
      assert s == [s[0]] + s[1..];
      Reverse(s[1..]) + [s[0]]
  }

  /** Cutting element `k` out of `s` and putting it back gives `s`. */
  lemma SpliceAt<T>(s: seq<T>, k: nat)
    requires k < |s|
    ensures s == s[..k] + [s[k]] + s[k + 1..]
  {
  }

  /** Two bags that become equal when `x` is added to each were already equal. */
  lemma MultisetCancel<T>(a: seq<T>, b: seq<T>, x: T, m: multiset<T>)
    requires m == multiset(a) + multiset{x} && m == multiset(b) + multiset{x}
    ensures multiset(a) == multiset(b)
  {
    forall y ensures multiset(a)[y] == multiset(b)[y] {
      assert m[y] == multiset(a)[y] + multiset{x}[y] == multiset(b)[y] + multiset{x}[y];
    }
  }
}
