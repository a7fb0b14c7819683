/** The two `std::sort` calls of the duplicate grouper, modelled by their contract: the result
    is a permutation of the input, ordered by a key. Neither call is stable, so nothing is
    promised about the order of elements with equal keys. */
module Sorting {
  /** `s` is ordered by non-decreasing `key`. */
  predicate SortedByKey<T>(s: seq<T>, key: T -> int) {
    forall p, q :: 0 <= p < q < |s| ==> key(s[p]) <= key(s[q])
  }

  /** No element occurs twice in `s`. */
  predicate Distinct<T(==)>(s: seq<T>) {
    forall p, q :: 0 <= p < q < |s| ==> s[p] != s[q]
  }

  /** Placing `x` after every element whose key is at most its own, and before the rest,
      keeps the order. */
  lemma InsertAt<T>(s: seq<T>, k: nat, x: T, key: T -> int)
    requires SortedByKey(s, key) && k <= |s|
    requires forall m :: 0 <= m < k ==> key(s[m]) <= key(x)
    requires k < |s| ==> key(x) < key(s[k])
    ensures SortedByKey(s[..k] + [x] + s[k..], key)
  {
    var r := s[..k] + [x] + s[k..];
    forall p, q | 0 <= p < q < |r|
      ensures key(r[p]) <= key(r[q])
    {
      var sp := if p < k then s[p] else if p == k then x else s[p - 1];
      var sq := if q < k then s[q] else if q == k then x else s[q - 1];
      assert r[p] == sp && r[q] == sq;
      if p == k {
        assert key(s[k]) <= key(s[q - 1]) || q - 1 == k;
      }
    }
  }

  /** Inserts `x` into the ordered `s` in front of the first element with a larger key. */
  method Insert<T>(s: seq<T>, x: T, key: T -> int) returns (r: seq<T>)
    requires SortedByKey(s, key)
    ensures multiset(r) == multiset(s) + multiset{x}
    ensures SortedByKey(r, key)
  {
    var k := 0;
    while k < |s| && key(s[k]) <= key(x)
      invariant 0 <= k <= |s|
      invariant forall m :: 0 <= m < k ==> key(s[m]) <= key(x)
    {
      k := k + 1;
    }
    InsertAt(s, k, x, key);
    r := s[..k] + [x] + s[k..];
    assert s == s[..k] + s[k..];
  }

  /** The result holds the elements of `s`, each as often as in `s`, in order of `key`. */
  method SortByKey<T>(s: seq<T>, key: T -> int) returns (r: seq<T>)
    ensures multiset(r) == multiset(s)
    ensures SortedByKey(r, key)
  {
    r := [];
    var i := 0;
    while i < |s|
      invariant 0 <= i <= |s|
      invariant multiset(r) == multiset(s[..i])
      invariant SortedByKey(r, key)
    {
      r := Insert(r, s[i], key);
      assert s[..i + 1] == s[..i] + [s[i]];
      i := i + 1;
    }
    assert s[..|s|] == s;
  }

  /** Every element of a permutation of `a` is an element of `a`. */
  lemma PermutationMember<T>(a: seq<T>, b: seq<T>, x: T)
    requires multiset(a) == multiset(b) && x in b
    ensures x in a
  {
    assert x in multiset(b);
  }

  /** An element found at two positions is counted at least twice. */
  lemma RepeatCount<T>(s: seq<T>, p: nat, q: nat)
    requires p < q < |s| && s[p] == s[q]
    ensures multiset(s)[s[p]] >= 2
  {
    var x := s[p];
    assert s == s[..q] + [x] + s[q + 1..];
    assert x in s[..q];
    assert multiset(s) == multiset(s[..q]) + multiset{x} + multiset(s[q + 1..]);
  }

  /** In a sequence without repetitions every element is counted at most once. */
  lemma {:induction false} DistinctCount<T>(s: seq<T>, x: T)
    requires Distinct(s)
    ensures multiset(s)[x] <= 1
  {
    if s != [] {
      var t := s[1..];
      assert s == [s[0]] + t;
      assert Distinct(t) by {
        forall p, q | 0 <= p < q < |t|
          ensures t[p] != t[q]
        {
          assert t[p] == s[p + 1] && t[q] == s[q + 1];
        }
      }
      DistinctCount(t, x);
      if x == s[0] {
        assert x !in t by {
          forall m | 0 <= m < |t|
            ensures t[m] != x
          {
            assert t[m] == s[m + 1];
          }
        }
      }
    }
  }

  /** A permutation of a sequence without repetitions has none either. */
  lemma DistinctPermutation<T>(a: seq<T>, b: seq<T>)
    requires multiset(a) == multiset(b) && Distinct(a)
    ensures Distinct(b)
  {
    forall p, q | 0 <= p < q < |b|
      ensures b[p] != b[q]
    {
      if b[p] == b[q] {
        RepeatCount(b, p, q);
        DistinctCount(a, b[p]);
        assert false;
      }
    }
  }
}
