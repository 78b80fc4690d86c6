/**
  Sequence helpers shared by the model: `Array.prototype.filter`, the
  order-preserving subsequence relation, duplicate-freedom, and the
  insertion-ordered set that a JavaScript `Set` is.
*/
module Seqs {

  /** `s.filter(p)`: the elements of `s` that satisfy `p`, in order. */
  function Filter<T(==,!new)>(s: seq<T>, p: T -> bool): (r: seq<T>)
    ensures |r| <= |s|
    ensures forall x :: x in r <==> x in s && p(x)
  {
    if s == [] then []
    else if p(s[0]) then [s[0]] + Filter(s[1..], p)
    else Filter(s[1..], p)
  }

  /** `a` is obtained from `b` by deleting elements; order is kept. */
  ghost predicate IsSubsequence<T>(a: seq<T>, b: seq<T>)
    decreases |b|
  {
    if a == [] then true
    else if b == [] then false
    else (a[0] == b[0] && IsSubsequence(a[1..], b[1..])) || IsSubsequence(a, b[1..])
  }

  lemma {:induction false} FilterIsSubsequence<T(!new)>(s: seq<T>, p: T -> bool)
    ensures IsSubsequence(Filter(s, p), s)
  {
    if s != [] {
      FilterIsSubsequence(s[1..], p);
      if p(s[0]) {
        assert Filter(s, p)[1..] == Filter(s[1..], p);
      }
    }
  }

  lemma {:induction false} SubsequenceTransitive<T(!new)>(a: seq<T>, b: seq<T>, c: seq<T>)
    requires IsSubsequence(a, b) && IsSubsequence(b, c)
    ensures IsSubsequence(a, c)
    decreases |c|
  {
    if a != [] && c != [] {
      if b[0] == c[0] && IsSubsequence(b[1..], c[1..]) {
        if a[0] == b[0] && IsSubsequence(a[1..], b[1..]) {
          SubsequenceTransitive(a[1..], b[1..], c[1..]);
        } else {
          SubsequenceTransitive(a, b[1..], c[1..]);
        }
      } else {
        SubsequenceTransitive(a, b, c[1..]);
      }
    }
  }

  /** Filtering twice by the same predicate is filtering once. */
  lemma {:induction false} FilterIdempotent<T(!new)>(s: seq<T>, p: T -> bool)
    ensures Filter(Filter(s, p), p) == Filter(s, p)
  {
    if s != [] {
      FilterIdempotent(s[1..], p);
      if p(s[0]) {
        assert Filter(s, p) == [s[0]] + Filter(s[1..], p);
        assert Filter(s, p)[1..] == Filter(s[1..], p);
      }
    }
  }

  /** Two consecutive filters are one filter by the conjunction `both`. */
  lemma {:induction false} FilterFilter<T(!new)>(s: seq<T>, p: T -> bool, q: T -> bool, both: T -> bool)
    requires forall x :: both(x) == (p(x) && q(x))
    ensures Filter(Filter(s, p), q) == Filter(s, both)
  {
    if s != [] {
      FilterFilter(s[1..], p, q, both);
      if p(s[0]) {
        assert Filter(s, p)[1..] == Filter(s[1..], p);
      }
    }
  }

  /** Filtering distributes over concatenation. */
  lemma {:induction false} FilterAppend<T(!new)>(a: seq<T>, b: seq<T>, p: T -> bool)
    ensures Filter(a + b, p) == Filter(a, p) + Filter(b, p)
  {
    if a != [] {
      assert (a + b)[1..] == a[1..] + b;
      FilterAppend(a[1..], b, p);
    } else {
      assert a + b == b;
    }
  }

  /** Filtering one element more appends it exactly when it passes. */
  lemma FilterSnoc<T(!new)>(s: seq<T>, i: nat, p: T -> bool)
    requires i < |s|
    ensures Filter(s[..i + 1], p) == Filter(s[..i], p) + (if p(s[i]) then [s[i]] else [])
  {
    assert s[..i + 1] == s[..i] + [s[i]];
    FilterAppend(s[..i], [s[i]], p);
  }

  lemma {:induction false} FilterAll<T(!new)>(s: seq<T>, p: T -> bool)
    requires forall x :: x in s ==> p(x)
    ensures Filter(s, p) == s
  {
    if s != [] {
      FilterAll(s[1..], p);
    }
  }

  /** Filtering depends only on the values the predicate takes. */
  lemma {:induction false} FilterExtensional<T(!new)>(s: seq<T>, p: T -> bool, q: T -> bool)
    requires forall x :: p(x) == q(x)
    ensures Filter(s, p) == Filter(s, q)
  {
    if s != [] {
      FilterExtensional(s[1..], p, q);
    }
  }

  lemma {:induction false} FilterNoDups<T(!new)>(s: seq<T>, p: T -> bool)
    requires NoDups(s)
    ensures NoDups(Filter(s, p))
  {
    if s != [] {
      FilterNoDups(s[1..], p);
    }
  }

  /** No element occurs twice. */
  predicate NoDups<T(==,!new)>(s: seq<T>) {
    forall i, j :: 0 <= i < j < |s| ==> s[i] != s[j]
  }

  /** `Set.prototype.add` on an insertion-ordered set. */
  function Insert<T(==,!new)>(s: seq<T>, x: T): (r: seq<T>)
    ensures NoDups(s) ==> NoDups(r)
    ensures forall y :: y in r <==> y in s || y == x
    ensures x in s ==> r == s
    ensures x !in s ==> r == s + [x]
  {
    if x in s then s else s + [x]
  }

  /** `Set.prototype.delete` on an insertion-ordered set. */
  function Delete<T(==,!new)>(s: seq<T>, x: T): (r: seq<T>)
    ensures NoDups(s) ==> NoDups(r)
    ensures forall y :: y in r <==> y in s && y != x
    ensures IsSubsequence(r, s)
  {
    FilterNoDupsAll(s, Other(x));
    FilterIsSubsequence(s, Other(x));
    Filter(s, Other(x))
  }

  /** The test `y => y !== x` that `Set.prototype.delete` applies. */
  function Other<T(==)>(x: T): T -> bool {
    y => y != x
  }

  /** Deleting a value that was just added gives the set back. */
  lemma DeleteInsert<T(!new)>(s: seq<T>, x: T)
    requires x !in s
    ensures Delete(Insert(s, x), x) == s
  {
    FilterAppend(s, [x], Other(x));
    FilterAll(s, Other(x));
  }

  lemma FilterNoDupsAll<T(!new)>(s: seq<T>, p: T -> bool)
    ensures NoDups(s) ==> NoDups(Filter(s, p))
  {
    if NoDups(s) { FilterNoDups(s, p); }
  }

  /** `Array.from(new Set(s))`: first occurrences, in order. */
  function Distinct<T(==,!new)>(s: seq<T>): (r: seq<T>)
    ensures NoDups(r)
    ensures forall x :: x in r <==> x in s
    ensures FirstAppearanceOrder(r, s)
    ensures IsSubsequence(r, s)
  {
    assert s[0..] == s && s[..0] == [];
    DistinctFromOrdered(s, 0, []);
    var r := DistinctFrom(s, []);
    OrderedIsSubsequence(r, s);
    r
  }

  /** The values of `r` appear in `s` and come in the order of their first appearance there. */
  predicate FirstAppearanceOrder<T(==)>(r: seq<T>, s: seq<T>) {
    forall i, j :: 0 <= i < j < |r| ==> IndexOf(s, r[i]) < IndexOf(s, r[j])
  }

  /**
    Adding the elements of `w` from index `k` on to a set that holds the
    elements before `k`, in first-appearance order, keeps that order.
  */
  lemma {:induction false} DistinctFromOrdered<T(!new)>(w: seq<T>, k: nat, acc: seq<T>)
    requires k <= |w| && NoDups(acc)
    requires forall y :: y in acc <==> y in w[..k]
    requires FirstAppearanceOrder(acc, w)
    ensures FirstAppearanceOrder(DistinctFrom(w[k..], acc), w)
    decreases |w| - k
  {
    if k < |w| {
      var x := w[k];
      assert w[k..][0] == x && w[k..][1..] == w[k + 1..];
      var next := Insert(acc, x);
      assert w[..k + 1] == w[..k] + [x];
      if x !in acc {
        forall i, j | 0 <= i < j < |next| ensures IndexOf(w, next[i]) < IndexOf(w, next[j]) {
          if j == |acc| {
            IndexOfBefore(w, acc[i], k);
            IndexOfAt(w, k);
          }
        }
      }
      DistinctFromOrdered(w, k + 1, next);
    }
  }

  /** A value among the first `k` elements first appears before `k`. */
  lemma IndexOfBefore<T>(w: seq<T>, y: T, k: nat)
    requires k <= |w| && y in w[..k]
    ensures 0 <= IndexOf(w, y) < k
  {
    var j :| 0 <= j < k && w[..k][j] == y;
    assert w[j] == y;
  }

  /** A value absent from the first `k` elements first appears at `k`. */
  lemma IndexOfAt<T>(w: seq<T>, k: nat)
    requires k < |w| && w[k] !in w[..k]
    ensures IndexOf(w, w[k]) == k
  {
    assert forall i :: 0 <= i < k ==> w[..k][i] == w[i];
  }

  /** Values of `s` in first-appearance order form a subsequence of `s`. */
  lemma {:induction false} OrderedIsSubsequence<T>(r: seq<T>, s: seq<T>)
    requires forall x :: x in r ==> x in s
    requires FirstAppearanceOrder(r, s)
    ensures IsSubsequence(r, s)
    decreases |s|
  {
    if r != [] {
      assert r[0] in r;
      var t := s[1..];
      if r[0] == s[0] {
        forall x | x in r[1..] ensures x in t && IndexOf(t, x) == IndexOf(s, x) - 1 {
          var j :| 0 <= j < |r[1..]| && r[1..][j] == x;
          assert r[j + 1] == x && IndexOf(s, r[0]) < IndexOf(s, r[j + 1]);
        }
        OrderedIsSubsequence(r[1..], t);
      } else {
        forall x | x in r ensures x in t && IndexOf(t, x) == IndexOf(s, x) - 1 {
          var j :| 0 <= j < |r| && r[j] == x;
          if j > 0 {
            assert IndexOf(s, r[0]) < IndexOf(s, r[j]);
          }
        }
        OrderedIsSubsequence(r, t);
      }
    }
  }

  function DistinctFrom<T(==,!new)>(s: seq<T>, acc: seq<T>): (r: seq<T>)
    requires NoDups(acc)
    ensures NoDups(r)
    ensures forall x :: x in r <==> x in s || x in acc
    ensures |acc| <= |r| && r[..|acc|] == acc
  {
    if s == [] then acc else DistinctFrom(s[1..], Insert(acc, s[0]))
  }

  /** `s.indexOf(x)`: the first index holding `x`, or -1. */
  function IndexOf<T(==)>(s: seq<T>, x: T): (i: int)
    ensures -1 <= i < |s|
    ensures i == -1 <==> x !in s
    ensures 0 <= i ==> s[i] == x && forall k :: 0 <= k < i ==> s[k] != x
  {
    if s == [] then -1
    else if s[0] == x then 0
    else
      var i := IndexOf(s[1..], x);
      if i == -1 then -1 else i + 1
  }

  lemma {:induction false} SubsequenceReflexive<T>(s: seq<T>)
    ensures IsSubsequence(s, s)
  {
    if s != [] {
      SubsequenceReflexive(s[1..]);
    }
  }

  /** A duplicate-free sequence holds each value at most once. */
  lemma {:induction false} NoDupsCount<T(!new)>(s: seq<T>, x: T)
    requires NoDups(s)
    ensures multiset(s)[x] <= 1
  {
    if s != [] {
      assert s == [s[0]] + s[1..];
      NoDupsCount(s[1..], x);
      if s[0] == x {
        assert x !in s[1..];
      }
    }
  }

  /** A rearrangement of a duplicate-free sequence is duplicate-free. */
  lemma NoDupsPermutation<T(!new)>(s: seq<T>, t: seq<T>)
    requires NoDups(s) && multiset(s) == multiset(t)
    ensures NoDups(t)
  {
    forall i, j | 0 <= i < j < |t|
      ensures t[i] != t[j]
    {
      if t[i] == t[j] {
        assert t == t[..j] + t[j..];
        assert t[i] in t[..j] && t[j] in t[j..];
        assert multiset(t)[t[i]] == multiset(t[..j])[t[i]] + multiset(t[j..])[t[i]];
        NoDupsCount(s, t[i]);
      }
    }
  }

  /** `Array.from(new Set(s))` of a duplicate-free list is the list itself. */
  lemma DistinctOfNoDups<T(!new)>(s: seq<T>)
    requires NoDups(s)
    ensures Distinct(s) == s
  {
    DistinctFromNoDups(s, []);
  }

  lemma {:induction false} DistinctFromNoDups<T(!new)>(s: seq<T>, acc: seq<T>)
    requires NoDups(acc) && NoDups(acc + s)
    ensures DistinctFrom(s, acc) == acc + s
  {
    if s == [] {
      assert acc + s == acc;
    } else {
      assert s[0] !in acc by {
        assert (acc + s)[|acc|] == s[0];
        assert forall k :: 0 <= k < |acc| ==> (acc + s)[k] == acc[k];
      }
      assert acc + [s[0]] + s[1..] == acc + s;
      assert NoDups(acc + [s[0]]) by {
        assert forall k :: 0 <= k <= |acc| ==> (acc + [s[0]])[k] == (acc + s)[k];
      }
      DistinctFromNoDups(s[1..], acc + [s[0]]);
    }
  }

  /** In a duplicate-free list, the first index of an element is its index. */
  lemma IndexOfNoDups<T(!new)>(s: seq<T>, i: nat)
    requires NoDups(s) && i < |s|
    ensures IndexOf(s, s[i]) == i
  {
  }

  /** Putting a new element in front keeps a list duplicate-free. */
  lemma ConsNoDups<T(!new)>(x: T, s: seq<T>)
    requires NoDups(s) && x !in s
    ensures NoDups([x] + s)
  {
    var r := [x] + s;
    forall p, q | 0 <= p < q < |r| ensures r[p] != r[q] {
      assert r[q] == s[q - 1];
      if p > 0 {
        assert r[p] == s[p - 1];
      }
    }
  }
}
