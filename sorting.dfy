/**
  The default `Array.prototype.sort` on strings: ascending code-point
  order, equal to its UTF-16 code-unit order below U+10000. Sorting is
  modelled as insertion sort; since equal strings are indistinguishable,
  every correct sort yields the same sequence
  (`SortedUnique`), so the choice of algorithm is immaterial.
*/
module Sorting {
  import opened JsStrings

  predicate Sorted(s: seq<string>) {
    forall i, j :: 0 <= i < j < |s| ==> !LexLess(s[j], s[i])
  }

  predicate StrictlySorted(s: seq<string>) {
    forall i, j :: 0 <= i < j < |s| ==> LexLess(s[i], s[j])
  }

  function InsertSorted(x: string, s: seq<string>): (r: seq<string>)
    requires Sorted(s)
    ensures Sorted(r)
    ensures multiset(r) == multiset(s) + multiset{x}
  {
    if s == [] then [x]
    else if !LexLess(s[0], x) then
      InsertFrontSorted(x, s);
      [x] + s
    else
      var t := InsertSorted(x, s[1..]);
      InsertBehindSorted(s[0], x, s[1..], t);
      assert s == [s[0]] + s[1..];
      [s[0]] + t
  }

  lemma InsertFrontSorted(x: string, s: seq<string>)
    requires Sorted(s) && s != [] && !LexLess(s[0], x)
    ensures Sorted([x] + s)
  {
    forall j | 0 < j < |s| + 1
      ensures !LexLess(([x] + s)[j], x)
    {
      LexLessTotal(s[0], x);
      LexLessTransitive(s[j - 1], x, s[0]);
    }
  }

  lemma InsertBehindSorted(y: string, x: string, s: seq<string>, t: seq<string>)
    requires Sorted([y] + s) && LexLess(y, x) && Sorted(t)
    requires multiset(t) == multiset(s) + multiset{x}
    ensures Sorted([y] + t)
  {
    forall j | 0 <= j < |t|
      ensures !LexLess(t[j], y)
    {
      assert t[j] in multiset(t);
      if t[j] == x {
        LexLessAsymmetric(y, x);
      } else {
        assert t[j] in multiset(s);
        var k :| 0 <= k < |s| && s[k] == t[j];
        assert ([y] + s)[k + 1] == s[k] && ([y] + s)[0] == y;
      }
    }
    forall i, j | 0 <= i < j < |t| + 1
      ensures !LexLess(([y] + t)[j], ([y] + t)[i])
    {
      if i > 0 {
        assert ([y] + t)[j] == t[j - 1] && ([y] + t)[i] == t[i - 1];
      }
    }
  }

  /** `xs.sort()` */
  function SortStrings(xs: seq<string>): (r: seq<string>)
    ensures Sorted(r)
    ensures multiset(r) == multiset(xs)
  {
    if xs == [] then []
    else
      assert xs == [xs[0]] + xs[1..];
      InsertSorted(xs[0], SortStrings(xs[1..]))
  }

  /** Two sorted arrangements of the same strings are the same sequence. */
  lemma {:induction false} SortedUnique(a: seq<string>, b: seq<string>)
    requires Sorted(a) && Sorted(b) && multiset(a) == multiset(b)
    ensures a == b
    decreases |a|
  {
    if a != [] {
      SameLeast(a, b);
      SameRest(a, b);
      SortedTail(a);
      SortedTail(b);
      SortedUnique(a[1..], b[1..]);
      assert a == [a[0]] + a[1..] && b == [b[0]] + b[1..];
    }
  }

  /** Sorted arrangements of the same non-empty multiset start with the same string. */
  lemma SameLeast(a: seq<string>, b: seq<string>)
    requires Sorted(a) && Sorted(b) && multiset(a) == multiset(b) && a != []
    ensures |b| == |a| && a[0] == b[0]
  {
    assert |b| == |a| by {
      assert |multiset(a)| == |a| && |multiset(b)| == |b|;
    }
    assert a[0] in multiset(b);
    var j :| 0 <= j < |b| && b[j] == a[0];
    assert b[0] in multiset(a);
    var i :| 0 <= i < |a| && a[i] == b[0];
    LexLessIrreflexive(a[0]);
    LexLessIrreflexive(b[0]);
    assert !LexLess(a[0], b[0]) by { if j > 0 { assert !LexLess(b[j], b[0]); } }
    assert !LexLess(b[0], a[0]) by { if i > 0 { assert !LexLess(a[i], a[0]); } }
    LexLessTotal(a[0], b[0]);
  }

  /** Removing the same first string leaves the same multiset. */
  lemma SameRest(a: seq<string>, b: seq<string>)
    requires a != [] && b != [] && a[0] == b[0] && multiset(a) == multiset(b)
    ensures multiset(a[1..]) == multiset(b[1..])
  {
    assert a == [a[0]] + a[1..] && b == [b[0]] + b[1..];
    assert multiset(a[1..]) == multiset(a) - multiset{a[0]};
    assert multiset(b[1..]) == multiset(b) - multiset{b[0]};
  }

  lemma SortedTail(a: seq<string>)
    requires Sorted(a) && a != []
    ensures Sorted(a[1..])
  {
  }

  /** The result of `sort` does not depend on the order of its input. */
  lemma SortIgnoresOrder(xs: seq<string>, ys: seq<string>)
    requires multiset(xs) == multiset(ys)
    ensures SortStrings(xs) == SortStrings(ys)
  {
    SortedUnique(SortStrings(xs), SortStrings(ys));
  }

  predicate IsLeast(m: string, s: set<string>) {
    m in s && forall y :: y in s ==> y == m || LexLess(m, y)
  }

  lemma {:induction false} LeastExists(s: set<string>)
    requires s != {}
    ensures exists m :: IsLeast(m, s)
    decreases |s|
  {
    var x :| x in s;
    if s - {x} == {} {
      assert s == {x};
      assert IsLeast(x, s);
    } else {
      LeastExists(s - {x});
      var m :| IsLeast(m, s - {x});
      LexLessTotal(m, x);
      if LexLess(m, x) {
        assert IsLeast(m, s);
      } else {
        forall y | y in s && y != x
          ensures LexLess(x, y)
        {
          LexLessTransitive(x, m, y);
        }
        assert IsLeast(x, s);
      }
    }
  }

  lemma LeastUnique(s: set<string>)
    ensures forall m, n :: IsLeast(m, s) && IsLeast(n, s) ==> m == n
  {
    forall m, n | IsLeast(m, s) && IsLeast(n, s)
      ensures m == n
    {
      LexLessAsymmetric(m, n);
    }
  }

  /** The least string of a non-empty set. */
  function Least(s: set<string>): (m: string)
    requires s != {}
    ensures m in s && forall y :: y in s ==> y == m || LexLess(m, y)
  {
    LeastExists(s);
    LeastUnique(s);
    var m :| IsLeast(m, s);
    m
  }

  /** The members of `s` in ascending order: `Array.from(s).sort()`. */
  function SortedSet(s: set<string>): (r: seq<string>)
    ensures StrictlySorted(r)
    ensures |r| == |s|
    ensures forall x :: x in r <==> x in s
    decreases |s|
  {
    if s == {} then []
    else
      var m := Least(s);
      var rest := SortedSet(s - {m});
      assert forall j :: 0 <= j < |rest| ==> LexLess(m, rest[j]) by {
        forall j | 0 <= j < |rest| ensures LexLess(m, rest[j]) {
          assert rest[j] in s - {m};
        }
      }
      [m] + rest
  }

  lemma StrictlySortedIsSorted(s: seq<string>)
    requires StrictlySorted(s)
    ensures Sorted(s)
  {
    forall i, j | 0 <= i < j < |s| ensures !LexLess(s[j], s[i]) {
      LexLessAsymmetric(s[i], s[j]);
    }
  }
}
