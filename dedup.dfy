/**
  Removing repeated catalogue rows. Two rows are the same course when
  their name, number and teacher agree; of each such group the first row
  is kept, in catalogue order. The older page does this when a semester
  file is loaded, the newer one when the file is parsed.
*/
module Dedup {
  import opened Courses
  import opened Seqs

  /** The (Name, Number, Teacher) triple the comparison looks at. */
  function Triple(c: Course): (string, string, string) {
    (c.name, c.number, c.teacher)
  }

  /** The triples of a list, in order. */
  function Triples(s: seq<Course>): (r: seq<(string, string, string)>)
    ensures |r| == |s|
    ensures forall i :: 0 <= i < |s| ==> r[i] == Triple(s[i])
  {
    if s == [] then [] else [Triple(s[0])] + Triples(s[1..])
  }

  /** `self.findIndex(c => same triple as course)`: the first row with the triple of `c`. */
  function FindTriple(s: seq<Course>, c: Course): (i: int)
    ensures -1 <= i < |s|
    ensures i >= 0 ==> Triple(s[i]) == Triple(c) && forall k :: 0 <= k < i ==> Triple(s[k]) != Triple(c)
    ensures i == -1 ==> forall k :: 0 <= k < |s| ==> Triple(s[k]) != Triple(c)
  {
    IndexOf(Triples(s), Triple(c))
  }

  /** Row `i` is the first of its triple. */
  predicate FirstOfTriple(s: seq<Course>, i: nat)
    requires i < |s|
  {
    FindTriple(s, s[i]) == i
  }

  /** The kept rows among positions `k..` of `s`. */
  function KeepFirstFrom(s: seq<Course>, k: nat): (r: seq<Course>)
    requires k <= |s|
    ensures IsSubsequence(r, s[k..])
    ensures forall x :: x in r ==> exists i :: k <= i < |s| && s[i] == x && FirstOfTriple(s, i)
    ensures forall i :: k <= i < |s| && FirstOfTriple(s, i) ==> s[i] in r
    decreases |s| - k
  {
    if k == |s| then []
    else
      var rest := KeepFirstFrom(s, k + 1);
      assert s[k..][1..] == s[k + 1..];
      if FirstOfTriple(s, k) then
        var r := [s[k]] + rest;
        assert forall x :: x in r ==> exists i :: k <= i < |s| && s[i] == x && FirstOfTriple(s, i) by {
          forall x | x in r ensures exists i :: k <= i < |s| && s[i] == x && FirstOfTriple(s, i) {
            if x == s[k] {
              assert k <= k < |s| && s[k] == x && FirstOfTriple(s, k);
            } else {
              assert x in rest;
            }
          }
        }
        r
      else
        assert IsSubsequence(rest, s[k..]) by {
          SubsequenceSkip(rest, s[k..]);
        }
        rest
  }

  lemma SubsequenceSkip<T>(a: seq<T>, b: seq<T>)
    requires b != [] && IsSubsequence(a, b[1..])
    ensures IsSubsequence(a, b)
  {
  }

  /**
    `filterUniqueCourses` / the dedup in `parseCourseData`: the rows that
    are the first of their triple, in order.
  */
  function FilterUniqueCourses(s: seq<Course>): (r: seq<Course>)
    ensures IsSubsequence(r, s)
    ensures forall x :: x in r ==> exists i :: 0 <= i < |s| && s[i] == x && FirstOfTriple(s, i)
  {
    assert s[0..] == s;
    KeepFirstFrom(s, 0)
  }

  /** Every triple of the input is represented in the output. */
  lemma EveryTripleKept(s: seq<Course>, c: Course)
    requires c in s
    ensures exists d :: d in FilterUniqueCourses(s) && Triple(d) == Triple(c)
  {
    var i := FindTriple(s, c);
    assert i >= 0 by {
      var j :| 0 <= j < |s| && s[j] == c;
      assert Triple(s[j]) == Triple(c);
    }
    assert FindTriple(s, s[i]) == i;
    assert s[0..] == s;
    assert s[i] in KeepFirstFrom(s, 0);
  }

  /** No two output rows share a triple. */
  lemma {:induction false} NoTripleTwice(s: seq<Course>, k: nat)
    requires k <= |s|
    ensures NoDups(Triples(KeepFirstFrom(s, k)))
    decreases |s| - k
  {
    if k < |s| {
      NoTripleTwice(s, k + 1);
      var rest := KeepFirstFrom(s, k + 1);
      KeepFirstStep(s, k);
      if FirstOfTriple(s, k) {
        HeadTripleFresh(s, k);
        ConsNoDups(Triple(s[k]), Triples(rest));
        TriplesCons(s[k], rest);
      }
    }
  }

  lemma TriplesCons(c: Course, rest: seq<Course>)
    ensures Triples([c] + rest) == [Triple(c)] + Triples(rest)
  {
    assert ([c] + rest)[1..] == rest;
  }

  /** A kept row's triple does not occur among the rows kept after it. */
  lemma HeadTripleFresh(s: seq<Course>, k: nat)
    requires k < |s| && FirstOfTriple(s, k)
    ensures Triple(s[k]) !in Triples(KeepFirstFrom(s, k + 1))
  {
    var rest := KeepFirstFrom(s, k + 1);
    forall j | 0 <= j < |rest| ensures Triples(rest)[j] != Triple(s[k]) {
      assert rest[j] in rest;
      var i :| k + 1 <= i < |s| && s[i] == rest[j] && FirstOfTriple(s, i);
      assert FindTriple(s, s[i]) == i && k < i;
    }
  }

  /** The output has distinct triples: the dedup is complete. */
  lemma UniqueTriples(s: seq<Course>)
    ensures NoDups(Triples(FilterUniqueCourses(s)))
  {
    NoTripleTwice(s, 0);
  }

  /** A catalogue without repeated triples is left as it is. */
  lemma {:induction false} DistinctTriplesUnchanged(s: seq<Course>, k: nat)
    requires NoDups(Triples(s)) && k <= |s|
    ensures KeepFirstFrom(s, k) == s[k..]
    decreases |s| - k
  {
    if k < |s| {
      DistinctTriplesUnchanged(s, k + 1);
      DistinctIsFirst(s, k);
      KeepFirstStep(s, k);
      SliceCons(s, k);
    }
  }

  /** In a catalogue without repeated triples every row is the first of its triple. */
  lemma DistinctIsFirst(s: seq<Course>, k: nat)
    requires NoDups(Triples(s)) && k < |s|
    ensures FirstOfTriple(s, k)
  {
    IndexOfNoDups(Triples(s), k);
  }

  /** One step of `KeepFirstFrom`. */
  lemma KeepFirstStep(s: seq<Course>, k: nat)
    requires k < |s|
    ensures KeepFirstFrom(s, k) ==
      if FirstOfTriple(s, k) then [s[k]] + KeepFirstFrom(s, k + 1) else KeepFirstFrom(s, k + 1)
  {
  }

  lemma SliceCons<T>(s: seq<T>, k: nat)
    requires k < |s|
    ensures s[k..] == [s[k]] + s[k + 1..]
  {
  }

  /** Deduplicating twice is deduplicating once. */
  lemma FilterUniqueIdempotent(s: seq<Course>)
    ensures FilterUniqueCourses(FilterUniqueCourses(s)) == FilterUniqueCourses(s)
  {
    var once := FilterUniqueCourses(s);
    UniqueTriples(s);
    DistinctTriplesUnchanged(once, 0);
    assert once[0..] == once;
  }
}
