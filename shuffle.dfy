/**
  `shuffleArray`, the in-place Fisher–Yates shuffle the course detective
  applies to its two random categories, with the random draws as a
  parameter.
*/
module Shuffling {

  /** `[s[i], s[j]] = [s[j], s[i]]` */
  function Swap<T>(s: seq<T>, i: nat, j: nat): (r: seq<T>)
    requires i < |s| && j < |s|
    ensures |r| == |s| && r[i] == s[j] && r[j] == s[i]
    ensures forall k :: 0 <= k < |s| && k != i && k != j ==> r[k] == s[k]
  {
    s[i := s[j]][j := s[i]]
  }

  /**
    The index `Math.floor(Math.random() * (i + 1))` of iteration `i`, for
    the random draw `pick(i)`. Every index in `0..i` is the value of some
    draw, so the draws `pick` range over all runs of the shuffle.
  */
  function Draw(pick: nat -> nat, i: nat): (j: nat)
    ensures j <= i
  {
    pick(i) % (i + 1)
  }

  /** The iterations of `shuffleArray` from index `i` down to 1. */
  function ShuffleFrom<T>(s: seq<T>, i: nat, pick: nat -> nat): (r: seq<T>)
    ensures |r| == |s|
    decreases i
  {
    if i == 0 || i >= |s| then s
    else ShuffleFrom(Swap(s, i, Draw(pick, i)), i - 1, pick)
  }

  /** The Fisher–Yates shuffle `shuffleArray` performs, for the draws `pick`. */
  function Shuffle<T>(s: seq<T>, pick: nat -> nat): (r: seq<T>)
    ensures |r| == |s|
  {
    if s == [] then s else ShuffleFrom(s, |s| - 1, pick)
  }

  lemma SwapPermutes<T>(s: seq<T>, i: nat, j: nat)
    requires i < |s| && j < |s|
    ensures multiset(Swap(s, i, j)) == multiset(s)
  {
  }

  lemma {:induction false} ShuffleFromPermutes<T>(s: seq<T>, i: nat, pick: nat -> nat)
    ensures multiset(ShuffleFrom(s, i, pick)) == multiset(s)
    decreases i
  {
    if i != 0 && i < |s| {
      SwapPermutes(s, i, Draw(pick, i));
      ShuffleFromPermutes(Swap(s, i, Draw(pick, i)), i - 1, pick);
    }
  }

  /** The shuffle rearranges its input: no element is lost, added or duplicated. */
  lemma ShufflePermutes<T>(s: seq<T>, pick: nat -> nat)
    ensures multiset(Shuffle(s, pick)) == multiset(s)
  {
    if s != [] {
      ShuffleFromPermutes(s, |s| - 1, pick);
    }
  }

  /** Draws that always keep the current element swap nothing. */
  lemma {:induction false} ShuffleWithoutSwaps<T>(s: seq<T>, i: nat, pick: nat -> nat)
    requires forall k: nat :: Draw(pick, k) == k
    ensures ShuffleFrom(s, i, pick) == s
    decreases i
  {
    if i != 0 && i < |s| {
      assert Swap(s, i, Draw(pick, i)) == s;
      ShuffleWithoutSwaps(s, i - 1, pick);
    }
  }

  lemma ShuffleStep<T>(s: seq<T>, i: nat, pick: nat -> nat)
    requires 0 < i < |s|
    ensures ShuffleFrom(s, i, pick) == ShuffleFrom(Swap(s, i, Draw(pick, i)), i - 1, pick)
  {
  }

  /** `shuffleArray`: shuffles `a` in place. */
  method ShuffleArray<T>(a: array<T>, pick: nat -> nat)
    modifies a
    ensures a[..] == Shuffle(old(a[..]), pick)
  {
    if a.Length == 0 {
      return;
    }
    ghost var goal := Shuffle(a[..], pick);
    var i := a.Length - 1;
    assert ShuffleFrom(a[..], i, pick) == goal;
    while i > 0
      invariant 0 <= i < a.Length
      invariant ShuffleFrom(a[..], i, pick) == goal
      decreases i
    {
      var j := Draw(pick, i);
      ghost var before := a[..];
      var t := a[i];
      a[i] := a[j];
      assert a[..] == before[i := before[j]];
      ghost var mid := a[..];
      a[j] := t;
      assert a[..] == mid[j := t] == Swap(before, i, j);
      ShuffleStep(before, i, pick);
      i := i - 1;
    }
    assert ShuffleFrom(a[..], 0, pick) == a[..];
  }
}
