// The merge of two ascending int sequences that MergePP.c and mergesort.c both implement:
// compare the two fronts, take the first one when it is <= the second (so ties go to the first
// input), and once one input runs out, copy the rest of the other.

module IntMerge {
  import opened SeqFacts

  predicate Sorted(s: seq<int>)
  {
    forall i, j :: 0 <= i < j < |s| ==> s[i] <= s[j]
  }

  /** The merge of the suffixes a[i..] and b[j..], written with the two cursors the C loops
      keep, so that one step of a loop is one unfolding. */
  function MergeFrom(a: seq<int>, b: seq<int>, i: nat, j: nat): seq<int>
    requires i <= |a| && j <= |b|
    decreases |a| - i + |b| - j
  {
    if i == |a| then b[j..]
    else if j == |b| then a[i..]
    else if a[i] <= b[j] then [a[i]] + MergeFrom(a, b, i + 1, j)
    else [b[j]] + MergeFrom(a, b, i, j + 1)
  }

  function Merge(a: seq<int>, b: seq<int>): seq<int>
  {
    MergeFrom(a, b, 0, 0)
  }

  /** Where the rest of the merge m from si on is the merge of a[i1..] and b[i2..], both
      non-empty, its next entry is the smaller front (a's on ties) and the rest after it is
      the merge without that front. */
  lemma FrontStep(a: seq<int>, b: seq<int>, m: seq<int>, i1: nat, i2: nat, si: nat)
    requires i1 < |a| && i2 < |b| && si <= |m| && m[si..] == MergeFrom(a, b, i1, i2)
    ensures si < |m|
    ensures a[i1] <= b[i2] ==> m[si] == a[i1] && m[si + 1..] == MergeFrom(a, b, i1 + 1, i2)
    ensures b[i2] < a[i1] ==> m[si] == b[i2] && m[si + 1..] == MergeFrom(a, b, i1, i2 + 1)
  {
    if a[i1] <= b[i2] {
      SuffixStep(m, si, a[i1], MergeFrom(a, b, i1 + 1, i2));
    } else {
      SuffixStep(m, si, b[i2], MergeFrom(a, b, i1, i2 + 1));
    }
  }

  lemma {:induction false} MergeFromLength(a: seq<int>, b: seq<int>, i: nat, j: nat)
    requires i <= |a| && j <= |b|
    ensures |MergeFrom(a, b, i, j)| == (|a| - i) + (|b| - j)
    decreases |a| - i + |b| - j
  {
    if i < |a| && j < |b| {
      if a[i] <= b[j] {
        MergeFromLength(a, b, i + 1, j);
      } else {
        MergeFromLength(a, b, i, j + 1);
      }
    }
  }

  /** The merge of the suffixes holds each of their elements exactly once. */
  lemma {:induction false} MergeFromPermutes(a: seq<int>, b: seq<int>, i: nat, j: nat)
    requires i <= |a| && j <= |b|
    ensures |MergeFrom(a, b, i, j)| == (|a| - i) + (|b| - j)
    ensures multiset(MergeFrom(a, b, i, j)) == multiset(a[i..]) + multiset(b[j..])
    decreases |a| - i + |b| - j
  {
    MergeFromLength(a, b, i, j);
    if i == |a| || j == |b| {
    } else if a[i] <= b[j] {
      MergeFromPermutes(a, b, i + 1, j);
      SuffixMultiset(a, i);
    } else {
      MergeFromPermutes(a, b, i, j + 1);
      SuffixMultiset(b, j);
    }
  }

  /** The merge is a permutation of a ++ b. */
  lemma MergePermutes(a: seq<int>, b: seq<int>)
    ensures |Merge(a, b)| == |a| + |b|
    ensures multiset(Merge(a, b)) == multiset(a + b)
  {
    MergeFromPermutes(a, b, 0, 0);
    assert a[0..] == a && b[0..] == b;
  }

  /** Every element of the merge of the suffixes is bounded below by a bound of both suffixes. */
  lemma MergeFromLowerBound(a: seq<int>, b: seq<int>, i: nat, j: nat, x: int)
    requires i <= |a| && j <= |b|
    requires forall k :: i <= k < |a| ==> x <= a[k]
    requires forall k :: j <= k < |b| ==> x <= b[k]
    ensures forall k :: 0 <= k < |MergeFrom(a, b, i, j)| ==> x <= MergeFrom(a, b, i, j)[k]
  {
    MergeFromPermutes(a, b, i, j);
    forall k | 0 <= k < |MergeFrom(a, b, i, j)|
      ensures x <= MergeFrom(a, b, i, j)[k]
    {
      var y := MergeFrom(a, b, i, j)[k];
      assert y in multiset(MergeFrom(a, b, i, j));
      assert y in multiset(a[i..]) || y in multiset(b[j..]);
    }
  }

  /** Merging suffixes of two ascending sequences gives an ascending sequence. */
  lemma {:induction false} MergeFromSorted(a: seq<int>, b: seq<int>, i: nat, j: nat)
    requires i <= |a| && j <= |b| && Sorted(a) && Sorted(b)
    ensures Sorted(MergeFrom(a, b, i, j))
    decreases |a| - i + |b| - j
  {
    if i == |a| || j == |b| {
    } else if a[i] <= b[j] {
      MergeFromSorted(a, b, i + 1, j);
      MergeFromLowerBound(a, b, i + 1, j, a[i]);
    } else {
      MergeFromSorted(a, b, i, j + 1);
      MergeFromLowerBound(a, b, i, j + 1, b[j]);
    }
  }

  /** Merging two ascending sequences gives an ascending sequence. */
  lemma MergeSorted(a: seq<int>, b: seq<int>)
    requires Sorted(a) && Sorted(b)
    ensures Sorted(Merge(a, b))
  {
    MergeFromSorted(a, b, 0, 0);
  }

  /** When nothing in a[i..] exceeds anything in b[j..], the merge of the suffixes is a[i..]
      followed by b[j..]. */
  lemma {:induction false} MergeFromOrdered(a: seq<int>, b: seq<int>, i: nat, j: nat)
    requires i <= |a| && j <= |b|
    requires forall p, q :: i <= p < |a| && j <= q < |b| ==> a[p] <= b[q]
    ensures MergeFrom(a, b, i, j) == a[i..] + b[j..]
    decreases |a| - i
  {
    if i == |a| {
    } else if j == |b| {
    } else {
      assert a[i] <= b[j];
      MergeFromOrdered(a, b, i + 1, j);
      ConsSuffix(a, i, b[j..]);
    }
  }

  /** When nothing in a exceeds anything in b, the merge is a followed by b: the front of a is
      taken as long as it is <= the front of b, equal values included. */
  lemma MergeOrderedInputs(a: seq<int>, b: seq<int>)
    requires forall p, q :: 0 <= p < |a| && 0 <= q < |b| ==> a[p] <= b[q]
    ensures Merge(a, b) == a + b
  {
    MergeFromOrdered(a, b, 0, 0);
    assert a[0..] == a && b[0..] == b;
  }

  /** Once a[..] is used up the merge of the suffixes is the rest of b, and vice versa. */
  lemma MergeFromExhausted(a: seq<int>, b: seq<int>, i: nat, j: nat)
    requires i <= |a| && j <= |b| && (i == |a| || j == |b|)
    ensures MergeFrom(a, b, i, j) == if i == |a| then b[j..] else a[i..]
  {
  }
}
