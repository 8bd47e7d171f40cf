// Bottom-up mergesort of a list whose length is a power of two, through a global scratch
// buffer (mergesort.c).

module MergeSortPow2 {
  import IntMerge
  import opened Powers
  import opened SeqFacts

  /** Size of the program's global `int scratch[100]`. The buffer itself is passed to every
      method as `scratch`. */
  const ScratchLength := 100

  /** How much of list[off..off+n) `Mergesort` sorts: the largest power of two not above n. */
  function SortedSpan(n: int): (r: nat)
    ensures 0 <= r <= n || n < 0
    ensures n >= 1 ==> r >= 1
  {
    if n >= 1 then Floor2(n) else 0
  }

  /** For a power-of-two length, `Mergesort` sorts the whole range. */
  lemma SortedSpanOfPow2(k: nat)
    ensures SortedSpan(Pow2(k)) == Pow2(k)
  {
    Floor2OfPow2(k);
  }

  /** `Merge(list, list + n, n)`: merges the two sorted halves list[off..off+n) and
      list[off+n..off+2n) into scratch[0..2n), then copies scratch[0..2n) back over
      list[off..off+2n). */
  method Merge(list: array<int>, off: int, n: int, scratch: array<int>)
    requires list != scratch && scratch.Length == ScratchLength
    requires 0 <= off && 0 <= n && off + 2 * n <= list.Length && 2 * n <= scratch.Length
    modifies list, scratch
    ensures list[off..off + 2 * n]
            == IntMerge.Merge(old(list[off..off + n]), old(list[off + n..off + 2 * n]))
    ensures scratch[..2 * n] == list[off..off + 2 * n]
    ensures forall k :: 0 <= k < list.Length && !(off <= k < off + 2 * n) ==> list[k] == old(list[k])
  {
    MergeIntoScratch(list, off, n, scratch);
    ghost var m := scratch[..2 * n];
    var i1, si := 0, 0;
    while i1 < 2 * n
      invariant 0 <= i1 <= 2 * n && si == i1
      invariant scratch[..2 * n] == m
      invariant forall k :: 0 <= k < i1 ==> list[off + k] == m[k]
      invariant forall k :: 0 <= k < list.Length && !(off <= k < off + 2 * n) ==>
                  list[k] == old(list[k])
    {
      list[off + i1] := scratch[si];
      i1, si := i1 + 1, si + 1;
    }
    assert list[off..off + 2 * n] == m;
  }

  /** The three loops of `Merge` that fill scratch[0..2n) from the two halves: the merge
      loop, then the rest of the first half, then the rest of the second. */
  method MergeIntoScratch(list: array<int>, off: int, n: int, scratch: array<int>)
    requires list != scratch
    requires 0 <= off && 0 <= n && off + 2 * n <= list.Length && 2 * n <= scratch.Length
    modifies scratch
    ensures scratch[..2 * n] == IntMerge.Merge(old(list[off..off + n]), old(list[off + n..off + 2 * n]))
  {
    ghost var a, b := list[off..off + n], list[off + n..off + 2 * n];
    ghost var m := IntMerge.Merge(a, b);
    IntMerge.MergeFromLength(a, b, 0, 0);
    var i1, i2 := MergeFronts(list, off, n, scratch, a, b, m);
    CopyTails(list, off, n, scratch, i1, i2, a, b, m);
  }

  /** The two trailing loops of `Merge`: after the merge loop stopped at (i1, i2), copy the
      rest of the first half and then the rest of the second (one of them is empty). */
  method CopyTails(list: array<int>, off: int, n: int, scratch: array<int>, i1: int, i2: int,
                   ghost a: seq<int>, ghost b: seq<int>, ghost m: seq<int>)
    requires list != scratch
    requires 0 <= off && 0 <= n && off + 2 * n <= list.Length && 2 * n <= scratch.Length
    requires a == list[off..off + n] && b == list[off + n..off + 2 * n] && |m| == 2 * n
    requires 0 <= i1 <= n && 0 <= i2 <= n && (i1 == n || i2 == n)
    requires forall k :: 0 <= k < i1 + i2 ==> scratch[k] == m[k]
    requires m[i1 + i2..] == IntMerge.MergeFrom(a, b, i1, i2)
    modifies scratch
    ensures scratch[..2 * n] == m
  {
    var si := i1 + i2;
    var mid := si + (n - i1);
    TailPieces(m, a, b, i1, i2, si);
    forall k | si <= k < mid
      ensures m[k] == list[off + i1 + (k - si)]
    {
      assert a[i1 + (k - si)] == list[off + i1 + (k - si)];
    }
    CopyTail(list, off + i1, si, n - i1, m, scratch);
    forall k | mid <= k < 2 * n
      ensures m[k] == list[off + n + i2 + (k - mid)]
    {
      assert b[i2 + (k - mid)] == list[off + n + i2 + (k - mid)];
    }
    CopyTail(list, off + n + i2, mid, n - i2, m, scratch);
    PrefixIs(scratch[..], m);
  }

  /** The first loop of `Merge`: while both halves have elements left, move the smaller front
      (the first half's on ties) to scratch. It stops when one half is used up, with scratch
      holding the first i1 + i2 entries of the merge m. */
  method MergeFronts(list: array<int>, off: int, n: int, scratch: array<int>,
                     ghost a: seq<int>, ghost b: seq<int>, ghost m: seq<int>)
    returns (i1: int, i2: int)
    requires list != scratch
    requires 0 <= off && 0 <= n && off + 2 * n <= list.Length && 2 * n <= scratch.Length
    requires a == list[off..off + n] && b == list[off + n..off + 2 * n]
    requires m == IntMerge.Merge(a, b) && |m| == 2 * n
    modifies scratch
    ensures 0 <= i1 <= n && 0 <= i2 <= n && (i1 == n || i2 == n)
    ensures forall k :: 0 <= k < i1 + i2 ==> scratch[k] == m[k]
    ensures m[i1 + i2..] == IntMerge.MergeFrom(a, b, i1, i2)
  {
    var si := 0;
    i1, i2 := 0, 0;
    while i1 < n && i2 < n
      invariant 0 <= i1 <= n && 0 <= i2 <= n && si == i1 + i2
      invariant forall k :: 0 <= k < si ==> scratch[k] == m[k]
      invariant m[si..] == IntMerge.MergeFrom(a, b, i1, i2)
    {
      var x, y := list[off + i1], list[off + n + i2];
      assert x == a[i1] && y == b[i2];
      IntMerge.FrontStep(a, b, m, i1, i2, si);
      if x <= y {
        scratch[si] := x;
        si, i1 := si + 1, i1 + 1;
      } else {
        scratch[si] := y;
        si, i2 := si + 1, i2 + 1;
      }
    }
  }

  /** One of the trailing loops of `Merge`: scratch[si..si+count) := list[from..from+count).
      When that piece of list is the next piece of the merge m whose first si entries are
      already in scratch, the first si + count entries of scratch then agree with m. */
  method CopyTail(list: array<int>, from: int, si: int, count: int, ghost m: seq<int>,
                  scratch: array<int>)
    requires list != scratch
    requires 0 <= from && 0 <= si && 0 <= count
    requires from + count <= list.Length && si + count <= scratch.Length && si + count <= |m|
    requires forall k :: si <= k < si + count ==> m[k] == list[from + (k - si)]
    requires forall k :: 0 <= k < si ==> scratch[k] == m[k]
    modifies scratch
    ensures forall k :: 0 <= k < si + count ==> scratch[k] == m[k]
  {
    var i := 0;
    while i < count
      invariant 0 <= i <= count
      invariant forall k :: 0 <= k < si + i ==> scratch[k] == m[k]
    {
      scratch[si + i] := list[from + i];
      i := i + 1;
    }
  }

  /** `Mergesort(list + off, n)`. The loop doubles `list_sz` from 2 while it is at most n; each
      pass sorts the second block of size list_sz/2 by a recursive call and merges it with the
      first. Afterwards list[off..off+SortedSpan(n)) is sorted (all of list[off..off+n) when n
      is a power of two), the range is a permutation of what it was, and nothing outside
      list[off..off+SortedSpan(n)) moved. */
  method Mergesort(list: array<int>, off: int, n: int, scratch: array<int>)
    requires list != scratch && scratch.Length == ScratchLength
    requires 0 <= off && 0 <= n && off + n <= list.Length && n <= scratch.Length
    modifies list, scratch
    decreases n
    ensures SortedRange(list[..], off, off + SortedSpan(n))
    ensures forall k :: 0 <= k < list.Length && !(off <= k < off + SortedSpan(n)) ==>
              list[k] == old(list[k])
    ensures multiset(list[..]) == multiset(old(list[..]))
    ensures n <= 1 ==> list[..] == old(list[..])
  {
    if n <= 1 {
      return;
    }
    var list_sz := 2;
    ghost var k: nat := 0;
    while list_sz <= n
      invariant list_sz == 2 * Pow2(k) && Pow2(k) <= n
      invariant SortedRange(list[..], off, off + Pow2(k))
      invariant forall q :: 0 <= q < list.Length && !(off <= q < off + Pow2(k)) ==>
                  list[q] == old(list[q])
      invariant multiset(list[..]) == multiset(old(list[..]))
    {
      var curr_sz := list_sz / 2;
      MergePass(list, off, n, curr_sz, k, scratch);
      list_sz := list_sz * 2;
      k := k + 1;
    }
    Floor2Unique(n, k);
    assert SortedSpan(n) == Pow2(k);
  }

  /** One pass of the `list_sz` loop with curr_sz = list_sz/2: sort list[off+curr_sz..
      off+2curr_sz) recursively, then merge it with the already sorted list[off..off+curr_sz). */
  method MergePass(list: array<int>, off: int, n: int, curr_sz: int, ghost j: nat,
                   scratch: array<int>)
    requires list != scratch && scratch.Length == ScratchLength
    requires 0 <= off && off + n <= list.Length && n <= scratch.Length
    requires curr_sz == Pow2(j) && 2 * curr_sz <= n
    requires SortedRange(list[..], off, off + curr_sz)
    modifies list, scratch
    decreases n, 0
    ensures SortedRange(list[..], off, off + 2 * curr_sz)
    ensures forall k :: 0 <= k < list.Length && !(off <= k < off + 2 * curr_sz) ==>
              list[k] == old(list[k])
    ensures multiset(list[..]) == multiset(old(list[..]))
  {
    ghost var s0 := list[..];
    Floor2OfPow2(j);
    Mergesort(list, off + curr_sz, curr_sz, scratch);
    ghost var s1 := list[..];
    Merge(list, off, curr_sz, scratch);
    ghost var s2 := list[..];
    PassFacts(s0, s1, s2, off, curr_sz);
  }

  /** The bookkeeping of one pass over three states of the list: s0 before it, s1 after the
      recursive call has sorted the second block, s2 after the merge. */
  lemma PassFacts(s0: seq<int>, s1: seq<int>, s2: seq<int>, off: int, c: int)
    requires 0 <= off && 0 <= c && off + 2 * c <= |s0| == |s1| == |s2|
    requires SortedRange(s0, off, off + c)
    requires SortedRange(s1, off + c, off + 2 * c)
    requires forall k :: 0 <= k < |s0| && !(off + c <= k < off + 2 * c) ==> s1[k] == s0[k]
    requires multiset(s1) == multiset(s0)
    requires s2[off..off + 2 * c] == IntMerge.Merge(s1[off..off + c], s1[off + c..off + 2 * c])
    requires forall k :: 0 <= k < |s0| && !(off <= k < off + 2 * c) ==> s2[k] == s1[k]
    ensures SortedRange(s2, off, off + 2 * c)
    ensures forall k :: 0 <= k < |s0| && !(off <= k < off + 2 * c) ==> s2[k] == s0[k]
    ensures multiset(s2) == multiset(s0)
  {
    MergedHalvesSorted(s0, s1, s2, off, c);
    MergePermutesRange(s1, s2, off, c);
  }

  /** The merge step of a pass: with s1[off..off+c) (still as in s0) and s1[off+c..off+2c)
      sorted, their merge placed at s2[off..off+2c) is sorted. */
  lemma MergedHalvesSorted(s0: seq<int>, s1: seq<int>, s2: seq<int>, off: int, c: int)
    requires 0 <= off && 0 <= c && off + 2 * c <= |s0| == |s1| == |s2|
    requires SortedRange(s0, off, off + c)
    requires SortedRange(s1, off + c, off + 2 * c)
    requires forall k :: 0 <= k < |s0| && !(off + c <= k < off + 2 * c) ==> s1[k] == s0[k]
    requires s2[off..off + 2 * c] == IntMerge.Merge(s1[off..off + c], s1[off + c..off + 2 * c])
    ensures SortedRange(s2, off, off + 2 * c)
  {
    RangeToSlice(s1, off, off + c);
    RangeToSlice(s1, off + c, off + 2 * c);
    IntMerge.MergeSorted(s1[off..off + c], s1[off + c..off + 2 * c]);
    SliceToRange(s2, off, off + 2 * c);
  }

  lemma RangeToSlice(s: seq<int>, lo: int, hi: int)
    requires 0 <= lo <= hi <= |s| && SortedRange(s, lo, hi)
    ensures IntMerge.Sorted(s[lo..hi])
  {
  }

  lemma SliceToRange(s: seq<int>, lo: int, hi: int)
    requires 0 <= lo <= hi <= |s| && IntMerge.Sorted(s[lo..hi])
    ensures SortedRange(s, lo, hi)
  {
    forall i, j | lo <= i < j < hi
      ensures s[i] <= s[j]
    {
      assert s[i] == s[lo..hi][i - lo] && s[j] == s[lo..hi][j - lo];
    }
  }

  /** Replacing s[off..off+2c) by the merge of its two halves permutes any range [off, off+n)
      that contains it. */
  lemma MergePermutesRange(s1: seq<int>, s2: seq<int>, off: int, c: int)
    requires 0 <= off && 0 <= c && off + 2 * c <= |s1| == |s2|
    requires s2[off..off + 2 * c] == IntMerge.Merge(s1[off..off + c], s1[off + c..off + 2 * c])
    requires forall k :: 0 <= k < |s1| && !(off <= k < off + 2 * c) ==> s2[k] == s1[k]
    ensures multiset(s2) == multiset(s1)
  {
    var hi := off + 2 * c;
    var a, b := s1[off..off + c], s1[off + c..hi];
    IntMerge.MergePermutes(a, b);
    assert s1[off..hi] == a + b;
    assert multiset(s2[off..hi]) == multiset(s1[off..hi]);
    PermuteInside(s2, s1, off, hi);
  }

  /** s[lo..hi) is in ascending order. */
  ghost predicate SortedRange(s: seq<int>, lo: int, hi: int)
    requires 0 <= lo <= hi <= |s|
  {
    forall i, j :: lo <= i < j < hi ==> s[i] <= s[j]
  }

  /** Once the merge loop stops at (i1, i2), the rest of the merge m from si is the rest of a
      followed by the rest of b (one of them empty). */
  lemma TailPieces(m: seq<int>, a: seq<int>, b: seq<int>, i1: nat, i2: nat, si: nat)
    requires i1 <= |a| && i2 <= |b| && (i1 == |a| || i2 == |b|) && si == i1 + i2
    requires si <= |m| && m[si..] == IntMerge.MergeFrom(a, b, i1, i2)
    ensures |m| == si + (|a| - i1) + (|b| - i2)
    ensures forall k :: si <= k < si + (|a| - i1) ==> m[k] == a[i1 + (k - si)]
    ensures forall k :: si + (|a| - i1) <= k < |m| ==> m[k] == b[i2 + (k - si - (|a| - i1))]
  {
    assert m[si..] == a[i1..] + b[i2..];
    forall k | si <= k < |m|
      ensures m[k] == m[si..][k - si]
    {
    }
  }
}
