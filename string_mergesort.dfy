// Top-down merge sort of an array of strings under `strcmp` (merge.c).

module StringMergeSort {
  import opened StrOrder
  import opened SeqFacts

  predicate Sorted(s: seq<string>)
  {
    forall i, j :: 0 <= i < j < |s| ==> Le(s[i], s[j])
  }

  /** s[lo..hi) is in `strcmp` order. */
  ghost predicate SortedRange(s: seq<string>, lo: int, hi: int)
    requires 0 <= lo <= hi <= |s|
  {
    forall i, j :: lo <= i < j < hi ==> Le(s[i], s[j])
  }

  /** The merge of the suffixes a[i..] and b[j..] as `merge` performs it: the front of a is
      taken only when it is strictly before the front of b, so on equal strings b's goes first. */
  function MergeFrom(a: seq<string>, b: seq<string>, i: nat, j: nat): seq<string>
    requires i <= |a| && j <= |b|
    decreases |a| - i + |b| - j
  {
    if i == |a| then b[j..]
    else if j == |b| then a[i..]
    else if Compare(a[i], b[j]) < 0 then [a[i]] + MergeFrom(a, b, i + 1, j)
    else [b[j]] + MergeFrom(a, b, i, j + 1)
  }

  function Merge(a: seq<string>, b: seq<string>): seq<string>
  {
    MergeFrom(a, b, 0, 0)
  }

  lemma {:induction false} MergeFromLength(a: seq<string>, b: seq<string>, i: nat, j: nat)
    requires i <= |a| && j <= |b|
    ensures |MergeFrom(a, b, i, j)| == (|a| - i) + (|b| - j)
    decreases |a| - i + |b| - j
  {
    if i < |a| && j < |b| {
      if Compare(a[i], b[j]) < 0 {
        MergeFromLength(a, b, i + 1, j);
      } else {
        MergeFromLength(a, b, i, j + 1);
      }
    }
  }

  lemma {:induction false} MergeFromPermutes(a: seq<string>, b: seq<string>, i: nat, j: nat)
    requires i <= |a| && j <= |b|
    ensures multiset(MergeFrom(a, b, i, j)) == multiset(a[i..]) + multiset(b[j..])
    decreases |a| - i + |b| - j
  {
    if i == |a| || j == |b| {
    } else if Compare(a[i], b[j]) < 0 {
      MergeFromPermutes(a, b, i + 1, j);
      SuffixMultiset(a, i);
    } else {
      MergeFromPermutes(a, b, i, j + 1);
      SuffixMultiset(b, j);
    }
  }

  /** The merge is a permutation of a ++ b. */
  lemma MergePermutes(a: seq<string>, b: seq<string>)
    ensures |Merge(a, b)| == |a| + |b|
    ensures multiset(Merge(a, b)) == multiset(a + b)
  {
    MergeFromLength(a, b, 0, 0);
    MergeFromPermutes(a, b, 0, 0);
    assert a[0..] == a && b[0..] == b;
  }

  /** Nothing in the merge of the suffixes comes before a string that comes before both. */
  lemma MergeFromLowerBound(a: seq<string>, b: seq<string>, i: nat, j: nat, x: string)
    requires i <= |a| && j <= |b|
    requires forall k :: i <= k < |a| ==> Le(x, a[k])
    requires forall k :: j <= k < |b| ==> Le(x, b[k])
    ensures forall k :: 0 <= k < |MergeFrom(a, b, i, j)| ==> Le(x, MergeFrom(a, b, i, j)[k])
  {
    MergeFromPermutes(a, b, i, j);
    forall k | 0 <= k < |MergeFrom(a, b, i, j)|
      ensures Le(x, MergeFrom(a, b, i, j)[k])
    {
      var y := MergeFrom(a, b, i, j)[k];
      assert y in multiset(MergeFrom(a, b, i, j));
      assert y in multiset(a[i..]) || y in multiset(b[j..]);
    }
  }

  /** The front that `merge` takes is not after anything still waiting in either suffix. */
  lemma FrontIsLeast(a: seq<string>, b: seq<string>, i: nat, j: nat)
    requires i < |a| && j < |b| && Sorted(a) && Sorted(b)
    ensures Compare(a[i], b[j]) < 0 ==>
      (forall k :: i + 1 <= k < |a| ==> Le(a[i], a[k])) && (forall k :: j <= k < |b| ==> Le(a[i], b[k]))
    ensures !(Compare(a[i], b[j]) < 0) ==>
      (forall k :: i <= k < |a| ==> Le(b[j], a[k])) && (forall k :: j + 1 <= k < |b| ==> Le(b[j], b[k]))
  {
    if Compare(a[i], b[j]) < 0 {
      forall k | j <= k < |b|
        ensures Le(a[i], b[k])
      {
        if k > j {
          CompareTransitive(a[i], b[j], b[k]);
        }
      }
    } else {
      NotBefore(a[i], b[j]);
      forall k | i <= k < |a|
        ensures Le(b[j], a[k])
      {
        if k > i {
          CompareTransitive(b[j], a[i], a[k]);
        }
      }
    }
  }

  lemma {:induction false} MergeFromSorted(a: seq<string>, b: seq<string>, i: nat, j: nat)
    requires i <= |a| && j <= |b| && Sorted(a) && Sorted(b)
    ensures Sorted(MergeFrom(a, b, i, j))
    decreases |a| - i + |b| - j
  {
    if i == |a| || j == |b| {
    } else {
      FrontIsLeast(a, b, i, j);
      if Compare(a[i], b[j]) < 0 {
        MergeFromSorted(a, b, i + 1, j);
        MergeFromLowerBound(a, b, i + 1, j, a[i]);
      } else {
        MergeFromSorted(a, b, i, j + 1);
        MergeFromLowerBound(a, b, i, j + 1, b[j]);
      }
    }
  }

  /** Merging two sequences in `strcmp` order gives a sequence in `strcmp` order. */
  lemma MergeSorted(a: seq<string>, b: seq<string>)
    requires Sorted(a) && Sorted(b)
    ensures Sorted(Merge(a, b))
  {
    MergeFromSorted(a, b, 0, 0);
  }

  /** When nothing in b[j..] is after anything in a[i..], the merge of the suffixes is b[j..]
      followed by a[i..]. */
  lemma {:induction false} MergeFromRightFirst(a: seq<string>, b: seq<string>, i: nat, j: nat)
    requires i <= |a| && j <= |b|
    requires forall p, q :: i <= p < |a| && j <= q < |b| ==> Le(b[q], a[p])
    ensures MergeFrom(a, b, i, j) == b[j..] + a[i..]
    decreases |b| - j
  {
    if i == |a| {
    } else if j == |b| {
    } else {
      assert Le(b[j], a[i]);
      NotBefore(a[i], b[j]);
      MergeFromRightFirst(a, b, i, j + 1);
      ConsSuffix(b, j, a[i..]);
    }
  }

  /** Ties go to the right half: when no string of b is after any string of a (for instance
      when all of them are equal), the whole of b is placed before a. */
  lemma MergeRightFirst(a: seq<string>, b: seq<string>)
    requires forall p, q :: 0 <= p < |a| && 0 <= q < |b| ==> Le(b[q], a[p])
    ensures Merge(a, b) == b + a
  {
    MergeFromRightFirst(a, b, 0, 0);
    assert a[0..] == a && b[0..] == b;
  }

  /** On equal fronts the right half's string is placed first. */
  lemma MergeTieTakesRight(a: seq<string>, b: seq<string>)
    requires |a| > 0 && |b| > 0 && a[0] == b[0]
    ensures Merge(a, b) == [b[0]] + MergeFrom(a, b, 0, 1)
  {
    CompareZero(a[0], b[0]);
  }

  // ---------------------------------------------------------------------------
  // The array procedures

  /** `merge(list, left_start, left_end, right_start, right_end)`: both ranges are copied out
      first, then their merge is written to list from left_start on, one entry per string of
      either range; nothing else in list changes. */
  method MergeRanges(list: array<string>, left_start: int, left_end: int,
                     right_start: int, right_end: int)
    requires 0 <= left_start <= left_end <= list.Length
    requires 0 <= right_start <= right_end <= list.Length
    requires left_end + (right_end - right_start) <= list.Length
    modifies list
    ensures list[left_start..left_end + (right_end - right_start)]
            == Merge(old(list[left_start..left_end]), old(list[right_start..right_end]))
    ensures forall k :: 0 <= k < list.Length && !(left_start <= k < left_end + (right_end - right_start))
                        ==> list[k] == old(list[k])
  {
    var left_half := list[left_start..left_end];
    var right_half := list[right_start..right_end];
    ghost var m := Merge(left_half, right_half);
    MergeFromLength(left_half, right_half, 0, 0);
    var i, l, r := MergeFronts(list, left_start, left_half, right_half, m);
    i, l := CopyLeftRest(list, left_start, i, left_half, right_half, l, r, m);
    i, r := CopyRightRest(list, left_start, i, left_half, right_half, l, r, m);
    PrefixIs(list[left_start..i], m);
  }

  /** The first loop of `merge`: while both halves have strings left, write the one `strcmp`
      puts first (the right one on a tie). */
  method MergeFronts(list: array<string>, left_start: int, left_half: seq<string>,
                     right_half: seq<string>, ghost m: seq<string>)
      returns (i: int, l: nat, r: nat)
    requires m == Merge(left_half, right_half) && |m| == |left_half| + |right_half|
    requires 0 <= left_start && left_start + |m| <= list.Length
    modifies list
    ensures l <= |left_half| && r <= |right_half| && (l == |left_half| || r == |right_half|)
    ensures i == left_start + l + r
    ensures forall k :: left_start <= k < i ==> list[k] == m[k - left_start]
    ensures m[l + r..] == MergeFrom(left_half, right_half, l, r)
    ensures forall k :: 0 <= k < list.Length && !(left_start <= k < i) ==> list[k] == old(list[k])
  {
    i, l, r := left_start, 0, 0;
    while l < |left_half| && r < |right_half|
      invariant l <= |left_half| && r <= |right_half| && i == left_start + l + r
      invariant forall k :: left_start <= k < i ==> list[k] == m[k - left_start]
      invariant m[l + r..] == MergeFrom(left_half, right_half, l, r)
      invariant forall k :: 0 <= k < list.Length && !(left_start <= k < i) ==> list[k] == old(list[k])
    {
      var x, y := left_half[l], right_half[r];
      if Compare(x, y) < 0 {
        SuffixStep(m, l + r, x, MergeFrom(left_half, right_half, l + 1, r));
        list[i] := x;
        l := l + 1;
      } else {
        SuffixStep(m, l + r, y, MergeFrom(left_half, right_half, l, r + 1));
        list[i] := y;
        r := r + 1;
      }
      i := i + 1;
    }
  }

  /** `for ( ; l < left_length; i++, l++)`: once the right half is used up, copy the rest of the
      left half in order. */
  method CopyLeftRest(list: array<string>, left_start: int, i0: int, left_half: seq<string>,
                      right_half: seq<string>, l0: nat, r: nat, ghost m: seq<string>)
      returns (i: int, l: nat)
    requires l0 <= |left_half| && r <= |right_half| && (l0 == |left_half| || r == |right_half|)
    requires |m| == |left_half| + |right_half|
    requires 0 <= left_start && i0 == left_start + l0 + r && left_start + |m| <= list.Length
    requires forall k :: left_start <= k < i0 ==> list[k] == m[k - left_start]
    requires m[l0 + r..] == MergeFrom(left_half, right_half, l0, r)
    modifies list
    ensures l == |left_half| && i == left_start + l + r
    ensures forall k :: left_start <= k < i ==> list[k] == m[k - left_start]
    ensures m[l + r..] == MergeFrom(left_half, right_half, l, r)
    ensures forall k :: 0 <= k < list.Length && !(left_start <= k < i) ==> list[k] == old(list[k])
  {
    i, l := i0, l0;
    while l < |left_half|
      invariant l <= |left_half| && i == left_start + l + r
      invariant l == |left_half| || r == |right_half|
      invariant forall k :: left_start <= k < i ==> list[k] == m[k - left_start]
      invariant m[l + r..] == MergeFrom(left_half, right_half, l, r)
      invariant forall k :: 0 <= k < list.Length && !(left_start <= k < i) ==> list[k] == old(list[k])
    {
      assert left_half[l..] == [left_half[l]] + left_half[l + 1..];
      SuffixStep(m, l + r, left_half[l], MergeFrom(left_half, right_half, l + 1, r));
      list[i] := left_half[l];
      i, l := i + 1, l + 1;
    }
  }

  /** `for ( ; r < right_length; i++, r++)`: once the left half is used up, copy the rest of the
      right half in order. */
  method CopyRightRest(list: array<string>, left_start: int, i0: int, left_half: seq<string>,
                       right_half: seq<string>, l: nat, r0: nat, ghost m: seq<string>)
      returns (i: int, r: nat)
    requires l == |left_half| && r0 <= |right_half|
    requires |m| == |left_half| + |right_half|
    requires 0 <= left_start && i0 == left_start + l + r0 && left_start + |m| <= list.Length
    requires forall k :: left_start <= k < i0 ==> list[k] == m[k - left_start]
    requires m[l + r0..] == MergeFrom(left_half, right_half, l, r0)
    modifies list
    ensures r == |right_half| && i == left_start + |m|
    ensures forall k :: left_start <= k < i ==> list[k] == m[k - left_start]
    ensures forall k :: 0 <= k < list.Length && !(left_start <= k < i) ==> list[k] == old(list[k])
  {
    i, r := i0, r0;
    while r < |right_half|
      invariant r <= |right_half| && i == left_start + l + r
      invariant forall k :: left_start <= k < i ==> list[k] == m[k - left_start]
      invariant m[l + r..] == MergeFrom(left_half, right_half, l, r)
      invariant forall k :: 0 <= k < list.Length && !(left_start <= k < i) ==> list[k] == old(list[k])
    {
      assert right_half[r..] == [right_half[r]] + right_half[r + 1..];
      SuffixStep(m, l + r, right_half[r], MergeFrom(left_half, right_half, l, r + 1));
      list[i] := right_half[r];
      i, r := i + 1, r + 1;
    }
  }

  /** `mergesort_r(left, right, list)`: a range of fewer than two strings is left alone;
      otherwise both halves around (left + right) / 2 are sorted recursively and then merged.
      Afterwards list[left..right) is in `strcmp` order and a permutation of what it held, and
      nothing outside it has changed. */
  method MergesortRange(left: int, right: int, list: array<string>)
    requires right - left <= 1 || (0 <= left && right <= list.Length)
    modifies list
    ensures right - left <= 1 ==> list[..] == old(list[..])
    ensures 0 <= left <= right <= list.Length ==> SortedRange(list[..], left, right)
    ensures forall k :: 0 <= k < list.Length && !(left <= k < right) ==> list[k] == old(list[k])
    ensures multiset(list[..]) == multiset(old(list[..]))
    decreases right - left
  {
    if right - left <= 1 {
      return;
    }
    var left_start := left;
    var left_end := (left + right) / 2;
    var right_start := left_end;
    var right_end := right;
    ghost var s0 := list[..];
    MergesortRange(left_start, left_end, list);
    ghost var s1 := list[..];
    MergesortRange(right_start, right_end, list);
    ghost var s2 := list[..];
    MergeRanges(list, left_start, left_end, right_start, right_end);
    ghost var s3 := list[..];
    SortFacts(s0, s1, s2, s3, left, left_end, right);
  }

  /** What the three steps of `mergesort_r` add up to: the two recursive sorts and the merge
      each keep everything outside [lo, hi) and permute the whole array, and together they
      leave [lo, hi) sorted. */
  lemma SortFacts(s0: seq<string>, s1: seq<string>, s2: seq<string>, s3: seq<string>,
                  lo: int, mid: int, hi: int)
    requires 0 <= lo <= mid <= hi <= |s0| == |s1| == |s2| == |s3|
    requires SortedRange(s1, lo, mid) && SortedRange(s2, mid, hi)
    requires forall k :: 0 <= k < |s0| && !(lo <= k < mid) ==> s1[k] == s0[k]
    requires forall k :: 0 <= k < |s0| && !(mid <= k < hi) ==> s2[k] == s1[k]
    requires multiset(s1) == multiset(s0) && multiset(s2) == multiset(s1)
    requires s3[lo..hi] == Merge(s2[lo..mid], s2[mid..hi])
    requires forall k :: 0 <= k < |s0| && !(lo <= k < hi) ==> s3[k] == s2[k]
    ensures SortedRange(s3, lo, hi)
    ensures forall k :: 0 <= k < |s0| && !(lo <= k < hi) ==> s3[k] == s0[k]
    ensures multiset(s3) == multiset(s0)
  {
    assert s2[lo..mid] == s1[lo..mid];
    MergedRangeSorted(s2, s3, lo, mid, hi);
    MergedRangePermutes(s2, s3, lo, mid, hi);
  }

  /** Merging the sorted ranges [lo, mid) and [mid, hi) leaves [lo, hi) sorted. */
  lemma MergedRangeSorted(s2: seq<string>, s3: seq<string>, lo: int, mid: int, hi: int)
    requires 0 <= lo <= mid <= hi <= |s2| == |s3|
    requires Sorted(s2[lo..mid]) && SortedRange(s2, mid, hi)
    requires s3[lo..hi] == Merge(s2[lo..mid], s2[mid..hi])
    ensures SortedRange(s3, lo, hi)
  {
    RangeToSlice(s2, mid, hi);
    MergeSorted(s2[lo..mid], s2[mid..hi]);
    SliceToRange(s3, lo, hi);
  }

  /** Replacing [lo, hi) by the merge of its two parts permutes the whole sequence. */
  lemma MergedRangePermutes(s2: seq<string>, s3: seq<string>, lo: int, mid: int, hi: int)
    requires 0 <= lo <= mid <= hi <= |s2| == |s3|
    requires s3[lo..hi] == Merge(s2[lo..mid], s2[mid..hi])
    requires forall k :: 0 <= k < |s2| && !(lo <= k < hi) ==> s3[k] == s2[k]
    ensures multiset(s3) == multiset(s2)
  {
    MergePermutes(s2[lo..mid], s2[mid..hi]);
    assert s2[lo..hi] == s2[lo..mid] + s2[mid..hi];
    PermuteInside(s3, s2, lo, hi);
  }

  lemma RangeToSlice(s: seq<string>, lo: int, hi: int)
    requires 0 <= lo <= hi <= |s| && SortedRange(s, lo, hi)
    ensures Sorted(s[lo..hi])
  {
  }

  lemma SliceToRange(s: seq<string>, lo: int, hi: int)
    requires 0 <= lo <= hi <= |s| && Sorted(s[lo..hi])
    ensures SortedRange(s, lo, hi)
  {
    forall i, j | lo <= i < j < hi
      ensures Le(s[i], s[j])
    {
      assert s[i] == s[lo..hi][i - lo] && s[j] == s[lo..hi][j - lo];
    }
  }

  /** `mergesort(list, length)`: sorts list[0..length) in `strcmp` order, as a permutation,
      and leaves the rest of list alone. */
  method Mergesort(list: array<string>, length: int)
    requires length <= 1 || length <= list.Length
    modifies list
    ensures 0 <= length <= list.Length ==> Sorted(list[..length])
    ensures forall k :: 0 <= k < list.Length && !(0 <= k < length) ==> list[k] == old(list[k])
    ensures multiset(list[..]) == multiset(old(list[..]))
  {
    MergesortRange(0, length, list);
    if 0 <= length <= list.Length {
      RangeToSlice(list[..], 0, length);
      assert list[..][0..length] == list[..length];
    }
  }
}
