// Merging two sorted int arrays into a third (MergePP.c).

module MergePP {
  import opened IntMerge
  import opened SeqFacts

  /** `Merge(A, asize, B, bsize, C, csize)`: C[0..csize) receives the merge of A[0..asize) and
      B[0..bsize); the caller passes csize = asize + bsize. A and B are only read, and nothing
      of C beyond csize is written. */
  method MergeArrays(A: array<int>, asize: int, B: array<int>, bsize: int, C: array<int>, csize: int)
    requires 0 <= asize <= A.Length && 0 <= bsize <= B.Length
    requires csize == asize + bsize && csize <= C.Length
    requires C != A && C != B
    modifies C
    ensures C[..csize] == Merge(A[..asize], B[..bsize])
    ensures multiset(C[..csize]) == multiset(A[..asize] + B[..bsize])
    ensures Sorted(A[..asize]) && Sorted(B[..bsize]) ==> Sorted(C[..csize])
    ensures forall k :: csize <= k < C.Length ==> C[k] == old(C[k])
  {
    ghost var a, b := A[..asize], B[..bsize];
    ghost var m := Merge(a, b);
    MergeFromLength(a, b, 0, 0);
    var ai, bi := MergeFronts(A, asize, B, bsize, C, csize, m);
    var ci := ai + bi;
    ghost var done := C[..ci];
    PrefixThenRest(done, m, ci);
    if ai == asize {
      assert m[ci..] == B[bi..bsize];
      CopyRest(B, bi, C, ci, csize);
      assert C[..csize] == done + B[bi..bsize];
    } else {
      assert m[ci..] == A[ai..asize];
      CopyRest(A, ai, C, ci, csize);
      assert C[..csize] == done + A[ai..asize];
    }
    MergePermutes(a, b);
    if Sorted(a) && Sorted(b) {
      MergeSorted(a, b);
    }
  }

  /** The first loop of `Merge`: while both arrays have entries left, the smaller front (A's on
      ties) goes to C. It stops when one array is used up, with C[0..ai + bi) the start of the
      merge m and the rest of m the merge of what is left. */
  method MergeFronts(A: array<int>, asize: int, B: array<int>, bsize: int, C: array<int>, csize: int,
    ghost m: seq<int>)
    returns (ai: int, bi: int)
    requires 0 <= asize <= A.Length && 0 <= bsize <= B.Length
    requires csize == asize + bsize && csize <= C.Length
    requires C != A && C != B
    requires m == MergeFrom(A[..asize], B[..bsize], 0, 0) && |m| == csize
    modifies C
    ensures 0 <= ai <= asize && 0 <= bi <= bsize && (ai == asize || bi == bsize)
    ensures forall k :: 0 <= k < ai + bi ==> C[k] == m[k]
    ensures m[ai + bi..] == MergeFrom(A[..asize], B[..bsize], ai, bi)
    ensures forall k :: csize <= k < C.Length ==> C[k] == old(C[k])
  {
    ghost var a, b := A[..asize], B[..bsize];
    var ci := 0;
    ai, bi := 0, 0;
    while ai < asize && bi < bsize
      invariant 0 <= ai <= asize && 0 <= bi <= bsize && ci == ai + bi
      invariant forall k :: 0 <= k < ci ==> C[k] == m[k]
      invariant m[ci..] == MergeFrom(a, b, ai, bi)
      invariant forall k :: csize <= k < C.Length ==> C[k] == old(C[k])
    {
      var x, y := A[ai], B[bi];
      assert x == a[ai] && y == b[bi];
      FrontStep(a, b, m, ai, bi, ci);
      if x <= y {
        C[ci] := x;
        ci, ai := ci + 1, ai + 1;
      } else {
        C[ci] := y;
        ci, bi := ci + 1, bi + 1;
      }
    }
  }

  /** The trailing `for (; ci < csize; ci++, si++) C[ci] = src[si];` of `Merge`: afterwards
      C[ci..csize) holds src[si..si + (csize - ci)) and every other entry of C is unchanged. */
  method CopyRest(src: array<int>, si: int, C: array<int>, ci: int, csize: int)
    requires C != src && 0 <= ci <= csize <= C.Length
    requires 0 <= si && si + (csize - ci) <= src.Length
    modifies C
    ensures forall k :: 0 <= k < ci || csize <= k < C.Length ==> C[k] == old(C[k])
    ensures C[ci..csize] == src[si..si + (csize - ci)]
  {
    var i, j := ci, si;
    while i < csize
      invariant ci <= i <= csize && j == si + (i - ci)
      invariant forall k :: 0 <= k < ci || csize <= k < C.Length ==> C[k] == old(C[k])
      invariant forall k :: ci <= k < i ==> C[k] == src[si + (k - ci)]
    {
      C[i] := src[j];
      i, j := i + 1, j + 1;
    }
  }
}
