// Odd-even transposition sort (serial_odd_even_timed.c): n phases over an array of n ints; an
// even phase compares the pairs (0,1), (2,3), ..., an odd phase the pairs (1,2), (3,4), ...,
// and each out-of-order pair is swapped.

module OddEvenTransposition {
  import IntMerge

  /** The two ways `Get_args` rejects a command line; both print the usage and exit. */
  datatype ArgError = WrongArgCount | BadArgument

  datatype Result<T> = Ok(value: T) | Err(error: ArgError)

  /** The list length and the 'g' (generate) or 'i' (input) flag. */
  datatype Args = Args(n: int, flag: char)

  /** `Get_args`: argv must hold the program name and two arguments; n is what `atoi` makes of
      argv[1] and the flag is the first character of argv[2] (the terminating NUL when argv[2]
      is empty). A list length below 1 or a flag other than 'g' and 'i' is rejected. */
  function GetArgs(argv: seq<string>, n: int): (r: Result<Args>)
    ensures r.Ok? <==> |argv| == 3 && n > 0 && |argv[2]| > 0 && (argv[2][0] == 'g' || argv[2][0] == 'i')
    ensures r.Ok? ==> r.value.n == n && r.value.n >= 1 && r.value.flag == argv[2][0]
    ensures |argv| != 3 ==> r == Err(WrongArgCount)
  {
    if |argv| != 3 then Err(WrongArgCount)
    else
      var flag := if |argv[2]| == 0 then '\0' else argv[2][0];
      if n <= 0 || (flag != 'g' && flag != 'i') then Err(BadArgument)
      else Ok(Args(n, flag))
  }

  function Min(x: int, y: int): int
  {
    if x <= y then x else y
  }

  function Max(x: int, y: int): int
  {
    if x <= y then y else x
  }

  /** Entry j after phase number `phase`: a phase compares the pairs (j, j + 1) whose first index
      has the parity of the phase; the smaller value ends up first. An entry outside every pair
      (the first one in an odd phase, the last one when no partner follows) stays. */
  function PhaseCell(s: seq<int>, phase: nat, j: nat): int
    requires j < |s|
  {
    if j % 2 == phase % 2 && j + 1 < |s| then Min(s[j], s[j + 1])
    else if j >= 1 && (j - 1) % 2 == phase % 2 then Max(s[j - 1], s[j])
    else s[j]
  }

  /** The list after one phase. */
  function Phase(s: seq<int>, phase: nat): (r: seq<int>)
    ensures |r| == |s|
  {
    seq(|s|, j requires 0 <= j < |s| => PhaseCell(s, phase, j))
  }

  /** The list after phases 0, 1, ..., count - 1. */
  function Phases(s: seq<int>, count: nat): (r: seq<int>)
    ensures |r| == |s|
  {
    if count == 0 then s else Phase(Phases(s, count - 1), count - 1)
  }

  // ---------------------------------------------------------------------------
  // The in-place sort

  /** `Swap`: exchanges two entries of the list and leaves the others alone. */
  method Swap(a: array<int>, x: int, y: int)
    requires 0 <= x < a.Length && 0 <= y < a.Length
    modifies a
    ensures a[x] == old(a[y]) && a[y] == old(a[x])
    ensures forall j :: 0 <= j < a.Length && j != x && j != y ==> a[j] == old(a[j])
    ensures multiset(a[..]) == multiset(old(a[..]))
  {
    var temp := a[x];
    a[x] := a[y];
    a[y] := temp;
  }

  /** The body of both loops of `Odd_even_iter`: the pair (left, left + 1) is swapped when out
      of order, so it ends up holding the smaller value first. */
  method CompareExchange(a: array<int>, left: int)
    requires 0 <= left && left + 1 < a.Length
    modifies a
    ensures a[left] == Min(old(a[left]), old(a[left + 1]))
    ensures a[left + 1] == Max(old(a[left]), old(a[left + 1]))
    ensures forall j :: 0 <= j < a.Length && j != left && j != left + 1 ==> a[j] == old(a[j])
    ensures multiset(a[..]) == multiset(old(a[..]))
  {
    if a[left] > a[left + 1] {
      Swap(a, left, left + 1);
    }
  }

  /** `Odd_even_iter(a, n, phase)` with n the length of the array: one phase, performed in
      place; the list ends as `Phase` says, and is a rearrangement of what it was. */
  method OddEvenIter(a: array<int>, phase: nat)
    modifies a
    ensures a[..] == Phase(old(a[..]), phase)
    ensures multiset(a[..]) == multiset(old(a[..]))
  {
    if phase % 2 == 0 {
      EvenPhase(a, phase);
    } else {
      OddPhase(a, phase);
    }
  }

  /** The first loop of `Odd_even_iter`: odd subscripts look left, at the pairs (i - 1, i). */
  method EvenPhase(a: array<int>, phase: nat)
    requires phase % 2 == 0
    modifies a
    ensures a[..] == Phase(old(a[..]), phase)
    ensures multiset(a[..]) == multiset(old(a[..]))
  {
    ghost var s := a[..];
    var n := a.Length;
    var i := 1;
    while i < n
      invariant 1 <= i <= n + 1 && i % 2 == 1
      invariant forall j :: 0 <= j < i - 1 ==> a[j] == PhaseCell(s, phase, j)
      invariant forall j :: i - 1 <= j < n ==> a[j] == s[j]
      invariant multiset(a[..]) == multiset(s)
    {
      PairCells(s, phase, i - 1);
      CompareExchange(a, i - 1);
      i := i + 2;
    }
    if i == n {
      LoneCell(s, phase, n - 1);
    }
    assert a[..] == Phase(s, phase);
  }

  /** The second loop of `Odd_even_iter`: odd subscripts look right, at the pairs (i, i + 1). */
  method OddPhase(a: array<int>, phase: nat)
    requires phase % 2 == 1
    modifies a
    ensures a[..] == Phase(old(a[..]), phase)
    ensures multiset(a[..]) == multiset(old(a[..]))
  {
    ghost var s := a[..];
    var n := a.Length;
    var i := 1;
    if 0 < n {
      LoneCell(s, phase, 0);
    }
    while i < n - 1
      invariant 1 <= i <= n + 1 && i % 2 == 1
      invariant forall j :: 0 <= j < i && j < n ==> a[j] == PhaseCell(s, phase, j)
      invariant forall j :: i <= j < n ==> a[j] == s[j]
      invariant multiset(a[..]) == multiset(s)
    {
      PairCells(s, phase, i);
      CompareExchange(a, i);
      i := i + 2;
    }
    if i == n - 1 {
      LoneCell(s, phase, n - 1);
    }
    assert a[..] == Phase(s, phase);
  }

  /** A compared pair of a phase: its smaller value first, its larger second. */
  lemma PairCells(s: seq<int>, phase: nat, left: nat)
    requires left + 1 < |s| && left % 2 == phase % 2
    ensures PhaseCell(s, phase, left) == Min(s[left], s[left + 1])
    ensures PhaseCell(s, phase, left + 1) == Max(s[left], s[left + 1])
  {
  }

  /** An entry a phase compares with nothing: the first one in an odd phase, or the last one
      when its parity leaves it without a partner. */
  lemma LoneCell(s: seq<int>, phase: nat, j: nat)
    requires j < |s|
    requires (j == 0 && phase % 2 == 1) || (j + 1 == |s| && j % 2 == phase % 2)
    ensures PhaseCell(s, phase, j) == s[j]
  {
  }

  /** `Odd_even_sort(a, n)` with n the length of the array: n phases leave the list sorted in
      ascending order and a rearrangement of the input. */
  method OddEvenSort(a: array<int>)
    modifies a
    ensures a[..] == Phases(old(a[..]), a.Length)
    ensures IntMerge.Sorted(a[..])
    ensures multiset(a[..]) == multiset(old(a[..]))
  {
    ghost var s := a[..];
    var n := a.Length;
    var phase := 0;
    while phase < n
      invariant 0 <= phase <= n
      invariant a[..] == Phases(s, phase)
      invariant multiset(a[..]) == multiset(s)
    {
      OddEvenIter(a, phase);
      phase := phase + 1;
    }
    PhasesSort(s);
  }

  // ---------------------------------------------------------------------------
  // Why n phases sort: lists of zeros and ones first

  predicate ZeroOne(s: seq<int>)
  {
    forall j :: 0 <= j < |s| ==> s[j] == 0 || s[j] == 1
  }

  /** The number of ones in s[x..] of a list of zeros and ones. */
  function Ones(s: seq<int>, x: nat): int
    requires x <= |s|
    decreases |s| - x
  {
    if x == |s| then 0 else s[x] + Ones(s, x + 1)
  }

  /** Between two cuts y <= x there are at most x - y ones, and never a negative number. */
  lemma {:induction false} OnesBetween(s: seq<int>, y: nat, x: nat)
    requires ZeroOne(s) && y <= x <= |s|
    ensures Ones(s, x) <= Ones(s, y) <= Ones(s, x) + (x - y)
    ensures 0 <= Ones(s, x) <= |s| - x
    decreases |s| - y
  {
    if y < x {
      OnesBetween(s, y + 1, x);
    } else if x < |s| {
      OnesBetween(s, x + 1, x + 1);
    }
  }

  /** How far phase t has got the k ones of s to the right, at the cut x: the suffix s[x..]
      holds all k ones, or is all ones, or holds at least half of t + K - x - 1 of them, where K
      is k rounded up to an even number. */
  predicate ProgressAt(s: seq<int>, k: int, K: int, t: int, x: nat)
    requires x <= |s|
  {
    Ones(s, x) >= k || Ones(s, x) >= |s| - x || 2 * Ones(s, x) >= t + K - x - 1
  }

  /** The progress of phase t, at every cut. */
  predicate Progress(s: seq<int>, k: int, K: int, t: int)
  {
    forall x :: 0 <= x <= |s| ==> ProgressAt(s, k, K, t, x)
  }

  /** Every list of zeros and ones has made the progress of phase 0. */
  lemma ProgressInit(s: seq<int>, K: int)
    requires ZeroOne(s) && Ones(s, 0) <= K <= Ones(s, 0) + 1
    ensures Progress(s, Ones(s, 0), K, 0)
  {
    forall x | 0 <= x <= |s|
      ensures ProgressAt(s, Ones(s, 0), K, 0, x)
    {
      OnesBetween(s, 0, x);
    }
  }

  /** A phase turns a list of zeros and ones into another one. */
  lemma PhaseZeroOne(s: seq<int>, t: nat)
    requires ZeroOne(s)
    ensures ZeroOne(Phase(s, t))
  {
  }

  /** At a cut between two compared pairs a phase moves no value across, so the sum of what
      lies beyond the cut stays. */
  lemma {:induction false} OnesAtPairBoundary(s: seq<int>, t: nat, y: nat)
    requires y <= |s| && y % 2 == t % 2
    ensures Ones(Phase(s, t), y) == Ones(s, y)
    decreases |s| - y
  {
    var p := Phase(s, t);
    if y + 1 < |s| {
      OnesAtPairBoundary(s, t, y + 2);
      assert p[y] == Min(s[y], s[y + 1]) && p[y + 1] == Max(s[y], s[y + 1]);
      assert Ones(p, y + 1) == p[y + 1] + Ones(p, y + 2);
      assert Ones(s, y + 1) == s[y + 1] + Ones(s, y + 2);
    } else if y + 1 == |s| {
      assert p[y] == s[y];
    }
  }

  /** A phase keeps the number of ones. */
  lemma OnesTotal(s: seq<int>, t: nat)
    ensures Ones(Phase(s, t), 0) == Ones(s, 0)
  {
    if t % 2 == 0 {
      OnesAtPairBoundary(s, t, 0);
    } else if |s| > 0 {
      OnesAtPairBoundary(s, t, 1);
      assert Phase(s, t)[0] == s[0];
    }
  }

  /** At a cut inside a compared pair (x - 1, x), the suffix gains the larger of the two. */
  lemma OnesInsidePair(s: seq<int>, t: nat, x: nat)
    requires 1 <= x < |s| && x % 2 != t % 2
    ensures Ones(Phase(s, t), x) == Max(s[x - 1], s[x]) + Ones(s, x + 1)
  {
    OnesAtPairBoundary(s, t, x + 1);
    assert Phase(s, t)[x] == Max(s[x - 1], s[x]);
  }

  /** One phase advances the progress by one: the invariant of the argument. At a cut between
      pairs the bound does not grow; at a cut inside a pair where it grows and is tight, the
      neighbouring cuts force a one just left of the cut and a zero just right of it, which
      the phase swaps across. */
  lemma ProgressStep(s: seq<int>, k: int, K: int, t: nat)
    requires ZeroOne(s) && k == Ones(s, 0) && K % 2 == 0 && k <= K <= k + 1
    requires Progress(s, k, K, t)
    ensures Progress(Phase(s, t), k, K, t + 1)
  {
    var p, next := Phase(s, t), t + 1;
    forall x | 0 <= x <= |p|
      ensures ProgressAt(p, k, K, next, x)
    {
      if x % 2 == t % 2 {
        OnesAtPairBoundary(s, t, x);
        assert ProgressAt(s, k, K, t, x);
      } else if x == 0 {
        OnesTotal(s, t);
      } else if x == |s| {
      } else {
        ProgressCut(s, k, K, t, x);
      }
    }
  }

  /** The case of `ProgressStep` for a cut x inside the compared pair (x - 1, x). */
  lemma ProgressCut(s: seq<int>, k: int, K: int, t: nat, x: nat)
    requires ZeroOne(s) && k == Ones(s, 0) && K % 2 == 0 && k <= K <= k + 1
    requires Progress(s, k, K, t)
    requires 1 <= x < |s| && x % 2 != t % 2
    ensures ProgressAt(Phase(s, t), k, K, t + 1, x)
  {
    OnesInsidePair(s, t, x);
    OnesBetween(s, 0, x + 1);
    OnesBetween(s, x - 1, x + 1);
    var o := Ones(s, x);
    assert o == s[x] + Ones(s, x + 1);
    assert Ones(s, x - 1) == s[x - 1] + o;
    assert ProgressAt(s, k, K, t, x);
    if o < k && o < |s| - x && 2 * o < t + K - x {
      // Tight: 2 * o == t + K - x - 1, so the cut to the right forces s[x] == 0 and the cut
      // to the left forces s[x - 1] == 1.
      assert 2 * o == t + K - x - 1;
      assert ProgressAt(s, k, K, t, x + 1);
      assert ProgressAt(s, k, K, t, x - 1);
    }
  }

  /** After `count` phases a list of zeros and ones keeps its zeros and ones and its number of
      ones, and has made the progress of phase `count`. */
  lemma {:induction false} ProgressPhases(s: seq<int>, K: int, count: nat)
    requires ZeroOne(s) && K % 2 == 0 && Ones(s, 0) <= K <= Ones(s, 0) + 1
    ensures ZeroOne(Phases(s, count)) && Ones(Phases(s, count), 0) == Ones(s, 0)
    ensures Progress(Phases(s, count), Ones(s, 0), K, count)
  {
    if count == 0 {
      ProgressInit(s, K);
    } else {
      var q := Phases(s, count - 1);
      ProgressPhases(s, K, count - 1);
      PhaseZeroOne(q, count - 1);
      OnesTotal(q, count - 1);
      ProgressStep(q, Ones(s, 0), K, count - 1);
    }
  }

  /** The progress of phase n on a list of n zeros and ones means no one precedes a zero. */
  lemma ProgressSorted(s: seq<int>, k: int, K: int)
    requires ZeroOne(s) && k == Ones(s, 0) && k <= K
    requires Progress(s, k, K, |s|)
    ensures forall j :: 0 <= j < |s| - 1 ==> s[j] <= s[j + 1]
  {
    forall j | 0 <= j < |s| - 1
      ensures s[j] <= s[j + 1]
    {
      if s[j] == 1 {
        assert ProgressAt(s, k, K, |s|, j + 1);
        OnesBetween(s, 0, j);
        OnesBetween(s, j + 2, j + 2);
        assert Ones(s, j) == 1 + Ones(s, j + 1);
        assert Ones(s, j + 1) == s[j + 1] + Ones(s, j + 2);
      }
    }
  }

  /** n phases sort any list of n zeros and ones. */
  lemma ZeroOneSorted(s: seq<int>)
    requires ZeroOne(s)
    ensures forall j :: 0 <= j < |s| - 1 ==> Phases(s, |s|)[j] <= Phases(s, |s|)[j + 1]
  {
    var k := Ones(s, 0);
    var K := if k % 2 == 0 then k else k + 1;
    ProgressPhases(s, K, |s|);
    ProgressSorted(Phases(s, |s|), k, K);
  }

  // ---------------------------------------------------------------------------
  // From zeros and ones to any list (the 0-1 principle)

  /** 1 where s holds at least c, 0 elsewhere. */
  function Threshold(s: seq<int>, c: int): (r: seq<int>)
    ensures |r| == |s|
  {
    seq(|s|, j requires 0 <= j < |s| => if s[j] >= c then 1 else 0)
  }

  /** Comparing and exchanging commutes with the threshold, so a phase does too. */
  lemma ThresholdPhase(s: seq<int>, c: int, t: nat)
    ensures Phase(Threshold(s, c), t) == Threshold(Phase(s, t), c)
  {
  }

  lemma {:induction false} ThresholdPhases(s: seq<int>, c: int, count: nat)
    ensures Phases(Threshold(s, c), count) == Threshold(Phases(s, count), c)
  {
    if count > 0 {
      ThresholdPhases(s, c, count - 1);
      ThresholdPhase(Phases(s, count - 1), c, count - 1);
    }
  }

  /** Neighbours in order make the whole list ascending. */
  lemma {:induction false} AdjacentSorted(s: seq<int>)
    requires forall j :: 0 <= j < |s| - 1 ==> s[j] <= s[j + 1]
    ensures IntMerge.Sorted(s)
    decreases |s|
  {
    if |s| > 1 {
      AdjacentSorted(s[1..]);
      forall i, j | 0 <= i < j < |s|
        ensures s[i] <= s[j]
      {
        if 0 < i {
          assert s[1..][i - 1] <= s[1..][j - 1];
        } else if 1 < j {
          assert s[1..][0] <= s[1..][j - 1];
        }
      }
    }
  }

  /** `Odd_even_sort` is correct: n phases sort any list of n ints. Were two neighbours out of
      order afterwards, the threshold at the larger one would give a list of zeros and ones
      that n phases leave unsorted. */
  lemma PhasesSort(s: seq<int>)
    ensures IntMerge.Sorted(Phases(s, |s|))
  {
    var r := Phases(s, |s|);
    forall j | 0 <= j < |r| - 1
      ensures r[j] <= r[j + 1]
    {
      NeighboursInOrder(s, j);
    }
    AdjacentSorted(r);
  }

  /** One pair of neighbours of the sorted list, through the threshold at the first of them. */
  lemma NeighboursInOrder(s: seq<int>, j: nat)
    requires j + 1 < |s|
    ensures Phases(s, |s|)[j] <= Phases(s, |s|)[j + 1]
  {
    var r := Phases(s, |s|);
    var z := Threshold(s, r[j]);
    ThresholdPhases(s, r[j], |s|);
    ZeroOneSorted(z);
    var q := Phases(z, |z|);
    assert q == Threshold(r, r[j]);
    assert q[j] == 1 && q[j] <= q[j + 1];
  }
}
