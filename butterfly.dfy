// Butterfly-structured global sum (global_sum_bf.c), simulated in lockstep over all ranks.

module Butterfly {
  import opened Powers

  /** Bitwise exclusive or on non-negative integers, one binary digit at a time. */
  function Xor(a: nat, b: nat): nat
    decreases a + b
  {
    if a == 0 && b == 0 then 0 else 2 * Xor(a / 2, b / 2) + (a % 2 + b % 2) % 2
  }

  function Sum(s: seq<int>): int
  {
    if s == [] then 0 else s[0] + Sum(s[1..])
  }

  // ---------------------------------------------------------------------------
  // The partner rule `partner = my_rank ^ bitmask`

  lemma XorZero(a: nat)
    ensures Xor(a, 0) == a
  {
    if a != 0 { XorZero(a / 2); }
  }

  /** The last binary digit of `a ^ b` and the digits above it. */
  lemma XorDigits(a: nat, b: nat)
    ensures Xor(a, b) % 2 == (a % 2 + b % 2) % 2
    ensures Xor(a, b) / 2 == Xor(a / 2, b / 2)
  {
    if a == 0 && b == 0 {
    } else {
      var y := Xor(a / 2, b / 2);
      var d := (a % 2 + b % 2) % 2;
      assert Xor(a, b) == 2 * y + d;
      DivUnique(Xor(a, b), 2, y, d);
    }
  }

  /** The partner's partner is the rank itself, so every exchange is paired. */
  lemma {:induction false} XorInvolution(a: nat, b: nat)
    ensures Xor(Xor(a, b), b) == a
    decreases a + b
  {
    if b == 0 {
      XorZero(a);
      XorZero(Xor(a, b));
    } else {
      var x := Xor(a, b);
      XorInvolution(a / 2, b / 2);
      XorDigits(a, b);
      XorDigits(x, b);
      ParityCancel(a % 2, b % 2);
      Recompose(Xor(x, b), a);
    }
  }

  /** Adding the same binary digit twice, modulo 2, gives back the first. */
  lemma ParityCancel(p: nat, q: nat)
    requires p < 2 && q < 2
    ensures ((p + q) % 2 + q) % 2 == p
  {
  }

  /** Two numbers with the same last binary digit and the same digits above it are equal. */
  lemma Recompose(y: nat, a: nat)
    requires y / 2 == a / 2 && y % 2 == a % 2
    ensures y == a
  {
    assert y == 2 * (y / 2) + y % 2;
    assert a == 2 * (a / 2) + a % 2;
  }

  /** A rank never pairs with itself. */
  lemma {:induction false} XorMoves(a: nat, b: nat)
    requires b > 0
    ensures Xor(a, b) != a
    decreases a + b
  {
    var x := Xor(a, b);
    assert x / 2 == Xor(a / 2, b / 2) && x % 2 == (a % 2 + b % 2) % 2;
    if b % 2 == 0 {
      XorMoves(a / 2, b / 2);
    }
  }

  /** With p = 2^k ranks, `rank ^ bitmask` stays below p whenever rank and bitmask do. */
  lemma {:induction false} XorBound(a: nat, b: nat, k: nat)
    requires a < Pow2(k) && b < Pow2(k)
    ensures Xor(a, b) < Pow2(k)
    decreases k
  {
    if a == 0 && b == 0 {
    } else {
      assert k > 0;
      XorBound(a / 2, b / 2, k - 1);
    }
  }

  /** Binary digit j of r. */
  function Bit(r: nat, j: nat): nat
  {
    if j == 0 then r % 2 else Bit(r / 2, j - 1)
  }

  /** Exclusive or with 2^j flips binary digit j: up by 2^j when it was 0, down when it was 1. */
  lemma {:induction false} XorPow2(a: nat, j: nat)
    ensures Bit(a, j) == 0 ==> Xor(a, Pow2(j)) == a + Pow2(j)
    ensures Bit(a, j) == 1 ==> Xor(a, Pow2(j)) == a - Pow2(j)
    ensures Bit(a, j) <= 1
    decreases j
  {
    if j == 0 {
      XorZero(a / 2);
      assert Xor(a, 1) == 2 * (a / 2) + (a % 2 + 1) % 2;
    } else {
      XorPow2(a / 2, j - 1);
      assert Xor(a, Pow2(j)) == 2 * Xor(a / 2, Pow2(j - 1)) + a % 2;
    }
  }

  // ---------------------------------------------------------------------------
  // Aligned blocks of ranks

  lemma SumConcat(s: seq<int>, t: seq<int>)
    ensures Sum(s + t) == Sum(s) + Sum(t)
  {
    if s == [] {
      assert s + t == t;
    } else {
      assert (s + t)[1..] == s[1..] + t;
    }
  }

  /** r with its j lowest binary digits cleared: the first rank of the aligned block of
      2^j ranks that contains r. */
  function Base(r: nat, j: nat): nat
  {
    if j == 0 then r else 2 * Base(r / 2, j - 1)
  }

  /** The aligned block of size 2^j around r lies inside [0, 2^k) when j <= k and r < 2^k. */
  lemma {:induction false} BlockInside(r: nat, j: nat, k: nat)
    requires j <= k && r < Pow2(k)
    ensures Base(r, j) <= r < Base(r, j) + Pow2(j) <= Pow2(k)
    decreases j
  {
    if j > 0 {
      BlockInside(r / 2, j - 1, k - 1);
    }
  }

  /** Clearing one more digit: the block of size 2^(j+1) starts where r's block of size 2^j
      does when digit j is 0, and 2^j earlier when it is 1. */
  lemma {:induction false} BaseStep(r: nat, j: nat)
    ensures Bit(r, j) == 0 ==> Base(r, j + 1) == Base(r, j)
    ensures Bit(r, j) == 1 ==> Base(r, j + 1) + Pow2(j) == Base(r, j)
    decreases j
  {
    if j > 0 {
      BaseStep(r / 2, j - 1);
    }
  }

  /** Adding 2^j to a rank moves its block of size 2^j up by exactly 2^j. */
  lemma {:induction false} BaseShift(r: nat, j: nat)
    ensures Base(r + Pow2(j), j) == Base(r, j) + Pow2(j)
    decreases j
  {
    if j > 0 {
      assert (r + Pow2(j)) / 2 == r / 2 + Pow2(j - 1);
      BaseShift(r / 2, j - 1);
    }
  }

  /** Every rank below 2^k belongs to the single block of size 2^k, which starts at 0. */
  lemma {:induction false} BaseWhole(r: nat, k: nat)
    requires r < Pow2(k)
    ensures Base(r, k) == 0
    decreases k
  {
    if k > 0 {
      BaseWhole(r / 2, k - 1);
    }
  }

  /** Sum of the contributions of the aligned block of size 2^j that contains rank r. */
  function AlignedSum(c: seq<int>, r: nat, j: nat, k: nat): int
    requires |c| == Pow2(k) && j <= k && r < |c|
  {
    BlockInside(r, j, k);
    Sum(c[Base(r, j)..Base(r, j) + Pow2(j)])
  }

  /** Rank r and its partner `r ^ 2^j` sit in the two halves of one aligned block of size 2^(j+1). */
  lemma PartnerBlocks(r: nat, j: nat, k: nat)
    requires j < k && r < Pow2(k)
    ensures Xor(r, Pow2(j)) < Pow2(k)
    ensures Base(r, j + 1) + 2 * Pow2(j) <= Pow2(k)
    ensures var lo, x := Base(r, j + 1), Xor(r, Pow2(j));
      (Base(r, j) == lo && Base(x, j) == lo + Pow2(j)) ||
      (Base(x, j) == lo && Base(r, j) == lo + Pow2(j))
  {
    var m := Pow2(j);
    assert Pow2(j + 1) == 2 * m;
    Pow2Monotone(j + 1, k);
    XorBound(r, m, k);
    BlockInside(r, j + 1, k);
    BlockInside(r, j, k);
    XorPow2(r, j);
    BaseStep(r, j);
    if Bit(r, j) == 0 {
      BaseShift(r, j);
    } else {
      BaseShift(r - m, j);
    }
  }

  /** One round with bitmask 2^j joins the two aligned halves of an aligned block of size 2^(j+1):
      a rank's block sum plus its partner's block sum is the sum of the doubled block. */
  lemma RoundDoublesBlock(c: seq<int>, r: nat, j: nat, k: nat)
    requires |c| == Pow2(k) && j < k && r < |c|
    ensures Xor(r, Pow2(j)) < |c|
    ensures AlignedSum(c, r, j, k) + AlignedSum(c, Xor(r, Pow2(j)), j, k) == AlignedSum(c, r, j + 1, k)
  {
    var m := Pow2(j);
    assert Pow2(j + 1) == 2 * m;
    PartnerBlocks(r, j, k);
    var lo := Base(r, j + 1);
    assert c[lo..lo + 2 * m] == c[lo..lo + m] + c[lo + m..lo + 2 * m];
    SumConcat(c[lo..lo + m], c[lo + m..lo + 2 * m]);
  }

  /** One `MPI_Sendrecv` round on every rank at once: each rank receives its partner's current
      sum into `temp`, then adds it to its own. Afterwards each rank holds the sum over its
      aligned block of 2^(j+1) ranks. */
  method ExchangeRound(sum: array<int>, temp: array<int>, bitmask: nat,
                       ghost contrib: seq<int>, ghost j: nat, ghost k: nat)
    requires sum != temp && sum.Length == temp.Length == |contrib| == Pow2(k)
    requires j < k && bitmask == Pow2(j)
    requires forall r :: 0 <= r < sum.Length ==> sum[r] == AlignedSum(contrib, r, j, k)
    modifies sum, temp
    ensures forall r :: 0 <= r < sum.Length ==> sum[r] == AlignedSum(contrib, r, j + 1, k)
  {
    var p := sum.Length;
    forall r | 0 <= r < p
      ensures Xor(r, bitmask) < p
      ensures AlignedSum(contrib, r, j, k) + AlignedSum(contrib, Xor(r, bitmask), j, k)
              == AlignedSum(contrib, r, j + 1, k)
    {
      RoundDoublesBlock(contrib, r, j, k);
    }
    forall r | 0 <= r < p {
      temp[r] := sum[Xor(r, bitmask)];
    }
    forall r | 0 <= r < p {
      sum[r] := sum[r] + temp[r];
    }
  }

  /** `Global_sum` for all p = 2^k ranks at once: `contrib[r]` is rank r's contribution and the
      result holds every rank's returned `sum`. The loop runs one exchange round per bitmask
      1, 2, 4, ... below p. */
  method GlobalSum(contrib: seq<int>, ghost k: nat) returns (total: seq<int>, rounds: nat)
    requires |contrib| == Pow2(k)
    ensures |total| == |contrib|
    ensures forall r :: 0 <= r < |total| ==> total[r] == Sum(contrib)
    ensures rounds == k
  {
    var p := |contrib|;
    var sum := new int[p];
    forall r | 0 <= r < p {
      sum[r] := contrib[r];
    }
    var temp := new int[p];
    var bitmask := 1;
    rounds := 0;
    forall r | 0 <= r < p
      ensures sum[r] == AlignedSum(contrib, r, 0, k)
    {
      assert Pow2(0) == 1;
      assert contrib[r..r + 1] == [contrib[r]];
      assert Sum([contrib[r]]) == contrib[r] + Sum([]);
    }
    while bitmask < p
      invariant rounds <= k && bitmask == Pow2(rounds)
      invariant forall r :: 0 <= r < p ==> sum[r] == AlignedSum(contrib, r, rounds, k)
      decreases k - rounds
    {
      if rounds == k { assert false; }
      ExchangeRound(sum, temp, bitmask, contrib, rounds, k);
      bitmask := bitmask * 2;
      rounds := rounds + 1;
    }
    if rounds < k {
      Pow2Monotone(rounds + 1, k);
      assert false;
    }
    forall r | 0 <= r < p
      ensures sum[r] == Sum(contrib)
    {
      BaseWhole(r, k);
      assert contrib[0..p] == contrib;
    }
    total := sum[..];
  }
}
