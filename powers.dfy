// Powers of two and quotient arithmetic, shared by the butterfly global sum, the doubling
// mergesort and the Life grid partition.

module Powers {

  function Pow2(k: nat): (r: nat)
    ensures r >= 1
  {
    if k == 0 then 1 else 2 * Pow2(k - 1)
  }

  lemma Pow2Monotone(i: nat, j: nat)
    requires i <= j
    ensures Pow2(i) <= Pow2(j)
  {
    if i < j { Pow2Monotone(i, j - 1); }
  }

  lemma Pow2Split(i: nat, j: nat)
    ensures Pow2(i + j) == Pow2(i) * Pow2(j)
  {
    if j > 0 {
      Pow2Split(i, j - 1);
      assert Pow2(i + j) == 2 * Pow2(i + j - 1);
    }
  }

  /** The largest power of two that is at most n. */
  function Floor2(n: nat): (r: nat)
    requires n >= 1
    ensures r <= n < 2 * r
  {
    if n == 1 then 1 else 2 * Floor2(n / 2)
  }

  /** Floor2(n) is the only power of two p with p <= n < 2p. */
  lemma {:induction false} Floor2Unique(n: nat, k: nat)
    requires Pow2(k) <= n < 2 * Pow2(k)
    ensures Floor2(n) == Pow2(k)
  {
    if k > 0 {
      Floor2Unique(n / 2, k - 1);
    }
  }

  lemma Floor2OfPow2(k: nat)
    ensures Floor2(Pow2(k)) == Pow2(k)
  {
    Floor2Unique(Pow2(k), k);
  }

  // ---------------------------------------------------------------------------
  // Quotient and remainder

  lemma MulMonotone(a: int, b: int, c: int)
    requires 0 <= a <= b && c >= 0
    ensures a * c <= b * c
  {
  }

  /** Quotient and remainder are determined by any decomposition x == q*m + s with 0 <= s < m. */
  lemma DivUnique(x: int, m: int, q: int, s: int)
    requires m > 0 && 0 <= s < m && x == q * m + s
    ensures x / m == q && x % m == s
  {
    var q', s' := x / m, x % m;
    assert (q - q') * m == s' - s;
    if q > q' {
      MulMonotone(1, q - q', m);
      assert false;
    }
    if q < q' {
      MulMonotone(1, q' - q, m);
      assert false;
    }
  }
}
