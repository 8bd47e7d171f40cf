// Trial-division prime listing (primes1.c).

module Primes {
  import opened Powers

  /** The ways the command line can be rejected; `Usage` prints a message and exits. */
  datatype ArgError = WrongArgCount | TooSmall

  datatype Result<T> = Ok(value: T) | Err(error: ArgError)

  /** `i` has no divisor in [2, bound). */
  predicate NoDivisorBelow(i: int, bound: int)
  {
    forall d :: 2 <= d < bound ==> i % d != 0
  }

  /** The mathematical notion: at least 2 and divisible only by 1 and itself. */
  predicate IsPrime(i: int)
  {
    i >= 2 && NoDivisorBelow(i, i)
  }

  /** A divisor d of i with d >= j has the cofactor i/d, which is smaller than j when j*j > i. */
  lemma LargeDivisorHasSmallCofactor(i: int, j: int, d: int)
    requires j >= 2 && j * j > i
    requires j <= d < i && i % d == 0
    ensures 2 <= i / d < j && i % (i / d) == 0
  {
    var e := i / d;
    assert i == d * e;
    if e <= 1 {
      if e >= 0 { MulMonotone(e, 1, d); } else { MulMonotone(0, -e, d); }
      assert false;
    }
    if e >= j {
      MulMonotone(j, d, e);
      MulMonotone(j, e, j);
      assert false;
    }
    DivUnique(d * e, e, d, 0);
  }

  /** If no d with 2 <= d and d*d <= i divides i, then nothing in [2, i) divides it. */
  lemma SquareRootBound(i: int, j: int)
    requires j >= 2 && j * j > i
    requires NoDivisorBelow(i, j)
    ensures NoDivisorBelow(i, i)
  {
    forall d | 2 <= d < i
      ensures i % d != 0
    {
      if i % d == 0 && d >= j {
        LargeDivisorHasSmallCofactor(i, j, d);
      }
    }
  }

  /** `Is_prime`: trial division by j = 2, 3, ... while j*j <= i (the source's `j <= sqrt(i)`).
      It answers 1 for every i without a divisor in [2, i), which includes 0, 1 and negative i. */
  method IsPrimeTest(i: int) returns (r: int)
    ensures r == 0 || r == 1
    ensures r == 1 <==> NoDivisorBelow(i, i)
    ensures i >= 2 ==> (r == 1 <==> IsPrime(i))
    ensures i < 4 ==> r == 1
  {
    var j := 2;
    while j * j <= i
      invariant j >= 2
      invariant NoDivisorBelow(i, j)
      decreases i - j
    {
      assert j < j * j;
      if i % j == 0 {
        assert !NoDivisorBelow(i, i);
        return 0;
      }
      j := j + 1;
    }
    SquareRootBound(i, j);
    return 1;
  }

  /** `Get_n`: exactly one argument, and the value it converts to must exceed 1. */
  function GetN(argc: int, arg: int): (r: Result<int>)
    ensures r.Ok? <==> argc == 2 && arg > 1
    ensures r.Ok? ==> r.value == arg && r.value >= 2
    ensures argc != 2 ==> r == Err(WrongArgCount)
  {
    if argc != 2 then Err(WrongArgCount)
    else if arg <= 1 then Err(TooSmall)
    else Ok(arg)
  }

  /** An even number above 2 is not prime, so testing odd candidates only loses nothing. */
  lemma EvenNotPrime(x: int)
    requires x > 2 && x % 2 == 0
    ensures !IsPrime(x)
  {
    assert x % 2 == 0;
  }

  predicate StrictlyAscending(s: seq<int>)
  {
    forall a, b :: 0 <= a < b < |s| ==> s[a] < s[b]
  }

  /** `main`: 2 first, then every odd i in 3..n that passes the test, in ascending order.
      For n >= 2 (what `Get_n` guarantees) that is exactly the primes up to n. */
  method ListPrimes(n: int) returns (primes: seq<int>)
    ensures |primes| > 0 && primes[0] == 2
    ensures StrictlyAscending(primes)
    ensures forall x :: x in primes[1..] <==> 3 <= x <= n && x % 2 == 1 && IsPrime(x)
    ensures n >= 2 ==> forall x :: x in primes <==> 2 <= x <= n && IsPrime(x)
  {
    primes := [2];
    var i := 3;
    while i <= n
      invariant i >= 3 && i % 2 == 1
      invariant i <= n + 2 || i == 3
      invariant |primes| >= 1 && primes[0] == 2
      invariant forall k :: 0 <= k < |primes| ==> primes[k] < i
      invariant StrictlyAscending(primes)
      invariant forall x :: x in primes[1..] <==> 3 <= x < i && x % 2 == 1 && IsPrime(x)
      decreases n - i
    {
      var p := IsPrimeTest(i);
      ghost var before := primes;
      if p == 1 {
        primes := primes + [i];
        assert primes[1..] == before[1..] + [i];
      }
      assert forall x :: i <= x < i + 2 && x % 2 == 1 ==> x == i;
      i := i + 2;
    }
    if n >= 2 {
      forall x
        ensures x in primes <==> 2 <= x <= n && IsPrime(x)
      {
        if 2 < x <= n && x % 2 == 0 {
          EvenNotPrime(x);
        }
        assert x in primes <==> x == 2 || x in primes[1..];
      }
    }
  }
}
