// The order `strcmp` puts on strings (merge.c and linkedlist.c compare with it): dictionary
// order on character codes, a proper prefix before any of its extensions.

module StrOrder {

  /** The sign of `strcmp(a, b)`: -1, 0 or 1 as a comes before, equals or comes after b. */
  function Compare(a: string, b: string): (r: int)
    ensures -1 <= r <= 1
  {
    if |a| == 0 && |b| == 0 then 0
    else if |a| == 0 then -1
    else if |b| == 0 then 1
    else if a[0] < b[0] then -1
    else if b[0] < a[0] then 1
    else Compare(a[1..], b[1..])
  }

  /** a is not after b. */
  predicate Le(a: string, b: string)
  {
    Compare(a, b) <= 0
  }

  /** `strcmp` reports 0 exactly for equal strings. */
  lemma {:induction false} CompareZero(a: string, b: string)
    ensures Compare(a, b) == 0 <==> a == b
    decreases |a|
  {
    if |a| > 0 && |b| > 0 && a[0] == b[0] {
      CompareZero(a[1..], b[1..]);
      if a[1..] == b[1..] {
        assert a == [a[0]] + a[1..] && b == [b[0]] + b[1..];
      }
    }
  }

  /** Swapping the arguments flips the sign, so any two strings are comparable. */
  lemma {:induction false} CompareFlip(a: string, b: string)
    ensures Compare(b, a) == -Compare(a, b)
    decreases |a|
  {
    if |a| > 0 && |b| > 0 && a[0] == b[0] {
      CompareFlip(a[1..], b[1..]);
    }
  }

  /** Not after is transitive, and strictly before followed by not after is strictly before. */
  lemma {:induction false} CompareTransitive(a: string, b: string, c: string)
    requires Compare(a, b) <= 0 && Compare(b, c) <= 0
    ensures Compare(a, c) <= 0
    ensures Compare(a, b) < 0 || Compare(b, c) < 0 ==> Compare(a, c) < 0
    decreases |a|
  {
    if |a| > 0 && |b| > 0 && |c| > 0 && a[0] == b[0] == c[0] {
      CompareTransitive(a[1..], b[1..], c[1..]);
    }
  }

  /** `strcmp(a, b) < 0` fails exactly when b is not after a. */
  lemma NotBefore(a: string, b: string)
    ensures !(Compare(a, b) < 0) <==> Le(b, a)
  {
    CompareFlip(a, b);
  }
}
