// Small facts about sequences that the array loops of the sorts share.

module SeqFacts {

  /** Reading m from k on as x followed by r: m[k] is x and the rest from k + 1 is r. */
  lemma SuffixStep<T>(m: seq<T>, k: int, x: T, r: seq<T>)
    requires 0 <= k <= |m| && m[k..] == [x] + r
    ensures k < |m| && m[k] == x && m[k + 1..] == r
  {
    assert m[k..][0] == m[k] && m[k..][1..] == m[k + 1..];
  }

  /** A prefix that agrees with m, followed by the rest of m, is m. */
  lemma PrefixThenRest<T>(c: seq<T>, m: seq<T>, k: int)
    requires 0 <= k <= |m| && |c| == k
    requires forall i :: 0 <= i < k ==> c[i] == m[i]
    ensures c + m[k..] == m
  {
  }

  /** A sequence that agrees with m on m's length starts with m. */
  lemma PrefixIs<T>(s: seq<T>, m: seq<T>)
    requires |m| <= |s|
    requires forall k :: 0 <= k < |m| ==> s[k] == m[k]
    ensures s[..|m|] == m
  {
  }

  /** If two equally long sequences agree outside [lo, hi) and their [lo, hi) pieces are
      permutations of each other, the whole sequences are too. */
  lemma PermuteInside<T>(s: seq<T>, t: seq<T>, lo: int, hi: int)
    requires 0 <= lo <= hi <= |s| == |t|
    requires forall k :: 0 <= k < |s| && !(lo <= k < hi) ==> s[k] == t[k]
    requires multiset(s[lo..hi]) == multiset(t[lo..hi])
    ensures multiset(s) == multiset(t)
  {
    assert s == s[..lo] + s[lo..hi] + s[hi..];
    assert t == t[..lo] + t[lo..hi] + t[hi..];
    assert s[..lo] == t[..lo] && s[hi..] == t[hi..];
  }

  /** The multiset of s[i..] is s[i] plus the multiset of s[i + 1..]. */
  lemma SuffixMultiset<T>(s: seq<T>, i: nat)
    requires i < |s|
    ensures multiset(s[i..]) == multiset{s[i]} + multiset(s[i + 1..])
  {
    assert s[i..] == [s[i]] + s[i + 1..];
  }

  /** s[i..] followed by t is s[i] followed by s[i + 1..] and t. */
  lemma ConsSuffix<T>(s: seq<T>, i: nat, t: seq<T>)
    requires i < |s|
    ensures s[i..] + t == [s[i]] + (s[i + 1..] + t)
  {
    assert s[i..] == [s[i]] + s[i + 1..];
  }

  /** Entry j of s with x put in at position i. */
  lemma InsertedAt<T>(s: seq<T>, i: nat, x: T, j: nat)
    requires i <= |s| && j <= |s|
    ensures (s[..i] + [x] + s[i..])[j] == if j < i then s[j] else if j == i then x else s[j - 1]
  {
  }

  /** Entry j of s with position i taken out. */
  lemma RemovedAt<T>(s: seq<T>, i: nat, j: nat)
    requires i < |s| && j < |s| - 1
    ensures (s[..i] + s[i + 1..])[j] == if j < i then s[j] else s[j + 1]
  {
  }
}
