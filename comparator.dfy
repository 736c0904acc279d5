/** Position-wise comparison of two fingerprints of the same modality. */
module Comparator {
  import opened Outcome

  /** The number of positions below the shorter length at which `a` and `b` hold equal
      elements: what the sum over `zip(a, b)` counts. */
  function Matches<T(==)>(a: seq<T>, b: seq<T>): (n: nat)
    ensures n <= |a| && n <= |b|
  {
    if |a| == 0 || |b| == 0 then 0
    else (if a[0] == b[0] then 1 else 0) + Matches(a[1..], b[1..])
  }

  /** The length of the longer fingerprint: the denominator of the score. */
  function Longer<T>(a: seq<T>, b: seq<T>): nat
  {
    if |a| >= |b| then |a| else |b|
  }

  /** Matching is symmetric. */
  lemma {:induction false} MatchesSymmetric<T>(a: seq<T>, b: seq<T>)
    ensures Matches(a, b) == Matches(b, a)
  {
    if |a| != 0 && |b| != 0 {
      MatchesSymmetric(a[1..], b[1..]);
    }
  }

  /** Every element of the shorter fingerprint matches exactly when it is a prefix of the other. */
  lemma {:induction false} MatchesAllOfShorter<T>(a: seq<T>, b: seq<T>)
    requires |a| <= |b|
    ensures Matches(a, b) == |a| <==> a == b[..|a|]
  {
    if |a| != 0 {
      MatchesAllOfShorter(a[1..], b[1..]);
      assert a == [a[0]] + a[1..];
      assert b[..|a|] == [b[0]] + b[1..][..|a| - 1];
    }
  }

  /** Elements of the longer fingerprint past the shorter length never count. */
  lemma {:induction false} MatchesIgnoreTail<T>(a: seq<T>, b: seq<T>, extra: seq<T>)
    requires |b| <= |a|
    ensures Matches(a + extra, b) == Matches(a, b)
  {
    if |b| != 0 {
      assert (a + extra)[1..] == a[1..] + extra;
      MatchesIgnoreTail(a[1..], b[1..], extra);
    }
  }

  /** Every position up to the longer length matches exactly when the fingerprints are equal. */
  lemma FullMatch<T>(a: seq<T>, b: seq<T>)
    ensures Matches(a, b) == Longer(a, b) <==> a == b
  {
    MatchesSymmetric(a, b);
    if |a| <= |b| { MatchesAllOfShorter(a, b); } else { MatchesAllOfShorter(b, a); }
  }

  /** The score: matching positions over the longer length. Two empty fingerprints have no
      score (the source divides by zero). */
  function Similarity<T(==)>(a: seq<T>, b: seq<T>): (s: real)
    requires |a| > 0 || |b| > 0
    ensures 0.0 <= s <= 1.0
    ensures s == 1.0 <==> a == b
  {
    FullMatch(a, b);
    RatioAtMostOne(Matches(a, b) as real, Longer(a, b) as real);
    RatioIsOne(Matches(a, b) as real, Longer(a, b) as real);
    Matches(a, b) as real / Longer(a, b) as real
  }

  lemma RatioAtMostOne(x: real, y: real)
    requires 0.0 <= x <= y && y > 0.0
    ensures 0.0 <= x / y <= 1.0
  {
    assert x / y * y == x;
  }

  lemma RatioIsOne(x: real, y: real)
    requires y > 0.0
    ensures x / y == 1.0 <==> x == y
  {
    assert x / y * y == x;
  }

  /** The score does not depend on the order of the two fingerprints. */
  lemma SimilaritySymmetric<T>(a: seq<T>, b: seq<T>)
    requires |a| > 0 || |b| > 0
    ensures Similarity(a, b) == Similarity(b, a)
  {
    MatchesSymmetric(a, b);
  }

  /** A non-empty fingerprint compared with itself scores exactly 1. */
  lemma SelfSimilarity<T>(a: seq<T>)
    requires |a| > 0
    ensures Similarity(a, a) == 1.0
  {
  }

  /** A fingerprint compared with its own prefix of length `k` scores `k / |a|`: the tail of
      the longer one counts in the denominator although it can never match. */
  lemma PrefixSimilarity<T>(a: seq<T>, k: nat)
    requires 0 < |a| && k <= |a|
    ensures Similarity(a, a[..k]) == k as real / |a| as real
  {
    MatchesAllOfShorter(a[..k], a);
    MatchesSymmetric(a, a[..k]);
  }

  /** Ten elements against their own first five score one half. */
  lemma TruncationExample<T>(a: seq<T>)
    requires |a| == 10
    ensures Similarity(a, a[..5]) == 0.5
  {
    PrefixSimilarity(a, 5);
  }

  /** `_compare_fingerprints`: the score, or the division by zero the source raises when both
      fingerprints are empty. */
  function CompareFingerprints<T(==)>(a: seq<T>, b: seq<T>): (r: Result<real>)
    ensures r.Err? <==> |a| == 0 && |b| == 0
    ensures r.Err? ==> r.error == DivisionByZero
    ensures r.Ok? ==> 0.0 <= r.value <= 1.0 && r.value == Similarity(a, b)
  {
    if |a| == 0 && |b| == 0 then Err(DivisionByZero) else Ok(Similarity(a, b))
  }
}
