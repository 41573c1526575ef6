/**
 The input comparator: positional character matching between the typed buffer
 and the target text, and the rounded accuracy percentage derived from it.
 */
module Accuracy {

  /** Position `i` scores when both strings have a character there and the
      characters are equal. A position past the end of the target reads an
      absent value in the original and never scores. */
  predicate Hit(input: string, target: string, i: nat) {
    i < |input| && i < |target| && input[i] == target[i]
  }

  /** Number of scoring positions among `0 .. k-1`. */
  function Hits(input: string, target: string, k: nat): (r: nat)
    ensures r <= k && r <= |input| && r <= |target|
    ensures r == k <==> forall i: nat :: i < k ==> Hit(input, target, i)
    ensures r == 0 <==> forall i: nat :: i < k ==> !Hit(input, target, i)
    decreases k
  {
    if k == 0 then 0
    else Hits(input, target, k - 1) + (if Hit(input, target, k - 1) then 1 else 0)
  }

  /** Number of positions of `input` that match `target`. */
  function Matches(input: string, target: string): nat {
    Hits(input, target, |input|)
  }

  /** The target handed to the comparator: the first `n` characters of `sentence`,
      clamped to its length as string slicing clamps. */
  function Prefix(sentence: string, n: nat): (r: string)
    ensures |r| <= n && |r| <= |sentence|
    ensures |r| == n || |r| == |sentence|
    ensures r <= sentence
  {
    if n <= |sentence| then sentence[..n] else sentence
  }

  /** `100 * c / n` rounded to the nearest integer, halves rounded up, computed
      exactly in integers. */
  function RoundPercent(c: nat, n: nat): (r: nat)
    requires n > 0
    ensures 2 * n * r <= 200 * c + n < 2 * n * r + 2 * n
  {
    DivisionBrackets(200 * c + n, 2 * n);
    (200 * c + n) / (2 * n)
  }

  /** The quotient is bracketed by the divisor's multiples. */
  lemma DivisionBrackets(a: nat, d: nat)
    requires d > 0
    ensures d * (a / d) <= a < d * (a / d) + d
  {
  }

  /** Multiplication by a positive factor reflects strict order. */
  lemma MulCancelLess(d: int, x: int, y: int)
    requires d > 0 && d * x < d * y
    ensures x < y
  {
    assert d * y - d * x == d * (y - x);
  }

  /** Rounding keeps a share of at most one within 0..100, and maps the two
      extremes to exactly 0 and 100. */
  lemma RoundPercentRange(c: nat, n: nat)
    requires 0 < n && c <= n
    ensures RoundPercent(c, n) <= 100
    ensures c == n ==> RoundPercent(c, n) == 100
    ensures c == 0 ==> RoundPercent(c, n) == 0
  {
    var r := RoundPercent(c, n);
    var d := 2 * n;
    assert d * r <= 200 * c + n < d * r + d;
    assert d * r < d * 101;
    MulCancelLess(d, r, 101);
    if c == n {
      assert d * 100 < d * (r + 1);
      MulCancelLess(d, 100, r + 1);
    }
    if c == 0 {
      assert d * r < d * 1;
      MulCancelLess(d, r, 1);
    }
  }

  /** Accuracy in percent: 100 for an empty input, otherwise the share of matching
      positions rounded to the nearest integer, halves rounded up. */
  function Percent(input: string, target: string): (r: nat)
    ensures r <= 100
    ensures |input| == 0 ==> r == 100
    ensures |input| > 0 ==>
      2 * |input| * r <= 200 * Matches(input, target) + |input| < 2 * |input| * r + 2 * |input|
  {
    if |input| == 0 then 100
    else
      RoundPercentRange(Matches(input, target), |input|);
      RoundPercent(Matches(input, target), |input|)
  }

  /** The comparator's loop: walk the input once, counting positions that equal the
      target, then round. */
  method CalculateAccuracy(input: string, target: string) returns (r: nat)
    ensures r == Percent(input, target)
    ensures r <= 100
  {
    if |input| == 0 {
      return 100;
    }
    var correct: nat := 0;
    var i: nat := 0;
    while i < |input|
      invariant i <= |input|
      invariant correct == Hits(input, target, i)
    {
      if i < |target| && input[i] == target[i] {
        correct := correct + 1;
      }
      i := i + 1;
    }
    r := RoundPercent(correct, |input|);
  }

  /** Matching depends on the target only at positions the input reaches. */
  lemma {:induction false} HitsAgree(input: string, t1: string, t2: string, k: nat)
    requires forall i: nat :: i < k && i < |input| ==>
      (i < |t1| <==> i < |t2|) && (i < |t1| ==> t1[i] == t2[i])
    ensures Hits(input, t1, k) == Hits(input, t2, k)
    decreases k
  {
    if k > 0 {
      HitsAgree(input, t1, t2, k - 1);
      assert Hit(input, t1, k - 1) == Hit(input, t2, k - 1);
    }
  }

  /** Positions at or beyond the end of either string add nothing. */
  lemma {:induction false} HitsSaturate(input: string, target: string, k: nat, m: nat)
    requires k <= m
    requires k >= |input| || k >= |target|
    ensures Hits(input, target, m) == Hits(input, target, k)
    decreases m
  {
    if m > k {
      HitsSaturate(input, target, k, m - 1);
      assert !Hit(input, target, m - 1);
    }
  }

  /** Slicing the sentence down to the input's length before comparing changes
      nothing: the comparison against the clamped prefix scores exactly as one
      against the whole sentence. */
  lemma PrefixIsTransparent(input: string, sentence: string)
    ensures Matches(input, Prefix(sentence, |input|)) == Matches(input, sentence)
    ensures Percent(input, Prefix(sentence, |input|)) == Percent(input, sentence)
  {
    HitsAgree(input, Prefix(sentence, |input|), sentence, |input|);
  }

  /** Characters typed past the end of the sentence never score, so the number of
      matches never exceeds the sentence length. */
  lemma OverflowNeverMatches(input: string, sentence: string)
    ensures Matches(input, Prefix(sentence, |input|)) <= |sentence|
    ensures forall i: nat :: |sentence| <= i < |input| ==> !Hit(input, Prefix(sentence, |input|), i)
  {
  }

  /** Typing a faithful prefix of the sentence (possibly all of it) scores 100. */
  lemma {:induction false} FaithfulPrefixScoresFull(input: string, sentence: string)
    requires input <= sentence
    ensures Percent(input, Prefix(sentence, |input|)) == 100
  {
    var t := Prefix(sentence, |input|);
    assert t == input;
    assert forall i: nat :: i < |input| ==> Hit(input, t, i);
    if |input| > 0 {
      RoundPercentRange(Matches(input, t), |input|);
    }
  }

  /** Full marks come from a full match: when every position matches the score is
      100, and when no position matches the score is 0. */
  lemma ScoreExtremes(input: string, target: string)
    requires |input| > 0
    ensures Matches(input, target) == |input| ==> Percent(input, target) == 100
    ensures Matches(input, target) == 0 ==> Percent(input, target) == 0
  {
    RoundPercentRange(Matches(input, target), |input|);
  }
}
