/**
 Per-character classification of the current sentence for display: each
 character is shown as typed correctly, typed incorrectly, or not yet typed.
 The colours and markup of the display are not modelled.
 */
module Render {
  import opened Accuracy

  datatype CharClass = Correct | Incorrect | Unclassified

  /** One entry per character of `sentence`: characters the buffer reaches are
      Correct or Incorrect according to the buffer's character at that position,
      the rest are Unclassified. */
  function Classify(sentence: string, userInput: string): (r: seq<CharClass>)
    ensures |r| == |sentence|
    ensures forall i :: 0 <= i < |r| ==> (r[i] != Unclassified <==> i < |userInput|)
    ensures forall i :: 0 <= i < |r| ==> (r[i] == Correct <==> Hit(userInput, sentence, i))
  {
    seq(|sentence|, i requires 0 <= i < |sentence| =>
      if i < |userInput| then
        (if userInput[i] == sentence[i] then Correct else Incorrect)
      else Unclassified)
  }

  /** Number of Correct entries among the first `k`. */
  function Greens(cs: seq<CharClass>, k: nat): (r: nat)
    requires k <= |cs|
    ensures r <= k
    decreases k
  {
    if k == 0 then 0
    else Greens(cs, k - 1) + (if cs[k - 1] == Correct then 1 else 0)
  }

  /** The display and the accuracy agree position by position. */
  lemma {:induction false} GreensAreHits(sentence: string, userInput: string, k: nat)
    requires k <= |sentence|
    ensures Greens(Classify(sentence, userInput), k) == Hits(userInput, sentence, k)
    decreases k
  {
    if k > 0 {
      GreensAreHits(sentence, userInput, k - 1);
    }
  }

  /** The number of characters shown as correct is exactly the number of matches
      the accuracy counts for the same buffer against the same sentence. */
  lemma GreensAreMatches(sentence: string, userInput: string)
    ensures Greens(Classify(sentence, userInput), |sentence|) == Matches(userInput, sentence)
  {
    GreensAreHits(sentence, userInput, |sentence|);
    if |userInput| <= |sentence| {
      HitsSaturate(userInput, sentence, |userInput|, |sentence|);
    } else {
      HitsSaturate(userInput, sentence, |sentence|, |userInput|);
    }
  }
}
