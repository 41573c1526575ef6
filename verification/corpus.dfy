/**
 The fixed sentence corpus of the typing test and the running total of
 sentence lengths that the session's character counter must agree with.
 */
module Corpus {

  /** The ten sample sentences, in the order the test presents them. */
  const Sentences: seq<string> := [
    "React is a JavaScript library.",
    "Typing fast is fun and challenging.",
    "Measure your speed accurately.",
    "The quick brown fox jumps over the lazy dog.",
    "Practice makes perfect.",
    "Consistency is the key to mastery.",
    "Speed improves with accuracy.",
    "Frontend development is creative.",
    "Never stop learning new things.",
    "Tailwind makes styling easier."
  ]

  /** Only the first eight sentences are ever presented. */
  const MaxSentences: nat := 8

  /** Sum of the lengths of the first `k` sentences. */
  function LengthBefore(k: nat): nat
    requires k <= |Sentences|
  {
    if k == 0 then 0 else LengthBefore(k - 1) + |Sentences[k - 1]|
  }

  /** The corpus covers every index a session can reach, and no sentence is empty,
      so the empty buffer never completes a sentence by itself. */
  lemma CorpusShape()
    ensures MaxSentences <= |Sentences|
    ensures forall i :: 0 <= i < |Sentences| ==> |Sentences[i]| > 0
  {
  }

  /** A full session of eight sentences accounts for 258 characters. */
  lemma FullSessionLength()
    ensures LengthBefore(MaxSentences) == 258
  {
  }

  /** The counter grows strictly with every completed sentence. */
  lemma {:induction false} LengthBeforeGrows(j: nat, k: nat)
    requires j < k <= |Sentences|
    ensures LengthBefore(j) < LengthBefore(k)
    decreases k
  {
    CorpusShape();
    if j < k - 1 {
      LengthBeforeGrows(j, k - 1);
    }
  }
}
