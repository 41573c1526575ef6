# Typing speed test: session model

A Dafny model of the logic inside the typing-test widget (`src/App.jsx`). The
widget presents eight sentences from a fixed corpus, one at a time. On every
change of the text box it:

- records the session start time on the first keystroke;
- recomputes the accuracy of the buffer against the current sentence;
- when the buffer equals the whole sentence, credits the sentence's length to
  the character counter and then either advances to the next sentence or, after
  the eighth, records the end time and completes the test.

A restart puts every field back to its starting value. The display classifies
each sentence character as correct, incorrect or not yet typed. The
words-per-minute figure is shown only once both timestamps exist.

Modules:

- `Corpus` (`corpus.dfy`): the ten sentences, the cap of eight, and prefix sums of
  sentence lengths.
- `Accuracy` (`accuracy.dfy`): positional matching, the clamped target prefix, the
  integer rounding, and the comparator loop as a method.
- `Render` (`render.dfy`): the per-character classification and its agreement
  with the accuracy count.
- `Session` (`session.dfy`): the session state, the keystroke transition `Step`,
  `Restart`, the WPM guard, the event gating of the rendered widget, runs of
  events, and the session invariant `Inv`.

The React state updates inside one change handler all read the values from
before the event, so the model treats each event as one atomic step from the old
state. The current sentence is `Sentences[index]`. The effect that copies the
sentence into its own state variable is not modelled separately.

## Model

| member | source | states |
|---|---|---|
| Accuracy.Hits | src/App.jsx:59-62 | the count of matching positions below `k` is at most `k` and at most either string's length, equals `k` exactly when every position below `k` matches, and is 0 exactly when none does |
| Accuracy.Prefix | src/App.jsx:39 | the target passed to the comparator is a prefix of the sentence whose length is the input's length, clamped to the sentence's length |
| Accuracy.RoundPercent | src/App.jsx:63 | the result is the nearest integer to `100 * correct / length`, with halves rounded up |
| Accuracy.RoundPercentRange | src/App.jsx:63 | for a share of at most one, the rounded percentage lies in 0..100; a full match gives exactly 100 and no match gives exactly 0 |
| Accuracy.Percent | src/App.jsx:57-64 | accuracy is 100 for an empty input, always at most 100, and otherwise the rounded share of matching positions |
| Accuracy.CalculateAccuracy | src/App.jsx:57-64 | the single counting loop over the input computes exactly the accuracy defined by `Percent`, which is at most 100 |
| Accuracy.PrefixIsTransparent | src/App.jsx:39 | comparing against the clamped prefix gives the same match count and accuracy as comparing against the whole sentence |
| Accuracy.OverflowNeverMatches | src/App.jsx:60-61 | input characters beyond the sentence's end never match, so the match count never exceeds the sentence length |
| Accuracy.FaithfulPrefixScoresFull | src/App.jsx:39-40 | an input that equals the same-length prefix of the sentence, including the whole sentence, scores 100 |
| Accuracy.ScoreExtremes | src/App.jsx:58-63 | for a non-empty input, all positions matching gives 100 and no position matching gives 0 |
| Corpus.CorpusShape | src/App.jsx:4-17 | the corpus holds at least the eight presented sentences, and none is empty |
| Corpus.FullSessionLength | src/App.jsx:4-17 | the eight presented sentences total 258 characters |
| Corpus.LengthBeforeGrows | src/App.jsx:43 | each finished sentence strictly increases the credited character total |
| Render.Classify | src/App.jsx:73-81 | one entry per sentence character; entry `i` is classified exactly when `i` is below the buffer length, and Correct exactly when the buffer matches the sentence there |
| Render.GreensAreHits | src/App.jsx:77-80 | among the first `k` characters, the Correct entries are exactly the matching positions the comparator counts |
| Render.GreensAreMatches | src/App.jsx:73-81 | the number of characters shown as correct equals the comparator's match count for the same buffer and sentence |
| Session.Step | src/App.jsx:33-55 | the start time is written only when it was not set; the stored accuracy is measured against the whole sentence; a non-finishing keystroke changes only the buffer, the accuracy and the start time; a finishing keystroke credits the sentence length and scores 100, and either advances the index by one with an empty buffer or, on the eighth sentence, completes the test with the end time while the index stays put |
| Session.Restart | src/App.jsx:90-99 | from any state: index 0 showing the first sentence, empty buffer, no timestamps, counter 0, accuracy 100, not complete |
| Session.Wpm | src/App.jsx:66-69 | the guard yields 0 exactly when either timestamp is not set; otherwise the formula receives the elapsed milliseconds and the character count |
| Session.Apply | src/App.jsx:111-161 | an event admitted by the rendered widget keeps the session invariant; keystrokes reach only an in-progress session and restarts only a completed one |
| Session.Run | src/App.jsx:33-55 | any sequence of events from an invariant state ends in an invariant state |
| Session.InitialInv | src/App.jsx:20-27 | the starting state satisfies the invariant, and so does every state reachable from it |
| Session.StepPreservesInv | src/App.jsx:36-54 | a keystroke keeps the index below 8, the counter equal to the lengths of the finished sentences, and the end time absent until completion |
| Session.ReachableBounds | src/App.jsx:17-51 | in every reachable state the index is in 0..7, the accuracy is in 0..100, and the counter is the sum of the finished sentences' lengths, or of all eight once complete |
| Session.StartTimeWriteOnce | src/App.jsx:36 | once a non-zero start time is set, no sequence of later keystrokes changes it |
| Session.EndTimeOnlyOnCompletion | src/App.jsx:45-47 | from a reachable in-progress state, a keystroke yields an end time exactly when it completes the test |
| Session.WpmZeroInProgress | src/App.jsx:66-67 | words per minute is 0 in every reachable in-progress state |
| Session.RestartIsInitial | src/App.jsx:90-99 | restart lands on the starting state from any state, satisfies the invariant, and shows 0 words per minute |
| Session.PerfectRun | src/App.jsx:42-51 | typing the sentences perfectly in order advances one sentence per keystroke with an empty buffer and the running length total; after the eighth the test is complete with 258 characters credited and accuracy 100 |

## Left out

- Rendering: markup, styling classes, the progress bar and `progressPercentage` (src/App.jsx:101-166). These are display-only, and `progressPercentage` is floating-point. The classification is modelled as a sequence of an enumeration.
- The state-sync effect (src/App.jsx:29-31): the current sentence is taken to be `Sentences[index]` at every event.
- The words-per-minute formula beyond its guard (src/App.jsx:68-70). It is floating-point, and it divides by zero when the start and end times are equal. `Wpm` stops at the operands the formula would receive.
- `Date.now()`: the instant is a caller-supplied natural number. The two reads in one completing event are taken to return the same instant.
- Accuracy.Percent: rounds exactly, half up, in integers. The original computes `(correct / length) * 100` in floating point before rounding, which can fall just below an exact half and round down (for example 29 of 200).
- Session.StartTimeWriteOnce: is stated only for a non-zero start time. `Session.IsSet` reproduces the handler's truthiness test, so a start time equal to the instant 0 counts as not set and would be overwritten by the next keystroke.
- Character encoding: strings are sequences of Dafny characters, not UTF-16 code units.
- Sentences 8 and 9 of the corpus are present in `Corpus.Sentences` but no session reaches them.
