/**
 The typing session: the state the widget keeps between events, the keystroke
 transition, the restart, and the guard in front of the words-per-minute
 formula. Every event is one atomic step from the state before it.
 */
module Session {
  import opened Corpus
  import opened Accuracy

  datatype Option<T> = None | Some(value: T)

  /** A timestamp as the handler's truthiness test sees it: both an absent
      timestamp and the instant 0 read as "not set". */
  predicate IsSet(t: Option<nat>) {
    t.Some? && t.value != 0
  }

  /** Session state. Timestamps are milliseconds supplied by the caller. */
  datatype State = State(
    index: nat,
    userInput: string,
    startTime: Option<nat>,
    endTime: Option<nat>,
    totalTypedChars: nat,
    accuracy: nat,
    complete: bool)

  /** The state a session starts in, and the state a restart returns to. */
  const Initial: State := State(0, "", None, None, 0, 100, false)

  /** The sentence currently shown for typing. */
  function CurrentSentence(s: State): string
    requires s.index < |Sentences|
  {
    Sentences[s.index]
  }

  /** What the session promises between events.
      While in progress: the counter equals the lengths of the sentences already
      finished, no end time exists, and the buffer never holds the whole current
      sentence. Once complete: the last sentence is current, the counter covers all
      eight sentences, an end time exists and the accuracy stands at 100.
      Before the first keystroke nothing has been typed. */
  ghost predicate Inv(s: State) {
    && s.index < MaxSentences
    && s.accuracy <= 100
    && (!s.complete ==>
          && s.totalTypedChars == LengthBefore(s.index)
          && s.endTime == None
          && s.userInput != Sentences[s.index])
    && (s.complete ==>
          && s.index == MaxSentences - 1
          && s.totalTypedChars == LengthBefore(MaxSentences)
          && s.endTime.Some?
          && s.accuracy == 100)
    && (s.startTime == None ==>
          && s.index == 0
          && s.userInput == ""
          && s.accuracy == 100
          && !s.complete)
  }

  /** One change event of the text box carrying the box's new content `value` at
      instant `now`. Only an in-progress session has a text box to type into. */
  function Step(s: State, value: string, now: nat): (r: State)
    requires !s.complete && s.index < MaxSentences
    ensures r.index < MaxSentences
    // the start time is written on the first keystroke and kept afterwards
    ensures IsSet(s.startTime) ==> r.startTime == s.startTime
    ensures !IsSet(s.startTime) ==> r.startTime == Some(now)
    // accuracy is measured against the whole current sentence
    ensures r.accuracy == Percent(value, Sentences[s.index]) && r.accuracy <= 100
    // a keystroke that does not finish the sentence only stores the buffer and the accuracy
    ensures value != Sentences[s.index] ==>
      r == s.(userInput := value, accuracy := r.accuracy, startTime := r.startTime)
    // a keystroke that finishes the sentence credits its length and scores 100
    ensures value == Sentences[s.index] ==>
      && r.totalTypedChars == s.totalTypedChars + |Sentences[s.index]|
      && r.accuracy == 100
    ensures value == Sentences[s.index] && s.index + 1 < MaxSentences ==>
      && r.index == s.index + 1
      && r.userInput == ""
      && r.endTime == s.endTime
    ensures value == Sentences[s.index] && s.index + 1 == MaxSentences ==>
      && r.index == s.index
      && r.endTime == Some(now)
      && r.userInput == s.userInput
    // only finishing the last sentence completes the test or writes the end time
    ensures r.complete <==> value == Sentences[s.index] && s.index + 1 == MaxSentences
    ensures !r.complete ==> r.endTime == s.endTime
  {
    var sentence := Sentences[s.index];
    var startTime := if IsSet(s.startTime) then s.startTime else Some(now);
    PrefixIsTransparent(value, sentence);
    var accuracy := Percent(value, Prefix(sentence, |value|));
    if value == sentence then
      FaithfulPrefixScoresFull(value, sentence);
      var total := s.totalTypedChars + |value|;
      if s.index + 1 == MaxSentences then
        s.(startTime := startTime, accuracy := accuracy, totalTypedChars := total,
           endTime := Some(now), complete := true)
      else
        s.(startTime := startTime, accuracy := accuracy, totalTypedChars := total,
           index := s.index + 1, userInput := "")
    else
      s.(startTime := startTime, accuracy := accuracy, userInput := value)
  }

  /** The restart action: every field returns to its starting value and the first
      sentence is shown again, whatever the session went through before. */
  function Restart(s: State): (r: State)
    ensures r.index == 0 && CurrentSentence(r) == Sentences[0]
    ensures r.userInput == "" && r.startTime == None && r.endTime == None
    ensures r.totalTypedChars == 0 && r.accuracy == 100 && !r.complete
  {
    Initial
  }

  /** What the words-per-minute display is given: the guard answers 0 unless both
      timestamps are set; otherwise the floating-point formula receives the elapsed
      milliseconds and the character count. */
  datatype WpmInput = GuardedZero | Formula(elapsedMs: int, typedChars: nat)

  function Wpm(s: State): (r: WpmInput)
    ensures r.GuardedZero? <==> !IsSet(s.startTime) || !IsSet(s.endTime)
    ensures r.Formula? ==>
      r.elapsedMs == s.endTime.value - s.startTime.value && r.typedChars == s.totalTypedChars
  {
    if !IsSet(s.startTime) || !IsSet(s.endTime) then GuardedZero
    else Formula(s.endTime.value - s.startTime.value, s.totalTypedChars)
  }

  /** The user events the widget reacts to. */
  datatype Event = Keystroke(value: string, now: nat) | RestartClick

  /** One event as the rendered widget admits it: the text box exists only while the
      test is in progress and the restart button only once it is complete, so an
      event aimed at the hidden control leaves the state alone. */
  function Apply(s: State, e: Event): (r: State)
    requires Inv(s)
    ensures Inv(r)
  {
    match e
    case Keystroke(value, now) =>
      if s.complete then s
      else
        StepPreservesInv(s, value, now);
        Step(s, value, now)
    case RestartClick =>
      if s.complete then Restart(s) else s
  }

  /** The state after a sequence of events, applied in order. */
  function Run(s: State, events: seq<Event>): (r: State)
    requires Inv(s)
    ensures Inv(r)
    decreases |events|
  {
    if |events| == 0 then s
    else Apply(Run(s, events[..|events| - 1]), events[|events| - 1])
  }

  /** The starting state satisfies the session invariant, and so does every state
      reachable from it. */
  lemma InitialInv(events: seq<Event>)
    ensures Inv(Initial)
    ensures Inv(Run(Initial, events))
  {
  }

  /** A keystroke keeps the session invariant. */
  lemma StepPreservesInv(s: State, value: string, now: nat)
    requires Inv(s) && !s.complete
    ensures Inv(Step(s, value, now))
  {
    var r := Step(s, value, now);
    CorpusShape();
    if value == Sentences[s.index] && s.index + 1 < MaxSentences {
      assert r.totalTypedChars == LengthBefore(s.index + 1);
      assert r.userInput != Sentences[r.index];
    }
  }

  /** In a reachable state the index names one of the eight presented sentences,
      the counter is the length of the finished sentences, and the accuracy is a
      percentage. */
  lemma ReachableBounds(events: seq<Event>)
    ensures Run(Initial, events).index < MaxSentences
    ensures Run(Initial, events).accuracy <= 100
    ensures Run(Initial, events).totalTypedChars ==
      if Run(Initial, events).complete then LengthBefore(MaxSentences)
      else LengthBefore(Run(Initial, events).index)
  {
    InitialInv(events);
  }

  /** Once a non-zero start time has been recorded, no sequence of keystrokes
      changes it; only a restart clears it. */
  lemma {:induction false} StartTimeWriteOnce(s: State, events: seq<Event>)
    requires Inv(s) && IsSet(s.startTime)
    requires forall i :: 0 <= i < |events| ==> events[i].Keystroke?
    ensures Run(s, events).startTime == s.startTime
    decreases |events|
  {
    if |events| > 0 {
      StartTimeWriteOnce(s, events[..|events| - 1]);
    }
  }

  /** From a reachable in-progress state, a keystroke produces an end time exactly
      when it completes the test. */
  lemma EndTimeOnlyOnCompletion(s: State, value: string, now: nat)
    requires Inv(s) && !s.complete
    ensures Step(s, value, now).endTime.Some? <==> Step(s, value, now).complete
  {
  }

  /** Words per minute are 0 while the test is in progress: no end time exists yet. */
  lemma WpmZeroInProgress(s: State)
    requires Inv(s) && !s.complete
    ensures Wpm(s) == GuardedZero
  {
  }

  /** A restart lands on the starting state from any state, and the restarted
      session again satisfies the invariant. */
  lemma RestartIsInitial(s: State)
    ensures Restart(s) == Initial
    ensures Inv(Restart(s))
    ensures Wpm(Restart(s)) == GuardedZero
  {
  }

  /** Typing each presented sentence exactly, in order, at instant `now`. */
  function PerfectScript(k: nat, now: nat): (es: seq<Event>)
    requires k <= MaxSentences
    ensures |es| == k
    ensures forall i :: 0 <= i < k ==> es[i] == Keystroke(Sentences[i], now)
  {
    seq(k, i requires 0 <= i < k => Keystroke(Sentences[i], now))
  }

  /** After typing the first `k` sentences perfectly the session shows sentence `k`
      with an empty buffer and has credited their lengths; after all eight it is
      complete with 258 characters credited and accuracy 100. */
  lemma {:induction false} PerfectRun(k: nat, now: nat)
    requires 0 < k <= MaxSentences
    ensures Inv(Initial)
    ensures k < MaxSentences ==>
      && Run(Initial, PerfectScript(k, now)).index == k
      && Run(Initial, PerfectScript(k, now)).userInput == ""
      && Run(Initial, PerfectScript(k, now)).totalTypedChars == LengthBefore(k)
      && !Run(Initial, PerfectScript(k, now)).complete
    ensures k == MaxSentences ==>
      && Run(Initial, PerfectScript(k, now)).complete
      && Run(Initial, PerfectScript(k, now)).totalTypedChars == 258
      && Run(Initial, PerfectScript(k, now)).accuracy == 100
    decreases k
  {
    InitialInv([]);
    var es := PerfectScript(k, now);
    assert es[..k - 1] == PerfectScript(k - 1, now);
    var before := Run(Initial, es[..k - 1]);
    if k == 1 {
      assert before == Initial;
    } else {
      PerfectRun(k - 1, now);
    }
    assert before.index == k - 1 && !before.complete;
    FullSessionLength();
  }
}
