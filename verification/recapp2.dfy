/**
 * app/recapp2.py: the second version of the recorder. On top of Start,
 * Stop and the two flags it keeps a current question number (1 to 30,
 * moved with the arrow keys) and plays that question's audio on Return;
 * playing flags the end of the question automatically, without the
 * `last_flagged` guard of the manual question flag.
 */
module Recapp2 {
  import opened Wrappers
  import opened Strings
  import opened Records
  import opened Session

  datatype Event =
    | FlagQ(t: nat)
    | FlagA(t: nat)
    | Start(participantEntry: string, conditionEntry: string)
    | Stop
      /** Return: `audioExists` is whether `<current question>.wav` is on disk. */
    | Play(t: nat, audioExists: bool)
    | Previous
    | Next

  /**
   * One handler call. Only Stop writes to the log, and only the session's
   * rows; the arrow keys change nothing but the question number.
   */
  function Step(a: App, e: Event): (r: App)
    ensures r.log == a.log || (e.Stop? && r.log == a.log + SaveFlaggedEvents(a.state))
    ensures (e.Previous? || e.Next?) ==> r.log == a.log && r.state.(currentQuestion := a.state.currentQuestion) == a.state
  {
    match e
    case FlagQ(t) => App(FlagQuestion(a.state, t), a.log)
    case FlagA(t) => App(FlagAnswer(a.state, t), a.log)
    case Start(p, c) => StartRecording(a, p, c)
    case Stop => StopRecording(a)
    case Play(t, audioExists) => if audioExists then App(AutoFlagEndOfQuestion(a.state, t), a.log) else a
    case Previous => App(PreviousQuestion(a.state), a.log)
    case Next => App(NextQuestion(a.state), a.log)
  }

  function Run(a: App, events: seq<Event>): App {
    if |events| == 0 then a else Step(Run(a, events[..|events| - 1]), events[|events| - 1])
  }

  lemma RunSnoc(a: App, events: seq<Event>, e: Event)
    ensures Run(a, events + [e]) == Step(Run(a, events), e)
  {
    assert (events + [e])[..|events|] == events;
  }

  /** What the recorder keeps true between presses. */
  predicate Invariant(s: LiveState) {
    KeysBounded(s) && QuestionInRange(s)
  }

  lemma StepKeepsInvariant(a: App, e: Event)
    requires Invariant(a.state)
    ensures Invariant(Step(a, e).state)
  {
    match e
    case FlagQ(t) => FlagsKeepInvariant(a.state, t);
    case FlagA(t) => FlagsKeepInvariant(a.state, t);
    case Start(p, c) => StartKeepsInvariant(a, p, c);
    case Stop => StopKeepsInvariant(a);
    case Play(t, _) => FlagsKeepInvariant(a.state, t);
    case Previous => NavigationKeepsInvariant(a.state);
    case Next => NavigationKeepsInvariant(a.state);
  }

  /** The two manual flags and the automatic one keep the invariant. */
  lemma FlagsKeepInvariant(s: LiveState, t: nat)
    requires Invariant(s)
    ensures Invariant(FlagQuestion(s, t)) && Invariant(FlagAnswer(s, t)) && Invariant(AutoFlagEndOfQuestion(s, t))
  {
    FlagsKeepKeysBounded(s, t);
  }

  lemma StartKeepsInvariant(a: App, participantEntry: string, conditionEntry: string)
    requires Invariant(a.state)
    ensures Invariant(StartRecording(a, participantEntry, conditionEntry).state)
  {
    StartStopKeepKeysBounded(a, participantEntry, conditionEntry);
  }

  lemma StopKeepsInvariant(a: App)
    requires Invariant(a.state)
    ensures Invariant(StopRecording(a).state)
  {
    assert StopRecording(a).state.(recording := a.state.recording) == a.state;
  }

  lemma NavigationKeepsInvariant(s: LiveState)
    requires Invariant(s)
    ensures Invariant(PreviousQuestion(s)) && Invariant(NextQuestion(s))
  {
    FlagsKeepKeysBounded(s, 0);
    NavigationInRange(s);
  }

  /**
   * From the initial state, whatever is pressed, the question number stays
   * within 1 to 30 and no map holds an id beyond the event in progress.
   */
  lemma {:induction false} RunKeepsInvariant(a: App, events: seq<Event>)
    requires Invariant(a.state)
    ensures Invariant(Run(a, events).state)
  {
    if |events| > 0 {
      RunKeepsInvariant(a, events[..|events| - 1]);
      StepKeepsInvariant(Run(a, events[..|events| - 1]), events[|events| - 1]);
    }
  }

  /**
   * What a press contributes to the flag trace: the kind of an accepted
   * flag (a played question while recording counts as a question flag),
   * or a marker (Unflagged) for a start that begins a fresh session.
   */
  function Mark(a: App, e: Event): seq<Flag> {
    match e
    case FlagQ(_) => if a.state.recording && a.state.lastFlagged != QuestionFlagged then [QuestionFlagged] else []
    case FlagA(_) => if a.state.recording && a.state.lastFlagged != AnswerFlagged then [AnswerFlagged] else []
    case Start(p, c) => if Resets(a.state, p, c) then [Unflagged] else []
    case Stop => []
    case Play(_, audioExists) => if audioExists && a.state.recording then [QuestionFlagged] else []
    case Previous => []
    case Next => []
  }

  /** The starting `last_flagged`, then every mark in order. */
  function Trace(a: App, events: seq<Event>): seq<Flag> {
    if |events| == 0 then [a.state.lastFlagged]
    else
      var init := events[..|events| - 1];
      Trace(a, init) + Mark(Run(a, init), events[|events| - 1])
  }

  predicate AnswersNotRepeated(tr: seq<Flag>) {
    forall i :: 0 < i < |tr| && tr[i] == AnswerFlagged ==> tr[i - 1] != AnswerFlagged
  }

  /** A trace with no answer right after an answer, ending in `last`. */
  predicate AnswersNotRepeatedEndingIn(tr: seq<Flag>, last: Flag) {
    |tr| >= 1 && tr[|tr| - 1] == last && AnswersNotRepeated(tr)
  }

  lemma StepMark(a: App, e: Event)
    ensures |Mark(a, e)| == 0 ==> Step(a, e).state.lastFlagged == a.state.lastFlagged
    ensures |Mark(a, e)| == 1 ==> Step(a, e).state.lastFlagged == Mark(a, e)[0]
    ensures |Mark(a, e)| == 1 && Mark(a, e)[0] == AnswerFlagged ==> a.state.lastFlagged != AnswerFlagged
    ensures |Mark(a, e)| <= 1
  {
  }

  /**
   * The automatic flag lifts the alternation of question flags, but an
   * answer is still never accepted right after an answer; the trace ends
   * in the recorder's `last_flagged`.
   */
  lemma {:induction false} AnswersNeverRepeat(a: App, events: seq<Event>)
    ensures AnswersNotRepeatedEndingIn(Trace(a, events), Run(a, events).state.lastFlagged)
  {
    if |events| > 0 {
      var init := events[..|events| - 1];
      var e := events[|events| - 1];
      TraceSnoc(a, events);
      AnswersNeverRepeat(a, init);
      StepMark(Run(a, init), e);
      AppendMark(Trace(a, init), Mark(Run(a, init), e), Run(a, init).state.lastFlagged, Step(Run(a, init), e).state.lastFlagged);
    }
  }

  lemma TraceSnoc(a: App, events: seq<Event>)
    requires |events| > 0
    ensures Run(a, events) == Step(Run(a, events[..|events| - 1]), events[|events| - 1])
    ensures Trace(a, events) == Trace(a, events[..|events| - 1]) + Mark(Run(a, events[..|events| - 1]), events[|events| - 1])
  {
  }

  lemma AppendMark(before: seq<Flag>, m: seq<Flag>, last: Flag, next: Flag)
    requires AnswersNotRepeatedEndingIn(before, last)
    requires |m| <= 1
    requires |m| == 0 ==> next == last
    requires |m| == 1 ==> next == m[0] && (m[0] == AnswerFlagged ==> last != AnswerFlagged)
    ensures AnswersNotRepeatedEndingIn(before + m, next)
  {
    var tr := before + m;
    forall i | 0 < i < |tr| && tr[i] == AnswerFlagged
      ensures tr[i - 1] != AnswerFlagged
    {
      if i < |before| {
        assert tr[i] == before[i] && tr[i - 1] == before[i - 1];
      } else {
        assert tr[i - 1] == before[|before| - 1];
      }
    }
  }

  lemma StepIsStart(a: App, participantEntry: string, conditionEntry: string)
    ensures Step(a, Start(participantEntry, conditionEntry)) == StartRecording(a, participantEntry, conditionEntry)
  {
  }

  lemma StepIsFlagOrPlay(a: App, t: nat)
    ensures Step(a, FlagQ(t)) == App(FlagQuestion(a.state, t), a.log)
    ensures Step(a, Play(t, true)) == App(AutoFlagEndOfQuestion(a.state, t), a.log)
  {
  }

  lemma RunThree(a: App, e0: Event, e1: Event, e2: Event)
    ensures Run(a, [e0, e1, e2]) == Step(Step(Step(a, e0), e1), e2)
  {
    RunSnoc(a, [], e0);
    assert [] + [e0] == [e0];
    RunSnoc(a, [e0], e1);
    assert [e0] + [e1] == [e0, e1];
    RunSnoc(a, [e0, e1], e2);
    assert [e0, e1] + [e2] == [e0, e1, e2];
  }

  lemma TraceThree(a: App, e0: Event, e1: Event, e2: Event)
    ensures Trace(a, [e0, e1, e2])
         == [a.state.lastFlagged] + Mark(a, e0) + Mark(Step(a, e0), e1) + Mark(Step(Step(a, e0), e1), e2)
  {
    var events := [e0, e1, e2];
    assert events[..2] == [e0, e1];
    assert events[..2][..1] == [e0];
    assert events[..2][..1][..0] == [];
    RunSnoc(a, [], e0);
    assert [] + [e0] == [e0];
    assert Run(a, [e0]) == Step(a, e0);
    assert Trace(a, [e0]) == [a.state.lastFlagged] + Mark(a, e0);
    RunSnoc(a, [e0], e1);
    assert [e0] + [e1] == [e0, e1];
    assert Run(a, [e0, e1]) == Step(Step(a, e0), e1);
    assert Trace(a, [e0, e1]) == Trace(a, [e0]) + Mark(Step(a, e0), e1);
    assert Trace(a, events) == Trace(a, [e0, e1]) + Mark(Run(a, [e0, e1]), e2);
  }

  /** The state a start that resets leaves behind. */
  lemma FreshStart(a: App, participantEntry: string, conditionEntry: string)
    requires Resets(a.state, participantEntry, conditionEntry)
    ensures var s := Step(a, Start(participantEntry, conditionEntry)).state;
            && s.recording && s.lastFlagged == Unflagged
            && s.questionTimes == map[] && s.answerTimes == map[]
  {
    StepIsStart(a, participantEntry, conditionEntry);
  }

  lemma QuestionThenPlay(s: LiveState)
    requires s.recording && s.lastFlagged == Unflagged && s.questionTimes == map[] && s.answerTimes == map[]
    ensures FlagQuestion(s, 200).recording && FlagQuestion(s, 200).lastFlagged == QuestionFlagged
    ensures var r := AutoFlagEndOfQuestion(FlagQuestion(s, 200), 350);
            && r.lastFlagged == QuestionFlagged
            && r.questionTimes == map[r.eventId := 350]
            && r.answerTimes == map[]
  {
    var s2 := FlagQuestion(s, 200);
    assert s2.questionTimes == map[s.eventId := 200] && s2.eventId == s.eventId;
  }

  /**
   * Two question flags in a row: after a manual question flag at 2.00 s,
   * playing the question at 3.50 s flags the question again and its time
   * replaces the first one.
   */
  lemma PlayAfterQuestionFlag(a: App, participantEntry: string, conditionEntry: string)
    requires Resets(a.state, participantEntry, conditionEntry)
    ensures var b := Run(a, [Start(participantEntry, conditionEntry), FlagQ(200), Play(350, true)]);
            && b.state.lastFlagged == QuestionFlagged
            && b.state.questionTimes == map[b.state.eventId := 350]
            && b.state.answerTimes == map[]
  {
    RunThree(a, Start(participantEntry, conditionEntry), FlagQ(200), Play(350, true));
    FreshStart(a, participantEntry, conditionEntry);
    var a1 := Step(a, Start(participantEntry, conditionEntry));
    StepIsFlagOrPlay(a1, 200);
    var a2 := Step(a1, FlagQ(200));
    StepIsFlagOrPlay(a2, 350);
    QuestionThenPlay(a1.state);
  }

  /** The same presses, seen in the flag trace: two question marks side by side. */
  lemma PlayAfterQuestionFlagTrace(a: App, participantEntry: string, conditionEntry: string)
    requires Resets(a.state, participantEntry, conditionEntry)
    ensures Trace(a, [Start(participantEntry, conditionEntry), FlagQ(200), Play(350, true)])
         == [a.state.lastFlagged, Unflagged, QuestionFlagged, QuestionFlagged]
  {
    var start := Start(participantEntry, conditionEntry);
    TraceThree(a, start, FlagQ(200), Play(350, true));
    MarkOfStart(a, participantEntry, conditionEntry);
    FreshStart(a, participantEntry, conditionEntry);
    var a1 := Step(a, start);
    MarksOfQuestions(a1, 200);
    StepIsFlagOrPlay(a1, 200);
    QuestionThenPlay(a1.state);
    var a2 := Step(a1, FlagQ(200));
    MarksOfQuestions(a2, 350);
    FourFlags(a.state.lastFlagged, Unflagged, QuestionFlagged, QuestionFlagged);
  }

  lemma MarkOfStart(a: App, participantEntry: string, conditionEntry: string)
    requires Resets(a.state, participantEntry, conditionEntry)
    ensures Mark(a, Start(participantEntry, conditionEntry)) == [Unflagged]
  {
  }

  lemma MarksOfQuestions(a: App, t: nat)
    requires a.state.recording
    ensures Mark(a, Play(t, true)) == [QuestionFlagged]
    ensures a.state.lastFlagged != QuestionFlagged ==> Mark(a, FlagQ(t)) == [QuestionFlagged]
  {
  }

  lemma FourFlags(f0: Flag, f1: Flag, f2: Flag, f3: Flag)
    ensures [f0] + [f1] + [f2] + [f3] == [f0, f1, f2, f3]
  {
  }
}
