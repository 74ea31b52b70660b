/**
 * app/recapp.py: the first version of the recorder. Its user can press
 * Start, Stop, Flag Question (or `q`) and Flag Answer (or `a`); there is no
 * automatic question flag and no question navigation. Each press is one
 * event; a session is a sequence of events over the recorder and its log.
 */
module Recapp {
  import opened Wrappers
  import opened Strings
  import opened Records
  import opened Session
  import opened EventIds

  datatype Event =
    | FlagQ(t: nat)
    | FlagA(t: nat)
    | Start(participantEntry: string, conditionEntry: string)
    | Stop

  /** One handler call. Only Stop writes to the log, and only the session's rows. */
  function Step(a: App, e: Event): (r: App)
    ensures r.log == a.log || (e.Stop? && r.log == a.log + SaveFlaggedEvents(a.state))
    ensures r.state.currentQuestion == a.state.currentQuestion
  {
    match e
    case FlagQ(t) => App(FlagQuestion(a.state, t), a.log)
    case FlagA(t) => App(FlagAnswer(a.state, t), a.log)
    case Start(p, c) => StartRecording(a, p, c)
    case Stop => StopRecording(a)
  }

  function Run(a: App, events: seq<Event>): App {
    if |events| == 0 then a else Step(Run(a, events[..|events| - 1]), events[|events| - 1])
  }

  /**
   * `event_id` moves only when an answer is accepted (by exactly one) or
   * when a start with a new participant/condition resumes from the log.
   */
  lemma EventIdChanges(a: App, e: Event)
    ensures Step(a, e).state.eventId != a.state.eventId ==>
              || (e.FlagA? && a.state.recording && a.state.lastFlagged != AnswerFlagged
                  && Step(a, e).state.eventId == a.state.eventId + 1)
              || (e.Start? && Resets(a.state, e.participantEntry, e.conditionEntry)
                  && Step(a, e).state.eventId
                     == LoadLastEventId(a.log, Strip(e.participantEntry), Strip(e.conditionEntry)))
  {
  }

  lemma StepKeepsKeysBounded(a: App, e: Event)
    requires KeysBounded(a.state)
    ensures KeysBounded(Step(a, e).state)
  {
    match e
    case FlagQ(t) => FlagsKeepKeysBounded(a.state, t);
    case FlagA(t) => FlagsKeepKeysBounded(a.state, t);
    case Start(p, c) => StartStopKeepKeysBounded(a, p, c);
    case Stop => StartStopKeepKeysBounded(a, "", "");
  }

  /** The key bound holds after any sequence of presses. */
  lemma {:induction false} RunKeepsKeysBounded(a: App, events: seq<Event>)
    requires KeysBounded(a.state)
    ensures KeysBounded(Run(a, events).state)
  {
    if |events| > 0 {
      RunKeepsKeysBounded(a, events[..|events| - 1]);
      StepKeepsKeysBounded(Run(a, events[..|events| - 1]), events[|events| - 1]);
    }
  }

  /**
   * What a press contributes to the flag trace: the kind of an accepted
   * flag, or a marker (Unflagged) for a start that begins a fresh session.
   */
  function Mark(a: App, e: Event): seq<Flag> {
    match e
    case FlagQ(_) => if a.state.recording && a.state.lastFlagged != QuestionFlagged then [QuestionFlagged] else []
    case FlagA(_) => if a.state.recording && a.state.lastFlagged != AnswerFlagged then [AnswerFlagged] else []
    case Start(p, c) => if Resets(a.state, p, c) then [Unflagged] else []
    case Stop => []
  }

  /** The starting `last_flagged`, then every mark in order. */
  function Trace(a: App, events: seq<Event>): seq<Flag> {
    if |events| == 0 then [a.state.lastFlagged]
    else
      var init := events[..|events| - 1];
      Trace(a, init) + Mark(Run(a, init), events[|events| - 1])
  }

  predicate Alternates(tr: seq<Flag>) {
    forall i :: 0 < i < |tr| && tr[i] != Unflagged ==> tr[i] != tr[i - 1]
  }

  /** A trace that alternates and ends in `last`. */
  predicate AlternatesEndingIn(tr: seq<Flag>, last: Flag) {
    |tr| >= 1 && tr[|tr| - 1] == last && Alternates(tr)
  }

  /** A press marks the trace with at most its new `last_flagged`, and a flag only when it differs from the old one. */
  lemma StepMark(a: App, e: Event)
    ensures |Mark(a, e)| == 0 ==> Step(a, e).state.lastFlagged == a.state.lastFlagged
    ensures |Mark(a, e)| == 1 ==> Step(a, e).state.lastFlagged == Mark(a, e)[0]
    ensures |Mark(a, e)| == 1 && Mark(a, e)[0] != Unflagged ==> Mark(a, e)[0] != a.state.lastFlagged
    ensures |Mark(a, e)| <= 1
  {
  }

  /**
   * Accepted flags strictly alternate: between two starts of fresh
   * sessions no question follows a question and no answer follows an
   * answer, and the trace ends in the recorder's `last_flagged`.
   */
  lemma {:induction false} FlagsAlternate(a: App, events: seq<Event>)
    ensures AlternatesEndingIn(Trace(a, events), Run(a, events).state.lastFlagged)
  {
    if |events| > 0 {
      var init := events[..|events| - 1];
      var e := events[|events| - 1];
      TraceSnoc(a, events);
      FlagsAlternate(a, init);
      StepMark(Run(a, init), e);
      AppendMark(Trace(a, init), Mark(Run(a, init), e), Run(a, init).state.lastFlagged, Step(Run(a, init), e).state.lastFlagged);
    }
  }

  lemma TraceSnoc(a: App, events: seq<Event>)
    requires |events| > 0
    ensures Run(a, events) == Step(Run(a, events[..|events| - 1]), events[|events| - 1])
    ensures Trace(a, events) == Trace(a, events[..|events| - 1]) + Mark(Run(a, events[..|events| - 1]), events[|events| - 1])
  {
  }

  lemma AppendMark(before: seq<Flag>, m: seq<Flag>, last: Flag, next: Flag)
    requires AlternatesEndingIn(before, last)
    requires |m| <= 1
    requires |m| == 0 ==> next == last
    requires |m| == 1 ==> next == m[0] && (m[0] != Unflagged ==> m[0] != last)
    ensures AlternatesEndingIn(before + m, next)
  {
    var tr := before + m;
    forall i | 0 < i < |tr| && tr[i] != Unflagged
      ensures tr[i] != tr[i - 1]
    {
      if i < |before| {
        assert tr[i] == before[i] && tr[i - 1] == before[i - 1];
      } else {
        assert tr[i - 1] == before[|before| - 1];
      }
    }
  }

  /**
   * The session the maps are never cleared for: stopping, starting again
   * with the same participant and condition, and stopping once more writes
   * the same rows twice.
   */
  lemma StopStartStopRepeatsRows(a: App, participantEntry: string, conditionEntry: string)
    requires a.state.recording
    requires Strip(participantEntry) != "" && ValidCondition(Strip(conditionEntry))
    requires a.state.participant == Some(Strip(participantEntry))
    requires a.state.condition == Some(Strip(conditionEntry))
    ensures Run(a, [Stop, Start(participantEntry, conditionEntry), Stop]).log
         == a.log + SaveFlaggedEvents(a.state) + SaveFlaggedEvents(a.state)
  {
    var start := Start(participantEntry, conditionEntry);
    RunThree(a, Stop, start, Stop);
    var a1 := StopRecording(a);
    StepIsStop(a);
    StepIsStart(a1, participantEntry, conditionEntry);
    var a2 := StartRecording(a1, participantEntry, conditionEntry);
    assert a2 == App(a.state, a1.log);
    StepIsStop(a2);
  }

  lemma StepIsStop(a: App)
    ensures Step(a, Stop) == StopRecording(a)
  {
  }

  lemma StepIsStart(a: App, participantEntry: string, conditionEntry: string)
    ensures Step(a, Start(participantEntry, conditionEntry)) == StartRecording(a, participantEntry, conditionEntry)
  {
  }

  lemma RunThree(a: App, e0: Event, e1: Event, e2: Event)
    ensures Run(a, [e0, e1, e2]) == Step(Step(Step(a, e0), e1), e2)
  {
    RunSnoc(a, [], e0);
    assert [] + [e0] == [e0];
    RunSnoc(a, [e0], e1);
    assert [e0] + [e1] == [e0, e1];
    RunSnoc(a, [e0, e1], e2);
    assert [e0, e1] + [e2] == [e0, e1, e2];
  }

  lemma RunSnoc(a: App, events: seq<Event>, e: Event)
    ensures Run(a, events + [e]) == Step(Run(a, events), e)
  {
    assert (events + [e])[..|events|] == events;
  }

  lemma StepIsFlag(a: App, t: nat)
    ensures Step(a, FlagQ(t)) == App(FlagQuestion(a.state, t), a.log)
    ensures Step(a, FlagA(t)) == App(FlagAnswer(a.state, t), a.log)
  {
  }

  lemma RunFive(a: App, e0: Event, e1: Event, e2: Event, e3: Event, e4: Event)
    ensures Run(a, [e0, e1, e2, e3, e4]) == Step(Step(Step(Step(Step(a, e0), e1), e2), e3), e4)
  {
    RunThree(a, e0, e1, e2);
    RunSnoc(a, [e0, e1, e2], e3);
    assert [e0, e1, e2] + [e3] == [e0, e1, e2, e3];
    RunSnoc(a, [e0, e1, e2, e3], e4);
    assert [e0, e1, e2, e3] + [e4] == [e0, e1, e2, e3, e4];
  }

  /**
   * One recorded exchange: participant 12, condition B, an empty log; the
   * question is flagged at 2.00 s, a second question flag at 2.50 s is
   * ignored, the answer comes at 5.25 s. Stopping writes one row,
   * E1 with delta 3.25 s.
   */
  lemma ExampleSession()
    ensures Run(App(Init(), []), [Start("12", "B"), FlagQ(200), FlagQ(250), FlagA(525), Stop]).log
         == [Row("12", "B", "E1", 200, 525, 325)]
  {
    var a0 := App(Init(), []);
    RunFive(a0, Start("12", "B"), FlagQ(200), FlagQ(250), FlagA(525), Stop);
    StepIsStart(a0, "12", "B");
    ExampleStart();
    var s1 := LiveState(Some("12"), Some("B"), true, 1, Unflagged, map[], map[], 1);
    var s2 := FlagQuestion(s1, 200);
    var s4 := FlagAnswer(s2, 525);
    ExampleFlags(s1);
    StepIsFlag(App(s1, []), 200);
    StepIsFlag(App(s2, []), 250);
    StepIsFlag(App(s2, []), 525);
    ExampleSave(s4);
    StepIsStop(App(s4, []));
  }

  /** The three flags of the exchange, on the state the start left. */
  lemma ExampleFlags(s1: LiveState)
    requires s1 == LiveState(Some("12"), Some("B"), true, 1, Unflagged, map[], map[], 1)
    ensures FlagQuestion(FlagQuestion(s1, 200), 250) == FlagQuestion(s1, 200)
    ensures FlagAnswer(FlagQuestion(s1, 200), 525)
         == LiveState(Some("12"), Some("B"), true, 2, AnswerFlagged, map[1 := 200], map[1 := 525], 1)
  {
  }

  /** Starting participant 12, condition B on a fresh recorder with an empty log. */
  lemma ExampleStart()
    ensures StartRecording(App(Init(), []), "12", "B")
         == App(LiveState(Some("12"), Some("B"), true, 1, Unflagged, map[], map[], 1), [])
  {
    var a := App(Init(), []);
    StripPlain();
    assert ValidCondition("B");
    assert a.state.participant == None;
    LoadWithoutMatches([], "12", "B");
    var s := a.state.(participant := Some("12"), condition := Some("B"), eventId := 1,
                      questionTimes := map[], answerTimes := map[], lastFlagged := Unflagged);
    assert StartRecording(a, "12", "B") == App(s.(recording := true), []);
  }

  lemma StripPlain()
    ensures Strip("12") == "12" && Strip("B") == "B"
  {
    assert !IsSpace('1') && !IsSpace('2') && !IsSpace('B');
    StripUnpadded("12");
    StripUnpadded("B");
  }

  lemma ExampleSave(s: LiveState)
    requires s.questionTimes == map[1 := 200] && s.answerTimes == map[1 := 525]
    requires s.participant == Some("12") && s.condition == Some("B")
    ensures SaveFlaggedEvents(s) == [Row("12", "B", "E1", 200, 525, 325)]
  {
    ExamplePairs();
    assert FormatEventId(1) == "E1" by {
      assert FormatNat(1) == "1";
    }
    assert ToRow("12", "B", Pair(1, 200, 525, 325)) == Row("12", "B", "E1", 200, 525, 325);
  }

  /** Event 1 is the only id in both maps. */
  lemma ExamplePairs()
    ensures PairTimes(map[1 := 200], map[1 := 525]) == [Pair(1, 200, 525, 325)]
  {
    var qt: map<nat, nat> := map[1 := 200];
    var at: map<nat, nat> := map[1 := 525];
    var pairs := PairTimes(qt, at);
    assert 1 in qt && 1 in at;
    assert exists j :: 0 <= j < |pairs| && pairs[j].id == 1;
    assert PairFromMaps(pairs[0], qt, at);
    assert forall j :: 0 <= j < |pairs| ==> pairs[j].id == 1 by {
      forall j | 0 <= j < |pairs|
        ensures pairs[j].id == 1
      {
        assert PairFromMaps(pairs[j], qt, at);
      }
    }
    AtMostOneId(pairs, 1);
  }

  lemma AtMostOneId(pairs: seq<Pair>, k: nat)
    requires IdsIncreasing(pairs)
    requires forall j :: 0 <= j < |pairs| ==> pairs[j].id == k
    ensures |pairs| <= 1
  {
    if |pairs| > 1 {
      FirstIdsDiffer(pairs);
      assert false;
    }
  }

  lemma FirstIdsDiffer(pairs: seq<Pair>)
    requires IdsIncreasing(pairs) && |pairs| > 1
    ensures pairs[0].id != pairs[1].id
  {
  }
}
