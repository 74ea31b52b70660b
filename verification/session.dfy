/**
 * The live flag recorder of app/recapp2.py and app/recapp.py: the session
 * record, the handlers both versions share (flag_question, flag_answer,
 * start_recording, stop_recording, save_flagged_events,
 * load_last_event_id, the two validators), and recapp2's
 * auto_flag_end_of_question and question navigation.
 *
 * Elapsed times arrive as parameters in hundredths of a second (the code
 * stores `f"{elapsed:.2f}"`). The event log `flagged_events.csv` is the
 * sequence of its data rows; its header line is not modelled.
 */
module Session {
  import opened Wrappers
  import opened Strings
  import opened EventIds
  import opened Records

  /** `last_flagged`: None, 'question' or 'answer'. */
  datatype Flag = Unflagged | QuestionFlagged | AnswerFlagged

  datatype LiveState = LiveState(
    participant: Option<string>,
    condition: Option<string>,
    recording: bool,
    eventId: nat,
    lastFlagged: Flag,
    questionTimes: map<nat, nat>,
    answerTimes: map<nat, nat>,
    currentQuestion: int)

  /** The recorder with its event log. */
  datatype App = App(state: LiveState, log: seq<Row>)

  /** The state `__init__` sets up. */
  function Init(): (s: LiveState)
    ensures KeysBounded(s) && QuestionInRange(s)
    ensures !s.recording && s.eventId == 1 && s.lastFlagged == Unflagged
  {
    LiveState(None, None, false, 1, Unflagged, map[], map[], 1)
  }

  /**
   * Every answer time belongs to an event already completed and every
   * question time to a completed event or the one in progress.
   */
  predicate KeysBounded(s: LiveState) {
    && (forall k :: k in s.answerTimes ==> k < s.eventId)
    && (forall k :: k in s.questionTimes ==> k <= s.eventId)
  }

  predicate QuestionInRange(s: LiveState) {
    1 <= s.currentQuestion <= 30
  }

  /** `flag_question`: accepted while recording unless the last flag was a question. */
  function FlagQuestion(s: LiveState, t: nat): (r: LiveState)
    ensures (s.recording && s.lastFlagged != QuestionFlagged) ==>
              && r.questionTimes.Keys == s.questionTimes.Keys + {s.eventId}
              && r.questionTimes[s.eventId] == t
              && (forall k :: k in s.questionTimes && k != s.eventId ==> r.questionTimes[k] == s.questionTimes[k])
              && r.lastFlagged == QuestionFlagged
              && r.eventId == s.eventId && r.answerTimes == s.answerTimes
              && r.recording == s.recording && r.participant == s.participant && r.condition == s.condition
              && r.currentQuestion == s.currentQuestion
    ensures !(s.recording && s.lastFlagged != QuestionFlagged) ==> r == s
  {
    if s.recording && s.lastFlagged != QuestionFlagged then
      s.(questionTimes := s.questionTimes[s.eventId := t], lastFlagged := QuestionFlagged)
    else s
  }

  /**
   * `flag_answer`: accepted while recording unless the last flag was an
   * answer, so also as the very first flag of a session.
   */
  function FlagAnswer(s: LiveState, t: nat): (r: LiveState)
    ensures (s.recording && s.lastFlagged != AnswerFlagged) ==>
              && r.answerTimes.Keys == s.answerTimes.Keys + {s.eventId}
              && r.answerTimes[s.eventId] == t
              && (forall k :: k in s.answerTimes && k != s.eventId ==> r.answerTimes[k] == s.answerTimes[k])
              && r.eventId == s.eventId + 1
              && r.lastFlagged == AnswerFlagged
              && r.questionTimes == s.questionTimes
              && r.recording == s.recording && r.participant == s.participant && r.condition == s.condition
              && r.currentQuestion == s.currentQuestion
    ensures !(s.recording && s.lastFlagged != AnswerFlagged) ==> r == s
  {
    if s.recording && s.lastFlagged != AnswerFlagged then
      s.(answerTimes := s.answerTimes[s.eventId := t], eventId := s.eventId + 1, lastFlagged := AnswerFlagged)
    else s
  }

  /**
   * `auto_flag_end_of_question` (recapp2 only): while recording it writes
   * the question time whatever `last_flagged` says, overwriting an earlier
   * question time of the same event.
   */
  function AutoFlagEndOfQuestion(s: LiveState, t: nat): (r: LiveState)
    ensures s.recording ==>
              && r.questionTimes.Keys == s.questionTimes.Keys + {s.eventId}
              && r.questionTimes[s.eventId] == t
              && (forall k :: k in s.questionTimes && k != s.eventId ==> r.questionTimes[k] == s.questionTimes[k])
              && r.lastFlagged == QuestionFlagged
              && r.eventId == s.eventId && r.answerTimes == s.answerTimes
              && r.recording && r.participant == s.participant && r.condition == s.condition
              && r.currentQuestion == s.currentQuestion
    ensures !s.recording ==> r == s
  {
    if s.recording then s.(questionTimes := s.questionTimes[s.eventId := t], lastFlagged := QuestionFlagged)
    else s
  }

  /** `previous_question`: one step down unless already at question 1. */
  function PreviousQuestion(s: LiveState): (r: LiveState)
    ensures r.currentQuestion == if s.currentQuestion > 1 then s.currentQuestion - 1 else s.currentQuestion
    ensures r.(currentQuestion := s.currentQuestion) == s
  {
    if s.currentQuestion > 1 then s.(currentQuestion := s.currentQuestion - 1) else s
  }

  /** `next_question`: one step up unless already at question 30. */
  function NextQuestion(s: LiveState): (r: LiveState)
    ensures r.currentQuestion == if s.currentQuestion < 30 then s.currentQuestion + 1 else s.currentQuestion
    ensures r.(currentQuestion := s.currentQuestion) == s
  {
    if s.currentQuestion < 30 then s.(currentQuestion := s.currentQuestion + 1) else s
  }

  /** Navigation stays within questions 1 to 30. */
  lemma NavigationInRange(s: LiveState)
    requires QuestionInRange(s)
    ensures QuestionInRange(PreviousQuestion(s)) && QuestionInRange(NextQuestion(s))
  {
  }

  /** Stepping forward and back again returns to the same question, except at the upper end. */
  lemma NextThenPrevious(s: LiveState)
    requires QuestionInRange(s) && s.currentQuestion < 30
    ensures PreviousQuestion(NextQuestion(s)) == s
  {
  }

  lemma PreviousThenNext(s: LiveState)
    requires QuestionInRange(s) && s.currentQuestion > 1
    ensures NextQuestion(PreviousQuestion(s)) == s
  {
  }

  /**
   * `validate_numeric_input`: `input.isdigit() or input == ''`, with ASCII
   * digits for `isdigit`.
   */
  function ValidateNumericInput(input: string): (ok: bool)
    ensures ok <==> forall i :: 0 <= i < |input| ==> '0' <= input[i] <= '9'
  {
    (|input| > 0 && AllDigits(input)) || input == ""
  }

  /** Every number's decimal text passes the participant field's filter, and a sign or letter does not. */
  lemma NumericInputAcceptsNumbers(n: nat, c: char)
    requires !('0' <= c <= '9')
    ensures ValidateNumericInput(FormatNat(n))
    ensures !ValidateNumericInput(FormatNat(n) + [c]) && !ValidateNumericInput([c] + FormatNat(n))
  {
    assert (FormatNat(n) + [c])[|FormatNat(n)|] == c;
    assert ([c] + FormatNat(n))[0] == c;
  }

  /** `validate_letter_condition`: one of A, B, C, or empty. */
  function ValidateLetterCondition(input: string): (ok: bool)
    ensures ok <==> |input| <= 1 && (|input| == 1 ==> input[0] == 'A' || input[0] == 'B' || input[0] == 'C')
  {
    assert |input| == 1 ==> input == [input[0]];
    input in {"A", "B", "C"} || input == ""
  }

  /** The condition `start_recording` accepts after stripping. */
  predicate ValidCondition(c: string) {
    c in {"A", "B", "C"}
  }

  /**
   * `start_recording`. The stripped entries are checked first: an empty
   * participant or a condition other than A, B, C leaves everything as it
   * was. A participant/condition pair different from the current one
   * starts a fresh session whose event id resumes from the log; the same
   * pair keeps the maps, the event id and `last_flagged`.
   */
  function StartRecording(a: App, participantEntry: string, conditionEntry: string): (r: App)
    ensures r.log == a.log
    ensures (Strip(participantEntry) == "" || !ValidCondition(Strip(conditionEntry))) ==> r == a
    ensures (Strip(participantEntry) != "" && ValidCondition(Strip(conditionEntry))) ==>
              && r.state.recording
              && r.state.participant == Some(Strip(participantEntry))
              && r.state.condition == Some(Strip(conditionEntry))
              && r.state.currentQuestion == a.state.currentQuestion
    ensures (Strip(participantEntry) != "" && ValidCondition(Strip(conditionEntry))
             && a.state.participant == Some(Strip(participantEntry))
             && a.state.condition == Some(Strip(conditionEntry))) ==>
              r.state == a.state.(recording := true)
    ensures (Strip(participantEntry) != "" && ValidCondition(Strip(conditionEntry))
             && (a.state.participant != Some(Strip(participantEntry))
                 || a.state.condition != Some(Strip(conditionEntry)))) ==>
              && r.state.questionTimes == map[] && r.state.answerTimes == map[]
              && r.state.lastFlagged == Unflagged
              && r.state.eventId == LoadLastEventId(a.log, Strip(participantEntry), Strip(conditionEntry))
  {
    var pid := Strip(participantEntry);
    var cond := Strip(conditionEntry);
    if pid == "" || !ValidCondition(cond) then a
    else
      var s := a.state;
      var s1 :=
        if s.participant != Some(pid) || s.condition != Some(cond) then
          s.(participant := Some(pid), condition := Some(cond), eventId := LoadLastEventId(a.log, pid, cond),
             questionTimes := map[], answerTimes := map[], lastFlagged := Unflagged)
        else s;
      App(s1.(recording := true), a.log)
  }

  /** Whether `start_recording` with these entries begins a fresh session. */
  predicate Resets(s: LiveState, participantEntry: string, conditionEntry: string) {
    && Strip(participantEntry) != "" && ValidCondition(Strip(conditionEntry))
    && (s.participant != Some(Strip(participantEntry)) || s.condition != Some(Strip(conditionEntry)))
  }

  /**
   * `stop_recording`: when recording, stop and append the session's rows
   * to the log. The maps are not cleared.
   */
  function StopRecording(a: App): (r: App)
    ensures a.state.recording ==>
              r.state == a.state.(recording := false) && r.log == a.log + SaveFlaggedEvents(a.state)
    ensures !a.state.recording ==> r == a
  {
    if a.state.recording then App(a.state.(recording := false), a.log + SaveFlaggedEvents(a.state)) else a
  }

  // ---------------------------------------------------------------------
  // save_flagged_events

  /** The least element of a non-empty set of event ids. */
  function SetMin(s: set<nat>): (m: nat)
    requires s != {}
    ensures m in s && forall y :: y in s ==> m <= y
  {
    MinExists(s);
    var m :| m in s && forall y :: y in s ==> m <= y;
    m
  }

  lemma MinExists(s: set<nat>)
    requires s != {}
    ensures exists m :: m in s && forall y :: y in s ==> m <= y
  {
    var x :| x in s;
    MinBelow(s, x);
  }

  lemma MinBelow(s: set<nat>, x: nat)
    requires x in s
    ensures exists m :: m in s && forall y :: y in s ==> m <= y
    decreases x
  {
    if exists y :: y in s && y < x {
      var y :| y in s && y < x;
      MinBelow(s, y);
    } else {
      assert forall y :: y in s ==> x <= y;
    }
  }

  predicate StrictlyIncreasing(ids: seq<nat>) {
    forall i, j :: 0 <= i < j < |ids| ==> ids[i] < ids[j]
  }

  /** `sorted(ids)` for a set: every id once, ascending. */
  function SortedIds(s: set<nat>): (r: seq<nat>)
    ensures forall x :: x in r <==> x in s
    ensures StrictlyIncreasing(r)
    decreases s
  {
    if s == {} then []
    else
      var m := SetMin(s);
      var rest := SortedIds(s - {m});
      SortedIdsCons(s, m, rest);
      [m] + rest
  }

  lemma SortedIdsCons(s: set<nat>, m: nat, rest: seq<nat>)
    requires m in s && forall y :: y in s ==> m <= y
    requires forall x :: x in rest <==> x in s - {m}
    requires StrictlyIncreasing(rest)
    ensures forall x :: x in [m] + rest <==> x in s
    ensures StrictlyIncreasing([m] + rest)
  {
    var r := [m] + rest;
    forall i, j | 0 <= i < j < |r|
      ensures r[i] < r[j]
    {
      assert r[j] == rest[j - 1];
      if i > 0 {
        assert r[i] == rest[i - 1];
      } else {
        assert rest[j - 1] in rest;
      }
    }
  }

  /** A pair as `save_flagged_events` writes it for the two maps. */
  predicate PairFromMaps(p: Pair, qt: map<nat, nat>, at: map<nat, nat>) {
    && p.id in qt && p.id in at
    && p.question == qt[p.id] && p.answer == at[p.id]
    && p.delta == p.answer - p.question
  }

  predicate IdsIncreasing(pairs: seq<Pair>) {
    forall i, j :: 0 <= i < j < |pairs| ==> pairs[i].id < pairs[j].id
  }

  /** Every pair has its id among `ids` and its times from the two maps. */
  predicate DrawnFrom(pairs: seq<Pair>, ids: seq<nat>, qt: map<nat, nat>, at: map<nat, nat>) {
    forall j :: 0 <= j < |pairs| ==> pairs[j].id in ids && PairFromMaps(pairs[j], qt, at)
  }

  /** Every id of `ids` present in both maps has a pair. */
  predicate CoversCommon(pairs: seq<Pair>, ids: seq<nat>, qt: map<nat, nat>, at: map<nat, nat>) {
    forall k :: k in ids && k in qt && k in at ==> exists j :: 0 <= j < |pairs| && pairs[j].id == k
  }

  /** The pair, if any, that the first of `ids` gives. */
  function HeadPair(ids: seq<nat>, qt: map<nat, nat>, at: map<nat, nat>): seq<Pair>
    requires |ids| > 0
  {
    var k := ids[0];
    if k in qt && k in at then [Pair(k, qt[k], at[k], (at[k] as int) - (qt[k] as int))] else []
  }

  /**
   * The loop body of `save_flagged_events` over a list of ids: an id
   * present in both maps gives a pair; an id in only one map is skipped.
   */
  function PairsOf(ids: seq<nat>, qt: map<nat, nat>, at: map<nat, nat>): (pairs: seq<Pair>)
    ensures DrawnFrom(pairs, ids, qt, at)
    ensures CoversCommon(pairs, ids, qt, at)
    ensures StrictlyIncreasing(ids) ==> IdsIncreasing(pairs)
  {
    if |ids| == 0 then []
    else
      var rest := PairsOf(ids[1..], qt, at);
      ConsDrawnFrom(ids, qt, at, rest);
      ConsCovers(ids, qt, at, rest);
      ConsIncreasing(ids, qt, at, rest);
      HeadPair(ids, qt, at) + rest
  }

  lemma ConsDrawnFrom(ids: seq<nat>, qt: map<nat, nat>, at: map<nat, nat>, rest: seq<Pair>)
    requires |ids| > 0 && DrawnFrom(rest, ids[1..], qt, at)
    ensures DrawnFrom(HeadPair(ids, qt, at) + rest, ids, qt, at)
  {
    var head := HeadPair(ids, qt, at);
    var pairs := head + rest;
    forall j | 0 <= j < |pairs|
      ensures pairs[j].id in ids && PairFromMaps(pairs[j], qt, at)
    {
      if j >= |head| {
        assert pairs[j] == rest[j - |head|];
        assert rest[j - |head|].id in ids[1..];
      }
    }
  }

  lemma ConsCovers(ids: seq<nat>, qt: map<nat, nat>, at: map<nat, nat>, rest: seq<Pair>)
    requires |ids| > 0 && CoversCommon(rest, ids[1..], qt, at)
    ensures CoversCommon(HeadPair(ids, qt, at) + rest, ids, qt, at)
  {
    var head := HeadPair(ids, qt, at);
    var pairs := head + rest;
    forall x | x in ids && x in qt && x in at
      ensures exists j :: 0 <= j < |pairs| && pairs[j].id == x
    {
      if x == ids[0] {
        assert pairs[0].id == x;
      } else {
        assert x in ids[1..];
        var j :| 0 <= j < |rest| && rest[j].id == x;
        assert pairs[|head| + j] == rest[j];
      }
    }
  }

  lemma ConsIncreasing(ids: seq<nat>, qt: map<nat, nat>, at: map<nat, nat>, rest: seq<Pair>)
    requires |ids| > 0 && DrawnFrom(rest, ids[1..], qt, at)
    requires StrictlyIncreasing(ids[1..]) ==> IdsIncreasing(rest)
    ensures StrictlyIncreasing(ids) ==> IdsIncreasing(HeadPair(ids, qt, at) + rest)
  {
    var head := HeadPair(ids, qt, at);
    var pairs := head + rest;
    if StrictlyIncreasing(ids) {
      assert StrictlyIncreasing(ids[1..]);
      forall i, j | 0 <= i < j < |pairs|
        ensures pairs[i].id < pairs[j].id
      {
        assert pairs[j] == rest[j - |head|];
        var x := rest[j - |head|].id;
        assert x in ids[1..];
        var q :| 0 <= q < |ids[1..]| && ids[1..][q] == x;
        assert ids[q + 1] == x;
        if i >= |head| {
          assert pairs[i] == rest[i - |head|];
        }
      }
    }
  }

  /**
   * The pairs `save_flagged_events` writes for two time maps: ascending
   * ids, one per id present in both maps, with delta = answer − question.
   */
  function PairTimes(qt: map<nat, nat>, at: map<nat, nat>): (pairs: seq<Pair>)
    ensures IdsIncreasing(pairs)
    ensures forall j :: 0 <= j < |pairs| ==> PairFromMaps(pairs[j], qt, at)
    ensures forall k :: k in qt && k in at <==> exists j :: 0 <= j < |pairs| && pairs[j].id == k
  {
    PairsOf(SortedIds(qt.Keys + at.Keys), qt, at)
  }

  /** The rows `save_flagged_events` appends, tagged with the session's participant and condition. */
  function SaveFlaggedEvents(s: LiveState): (rows: seq<Row>)
    ensures |rows| == |PairTimes(s.questionTimes, s.answerTimes)|
    ensures forall j :: 0 <= j < |rows| ==>
              && rows[j].participant == s.participant.GetOr("")
              && rows[j].condition == s.condition.GetOr("")
              && ParseEventId(rows[j].eventId) == Some(PairTimes(s.questionTimes, s.answerTimes)[j].id)
    ensures RowsCarryTimes(s, rows)
  {
    ToRows(s.participant.GetOr(""), s.condition.GetOr(""), PairTimes(s.questionTimes, s.answerTimes))
  }

  /**
   * Row j of a save carries the times the two maps hold for the j-th
   * paired id, and the difference answer − question.
   */
  predicate RowsCarryTimes(s: LiveState, rows: seq<Row>)
    requires |rows| == |PairTimes(s.questionTimes, s.answerTimes)|
  {
    forall j :: 0 <= j < |rows| ==>
      var id := PairTimes(s.questionTimes, s.answerTimes)[j].id;
      && id in s.questionTimes && id in s.answerTimes
      && rows[j].question == s.questionTimes[id]
      && rows[j].answer == s.answerTimes[id]
      && rows[j].delta == rows[j].answer - rows[j].question
  }

  /**
   * Under the key bound, every id written is an event already completed:
   * the rows of a save never name the event in progress or a later one.
   */
  lemma SavedIdsBelowEventId(s: LiveState)
    requires KeysBounded(s)
    ensures forall p :: p in PairTimes(s.questionTimes, s.answerTimes) ==> p.id < s.eventId
  {
  }

  // ---------------------------------------------------------------------
  // load_last_event_id

  predicate Matches(row: Row, participant: string, condition: string) {
    row.participant == participant && row.condition == condition
  }

  /**
   * How many rows the scan of `load_last_event_id` gets through: it stops
   * at the first row of this participant and condition whose id has no
   * integer after its first character (the exception ends the loop).
   */
  function ScanLength(rows: seq<Row>, participant: string, condition: string): (n: nat)
    ensures n <= |rows|
    ensures forall i :: 0 <= i < n && Matches(rows[i], participant, condition) ==>
              ParseEventId(rows[i].eventId).Some?
    ensures n < |rows| ==> Matches(rows[n], participant, condition) && ParseEventId(rows[n].eventId).None?
  {
    if |rows| == 0 then 0
    else if Matches(rows[0], participant, condition) && ParseEventId(rows[0].eventId).None? then 0
    else 1 + ScanLength(rows[1..], participant, condition)
  }

  /** `max(last_event_id, event_id)` folded over the rows, from `last_event_id = 0`. */
  function MaxMatching(rows: seq<Row>, participant: string, condition: string): (m: nat)
    requires PrefixParses(rows, participant, condition, |rows|)
    ensures IdsAtMost(rows, participant, condition, m)
    ensures m > 0 ==> IdAttained(rows, participant, condition, m)
  {
    if |rows| == 0 then 0
    else
      var init := rows[..|rows| - 1];
      var last := rows[|rows| - 1];
      assert forall i :: 0 <= i < |init| ==> init[i] == rows[i];
      var m := MaxMatching(init, participant, condition);
      if Matches(last, participant, condition) && ParseEventId(last.eventId).value > m then
        var v := ParseEventId(last.eventId).value;
        SnocAtMost(rows, participant, condition, m, v);
        assert IdAttained(rows, participant, condition, v) by {
          assert rows[|rows| - 1] == last;
        }
        v
      else
        SnocAtMost(rows, participant, condition, m, m);
        SnocAttained(rows, participant, condition, m);
        m
  }

  /** Every matching row's id is at most `m`. */
  predicate IdsAtMost(rows: seq<Row>, participant: string, condition: string, m: nat)
    requires PrefixParses(rows, participant, condition, |rows|)
  {
    forall i :: 0 <= i < |rows| && Matches(rows[i], participant, condition) ==>
      ParseEventId(rows[i].eventId).value <= m
  }

  /** Some matching row has id `m`. */
  predicate IdAttained(rows: seq<Row>, participant: string, condition: string, m: nat) {
    exists i :: 0 <= i < |rows| && Matches(rows[i], participant, condition)
                && ParseEventId(rows[i].eventId) == Some(m)
  }

  /** A bound on all but the last row that also covers the last row bounds them all. */
  lemma SnocAtMost(rows: seq<Row>, participant: string, condition: string, m: nat, v: nat)
    requires |rows| > 0 && PrefixParses(rows, participant, condition, |rows|)
    requires PrefixParses(rows[..|rows| - 1], participant, condition, |rows| - 1)
    requires IdsAtMost(rows[..|rows| - 1], participant, condition, m) && m <= v
    requires Matches(rows[|rows| - 1], participant, condition) ==> ParseEventId(rows[|rows| - 1].eventId).value <= v
    ensures IdsAtMost(rows, participant, condition, v)
  {
    var init := rows[..|rows| - 1];
    forall i | 0 <= i < |rows| && Matches(rows[i], participant, condition)
      ensures ParseEventId(rows[i].eventId).value <= v
    {
      if i < |init| {
        assert init[i] == rows[i];
      }
    }
  }

  /** An id attained before the last row is still attained. */
  lemma SnocAttained(rows: seq<Row>, participant: string, condition: string, m: nat)
    requires |rows| > 0
    requires m > 0 ==> IdAttained(rows[..|rows| - 1], participant, condition, m)
    ensures m > 0 ==> IdAttained(rows, participant, condition, m)
  {
    if m > 0 {
      var init := rows[..|rows| - 1];
      var i :| 0 <= i < |init| && Matches(init[i], participant, condition)
               && ParseEventId(init[i].eventId) == Some(m);
      assert rows[i] == init[i];
    }
  }

  /**
   * `load_last_event_id`: one more than the largest id of this
   * participant and condition among the rows scanned, 1 when there is none.
   */
  function LoadLastEventId(rows: seq<Row>, participant: string, condition: string): (id: nat)
    ensures id >= 1
    ensures ResumesAfterScanned(rows, participant, condition, id)
  {
    var n := ScanLength(rows, participant, condition);
    1 + MaxMatching(rows[..n], participant, condition)
  }

  /**
   * `id - 1` bounds every id of this participant and condition that the scan
   * reads, and is one of them unless it is 0.
   */
  predicate ResumesAfterScanned(rows: seq<Row>, participant: string, condition: string, id: nat)
    requires id >= 1
  {
    var scanned := rows[..ScanLength(rows, participant, condition)];
    && PrefixParses(scanned, participant, condition, |scanned|)
    && IdsAtMost(scanned, participant, condition, id - 1)
    && (id > 1 ==> IdAttained(scanned, participant, condition, id - 1))
  }

  /** The loop of `load_last_event_id` as written, with the exception ending the scan. */
  method LoadLastEventIdLoop(rows: seq<Row>, participant: string, condition: string) returns (eventId: nat)
    ensures eventId == LoadLastEventId(rows, participant, condition)
  {
    var last: nat := 0;
    var i := 0;
    ghost var n := ScanLength(rows, participant, condition);
    while i < |rows|
      invariant 0 <= i <= n
      invariant PrefixParses(rows, participant, condition, i)
      invariant last == MaxMatching(rows[..i], participant, condition)
      decreases |rows| - i
    {
      var row := rows[i];
      if Matches(row, participant, condition) {
        var parsed := ParseEventId(row.eventId);
        if parsed.None? {
          assert i == n;
          break;
        }
      }
      MaxMatchingStep(rows, participant, condition, i);
      if Matches(row, participant, condition) && ParseEventId(row.eventId).value > last {
        last := ParseEventId(row.eventId).value;
      }
      i := i + 1;
    }
    assert i == n;
    eventId := last + 1;
  }

  /** The loop has reached row `i` without an exception: rows before it parse where they match. */
  predicate PrefixParses(rows: seq<Row>, participant: string, condition: string, i: nat)
    requires i <= |rows|
  {
    forall j :: 0 <= j < i && Matches(rows[j], participant, condition) ==> ParseEventId(rows[j].eventId).Some?
  }

  /** One more row taken into the maximum. */
  lemma MaxMatchingStep(rows: seq<Row>, participant: string, condition: string, i: nat)
    requires i < |rows| && i <= ScanLength(rows, participant, condition)
    requires PrefixParses(rows, participant, condition, i)
    requires Matches(rows[i], participant, condition) ==> ParseEventId(rows[i].eventId).Some?
    ensures i + 1 <= ScanLength(rows, participant, condition)
    ensures PrefixParses(rows, participant, condition, i + 1)
    ensures MaxMatching(rows[..i + 1], participant, condition)
         == if Matches(rows[i], participant, condition)
               && ParseEventId(rows[i].eventId).value > MaxMatching(rows[..i], participant, condition)
            then ParseEventId(rows[i].eventId).value
            else MaxMatching(rows[..i], participant, condition)
  {
    assert rows[..i + 1][..i] == rows[..i];
    assert rows[..i + 1][i] == rows[i];
  }

  /** With no row of this participant and condition, the id restarts at 1. */
  lemma LoadWithoutMatches(rows: seq<Row>, participant: string, condition: string)
    requires forall i :: 0 <= i < |rows| ==> !Matches(rows[i], participant, condition)
    ensures LoadLastEventId(rows, participant, condition) == 1
  {
  }

  /**
   * Resumption after a save: if the log's matching rows all parse, a
   * fresh start for the same pair resumes above every id just written.
   */
  lemma LoadAfterSave(log: seq<Row>, s: LiveState, participant: string, condition: string)
    requires s.participant == Some(participant) && s.condition == Some(condition)
    requires ScanLength(log, participant, condition) == |log|
    ensures forall j :: 0 <= j < |SaveFlaggedEvents(s)| ==>
              PairTimes(s.questionTimes, s.answerTimes)[j].id
                < LoadLastEventId(log + SaveFlaggedEvents(s), participant, condition)
  {
    var saved := SaveFlaggedEvents(s);
    assert forall j :: 0 <= j < |saved| ==> Matches(saved[j], participant, condition);
    LoadAfterAppend(log, saved, participant, condition);
  }

  /**
   * Appending rows of the pair that all parse to a fully scanned log: the
   * load then resumes above every appended id.
   */
  lemma LoadAfterAppend(log: seq<Row>, added: seq<Row>, participant: string, condition: string)
    requires ScanLength(log, participant, condition) == |log|
    requires forall j :: 0 <= j < |added| ==> Matches(added[j], participant, condition)
                                              && ParseEventId(added[j].eventId).Some?
    ensures forall j :: 0 <= j < |added| ==>
              ParseEventId(added[j].eventId).value < LoadLastEventId(log + added, participant, condition)
  {
    var all := log + added;
    AppendedRowsParse(log, added, participant, condition);
    ScanAllParsed(all, participant, condition);
    assert forall j :: 0 <= j < |added| ==> all[|log| + j] == added[j];
    SuffixBelowLoad(all, |log|, participant, condition);
  }

  /** In a fully scanned log every matching row from `start` on has an id below the resumed one. */
  lemma SuffixBelowLoad(rows: seq<Row>, start: nat, participant: string, condition: string)
    requires ScanLength(rows, participant, condition) == |rows| && start <= |rows|
    requires forall j :: start <= j < |rows| ==> Matches(rows[j], participant, condition)
    ensures forall j :: start <= j < |rows| ==>
              ParseEventId(rows[j].eventId).value < LoadLastEventId(rows, participant, condition)
  {
    forall j | start <= j < |rows|
      ensures ParseEventId(rows[j].eventId).value < LoadLastEventId(rows, participant, condition)
    {
      LoadExceedsScannedIds(rows, participant, condition, j);
    }
  }

  lemma AppendedRowsParse(log: seq<Row>, added: seq<Row>, participant: string, condition: string)
    requires ScanLength(log, participant, condition) == |log|
    requires forall j :: 0 <= j < |added| ==> Matches(added[j], participant, condition)
                                              && ParseEventId(added[j].eventId).Some?
    ensures PrefixParses(log + added, participant, condition, |log + added|)
  {
    var all := log + added;
    forall i | 0 <= i < |all| && Matches(all[i], participant, condition)
      ensures ParseEventId(all[i].eventId).Some?
    {
      if i >= |log| {
        assert all[i] == added[i - |log|];
      }
    }
  }

  /** Every id in a fully scanned log is below the id the load resumes from. */
  lemma LoadExceedsScannedIds(rows: seq<Row>, participant: string, condition: string, k: nat)
    requires ScanLength(rows, participant, condition) == |rows|
    requires k < |rows| && Matches(rows[k], participant, condition)
    ensures ParseEventId(rows[k].eventId).Some?
    ensures ParseEventId(rows[k].eventId).value < LoadLastEventId(rows, participant, condition)
  {
    assert rows[..|rows|] == rows;
  }

  /** When every matching row parses, the scan reaches the end. */
  lemma {:induction false} ScanAllParsed(rows: seq<Row>, participant: string, condition: string)
    requires PrefixParses(rows, participant, condition, |rows|)
    ensures ScanLength(rows, participant, condition) == |rows|
  {
    if |rows| > 0 {
      assert forall i :: 0 <= i < |rows| - 1 ==> rows[1..][i] == rows[i + 1];
      ScanAllParsed(rows[1..], participant, condition);
    }
  }

  /**
   * Every handler keeps the key bound: answers only for completed events,
   * questions for completed events or the one in progress.
   */
  lemma FlagsKeepKeysBounded(s: LiveState, t: nat)
    requires KeysBounded(s)
    ensures KeysBounded(FlagQuestion(s, t))
    ensures KeysBounded(FlagAnswer(s, t))
    ensures KeysBounded(AutoFlagEndOfQuestion(s, t))
    ensures KeysBounded(PreviousQuestion(s)) && KeysBounded(NextQuestion(s))
  {
  }

  lemma StartStopKeepKeysBounded(a: App, participantEntry: string, conditionEntry: string)
    requires KeysBounded(a.state)
    ensures KeysBounded(StartRecording(a, participantEntry, conditionEntry).state)
    ensures KeysBounded(StopRecording(a).state)
  {
  }
}
