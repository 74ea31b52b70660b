/**
 * The shapes shared by the live recorder and the batch script: labelled
 * segments, completed question/answer pairs and the six-column rows of the
 * event log (`Participant ID, Condition, Event ID, Question Timestamp,
 * Answer Timestamp, Time Difference`).
 *
 * Times are integers: hundredths of a second on the live path, sample
 * indices on the batch path, so that every difference is exact.
 */
module Records {
  import opened Wrappers
  import opened EventIds

  datatype Kind = Question | Answer

  /** A run of speech from `start` to `end` (both sample indices, inclusive). */
  datatype Span = Span(start: nat, end: nat)

  /** A span with the role `analyze_audio` gave it. */
  datatype Segment = Segment(kind: Kind, start: nat, end: nat)

  /** One completed question/answer pairing before it is written out. */
  datatype Pair = Pair(id: nat, question: int, answer: int, delta: int)

  /** One line of the event log; every field is text except the times. */
  datatype Row = Row(
    participant: string,
    condition: string,
    eventId: string,
    question: int,
    answer: int,
    delta: int)

  /** The row a writer emits for a pair: the id becomes `E<id>`. */
  function ToRow(participant: string, condition: string, p: Pair): (r: Row)
    ensures ParseEventId(r.eventId) == Some(p.id)
    ensures r.participant == participant && r.condition == condition
    ensures r.question == p.question && r.answer == p.answer && r.delta == p.delta
  {
    EventIdRoundTrip(p.id);
    Row(participant, condition, FormatEventId(p.id), p.question, p.answer, p.delta)
  }

  /** The rows a writer emits for a list of pairs: one per pair, in order, each reading back as its pair. */
  function ToRows(participant: string, condition: string, pairs: seq<Pair>): (rows: seq<Row>)
    ensures |rows| == |pairs|
    ensures forall j :: 0 <= j < |rows| ==>
              && rows[j].participant == participant && rows[j].condition == condition
              && ParseEventId(rows[j].eventId) == Some(pairs[j].id)
              && rows[j].question == pairs[j].question && rows[j].answer == pairs[j].answer
              && rows[j].delta == pairs[j].delta
  {
    seq(|pairs|, j requires 0 <= j < |pairs| => ToRow(participant, condition, pairs[j]))
  }
}
