/**
 * The Question/Answer pairing loop of `save_segments_to_csv` and its copy
 * in `process_directory` (scripts/wavstomp.py).
 *
 * Walking the labelled segments in order, a Question remembers its end time
 * (`question_time = end`); an Answer that finds a remembered question time
 * completes a pair with `delta = answer end - question end` and takes the
 * next id. The remembered time is never cleared, so two Answers in a row
 * both pair with the same Question, and an Answer before any Question is
 * dropped.
 */
module Pairing {
  import opened Wrappers
  import opened Records
  import opened Segmenter

  /** The pairs produced and the question time still remembered at the end. */
  datatype Pairing = Pairing(pairs: seq<Pair>, pending: Option<int>)

  function CountAnswers(segs: seq<Segment>): nat {
    if |segs| == 0 then 0
    else (if segs[0].kind == Answer then 1 else 0) + CountAnswers(segs[1..])
  }

  /**
   * The pairing loop, starting from the remembered question time `pending`
   * and the id `nextId`. Ids are consecutive from `nextId`; every delta is
   * answer minus question; at most one pair per Answer, and exactly one per
   * Answer once a question time is remembered.
   */
  function PairSegments(segs: seq<Segment>, pending: Option<int>, nextId: nat): (r: Pairing)
    ensures |r.pairs| <= CountAnswers(segs)
    ensures pending.Some? ==> |r.pairs| == CountAnswers(segs) && r.pending.Some?
    ensures forall j :: 0 <= j < |r.pairs| ==>
              r.pairs[j].id == nextId + j && r.pairs[j].delta == r.pairs[j].answer - r.pairs[j].question
    decreases |segs|
  {
    if |segs| == 0 then Pairing([], pending)
    else
      var s := segs[0];
      if s.kind == Question then PairSegments(segs[1..], Some(s.end), nextId)
      else if pending.Some? then
        var rest := PairSegments(segs[1..], pending, nextId + 1);
        Pairing([Pair(nextId, pending.value, s.end, s.end - pending.value)] + rest.pairs, rest.pending)
      else PairSegments(segs[1..], pending, nextId)
  }

  /**
   * One iteration of the loop, read left to right: a Question replaces the
   * remembered question time; an Answer completes a pair with the
   * remembered time and the next free id; an Answer with nothing
   * remembered is dropped.
   */
  function Feed(before: Pairing, s: Segment, firstId: nat): Pairing {
    if s.kind == Question then Pairing(before.pairs, Some(s.end))
    else if before.pending.Some? then
      var q := before.pending.value;
      Pairing(before.pairs + [Pair(firstId + |before.pairs|, q, s.end, s.end - q)], before.pending)
    else before
  }

  /** The recursive definition agrees with running the loop one segment at a time. */
  lemma {:induction false} PairSegmentsSnoc(segs: seq<Segment>, s: Segment, pending: Option<int>, nextId: nat)
    ensures PairSegments(segs + [s], pending, nextId) == Feed(PairSegments(segs, pending, nextId), s, nextId)
    decreases |segs|
  {
    if |segs| == 0 {
      assert [s][1..] == [];
    } else {
      var head := segs[0];
      assert (segs + [s])[0] == head;
      assert (segs + [s])[1..] == segs[1..] + [s];
      if head.kind == Question {
        PairSegmentsSnoc(segs[1..], s, Some(head.end), nextId);
      } else if pending.Some? {
        PairSegmentsSnoc(segs[1..], s, pending, nextId + 1);
        SnocAfterAnswer(segs, s, pending.value, nextId);
      } else {
        PairSegmentsSnoc(segs[1..], s, pending, nextId);
      }
    }
  }

  /** The step of `PairSegmentsSnoc` past a leading Answer that completes a pair. */
  lemma SnocAfterAnswer(segs: seq<Segment>, s: Segment, q: int, nextId: nat)
    requires |segs| > 0 && segs[0].kind == Answer
    requires PairSegments(segs[1..] + [s], Some(q), nextId + 1)
          == Feed(PairSegments(segs[1..], Some(q), nextId + 1), s, nextId + 1)
    ensures PairSegments(segs + [s], Some(q), nextId) == Feed(PairSegments(segs, Some(q), nextId), s, nextId)
  {
    var head := segs[0];
    assert (segs + [s])[0] == head && (segs + [s])[1..] == segs[1..] + [s];
    AnswerFirst(segs + [s], q, nextId);
    AnswerFirst(segs, q, nextId);
    FeedAfterPair(Pair(nextId, q, head.end, head.end - q), PairSegments(segs[1..], Some(q), nextId + 1), s, nextId);
  }

  /** A leading Answer with a remembered question time yields the first pair. */
  lemma AnswerFirst(segs: seq<Segment>, q: int, nextId: nat)
    requires |segs| > 0 && segs[0].kind == Answer
    ensures PairSegments(segs, Some(q), nextId)
         == Pairing([Pair(nextId, q, segs[0].end, segs[0].end - q)] + PairSegments(segs[1..], Some(q), nextId + 1).pairs,
                    PairSegments(segs[1..], Some(q), nextId + 1).pending)
  {
  }

  /** Feeding a segment commutes with a pair placed in front, the ids shifting by one. */
  lemma FeedAfterPair(p: Pair, rest: Pairing, s: Segment, nextId: nat)
    ensures Feed(Pairing([p] + rest.pairs, rest.pending), s, nextId)
         == Pairing([p] + Feed(rest, s, nextId + 1).pairs, Feed(rest, s, nextId + 1).pending)
  {
    if s.kind == Answer && rest.pending.Some? {
      var q := rest.pending.value;
      var x := Pair(nextId + 1 + |rest.pairs|, q, s.end, s.end - q);
      assert [p] + (rest.pairs + [x]) == ([p] + rest.pairs) + [x];
    }
  }

  /** The pairs on alternately labelled input: segment 2j's end against segment 2j+1's end. */
  function AlternatingPairs(spans: seq<Span>, firstId: nat): (pairs: seq<Pair>)
    ensures |pairs| == |spans| / 2
  {
    seq(|spans| / 2, j requires 0 <= j < |spans| / 2 =>
      Pair(firstId + j, spans[2 * j].end, spans[2 * j + 1].end, spans[2 * j + 1].end - spans[2 * j].end))
  }

  lemma AlternatingPairsCons(spans: seq<Span>, firstId: nat)
    requires |spans| >= 2
    ensures AlternatingPairs(spans, firstId)
         == [Pair(firstId, spans[0].end, spans[1].end, spans[1].end - spans[0].end)]
            + AlternatingPairs(spans[2..], firstId + 1)
  {
    var rest := AlternatingPairs(spans[2..], firstId + 1);
    var all := AlternatingPairs(spans, firstId);
    forall j | 1 <= j < |all|
      ensures all[j] == rest[j - 1]
    {
      assert spans[2 * j] == spans[2..][2 * (j - 1)];
      assert spans[2 * j + 1] == spans[2..][2 * (j - 1) + 1];
    }
  }

  /**
   * On the output of the labelling step the loop emits exactly ⌊n/2⌋ pairs,
   * pairing each Question with the Answer right after it, whatever question
   * time was remembered before: a remembered time never leaks into the
   * pairs of a non-empty labelled list.
   */
  lemma {:induction false} PairLabelled(spans: seq<Span>, pending: Option<int>, firstId: nat)
    ensures PairSegments(Label(spans), pending, firstId).pairs == AlternatingPairs(spans, firstId)
    ensures |spans| > 0 ==> PairSegments(Label(spans), pending, firstId).pending.Some?
    ensures |spans| == 0 ==> PairSegments(Label(spans), pending, firstId).pending == pending
    decreases |spans|
  {
    var segs := Label(spans);
    if |spans| >= 2 {
      var q := spans[0].end;
      PairLabelled(spans[2..], Some(q), firstId + 1);
      LabelHead(spans);
      QuestionAnswerFirst(segs, pending, firstId);
      AlternatingPairsCons(spans, firstId);
    } else if |spans| == 1 {
      assert segs[1..] == [];
    }
  }

  /** The first two labelled segments are a Question and an Answer; the rest is the labelling of the rest. */
  lemma LabelHead(spans: seq<Span>)
    requires |spans| >= 2
    ensures Label(spans)[0].kind == Question && Label(spans)[0].end == spans[0].end
    ensures Label(spans)[1].kind == Answer && Label(spans)[1].end == spans[1].end
    ensures Label(spans)[2..] == Label(spans[2..])
  {
    LabelDropTwo(spans);
  }

  /** A Question followed by an Answer gives the first pair, whatever was remembered before. */
  lemma QuestionAnswerFirst(segs: seq<Segment>, pending: Option<int>, firstId: nat)
    requires |segs| >= 2 && segs[0].kind == Question && segs[1].kind == Answer
    ensures PairSegments(segs, pending, firstId)
         == Pairing([Pair(firstId, segs[0].end, segs[1].end, segs[1].end - segs[0].end)]
                      + PairSegments(segs[2..], Some(segs[0].end), firstId + 1).pairs,
                    PairSegments(segs[2..], Some(segs[0].end), firstId + 1).pending)
  {
    assert segs[1..][1..] == segs[2..];
    AnswerFirst(segs[1..], segs[0].end, firstId);
  }
}
