/**
 * The integer half of `detect_speech_segments` and the labelling done by
 * `analyze_audio` (scripts/wavstomp.py).
 *
 * The input is the list of "active" sample indices, the indices whose
 * normalised amplitude exceeds the dynamic threshold. `np.where` produces
 * it in strictly increasing order. The silence gap and the minimum segment
 * length are sample counts here (see `SilenceGapSamples` and
 * `MinSegmentSamples`).
 *
 * The loop is modelled by the method `DetectSpeechSegments`; its result is
 * proved equal to a reference definition: split the indices into maximal
 * runs (`Runs`, characterised by `IsRunSplit`, which determines the split
 * uniquely), then keep each run whose length reaches the minimum (`Keep`).
 */
module Segmenter {
  import opened Records

  function Last(run: seq<nat>): nat
    requires |run| > 0
  {
    run[|run| - 1]
  }

  /** The runs laid end to end. */
  function Flatten(runs: seq<seq<nat>>): seq<nat> {
    if |runs| == 0 then [] else runs[0] + Flatten(runs[1..])
  }

  /** No gap inside the run is wider than `gap`. */
  predicate Chained(run: seq<nat>, gap: nat) {
    forall k :: 0 < k < |run| ==> run[k] <= run[k - 1] + gap
  }

  /**
   * `runs` cuts `idx` into non-empty pieces, keeping together neighbours at
   * most `gap` apart and separating neighbours more than `gap` apart.
   */
  predicate IsRunSplit(idx: seq<nat>, runs: seq<seq<nat>>, gap: nat) {
    && Flatten(runs) == idx
    && (forall r :: 0 <= r < |runs| ==> |runs[r]| > 0 && Chained(runs[r], gap))
    && (forall r :: 0 < r < |runs| ==> runs[r][0] > Last(runs[r - 1]) + gap)
  }

  predicate Increasing(idx: seq<nat>) {
    forall i, j :: 0 <= i < j < |idx| ==> idx[i] < idx[j]
  }

  /** Every segment starts and ends on an active index and lasts at least `minLen`. */
  predicate OnActive(segs: seq<Span>, idx: seq<nat>, minLen: nat) {
    forall k :: 0 <= k < |segs| ==>
      segs[k].start in idx && segs[k].end in idx && segs[k].end - segs[k].start >= minLen
  }

  /** Each segment starts more than `gap` after the previous one ends. */
  predicate Separated(segs: seq<Span>, gap: nat) {
    forall k :: 0 < k < |segs| ==> segs[k].start > segs[k - 1].end + gap
  }

  /** Reference definition of the runs: built from the right, one index at a time. */
  function Runs(idx: seq<nat>, gap: nat): (runs: seq<seq<nat>>)
    ensures IsRunSplit(idx, runs, gap)
  {
    if |idx| == 0 then []
    else
      var rest := Runs(idx[1..], gap);
      assert idx == [idx[0]] + idx[1..];
      if |rest| > 0 && rest[0][0] <= idx[0] + gap then
        JoinFirstRun(idx[0], idx[1..], rest, gap);
        [[idx[0]] + rest[0]] + rest[1..]
      else
        NewFirstRun(idx[0], idx[1..], rest, gap);
        [[idx[0]]] + rest
  }

  /** An index within `gap` of the first run joins it. */
  lemma JoinFirstRun(x: nat, tail: seq<nat>, rest: seq<seq<nat>>, gap: nat)
    requires IsRunSplit(tail, rest, gap)
    requires |rest| > 0 && rest[0][0] <= x + gap
    ensures IsRunSplit([x] + tail, [[x] + rest[0]] + rest[1..], gap)
  {
    var runs := [[x] + rest[0]] + rest[1..];
    assert runs[1..] == rest[1..];
    assert Flatten(rest) == rest[0] + Flatten(rest[1..]);
    forall r | 0 < r < |runs|
      ensures runs[r] == rest[r]
    {
    }
  }

  /** An index more than `gap` before the first run starts a run of its own. */
  lemma NewFirstRun(x: nat, tail: seq<nat>, rest: seq<seq<nat>>, gap: nat)
    requires IsRunSplit(tail, rest, gap)
    requires |rest| == 0 || rest[0][0] > x + gap
    ensures IsRunSplit([x] + tail, [[x]] + rest, gap)
  {
    var runs := [[x]] + rest;
    assert runs[1..] == rest;
  }

  lemma {:induction false} FlattenEmpty(runs: seq<seq<nat>>)
    requires forall r :: 0 <= r < |runs| ==> |runs[r]| > 0
    requires Flatten(runs) == []
    ensures runs == []
  {
  }

  /** Exactly one split satisfies `IsRunSplit`: every index belongs to one determined run. */
  lemma {:induction false} RunSplitUnique(idx: seq<nat>, a: seq<seq<nat>>, b: seq<seq<nat>>, gap: nat)
    requires IsRunSplit(idx, a, gap) && IsRunSplit(idx, b, gap)
    ensures a == b
    decreases |idx|
  {
    if |idx| == 0 {
      FlattenEmpty(a);
      FlattenEmpty(b);
    } else {
      var m, n := |a[0]|, |b[0]|;
      assert idx == a[0] + Flatten(a[1..]);
      assert idx == b[0] + Flatten(b[1..]);
      if m < n {
        FirstRunEnds(idx, a, gap);
        assert false;
      } else if n < m {
        FirstRunEnds(idx, b, gap);
        assert false;
      }
      RestOfSplit(idx, a, gap);
      RestOfSplit(idx, b, gap);
      RunSplitUnique(idx[m..], a[1..], b[1..], gap);
      assert a == [a[0]] + a[1..] && b == [b[0]] + b[1..];
    }
  }

  /** Past its first run, a split is a split of the rest of the indices. */
  lemma RestOfSplit(idx: seq<nat>, a: seq<seq<nat>>, gap: nat)
    requires IsRunSplit(idx, a, gap) && |a| > 0
    ensures a[0] == idx[..|a[0]|] && IsRunSplit(idx[|a[0]|..], a[1..], gap)
  {
    assert idx == a[0] + Flatten(a[1..]);
  }

  /** When a split has a second run, the index after the first run is more than `gap` past its end. */
  lemma FirstRunEnds(idx: seq<nat>, a: seq<seq<nat>>, gap: nat)
    requires IsRunSplit(idx, a, gap) && |a| > 0 && |a[0]| < |idx|
    ensures idx[|a[0]|] > idx[|a[0]| - 1] + gap
  {
    assert idx == a[0] + Flatten(a[1..]);
    assert |a| > 1;
    assert Flatten(a[1..]) == a[1] + Flatten(a[2..]);
    assert idx[|a[0]|] == a[1][0];
  }

  /** The segment a kept run becomes: its first and last active index. */
  function SpanOf(run: seq<nat>): Span
    requires |run| > 0
  {
    Span(run[0], Last(run))
  }

  /** The spans `Keep` makes of one run: none when the run is too short. */
  function KeepOne(run: seq<nat>, minLen: nat): seq<Span>
    requires |run| > 0
  {
    if Last(run) - run[0] >= minLen then [SpanOf(run)] else []
  }

  /** Reference definition of the filter: every run, the last one included, passes the same length test. */
  function Keep(runs: seq<seq<nat>>, minLen: nat): seq<Span>
    requires forall r :: 0 <= r < |runs| ==> |runs[r]| > 0
  {
    if |runs| == 0 then []
    else Keep(runs[..|runs| - 1], minLen) + KeepOne(runs[|runs| - 1], minLen)
  }

  /** The segments `detect_speech_segments` returns, as a function. */
  function SpeechSegments(idx: seq<nat>, gap: nat, minLen: nat): seq<Span> {
    Keep(Runs(idx, gap), minLen)
  }

  lemma {:induction false} FlattenAppend(runs: seq<seq<nat>>, run: seq<nat>)
    ensures Flatten(runs + [run]) == Flatten(runs) + run
  {
    if |runs| > 0 {
      FlattenAppend(runs[1..], run);
      assert (runs + [run])[1..] == runs[1..] + [run];
    }
  }

  lemma ExtendRun(pre: seq<nat>, done: seq<seq<nat>>, cur: seq<nat>, x: nat, gap: nat)
    requires IsRunSplit(pre, done + [cur], gap)
    requires |cur| > 0 && x <= Last(cur) + gap
    ensures IsRunSplit(pre + [x], done + [cur + [x]], gap)
  {
    FlattenAppend(done, cur);
    FlattenAppend(done, cur + [x]);
    var runs := done + [cur + [x]];
    assert (done + [cur])[|done|] == cur;
    forall r | 0 <= r < |runs|
      ensures |runs[r]| > 0 && Chained(runs[r], gap)
    {
      if r < |done| {
        assert (done + [cur])[r] == runs[r];
      }
    }
    forall r | 0 < r < |runs|
      ensures runs[r][0] > Last(runs[r - 1]) + gap
    {
      assert (done + [cur])[r] [0] == runs[r][0];
      if r - 1 < |done| {
        assert (done + [cur])[r - 1] == runs[r - 1];
      }
    }
  }

  lemma StartRun(pre: seq<nat>, runs: seq<seq<nat>>, x: nat, gap: nat)
    requires IsRunSplit(pre, runs, gap)
    requires |runs| > 0 && x > Last(runs[|runs| - 1]) + gap
    ensures IsRunSplit(pre + [x], runs + [[x]], gap)
  {
    FlattenAppend(runs, [x]);
    var next := runs + [[x]];
    forall r | 0 <= r < |next|
      ensures |next[r]| > 0 && Chained(next[r], gap)
    {
      if r < |runs| {
        assert next[r] == runs[r];
      }
    }
    forall r | 0 < r < |next|
      ensures next[r][0] > Last(next[r - 1]) + gap
    {
      if r < |runs| {
        assert next[r] == runs[r] && next[r - 1] == runs[r - 1];
      }
    }
  }

  /** Every index of every run occurs in the flattened sequence. */
  lemma {:induction false} InFlatten(runs: seq<seq<nat>>, r: nat, j: nat)
    requires r < |runs| && j < |runs[r]|
    ensures runs[r][j] in Flatten(runs)
  {
    if r > 0 {
      InFlatten(runs[1..], r - 1, j);
    }
  }

  /** `span` is the span of one of `runs` that passed the length test. */
  ghost predicate KeptFrom(span: Span, runs: seq<seq<nat>>, minLen: nat)
    requires forall r :: 0 <= r < |runs| ==> |runs[r]| > 0
  {
    exists r :: 0 <= r < |runs| && span == SpanOf(runs[r]) && Last(runs[r]) - runs[r][0] >= minLen
  }

  /** Each kept span is the span of a run that passed the length test. */
  lemma {:induction false} KeepFromRuns(runs: seq<seq<nat>>, minLen: nat)
    requires forall r :: 0 <= r < |runs| ==> |runs[r]| > 0
    ensures forall k :: 0 <= k < |Keep(runs, minLen)| ==> KeptFrom(Keep(runs, minLen)[k], runs, minLen)
  {
    if |runs| > 0 {
      var init := runs[..|runs| - 1];
      KeepFromRuns(init, minLen);
      var spans := Keep(runs, minLen);
      assert spans == Keep(init, minLen) + KeepOne(runs[|runs| - 1], minLen);
      forall k | 0 <= k < |spans|
        ensures KeptFrom(spans[k], runs, minLen)
      {
        if k < |Keep(init, minLen)| {
          assert KeptFrom(Keep(init, minLen)[k], init, minLen);
          var r :| 0 <= r < |init| && Keep(init, minLen)[k] == SpanOf(init[r])
                   && Last(init[r]) - init[r][0] >= minLen;
          assert runs[r] == init[r];
        } else {
          assert spans[k] == SpanOf(runs[|runs| - 1]);
        }
      }
    }
  }

  /** On increasing input every run starts more than `gap` after every earlier run ends. */
  lemma {:induction false} RunsOrdered(idx: seq<nat>, runs: seq<seq<nat>>, gap: nat)
    requires IsRunSplit(idx, runs, gap) && Increasing(idx)
    ensures forall r, q :: 0 <= r < q < |runs| ==> runs[q][0] > Last(runs[r]) + gap
    decreases |runs|
  {
    if |runs| > 1 {
      var tail := Flatten(runs[1..]);
      assert idx == runs[0] + tail;
      assert tail == idx[|runs[0]|..];
      assert IsRunSplit(tail, runs[1..], gap);
      RunsOrdered(tail, runs[1..], gap);
      assert tail == runs[1] + Flatten(runs[2..]);
      forall r, q | 0 <= r < q < |runs|
        ensures runs[q][0] > Last(runs[r]) + gap
      {
        if r == 0 {
          InFlatten(runs[1..], q - 1, 0);
          var p :| 0 <= p < |tail| && tail[p] == runs[q][0];
          assert tail[0] == runs[1][0];
          assert tail[0] <= tail[p];
        } else {
          assert runs[1..][q - 1] == runs[q] && runs[1..][r - 1] == runs[r];
        }
      }
    }
  }

  /** Spans kept from ordered runs are separated by more than `gap`. */
  lemma {:induction false} KeepSeparated(runs: seq<seq<nat>>, gap: nat, minLen: nat)
    requires forall r :: 0 <= r < |runs| ==> |runs[r]| > 0
    requires forall r, q :: 0 <= r < q < |runs| ==> runs[q][0] > Last(runs[r]) + gap
    ensures Separated(Keep(runs, minLen), gap)
  {
    if |runs| > 0 {
      var init := runs[..|runs| - 1];
      KeepSeparated(init, gap, minLen);
      var before := Keep(init, minLen);
      var spans := Keep(runs, minLen);
      assert spans == before + KeepOne(runs[|runs| - 1], minLen);
      if |spans| > |before| && |before| > 0 {
        KeepFromRuns(init, minLen);
        assert KeptFrom(before[|before| - 1], init, minLen);
        var r :| 0 <= r < |init| && before[|before| - 1] == SpanOf(init[r])
                 && Last(init[r]) - init[r][0] >= minLen;
        assert runs[r] == init[r];
        assert spans[|spans| - 1] == SpanOf(runs[|runs| - 1]);
      }
    }
  }

  /**
   * What `detect_speech_segments` promises: nothing from no active index;
   * every segment starts and ends on an active index and is at least
   * `minLen` long; on strictly increasing input the segments come in order,
   * each starting more than `gap` after the previous one ends.
   */
  lemma SpeechSegmentsShape(idx: seq<nat>, gap: nat, minLen: nat)
    ensures |idx| == 0 ==> SpeechSegments(idx, gap, minLen) == []
    ensures OnActive(SpeechSegments(idx, gap, minLen), idx, minLen)
    ensures Increasing(idx) ==> Separated(SpeechSegments(idx, gap, minLen), gap)
  {
    var runs := Runs(idx, gap);
    var segs := SpeechSegments(idx, gap, minLen);
    if |idx| == 0 {
      FlattenEmpty(runs);
    }
    KeepFromRuns(runs, minLen);
    forall k | 0 <= k < |segs|
      ensures segs[k].start in idx && segs[k].end in idx && segs[k].end - segs[k].start >= minLen
    {
      assert KeptFrom(segs[k], runs, minLen);
      var r :| 0 <= r < |runs| && segs[k] == SpanOf(runs[r]) && Last(runs[r]) - runs[r][0] >= minLen;
      InFlatten(runs, r, 0);
      InFlatten(runs, r, |runs[r]| - 1);
    }
    if Increasing(idx) {
      RunsOrdered(idx, runs, gap);
      KeepSeparated(runs, gap, minLen);
    }
  }

  /**
   * The state of the merging loop after reading the prefix `pre`: the
   * closed runs `done` and the open run `cur` split the prefix, and `segs`
   * holds what the closed runs kept.
   */
  ghost predicate Scanned(pre: seq<nat>, done: seq<seq<nat>>, cur: seq<nat>, segs: seq<Span>, gap: nat, minLen: nat) {
    && (forall r :: 0 <= r < |done| ==> |done[r]| > 0)
    && segs == Keep(done, minLen)
    && (|pre| == 0 ==> done == [] && cur == [])
    && (|pre| > 0 ==> |cur| > 0 && IsRunSplit(pre, done + [cur], gap))
  }

  /** The first active index opens the first run. */
  lemma ScanFirst(x: nat, gap: nat, minLen: nat)
    ensures Scanned([x], [], [x], [], gap, minLen)
  {
    assert Flatten([[x]]) == [x] + Flatten([]);
  }

  /** An index within `gap` of the open run extends it. */
  lemma ScanExtend(pre: seq<nat>, done: seq<seq<nat>>, cur: seq<nat>, segs: seq<Span>, x: nat, gap: nat, minLen: nat)
    requires Scanned(pre, done, cur, segs, gap, minLen) && |pre| > 0
    requires x <= Last(cur) + gap
    ensures Scanned(pre + [x], done, cur + [x], segs, gap, minLen)
  {
    ExtendRun(pre, done, cur, x, gap);
  }

  /** An index more than `gap` past the open run closes it, passes it through the length test, and opens a new run. */
  lemma ScanClose(pre: seq<nat>, done: seq<seq<nat>>, cur: seq<nat>, segs: seq<Span>, x: nat, gap: nat, minLen: nat)
    requires Scanned(pre, done, cur, segs, gap, minLen) && |pre| > 0
    requires x > Last(cur) + gap
    ensures Scanned(pre + [x], done + [cur], [x], segs + KeepOne(cur, minLen), gap, minLen)
  {
    assert (done + [cur])[..|done|] == done;
    StartRun(pre, done + [cur], x, gap);
  }

  /** After the last index the open run passes the same length test, and the result is the reference one. */
  lemma ScanFinish(idx: seq<nat>, done: seq<seq<nat>>, cur: seq<nat>, segs: seq<Span>, gap: nat, minLen: nat)
    requires Scanned(idx, done, cur, segs, gap, minLen)
    ensures |idx| > 0 ==> segs + KeepOne(cur, minLen) == SpeechSegments(idx, gap, minLen)
    ensures |idx| == 0 ==> segs == SpeechSegments(idx, gap, minLen)
  {
    if |idx| > 0 {
      var runs := done + [cur];
      assert runs[..|done|] == done;
      RunSplitUnique(idx, runs, Runs(idx, gap), gap);
    } else {
      FlattenEmpty(Runs(idx, gap));
    }
  }

  /**
   * One pass of the loop body of `detect_speech_segments` on the active
   * index `x`, read after the prefix `pre`: the first index opens a run, an
   * index more than `gap` past the open run closes it (keeping its span
   * when it is long enough) and opens a new one, any other index extends
   * the open run.
   */
  method Advance(ghost pre: seq<nat>, x: nat, gap: nat, minLen: nat, started: bool,
                 curStart: nat, curEnd: nat, segs: seq<Span>,
                 ghost done: seq<seq<nat>>, ghost cur: seq<nat>)
    returns (start': nat, segs': seq<Span>, ghost done': seq<seq<nat>>, ghost cur': seq<nat>)
    requires started <==> |pre| > 0
    requires Scanned(pre, done, cur, segs, gap, minLen)
    requires started ==> |cur| > 0 && cur[0] == curStart && Last(cur) == curEnd
    ensures Scanned(pre + [x], done', cur', segs', gap, minLen)
    ensures |cur'| > 0 && cur'[0] == start' && Last(cur') == x
  {
    if !started {
      ScanFirst(x, gap, minLen);
      start', segs', done', cur' := x, segs, done, [x];
    } else if x > curEnd + gap {
      ScanClose(pre, done, cur, segs, x, gap, minLen);
      if curEnd - curStart >= minLen {
        segs' := segs + [Span(curStart, curEnd)];
      } else {
        segs' := segs;
      }
      start', done', cur' := x, done + [cur], [x];
    } else {
      ScanExtend(pre, done, cur, segs, x, gap, minLen);
      start', segs', done', cur' := curStart, segs, done, cur + [x];
    }
  }

  /**
   * The run-merging loop of `detect_speech_segments`, with the gap and the
   * minimum length as sample counts. It computes the reference definition,
   * so it has the shape `SpeechSegmentsShape` states.
   */
  method DetectSpeechSegments(idx: seq<nat>, gap: nat, minLen: nat) returns (segs: seq<Span>)
    ensures segs == SpeechSegments(idx, gap, minLen)
    ensures OnActive(segs, idx, minLen)
    ensures Increasing(idx) ==> Separated(segs, gap)
  {
    segs := [];
    var started := false;
    var curStart: nat := 0;
    var curEnd: nat := 0;
    ghost var done: seq<seq<nat>> := [];
    ghost var cur: seq<nat> := [];
    for i := 0 to |idx|
      invariant started <==> i > 0
      invariant Scanned(idx[..i], done, cur, segs, gap, minLen)
      invariant started ==> |cur| > 0 && cur[0] == curStart && Last(cur) == curEnd
    {
      curStart, segs, done, cur := Advance(idx[..i], idx[i], gap, minLen, started, curStart, curEnd, segs, done, cur);
      started := true;
      curEnd := idx[i];
      assert idx[..i + 1] == idx[..i] + [idx[i]];
    }
    assert idx[..|idx|] == idx;
    ScanFinish(idx, done, cur, segs, gap, minLen);
    if started && curEnd - curStart >= minLen {
      segs := segs + [Span(curStart, curEnd)];
    }
    SpeechSegmentsShape(idx, gap, minLen);
  }

  /** Role of the k-th detected segment: even positions are questions, odd ones answers. */
  function KindAt(k: nat): Kind {
    if k % 2 == 0 then Question else Answer
  }

  /** The spans of a labelled list, in order. */
  function Unlabel(segs: seq<Segment>): (spans: seq<Span>)
    ensures |spans| == |segs|
  {
    seq(|segs|, k requires 0 <= k < |segs| => Span(segs[k].start, segs[k].end))
  }

  /**
   * The labelling loop of `analyze_audio`: spans keep their count and order;
   * the first is a Question and the kinds alternate from there.
   */
  function Label(spans: seq<Span>): (segs: seq<Segment>)
    ensures Unlabel(segs) == spans
    ensures |segs| > 0 ==> segs[0].kind == Question
    ensures forall k :: 0 < k < |segs| ==> segs[k].kind != segs[k - 1].kind
  {
    seq(|spans|, k requires 0 <= k < |spans| => Segment(KindAt(k), spans[k].start, spans[k].end))
  }

  /** Dropping the first two labelled segments leaves the labelling of the rest. */
  lemma LabelDropTwo(spans: seq<Span>)
    requires |spans| >= 2
    ensures Label(spans)[2..] == Label(spans[2..])
  {
  }

  /** The float test of the loop: a distance of `d` samples is more than 0.4 s at `rate`. */
  predicate ExceedsSilenceGap(d: int, rate: nat) {
    d as real > 0.4 * rate as real
  }

  /** The float test of the length filter: `d` samples last at least 0.1 s at `rate`. */
  predicate LongEnough(d: int, rate: nat) {
    rate > 0 && d as real / rate as real >= 0.1
  }

  /**
   * Floor of 0.4 × rate: `i > end + sr * 0.4` holds for integer indices
   * exactly when `i > end + SilenceGapSamples(sr)`.
   */
  function SilenceGapSamples(rate: nat): (g: nat)
    ensures 5 * g <= 2 * rate < 5 * (g + 1)
    ensures forall d: int :: ExceedsSilenceGap(d, rate) <==> d > g
  {
    2 * rate / 5
  }

  /**
   * Ceiling of 0.1 × rate: `(end - start) / sr >= 0.1` holds exactly when
   * `end - start >= MinSegmentSamples(sr)`.
   */
  function MinSegmentSamples(rate: nat): (m: nat)
    ensures 10 * m >= rate && (m > 0 ==> 10 * (m - 1) < rate)
    ensures rate > 0 ==> forall d: int :: LongEnough(d, rate) <==> d >= m
  {
    (rate + 9) / 10
  }
}
