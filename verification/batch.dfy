/**
 * The batch driver of scripts/wavstomp.py: `analyze_audio`,
 * `save_segments_to_csv` and `process_directory`.
 *
 * A recording is given by its file name, its sample rate and the strictly
 * increasing list of sample indices whose amplitude clears the threshold
 * (the float front half of `detect_speech_segments` is not modelled).
 * Times stay in sample indices; the division by the rate and the `.2f`
 * formatting are not modelled.
 */
module Batch {
  import opened Wrappers
  import opened EventIds
  import opened Records
  import opened Segmenter
  import opened Pairing
  import opened Ordering
  import opened FileNames

  datatype WavFile = WavFile(name: string, rate: nat, active: seq<nat>)

  /** The detected speech runs of one recording, with the default gap of 0.4 s and minimum of 0.1 s. */
  function FileSpans(f: WavFile): seq<Span> {
    SpeechSegments(f.active, SilenceGapSamples(f.rate), MinSegmentSamples(f.rate))
  }

  /** `analyze_audio`: the detected runs, labelled Question, Answer, Question, ... */
  function AnalyzeAudio(f: WavFile): (segs: seq<Segment>)
    ensures Unlabel(segs) == FileSpans(f)
    ensures |segs| > 0 ==> segs[0].kind == Question
    ensures forall k :: 0 < k < |segs| ==> segs[k].kind != segs[k - 1].kind
  {
    Label(FileSpans(f))
  }

  /**
   * `save_segments_to_csv`: the rows appended for one recording. Ids
   * restart at E1 and nothing is remembered before the first segment.
   */
  function SaveSegmentsToCsv(segs: seq<Segment>, participant: string, condition: string): (rows: seq<Row>)
    ensures |rows| <= CountAnswers(segs)
    ensures forall j :: 0 <= j < |rows| ==>
              && rows[j].participant == participant && rows[j].condition == condition
              && ParseEventId(rows[j].eventId) == Some(j + 1)
              && rows[j].delta == rows[j].answer - rows[j].question
  {
    ToRows(participant, condition, PairSegments(segs, None, 1).pairs)
  }

  /**
   * On the output of `analyze_audio` the file gets ⌊n/2⌋ rows: row j pairs
   * the end of segment 2j with the end of segment 2j+1, as E(j+1).
   */
  lemma SaveAnalyzed(f: WavFile, participant: string, condition: string)
    ensures SaveSegmentsToCsv(AnalyzeAudio(f), participant, condition)
         == ToRows(participant, condition, AlternatingPairs(FileSpans(f), 1))
    ensures |SaveSegmentsToCsv(AnalyzeAudio(f), participant, condition)| == |FileSpans(f)| / 2
  {
    PairLabelled(FileSpans(f), None, 1);
  }

  /** Rows gathered so far and the question time still remembered. */
  datatype Collected = Collected(rows: seq<Row>, pending: Option<int>)

  /**
   * The walk of `process_directory` over the files in the order `os.walk`
   * yields them. Names not ending in `.wav` are skipped; a name that
   * `extract_info_from_filename` cannot take apart aborts the run. The
   * remembered question time is never reset, so it carries from one file
   * into the next.
   */
  function Collect(files: seq<WavFile>, pending: Option<int>): (r: Option<Collected>)
    ensures r.Some? <==> NamesParse(files)
    ensures r.Some? ==> IdsParse(r.value.rows)
    decreases |files|
  {
    if |files| == 0 then Some(Collected([], pending))
    else
      NamesParseCons(files);
      var f := files[0];
      if !IsWav(f.name) then Collect(files[1..], pending)
      else
        match ExtractInfo(f.name)
        case None => None
        case Some(info) =>
          var here := CollectFile(f, info, pending);
          match Collect(files[1..], here.pending)
          case None => None
          case Some(rest) =>
            IdsParseAppend(here.rows, rest.rows);
            Some(Collected(here.rows + rest.rows, rest.pending))
  }

  /** The rows one recording adds, and the question time it leaves remembered. */
  function CollectFile(f: WavFile, info: Info, pending: Option<int>): (r: Collected)
    ensures IdsParse(r.rows)
  {
    var p := PairSegments(AnalyzeAudio(f), pending, 1);
    Collected(ToRows(info.participant, info.condition, p.pairs), p.pending)
  }

  /** Every row's id text reads back as a number. */
  predicate IdsParse(rows: seq<Row>) {
    forall j :: 0 <= j < |rows| ==> ParseEventId(rows[j].eventId).Some?
  }

  lemma IdsParseAppend(a: seq<Row>, b: seq<Row>)
    requires IdsParse(a) && IdsParse(b)
    ensures IdsParse(a + b)
  {
    assert forall j :: |a| <= j < |a + b| ==> (a + b)[j] == b[j - |a|];
  }

  /** A file the walk keeps has a name that can be taken apart. */
  predicate NameParses(f: WavFile) {
    IsWav(f.name) ==> ExtractInfo(f.name).Some?
  }

  /** Every `.wav` name can be taken apart. */
  predicate NamesParse(files: seq<WavFile>) {
    forall i :: 0 <= i < |files| ==> NameParses(files[i])
  }

  /**
   * The reference result: for each `.wav` file in turn, its ⌊n/2⌋
   * alternating pairs numbered from E1, tagged with the participant and
   * condition of its name.
   */
  function ExpectedRows(files: seq<WavFile>): seq<Row>
    requires NamesParse(files)
    decreases |files|
  {
    if |files| == 0 then []
    else
      var f := files[0];
      assert forall i :: 0 <= i < |files| - 1 ==> files[1..][i] == files[i + 1];
      if !IsWav(f.name) then ExpectedRows(files[1..])
      else
        var info := ExtractInfo(f.name).value;
        ToRows(info.participant, info.condition, AlternatingPairs(FileSpans(f), 1)) + ExpectedRows(files[1..])
  }

  /**
   * The walk succeeds exactly when every `.wav` name parses, and then
   * gathers the reference rows whatever question time it starts with: on
   * labelled input the carried-over question time never reaches a row.
   */
  lemma {:induction false} CollectIsExpected(files: seq<WavFile>, pending: Option<int>)
    ensures Collect(files, pending).Some? <==> NamesParse(files)
    ensures NamesParse(files) ==> Collect(files, pending).value.rows == ExpectedRows(files)
    decreases |files|
  {
    if |files| > 0 {
      var f := files[0];
      var tail := files[1..];
      NamesParseCons(files);
      if !IsWav(f.name) {
        CollectIsExpected(tail, pending);
      } else if ExtractInfo(f.name).Some? {
        var p := PairSegments(AnalyzeAudio(f), pending, 1);
        PairLabelled(FileSpans(f), pending, 1);
        CollectIsExpected(tail, p.pending);
        if NamesParse(files) {
          CollectConsWav(files, pending);
        }
      }
    }
  }

  lemma CollectConsWav(files: seq<WavFile>, pending: Option<int>)
    requires |files| > 0 && IsWav(files[0].name) && ExtractInfo(files[0].name).Some?
    requires NamesParse(files) && NamesParse(files[1..])
    requires PairSegments(AnalyzeAudio(files[0]), pending, 1).pairs == AlternatingPairs(FileSpans(files[0]), 1)
    requires Collect(files[1..], PairSegments(AnalyzeAudio(files[0]), pending, 1).pending).Some?
    requires Collect(files[1..], PairSegments(AnalyzeAudio(files[0]), pending, 1).pending).value.rows
          == ExpectedRows(files[1..])
    ensures Collect(files, pending).Some? && Collect(files, pending).value.rows == ExpectedRows(files)
  {
  }

  lemma NamesParseCons(files: seq<WavFile>)
    requires |files| > 0
    ensures NamesParse(files) <==> NameParses(files[0]) && NamesParse(files[1..])
  {
    var tail := files[1..];
    assert forall i :: 0 <= i < |tail| ==> tail[i] == files[i + 1];
    if NameParses(files[0]) && NamesParse(tail) {
      forall i | 0 <= i < |files|
        ensures NameParses(files[i])
      {
        if i > 0 {
          assert files[i] == tail[i - 1];
        }
      }
    }
  }

  /** Every row the walk produces carries an id of the form E<n>, so the sort key always exists. */
  lemma {:induction false} ExpectedRowsKeyed(files: seq<WavFile>)
    requires NamesParse(files)
    ensures KeysExist(ExpectedRows(files))
    decreases |files|
  {
    if |files| > 0 {
      var tail := files[1..];
      assert forall i :: 0 <= i < |tail| ==> tail[i] == files[i + 1];
      ExpectedRowsKeyed(tail);
    }
  }

  /** `process_directory` up to the write-out: the gathered rows, sorted by line 127's key. */
  function ProcessDirectory(files: seq<WavFile>): (r: Option<seq<Row>>)
    ensures r.Some? <==> NamesParse(files)
    ensures r.Some? ==> && multiset(r.value) == multiset(Collect(files, None).value.rows)
                        && RowsInKeyOrder(r.value)
                        && SameRowsPerKey(r.value, Collect(files, None).value.rows)
  {
    match Collect(files, None)
    case None => None
    case Some(c) => SortRows(c.rows)
  }

  /**
   * The whole batch run: it fails exactly when some `.wav` name has no
   * participant/condition; otherwise it outputs exactly what the stable
   * sort of line 127 makes of the reference rows: their rearrangement in
   * non-decreasing (participant, condition, event number) order in which
   * rows with equal keys, from different recordings of one participant and
   * condition, stay in the order the walk met them.
   */
  lemma ProcessDirectoryCorrect(files: seq<WavFile>)
    ensures ProcessDirectory(files).Some? <==> NamesParse(files)
    ensures NamesParse(files) ==> ProcessDirectory(files) == SortRows(ExpectedRows(files))
    ensures NamesParse(files) ==>
              var out := ProcessDirectory(files).value;
              && multiset(out) == multiset(ExpectedRows(files))
              && RowsInKeyOrder(out)
              && SameRowsPerKey(out, ExpectedRows(files))
  {
    CollectIsExpected(files, None);
    if NamesParse(files) {
      ExpectedRowsKeyed(files);
    }
  }
}
