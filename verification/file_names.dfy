/**
 * Recording file names. The recorder names a finished take
 * `recording_<participant>_C<condition>_<seconds>.wav` (app/recapp2.py:190,
 * app/recapp.py:176); the batch script recovers participant and condition
 * with `extract_info_from_filename` (scripts/wavstomp.py:81-86), which takes
 * the second and the second character of the third `_`-separated piece of
 * the base name.
 */
module FileNames {
  import opened Wrappers
  import opened Strings
  import opened EventIds

  datatype Info = Info(participant: string, condition: string)

  predicate EndsWith(s: string, suffix: string) {
    |suffix| <= |s| && s[|s| - |suffix|..] == suffix
  }

  /** The `filename.endswith('.wav')` filter of `process_directory`. */
  predicate IsWav(name: string) {
    EndsWith(name, ".wav")
  }

  /**
   * `extract_info_from_filename`. `parts[1]` and `parts[2][1]` raise
   * IndexError when the base name has fewer than three pieces or the third
   * piece is shorter than two characters; both are None here.
   */
  function ExtractInfo(filename: string): (r: Option<Info>)
    ensures r.Some? <==> var parts := Split(Basename(filename), '_');
                         |parts| >= 3 && |parts[2]| >= 2
    ensures r.Some? ==> '_' !in r.value.participant && |r.value.condition| == 1
  {
    var parts := Split(Basename(filename), '_');
    if |parts| < 3 || |parts[2]| < 2 then None
    else Some(Info(parts[1], [parts[2][1]]))
  }

  /**
   * f"recording_{participant_id}_C{condition}_{int(time.time())}.wav": the
   * four pieces `recording`, the participant, `C` + condition and the stamp
   * with its extension, joined by '_'.
   */
  function RecordingFileName(participant: string, condition: string, stamp: nat): string {
    Join(["recording", participant, "C" + condition, FormatNat(stamp) + ".wav"], '_')
  }

  /** The name written out as one concatenation, character for character as the f-string builds it. */
  lemma RecordingFileNameSpelled(participant: string, condition: string, stamp: nat)
    ensures RecordingFileName(participant, condition, stamp)
         == "recording_" + participant + "_C" + condition + "_" + FormatNat(stamp) + ".wav"
  {
    var t := FormatNat(stamp) + ".wav";
    var c := "C" + condition;
    assert Join([t], '_') == t;
    assert Join([c, t], '_') == c + "_" + t;
    assert Join([participant, c, t], '_') == participant + "_" + (c + "_" + t);
    assert Join(["recording", participant, c, t], '_') == "recording" + "_" + (participant + "_" + (c + "_" + t));
  }

  /** Every recording passes the `.wav` filter of the batch script. */
  lemma RecordingFileNameIsWav(participant: string, condition: string, stamp: nat)
    ensures IsWav(RecordingFileName(participant, condition, stamp))
  {
    RecordingFileNameSpelled(participant, condition, stamp);
    var name := RecordingFileName(participant, condition, stamp);
    assert name[|name| - 4..] == ".wav";
  }

  lemma NoSlashInDigits(s: string)
    requires AllDigits(s)
    ensures '/' !in s && '_' !in s
  {
  }

  lemma NoSlashInName(participant: string, condition: string, stamp: nat)
    requires '/' !in participant && '/' !in condition
    ensures '/' !in RecordingFileName(participant, condition, stamp)
  {
    NoSlashInDigits(FormatNat(stamp));
    RecordingFileNameSpelled(participant, condition, stamp);
  }

  /** The recording name splits into its four pieces when neither participant nor condition holds '_'. */
  lemma SplitRecordingName(participant: string, condition: string, stamp: nat)
    requires '_' !in participant && '_' !in condition
    ensures Split(RecordingFileName(participant, condition, stamp), '_')
         == ["recording", participant, "C" + condition, FormatNat(stamp) + ".wav"]
  {
    var parts := ["recording", participant, "C" + condition, FormatNat(stamp) + ".wav"];
    NoSlashInDigits(FormatNat(stamp));
    assert '_' !in parts[2] && '_' !in parts[3];
    SplitJoin(parts, '_');
  }

  /**
   * The batch script reads back what the recorder wrote: for a participant
   * without '_' and a condition without '_', the participant comes back
   * whole and the condition as its first character, whatever directory the
   * file sits in.
   */
  lemma ExtractRecordingInfo(dir: string, participant: string, condition: string, stamp: nat)
    requires '_' !in participant && '/' !in participant
    requires '_' !in condition && '/' !in condition && |condition| >= 1
    ensures ExtractInfo(dir + "/" + RecordingFileName(participant, condition, stamp))
         == Some(Info(participant, condition[..1]))
  {
    NoSlashInName(participant, condition, stamp);
    BasenameOfPath(dir, RecordingFileName(participant, condition, stamp));
    SplitRecordingName(participant, condition, stamp);
    assert ("C" + condition)[1] == condition[0];
    assert condition[..1] == [condition[0]];
  }

  /** For the single-letter conditions the recorder accepts, the round trip is exact. */
  lemma ExtractRecordingInfoExact(dir: string, participant: string, condition: string, stamp: nat)
    requires '_' !in participant && '/' !in participant
    requires condition in {"A", "B", "C"}
    ensures ExtractInfo(dir + "/" + RecordingFileName(participant, condition, stamp))
         == Some(Info(participant, condition))
  {
    assert |condition| == 1 && condition[0] in "ABC";
    ExtractRecordingInfo(dir, participant, condition, stamp);
    assert condition[..1] == condition;
  }

  /** A participant id containing '_' is cut short: `7_12` comes back as participant `7`, condition `2`. */
  lemma UnderscoreInParticipant(dir: string)
    ensures ExtractInfo(dir + "/" + RecordingFileName("7_12", "A", 5)) == Some(Info("7", "2"))
  {
    var name := RecordingFileName("7_12", "A", 5);
    NoSlashInName("7_12", "A", 5);
    BasenameOfPath(dir, name);
    var parts := ["recording", "7", "12", "CA", "5.wav"];
    assert name == Join(parts, '_') by {
      SpelledExample();
      JoinExample();
    }
    ExamplePartsClean();
    SplitJoin(parts, '_');
  }

  lemma ExamplePartsClean()
    ensures forall i :: 0 <= i < 5 ==> '_' !in ["recording", "7", "12", "CA", "5.wav"][i]
  {
    var parts := ["recording", "7", "12", "CA", "5.wav"];
    assert '_' !in parts[0] && '_' !in parts[1] && '_' !in parts[2];
    assert '_' !in parts[3] && '_' !in parts[4];
  }

  lemma SpelledExample()
    ensures RecordingFileName("7_12", "A", 5) == "recording_7_12_CA_5.wav"
  {
    RecordingFileNameSpelled("7_12", "A", 5);
    assert FormatNat(5) == "5";
  }

  lemma JoinExample()
    ensures Join(["recording", "7", "12", "CA", "5.wav"], '_') == "recording_7_12_CA_5.wav"
  {
    JoinCons("CA", ["5.wav"], '_');
    JoinCons("12", ["CA", "5.wav"], '_');
    JoinCons("7", ["12", "CA", "5.wav"], '_');
    JoinCons("recording", ["7", "12", "CA", "5.wav"], '_');
  }

  lemma JoinCons(first: string, rest: seq<string>, sep: char)
    requires |rest| >= 1
    ensures Join([first] + rest, sep) == first + [sep] + Join(rest, sep)
  {
    assert ([first] + rest)[1..] == rest;
  }

  /** An empty condition leaves the third piece one character long: `parts[2][1]` fails. */
  lemma EmptyConditionRejected(dir: string, participant: string, stamp: nat)
    requires '_' !in participant && '/' !in participant
    ensures ExtractInfo(dir + "/" + RecordingFileName(participant, "", stamp)) == None
  {
    NoSlashInName(participant, "", stamp);
    BasenameOfPath(dir, RecordingFileName(participant, "", stamp));
    SplitRecordingName(participant, "", stamp);
  }
}
