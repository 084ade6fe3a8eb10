/** The pure state logic of the trimmer component: its own copies of the
    validation and difference helpers, the input handler that stores one
    edited field, and the messages and argument list of one trim request. The
    transcoder itself is not modelled; a request is the argument list it would
    be given. */
module VideoTrimmer {
  import opened Wrappers
  import opened Decimal
  import opened Strings
  import ClockTime

  type TrimmedVideoDuration = ClockTime.TrimmedVideoDuration

  /** The component's copy of the minute/second validation. */
  function ValidateAndTimes(name: string, value: string): string {
    if ClockTime.IsMinSecName(name) then
      (if ClockTime.MatchesMinSecNumeral(value) then value else "0")
    else
      value
  }

  /** The copy behaves exactly like `ClockTime.ValidateTimeByName`. */
  lemma ValidateAndTimesAgrees(name: string, value: string)
    ensures ValidateAndTimes(name, value) == ClockTime.ValidateTimeByName(name, value)
  {
  }

  /** The component's copy of the signed range length in seconds: each field
      (blank as 0) written out as decimal text and parsed back. */
  function GetTimeDiffInSeconds(d: TrimmedVideoDuration): int {
    var startSeconds :=
      Value(NatToString(d.startHour.GetOr(0))) * 3600
      + Value(NatToString(d.startMin.GetOr(0))) * 60
      + Value(NatToString(d.startSec.GetOr(0)));
    var endSeconds :=
      Value(NatToString(d.endHour.GetOr(0))) * 3600
      + Value(NatToString(d.endMin.GetOr(0))) * 60
      + Value(NatToString(d.endSec.GetOr(0)));
    endSeconds - startSeconds
  }

  /** The copy agrees with `ClockTime.GetTimeDiffInSeconds`, and so is the end
      instant minus the start instant with blanks read as zero. */
  lemma GetTimeDiffAgrees(d: TrimmedVideoDuration)
    ensures GetTimeDiffInSeconds(d) == ClockTime.GetTimeDiffInSeconds(d)
    ensures GetTimeDiffInSeconds(d) == ClockTime.EndSeconds(d) - ClockTime.StartSeconds(d)
  {
    ClockTime.TimeDiffIsEndMinusStart(d);
  }

  /** The six inputs of the form, one per record field. */
  datatype Field = StartHour | StartMin | StartSec | EndHour | EndMin | EndSec {

    /** A minutes or seconds field, as opposed to an hours field. */
    predicate IsMinOrSec() {
      !(StartHour? || EndHour?)
    }
  }

  /** The `name` attribute of each input, which is also the record key it
      edits. */
  function FieldName(f: Field): string {
    match f
    case StartHour => "startHour"
    case StartMin => "startMin"
    case StartSec => "startSec"
    case EndHour => "endHour"
    case EndMin => "endMin"
    case EndSec => "endSec"
  }

  /** The validation pattern on names singles out exactly the minutes and
      seconds inputs. */
  lemma FieldNameClassifies(f: Field)
    ensures ClockTime.IsMinSecName(FieldName(f)) <==> f.IsMinOrSec()
  {
    var name := FieldName(f);
    if f.IsMinOrSec() {
      var at := if f.StartMin? || f.StartSec? then 5 else 3;
      var pat := if f.StartMin? || f.EndMin? then "Min" else "Sec";
      assert OccursAt(name, pat, at);
      ContainsIff(name, pat);
    } else {
      assert 'M' !in name && 'S' !in name;
      if Contains(name, "Min") {
        ContainsFirstChar(name, "Min");
      }
      if Contains(name, "Sec") {
        ContainsFirstChar(name, "Sec");
      }
    }
  }

  function Get(d: TrimmedVideoDuration, f: Field): Option<nat> {
    match f
    case StartHour => d.startHour
    case StartMin => d.startMin
    case StartSec => d.startSec
    case EndHour => d.endHour
    case EndMin => d.endMin
    case EndSec => d.endSec
  }

  /** The record with the field keyed by `FieldName(f)` replaced by `v`. */
  function Put(d: TrimmedVideoDuration, f: Field, v: Option<nat>): (r: TrimmedVideoDuration)
    ensures Get(r, f) == v
    ensures forall g :: g != f ==> Get(r, g) == Get(d, g)
  {
    match f
    case StartHour => d.(startHour := v)
    case StartMin => d.(startMin := v)
    case StartSec => d.(startSec := v)
    case EndHour => d.(endHour := v)
    case EndMin => d.(endMin := v)
    case EndSec => d.(endSec := v)
  }

  /** `Number(text)` on the texts the model covers: a run of decimal digits,
      the empty run giving 0. Any other text (which `Number` turns into NaN, a
      fraction, or a number written another way) lies outside the model and
      gives `None`. */
  function Number(text: string): (r: Option<nat>)
    ensures r.Some? <==> IsDigits(text)
    ensures IsDigits(text) ==> (r.value == 0 <==> forall i :: 0 <= i < |text| ==> text[i] == '0')
    ensures IsDigits(text) && 1 <= |text| && (|text| > 1 ==> text[0] != '0') ==>
      NatToString(r.value) == text
    ensures IsDigits(text) ==>
      forall k :: 0 <= k < |text| && (forall i :: 0 <= i < k ==> text[i] == '0') && text[k] != '0'
        ==> NatToString(r.value) == text[k..]
  {
    if IsDigits(text) then
      ValueZeroIff(text);
      NumeralReadBack(text);
      Some(Value(text))
    else
      None
  }

  /** `onChangeDuration`: validate the typed text by the input's name, convert
      it with `Number`, and store it in that one field. The edited field is
      never blank afterwards (`Number('')` is 0); a minutes or seconds field
      then holds 0..59; an hours field holds the typed number; the other five
      fields keep their values. `None` means the typed hours text lies outside
      the modelled numerals. */
  function OnChangeDuration(d: TrimmedVideoDuration, f: Field, value: string): (r: Option<TrimmedVideoDuration>)
    ensures f.IsMinOrSec() ==> r.Some? && Get(r.value, f).Some? && Get(r.value, f).value <= 59
    ensures f.IsMinOrSec() ==> Get(r.value, f) == Some(
      if IsDigits(value) && 1 <= |value| <= 2 && Value(value) <= 59 then Value(value) else 0)
    ensures !f.IsMinOrSec() ==> (r.Some? <==> IsDigits(value))
    ensures !f.IsMinOrSec() && r.Some? ==> Get(r.value, f) == Some(Value(value))
    ensures r.Some? ==> forall g :: g != f ==> Get(r.value, g) == Get(d, g)
  {
    FieldNameClassifies(f);
    ValidateAndTimesAgrees(FieldName(f), value);
    ClockTime.MatchesMinSecNumeralIff(value);
    match Number(ValidateAndTimes(FieldName(f), value))
    case None => None
    case Some(n) => Some(Put(d, f, Some(n)))
  }

  /** A minutes or seconds field already holding `n` keeps `n` when its own
      text is entered again, as the input shows it. */
  lemma OnChangeDurationReentry(d: TrimmedVideoDuration, f: Field, n: nat)
    requires f.IsMinOrSec() && n <= 59
    ensures OnChangeDuration(d, f, NatToString(n)).Some?
    ensures Get(OnChangeDuration(d, f, NatToString(n)).value, f) == Some(n)
  {
    FieldNameClassifies(f);
    ValueOfNatToString(n);
    ClockTime.MatchesMinSecNumeralIff(NatToString(n));
  }

  /** The form before anything is typed: every field blank. */
  const InitialDuration: TrimmedVideoDuration :=
    ClockTime.TrimmedVideoDuration(None, None, None, None, None, None)

  /** The `-ss` value: the three start fields as plain decimal numerals
      without padding, joined by `':'`, a blank or zero field written `0`. */
  function StartArgument(d: TrimmedVideoDuration): string {
    NatToString(d.startHour.GetOr(0)) + ":" + NatToString(d.startMin.GetOr(0)) + ":"
      + NatToString(d.startSec.GetOr(0))
  }

  /** The `-ss` value splits into three canonical numerals, one per start
      field, a field being written `0` exactly when it is blank or zero, and
      reads back as the start instant. */
  lemma StartArgumentFields(d: TrimmedVideoDuration)
    ensures var parts := Split(StartArgument(d), ':');
      && |parts| == 3
      && parts[0] == NatToString(d.startHour.GetOr(0))
      && parts[1] == NatToString(d.startMin.GetOr(0))
      && parts[2] == NatToString(d.startSec.GetOr(0))
    ensures Split(StartArgument(d), ':')[0] == "0" <==> d.startHour in {None, Some(0)}
    ensures Split(StartArgument(d), ':')[1] == "0" <==> d.startMin in {None, Some(0)}
    ensures Split(StartArgument(d), ':')[2] == "0" <==> d.startSec in {None, Some(0)}
    ensures ClockTime.DecodeClock(StartArgument(d)).Some?
    ensures ClockTime.ClockSeconds(ClockTime.DecodeClock(StartArgument(d)).value)
      == ClockTime.StartSeconds(d)
  {
    var h := NatToString(d.startHour.GetOr(0));
    var m := NatToString(d.startMin.GetOr(0));
    var s := NatToString(d.startSec.GetOr(0));
    assert StartArgument(d) == h + ":" + m + ":" + s;
    ClockTime.SplitThree(h, m, s);
    var parts := Split(StartArgument(d), ':');
    assert parts[0] == h && parts[1] == m && parts[2] == s;
    ZeroPart(d.startHour);
    ZeroPart(d.startMin);
    ZeroPart(d.startSec);
    ValueOfNatToString(d.startHour.GetOr(0));
    ValueOfNatToString(d.startMin.GetOr(0));
    ValueOfNatToString(d.startSec.GetOr(0));
  }

  /** A field is written `0` exactly when it is blank or zero. */
  lemma ZeroPart(f: Option<nat>)
    ensures NatToString(f.GetOr(0)) == "0" <==> f in {None, Some(0)}
  {
    var n := f.GetOr(0);
    assert NatToString(n)[0] == '0' <==> n == 0;
    assert NatToString(0) == "0";
  }

  /** Before anything is typed the range is empty and the seek position is
      written `0:0:0`. */
  lemma InitialRangeIsEmpty()
    ensures GetTimeDiffInSeconds(InitialDuration) == 0
    ensures StartArgument(InitialDuration) == "0:0:0"
  {
    GetTimeDiffAgrees(InitialDuration);
    assert NatToString(0) == "0";
  }

  const ErrorMessage := "종료 시간이 시작 시간보다 작습니다."
  const StartMessage := "Start transcoding"
  const CompleteMessage := "Complete transcoding"

  /** One press of the trim button: the texts passed to `setMessage`, in
      order, and the argument list the transcoder is run with (`None` when it
      is not run). */
  datatype TranscodeRun = TranscodeRun(messages: seq<string>, ffmpegArgs: Option<seq<string>>)

  function LastMessage(run: TranscodeRun): string
    requires |run.messages| > 0
  {
    run.messages[|run.messages| - 1]
  }

  /** The argument list of a trim: seek to `start`, read `input.mp4`, keep
      `duration` seconds, copy the streams into `output.mp4`. */
  function TrimArguments(start: string, duration: int): seq<string> {
    ["-ss", start, "-i", "input.mp4", "-t", IntToString(duration), "-c", "copy", "output.mp4"]
  }

  /** The run for a given `-ss` text and signed duration, as `doTranscode`
      performs it: the error message first when the duration is negative,
      then the start and completion messages; the transcoder is always run. */
  function TranscodeFor(start: string, duration: int): (run: TranscodeRun)
    ensures run.ffmpegArgs.Some? && |run.ffmpegArgs.value| == 9
    ensures run.ffmpegArgs.value[0] == "-ss" && run.ffmpegArgs.value[1] == start
    ensures run.ffmpegArgs.value[2..5] == ["-i", "input.mp4", "-t"]
    ensures run.ffmpegArgs.value[5] == IntToString(duration)
    ensures run.ffmpegArgs.value[6..] == ["-c", "copy", "output.mp4"]
    ensures |run.messages| == if duration < 0 then 3 else 2
    ensures duration < 0 ==> run.messages[0] == ErrorMessage
    ensures LastMessage(run) == CompleteMessage
    ensures run.messages[|run.messages| - 2] == StartMessage
  {
    var messages :=
      (if duration < 0 then [ErrorMessage] else []) + [StartMessage, CompleteMessage];
    TranscodeRun(messages, Some(TrimArguments(start, duration)))
  }

  /** `doTranscode` as written: a negative range sets the error message,
      which the start message replaces at once, and the transcoder runs
      anyway. The argument list around the `-ss` and `-t` values is fixed, and
      the run always ends on the completion message. */
  function DoTranscode(d: TrimmedVideoDuration): (run: TranscodeRun)
    ensures run.ffmpegArgs.Some? && |run.ffmpegArgs.value| == 9
    ensures run.ffmpegArgs.value[0] == "-ss"
    ensures run.ffmpegArgs.value[1] == StartArgument(d)
    ensures run.ffmpegArgs.value[2..5] == ["-i", "input.mp4", "-t"]
    ensures run.ffmpegArgs.value[6..] == ["-c", "copy", "output.mp4"]
    ensures |run.messages| == if GetTimeDiffInSeconds(d) < 0 then 3 else 2
    ensures |run.messages| >= 2 && LastMessage(run) == CompleteMessage
    ensures run.messages[|run.messages| - 2] == StartMessage
  {
    TranscodeFor(StartArgument(d), GetTimeDiffInSeconds(d))
  }

  /** The `-ss` value of a run is the start fields written one per part,
      unpadded, and reads back as the start instant. */
  lemma DoTranscodeSeeksToStart(d: TrimmedVideoDuration)
    ensures DoTranscode(d).ffmpegArgs.value[1] == StartArgument(d)
    ensures Split(DoTranscode(d).ffmpegArgs.value[1], ':') == [NatToString(d.startHour.GetOr(0)),
      NatToString(d.startMin.GetOr(0)), NatToString(d.startSec.GetOr(0))]
    ensures ClockTime.DecodeClock(DoTranscode(d).ffmpegArgs.value[1]).Some?
    ensures ClockTime.ClockSeconds(ClockTime.DecodeClock(DoTranscode(d).ffmpegArgs.value[1]).value)
      == ClockTime.StartSeconds(d)
  {
    StartArgumentFields(d);
  }

  /** The `-t` value of a run is the decimal text of end minus start, with a
      leading `-` when the end is before the start and no leading zero. */
  lemma DoTranscodeDuration(d: TrimmedVideoDuration)
    ensures var t := DoTranscode(d).ffmpegArgs.value[5];
      var length := ClockTime.EndSeconds(d) - ClockTime.StartSeconds(d);
      && (length >= 0 ==> IsDigits(t) && Value(t) == length && (|t| > 1 ==> t[0] != '0'))
      && (length < 0 ==> |t| >= 2 && t[0] == '-' && IsDigits(t[1..]) && Value(t[1..]) == -length)
      && (length < 0 ==> t[1] != '0')
  {
    GetTimeDiffAgrees(d);
  }

  /** The error message is set exactly when the end is before the start, and
      it is never the message left showing. */
  lemma DoTranscodeErrorMessage(d: TrimmedVideoDuration)
    ensures (ErrorMessage in DoTranscode(d).messages)
      <==> ClockTime.EndSeconds(d) < ClockTime.StartSeconds(d)
    ensures LastMessage(DoTranscode(d)) != ErrorMessage
  {
    GetTimeDiffAgrees(d);
  }

  /** An end before the start does not stop the run: with the start at
      0:0:10 and the end blank, the transcoder is given `-t -10`, and the
      error message is not what the user is left with. */
  lemma NegativeRangeStillTranscodes()
    ensures var d := InitialDuration.(startSec := Some(10));
      var run := DoTranscode(d);
      && run.ffmpegArgs == Some(["-ss", "0:0:10", "-i", "input.mp4", "-t", "-10", "-c", "copy", "output.mp4"])
      && ErrorMessage in run.messages
      && LastMessage(run) != ErrorMessage
  {
    var d := InitialDuration.(startSec := Some(10));
    GetTimeDiffAgrees(d);
    assert ClockTime.StartSeconds(d) == 10 && ClockTime.EndSeconds(d) == 0;
    assert GetTimeDiffInSeconds(d) == -10;
    assert NatToString(0) == "0" && NatToString(10) == "10";
    assert StartArgument(d) == "0:0:10";
    assert IntToString(-10) == "-10";
    assert TrimArguments("0:0:10", -10)
      == ["-ss", "0:0:10", "-i", "input.mp4", "-t", "-10", "-c", "copy", "output.mp4"];
    assert DoTranscode(d) == TranscodeRun([ErrorMessage, StartMessage, CompleteMessage],
      Some(TrimArguments("0:0:10", -10)));
  }

  /** `doTranscode` with the evident intent, a return right after the error
      message: a negative range shows only the error message and does not run
      the transcoder; any other range runs exactly as written, always with a
      non-negative `-t`. */
  function DoTranscodeGuarded(d: TrimmedVideoDuration): (run: TranscodeRun)
    ensures |run.messages| >= 1
    ensures run.ffmpegArgs.None? <==> ClockTime.EndSeconds(d) < ClockTime.StartSeconds(d)
    ensures run.ffmpegArgs.None? ==> run.messages == [ErrorMessage]
    ensures ClockTime.StartSeconds(d) <= ClockTime.EndSeconds(d) ==> run == DoTranscode(d)
    ensures run.ffmpegArgs.Some? ==>
      && |run.ffmpegArgs.value| == 9
      && IsDigits(run.ffmpegArgs.value[5])
      && Value(run.ffmpegArgs.value[5]) == ClockTime.EndSeconds(d) - ClockTime.StartSeconds(d)
      && LastMessage(run) == CompleteMessage
  {
    var duration := GetTimeDiffInSeconds(d);
    GetTimeDiffAgrees(d);
    if duration < 0 then
      TranscodeRun([ErrorMessage], None)
    else
      DoTranscodeDuration(d);
      DoTranscode(d)
  }
}
