# Clock-time logic of a browser video trimmer

This project models, in Dafny, the small piece of a browser video editor that
is plain logic rather than calls into the image-processing and transcoding
engines: the clock-time (`HH:MM:SS`) helpers in `src/utils/utils.ts` and the
pure state handling of the trimmer component in
`src/components/VideoTrimmer/VideoTrimmer.tsx`.

- `Wrappers` (`wrappers.dfy`): `Option`. In the trimmer record, `None` is the
  blank `''` an input starts with.
- `Decimal` (`decimal.dfy`): the JavaScript built-ins the helpers use, on
  naturals. `String(n)` is `NatToString`, `String(i)` for a signed integer is
  `IntToString`, and `parseInt` of a non-empty digit string is `Value`. (`parseInt('')` is NaN; `Value("")` is 0, which models `Number('')`.) The two-argument
  `padStart` is `PadStart`.
- `Strings` (`strings.dfy`): unanchored substring search, which is what
  `/(Min|Sec)/.test(name)` does. It also has splitting at a separator, which
  the properties use to read a clock string back.
- `ClockTime` (`clock_time.dfy`): `secondsToTime`, `validateTimeByName`,
  `getTimeDiffInSeconds` and the six-field `TrimmedVideoDuration` record.
  Seconds are `nat`, and each record field is `Option<nat>`.
- `VideoTrimmer` (`video_trimmer.dfy`): the component's duplicate helpers and
  the `onChangeDuration` field update. One press of the trim button
  (`doTranscode`) is a pure function. It returns the sequence of `setMessage`
  texts and the argument list the transcoder is run with.

The value pattern `^([0-5]?\d)$` is modelled as a backtracking matcher
(`ClockTime.MatchesMinSecNumeral`). It is proved to accept exactly the one- and
two-digit numerals up to 59. `Number('')` is 0, so a field the user has edited
is never blank again; only the initial form has blank fields. The record
interface is declared twice in the source with the same shape. The model
defines it once.

When the end time is before the start, the trimmer sets the error text
"종료 시간이 시작 시간보다 작습니다." ("the end time is earlier than the start
time") at `src/components/VideoTrimmer/VideoTrimmer.tsx:68`. That text marks
the case as an error, but the code only sets the message, replaces it straight
away and still runs the transcoder. The model follows the code (see Findings).

## Model

| member | source | states |
|---|---|---|
| Decimal.NatToString | src/utils/utils.ts:7-9 | `toString` of a natural gives one or more decimal digits with no leading zero (only `"0"` starts with `0`). It is one character exactly below 10 and at most two exactly below 100 |
| Decimal.ValueOfNatToString | src/utils/utils.ts:37-43 | `parseInt(String(n))` gives back `n` for every natural `n` |
| Decimal.PadStart | src/utils/utils.ts:7-9 | `padStart(2, '0')`: the result keeps the input as its suffix, has only fill characters before it, and is never shorter than the input (no truncation) |
| Decimal.IntToString | src/components/VideoTrimmer/VideoTrimmer.tsx:82 | `String(duration)`: a non-negative integer is written as digits denoting it, a negative one as `-` followed by digits denoting its magnitude. The digits have no leading zero, so the text is the canonical one |
| Strings.ContainsIff | src/utils/utils.ts:25-28 | the unanchored search reports a match exactly when the pattern occurs at some index of the name |
| ClockTime.ClockOfSplits | src/utils/utils.ts:3-5 | the hour, minute and second counts: minutes and seconds are in 0..59, h*3600 + m*60 + s equals the input, and hours < 100 exactly when the input is below 360000 |
| ClockTime.ClockOfUnique | src/utils/utils.ts:3-5 | the split is the only one: any hours, minutes and seconds with minutes and seconds in 0..59 and the same total are the ones computed |
| ClockTime.Pad2OfNatToString | src/utils/utils.ts:7-9 | a padded field is digits, at least two long, with no extra leading zero and no `':'`. It still denotes the number, and it is exactly two long when the number is below 100 |
| ClockTime.FormatClockShape | src/utils/utils.ts:7-11 | the joined string is the hour field plus six characters and holds exactly two `':'` |
| ClockTime.FormatClockFields | src/utils/utils.ts:7-11 | split at `':'`, the output has exactly three parts. Each is a padded field, and they denote the given hours, minutes and seconds |
| ClockTime.SecondsToTime | src/utils/utils.ts:2-12 | the output is at least 8 characters, exactly 8 when the count is below 360000, and has exactly two `':'` |
| ClockTime.SecondsToTimeFields | src/utils/utils.ts:3-11 | the three fields of the output are padded to two digits. They denote hours, minutes (0..59) and seconds (0..59), which add back up to the count |
| ClockTime.SecondsToTimeRoundTrip | src/utils/utils.ts:2-12 | reading the output back as `H:M:S` gives the clock whose minutes and seconds are in 0..59 and whose total is the input |
| ClockTime.SecondsToTimeZero | src/utils/utils.ts:2-12 | zero seconds are written `00:00:00` |
| ClockTime.MatchesMinSecNumeralIff | src/utils/utils.ts:26 | the value pattern accepts exactly the digit strings of length 1 or 2 whose value is at most 59 |
| ClockTime.ValidateTimeByName | src/utils/utils.ts:24-32 | a name without `Min`/`Sec` passes the value through. Otherwise the result is the value or `"0"`, and always a 1-2 digit numeral of at most 59 (so an empty value gives `"0"`) |
| ClockTime.ValidateKeepsExactly | src/utils/utils.ts:28-29 | for a `Min`/`Sec` name the value is kept exactly when it is one digit, or two digits with the first in 0..5 |
| ClockTime.ValidateIdempotent | src/utils/utils.ts:24-32 | validating a validated value changes nothing |
| ClockTime.TimeDiffIsEndMinusStart | src/utils/utils.ts:34-46 | the difference is end total minus start total, total = h*3600 + m*60 + s, with a blank field read as 0 |
| ClockTime.TimeDiffOfEqualEnds | src/utils/utils.ts:34-46 | a start and end denoting the same instant give 0 |
| ClockTime.TimeDiffAntisymmetric | src/utils/utils.ts:34-46 | exchanging the start and end fields negates the difference |
| ClockTime.TimeDiffOfRangeTo | src/utils/utils.ts:34-46 | with every start field blank, the difference is the end clock's total in seconds |
| ClockTime.TimeDiffUpToFormattedClock | src/utils/utils.ts:2-46 | putting the decoded fields of `secondsToTime(n)` into the end fields of a record whose start fields are blank gives a range of exactly `n` seconds |
| VideoTrimmer.ValidateAndTimesAgrees | src/components/VideoTrimmer/VideoTrimmer.tsx:14-22 | the component's validation agrees with `validateTimeByName` on every name and value |
| VideoTrimmer.GetTimeDiffAgrees | src/components/VideoTrimmer/VideoTrimmer.tsx:24-36 | the component's difference agrees with the utilities' one, and so is end minus start with blanks read as 0 |
| VideoTrimmer.FieldNameClassifies | src/components/VideoTrimmer/VideoTrimmer.tsx:113-160 | of the six input names, the name pattern matches exactly the four minute and second inputs |
| VideoTrimmer.Put | src/components/VideoTrimmer/VideoTrimmer.tsx:96 | the update by input name sets the named field to `v` and leaves the other five unchanged |
| Decimal.NumeralReadBack | src/components/VideoTrimmer/VideoTrimmer.tsx:96 | a digit string reads back through `String` as itself with its leading zeros removed; a canonical numeral reads back as itself |
| Decimal.NumeralReadBackFrom | src/components/VideoTrimmer/VideoTrimmer.tsx:96 | a digit string whose first non-zero digit is at position `k` reads back through `String` as its suffix from `k` |
| VideoTrimmer.Number | src/components/VideoTrimmer/VideoTrimmer.tsx:96 | on a digit string `Number` gives a value that is 0 exactly when every digit is `0` (including `''`). Otherwise it is the number that `String` writes as the text with its leading zeros removed, so `"07"` gives 7. The model covers digit strings only (see Left out) |
| VideoTrimmer.OnChangeDuration | src/components/VideoTrimmer/VideoTrimmer.tsx:92-97 | only the edited field changes. A minute or second field then holds the typed number when the text is a 1-2 digit numeral of at most 59, and 0 otherwise (`"07"` stores 7, `"99"` and `''` store 0). An hour field holds the number typed, and the update is defined exactly when the text is digits |
| VideoTrimmer.OnChangeDurationReentry | src/components/VideoTrimmer/VideoTrimmer.tsx:92-97 | typing a minute or second field's displayed value (0..59) again stores that same value |
| VideoTrimmer.InitialRangeIsEmpty | src/components/VideoTrimmer/VideoTrimmer.tsx:51-58 | the initial all-blank form has a zero-length range and seeks to `0:0:0` |
| VideoTrimmer.ZeroPart | src/components/VideoTrimmer/VideoTrimmer.tsx:76-77 | a start field is written `0` exactly when it is blank or zero |
| VideoTrimmer.StartArgumentFields | src/components/VideoTrimmer/VideoTrimmer.tsx:75-78 | the `-ss` value is three unpadded numerals, one per start field. A part is `0` exactly when its field is blank or zero, and the value reads back as the start instant |
| VideoTrimmer.TranscodeFor | src/components/VideoTrimmer/VideoTrimmer.tsx:67-87 | for a given `-ss` text and duration: the arguments are fixed around those two values, with `-t` as `String(duration)`. The error message comes first exactly when the duration is negative, and the start and completion messages always come last |
| VideoTrimmer.DoTranscode | src/components/VideoTrimmer/VideoTrimmer.tsx:64-87 | the transcoder always runs with `-ss <start> -i input.mp4 -t <duration> -c copy output.mp4`, where `<start>` is the unpadded per-field `-ss` text described for `StartArgumentFields`. There are three messages when the range is negative and two otherwise, and the last two are the start and completion messages. This assumes every engine call succeeds (see Left out) |
| VideoTrimmer.DoTranscodeSeeksToStart | src/components/VideoTrimmer/VideoTrimmer.tsx:74-78 | the `-ss` argument of a run is the start fields written one per part, unpadded, so start 0:1:10 gives `0:1:10`. It reads back as the start instant |
| VideoTrimmer.DoTranscodeDuration | src/components/VideoTrimmer/VideoTrimmer.tsx:65-82 | the `-t` argument is the decimal text of end minus start: signed when negative, with no leading zero |
| VideoTrimmer.DoTranscodeErrorMessage | src/components/VideoTrimmer/VideoTrimmer.tsx:67-71 | the error message is set exactly when the end is before the start, and it is never the message left showing |
| VideoTrimmer.NegativeRangeStillTranscodes | src/components/VideoTrimmer/VideoTrimmer.tsx:64-86 | start 0:0:10 with a blank end still runs the transcoder with `-t -10`, and the error message set on the way is not the final one |
| VideoTrimmer.DoTranscodeGuarded | src/components/VideoTrimmer/VideoTrimmer.tsx:64-87 | with the intended early return: a negative range shows only the error message and does not run the transcoder. Any other range gives exactly the as-written run, whose `-t` is end minus start and non-negative |

## Left out

- The transcoder: loading it, writing and reading its virtual files, running it, and the Blob URL of the output are calls into a foreign engine. A run is modelled as the argument list it would be given.
- Async sequencing and React state batching: a trim request is the ordered list of `setMessage` texts. `useState`, effects and rendering are not modelled.
- `video as File` on a missing file: the trim button is only rendered when a file is selected.
- ClockTime.SecondsToTime: does not model JavaScript's double-precision numbers. For counts from 2^53 up, the divisions work on rounded doubles, and from 10^21 hours up `toString` writes exponent notation. The model's integers are unbounded.
- `secondsToTime` on negative, fractional or NaN input: seconds are naturals. `Math.floor` of a non-negative count is the count's integer part, which is the model's input.
- VideoTrimmer.OnChangeDuration: does not model `Number` on text that is not a run of digits. JavaScript turns such text into NaN, a fraction, or a number written another way (`" 5"`, `"1e3"`, `"0x10"`); in the model the update gives `None` there. Minute and second fields never reach this case, because their text is validated first. For an hour field, "holds the number typed" is exact only below 2^53: JavaScript's `Number` rounds longer digit strings, while the model keeps their exact value.
- VideoTrimmer.Number: models `Number` only on digit strings, giving their exact value. In JavaScript `Number` is total: other text becomes NaN or a number written another way, and digit strings of 2^53 or more are rounded. The model gives `None` outside the digit strings.
- VideoTrimmer.DoTranscode: assumes every engine call succeeds. In the program, if fetching the file, writing it to the engine, or the run throws or rejects, the completion message is never set and 'Start transcoding' stays showing. One such case is a click before the engine has finished loading, since the load is not awaited. The model has no failure path.
- ClockTime.TimeDiffIsEndMinusStart: does not model JavaScript's double-precision numbers. Values from 2^53 up lose precision, and from 10^21 up `String` writes exponent notation, which `parseInt` reads as its leading digits only. The model's integers are unbounded.
- VideoTrimmer.GetTimeDiffAgrees: does not model the same double-precision limits, for the same reason.
- The cropper (frame drawing, crop rectangle, playback state, progress-bar seeking), the tab selection and the transcoder factory: these are rendering and foreign calls, outside this clock-time logic.

## Findings

| source | as written | input that shows it | evidently intended | confidence | as-written member | corrected member |
|---|---|---|---|---|---|---|
| src/components/VideoTrimmer/VideoTrimmer.tsx:67-71 | an end before the start sets the error message. The start message replaces it at once and the transcoder runs with a negative `-t` | start 0:0:10, end blank: `-t -10`, and the final message is the completion message | return after setting the error message, so it stays visible and nothing runs | medium, not executed | VideoTrimmer.NegativeRangeStillTranscodes | VideoTrimmer.DoTranscodeGuarded |
