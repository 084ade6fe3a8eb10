/** The clock-time helpers of the editor's utilities: formatting a second
    count as `HH:MM:SS`, validating the minute and second text fields of the
    trimmer, and the signed length of a trim range in seconds. */
module ClockTime {
  import opened Wrappers
  import opened Decimal
  import opened Strings

  /** The trimmer's six input fields. `None` is the blank `''` every field
      starts with; otherwise the field holds a whole number. */
  datatype TrimmedVideoDuration = TrimmedVideoDuration(
    startHour: Option<nat>, startMin: Option<nat>, startSec: Option<nat>,
    endHour: Option<nat>, endMin: Option<nat>, endSec: Option<nat>)

  /** An hours/minutes/seconds reading of a clock string. */
  datatype Clock = Clock(hours: nat, minutes: nat, seconds: nat)

  function ClockSeconds(c: Clock): nat {
    c.hours * 3600 + c.minutes * 60 + c.seconds
  }

  /** Reads `H:M:S`, each part a non-empty run of decimal digits (leading
      zeros allowed); anything else is not a clock reading. */
  function DecodeClock(s: string): Option<Clock> {
    var parts := Split(s, ':');
    if |parts| == 3 && (forall k :: 0 <= k < 3 ==> |parts[k]| >= 1 && IsDigits(parts[k])) then
      Some(Clock(Value(parts[0]), Value(parts[1]), Value(parts[2])))
    else
      None
  }

  /** A numeral left-padded with `'0'` to at least two characters. */
  function Pad2(s: string): string {
    PadStart(s, 2, '0')
  }

  /** A digit string of at least two characters carrying no more leading
      zeros than the two-character minimum needs. */
  predicate IsPaddedField(s: string) {
    IsDigits(s) && |s| >= 2 && (|s| > 2 ==> s[0] != '0')
  }

  /** A padded numeral: what `Pad2(NatToString(n))` writes and what it
      denotes. */
  lemma Pad2OfNatToString(n: nat)
    ensures IsPaddedField(Pad2(NatToString(n)))
    ensures Value(Pad2(NatToString(n))) == n
    ensures |Pad2(NatToString(n))| == 2 <==> n < 100
    ensures ':' !in Pad2(NatToString(n))
  {
    var s := NatToString(n);
    var p := Pad2(s);
    var z := p[..|p| - |s|];
    assert p == z + s;
    ValueIgnoresLeadingZeros(z, s);
    ValueOfNatToString(n);
  }

  /** Hours, minutes and seconds, each written in full and padded to two
      digits, joined by `':'`. */
  function FormatClock(c: Clock): string {
    Pad2(NatToString(c.hours)) + ":" + Pad2(NatToString(c.minutes)) + ":" + Pad2(NatToString(c.seconds))
  }

  /** Three separator-free fields joined by `':'` split back into those
      fields. */
  lemma SplitThree(a: string, b: string, c: string)
    requires ':' !in a && ':' !in b && ':' !in c
    ensures Split(a + ":" + b + ":" + c, ':') == [a, b, c]
  {
    assert [a, b, c][1..] == [b, c];
    assert [b, c][1..] == [c];
    assert Join([b, c], ':') == b + [':'] + c;
    assert Join([a, b, c], ':') == a + ":" + b + ":" + c;
    SplitJoin([a, b, c], ':');
  }

  /** `parts` are three padded fields denoting the hours, minutes and
      seconds of `c`. */
  predicate PaddedFieldsOf(parts: seq<string>, c: Clock) {
    && |parts| == 3
    && IsPaddedField(parts[0]) && IsPaddedField(parts[1]) && IsPaddedField(parts[2])
    && Value(parts[0]) == c.hours && Value(parts[1]) == c.minutes && Value(parts[2]) == c.seconds
  }

  /** The fields of `FormatClock(c)`, read back, are the fields of `c`. */
  lemma FormatClockFields(c: Clock)
    ensures PaddedFieldsOf(Split(FormatClock(c), ':'), c)
  {
    var h := Pad2(NatToString(c.hours));
    var m := Pad2(NatToString(c.minutes));
    var s := Pad2(NatToString(c.seconds));
    Pad2OfNatToString(c.hours);
    Pad2OfNatToString(c.minutes);
    Pad2OfNatToString(c.seconds);
    SplitThree(h, m, s);
  }

  /** The hours, the minutes within the hour and the seconds within the
      minute of a second count. */
  function ClockOf(seconds: nat): Clock {
    Clock(seconds / 3600, (seconds % 3600) / 60, seconds % 60)
  }

  /** The split has minutes and seconds in 0..59 and adds back up to the
      count. */
  lemma ClockOfSplits(seconds: nat)
    ensures ClockOf(seconds).minutes < 60 && ClockOf(seconds).seconds < 60
    ensures ClockSeconds(ClockOf(seconds)) == seconds
    ensures ClockOf(seconds).hours < 100 <==> seconds < 360000
  {
    var h, rest := seconds / 3600, seconds % 3600;
    var m, r := rest / 60, rest % 60;
    assert seconds == h * 3600 + rest && rest < 3600;
    assert rest == m * 60 + r && r < 60;
    assert m < 60;
    assert seconds == (h * 60 + m) * 60 + r;
    DivModUnique(seconds, 60, h * 60 + m, r);
    if h < 100 {
      assert h <= 99 && h * 3600 <= 99 * 3600;
    } else {
      MultipleAtLeast(h - 99, 3600);
      assert h * 3600 == (h - 99) * 3600 + 99 * 3600;
    }
  }

  /** No other clock has minutes and seconds in 0..59 and the same total:
      `ClockOf` is the only such split. */
  lemma ClockOfUnique(c: Clock, seconds: nat)
    requires c.minutes < 60 && c.seconds < 60
    requires ClockSeconds(c) == seconds
    ensures c == ClockOf(seconds)
  {
    var rest := c.minutes * 60 + c.seconds;
    assert 0 <= rest < 3600;
    DivModUnique(seconds, 3600, c.hours, rest);
    DivModUnique(rest, 60, c.minutes, c.seconds);
    DivModUnique(seconds, 60, c.hours * 60 + c.minutes, c.seconds);
  }

  /** Quotient and remainder are determined by `n == q * d + r` with
      `0 <= r < d`. */
  lemma DivModUnique(n: nat, d: nat, q: nat, r: nat)
    requires 0 < d && r < d && n == q * d + r
    ensures n / d == q && n % d == r
  {
    var q0, r0 := n / d, n % d;
    assert n == q0 * d + r0 && r0 < d;
    if q > q0 {
      assert q * d - q0 * d == (q - q0) * d;
      MultipleAtLeast(q - q0, d);
      assert false;
    } else if q < q0 {
      assert q0 * d - q * d == (q0 - q) * d;
      MultipleAtLeast(q0 - q, d);
      assert false;
    }
  }

  lemma MultipleAtLeast(k: nat, d: nat)
    requires 1 <= k
    ensures k * d >= d
  {
  }

  /** Three separator-free fields joined by `':'` hold exactly two `':'`. */
  lemma TwoSeparators(a: string, b: string, c: string)
    requires ':' !in a && ':' !in b && ':' !in c
    ensures multiset(a + ":" + b + ":" + c)[':'] == 2
  {
    assert multiset(a)[':'] == 0 && multiset(b)[':'] == 0 && multiset(c)[':'] == 0;
    assert multiset(a + ":" + b + ":" + c) == multiset(a) + multiset(":") + multiset(b) + multiset(":") + multiset(c);
  }

  /** Length and separators of `FormatClock(c)`: the padded hour field plus
      six characters, with exactly two `':'`. */
  lemma FormatClockShape(c: Clock)
    requires c.minutes < 100 && c.seconds < 100
    ensures |FormatClock(c)| == |Pad2(NatToString(c.hours))| + 6
    ensures multiset(FormatClock(c))[':'] == 2
  {
    Pad2OfNatToString(c.hours);
    Pad2OfNatToString(c.minutes);
    Pad2OfNatToString(c.seconds);
    TwoSeparators(Pad2(NatToString(c.hours)), Pad2(NatToString(c.minutes)), Pad2(NatToString(c.seconds)));
  }

  /** `secondsToTime`: `HH:MM:SS`, each field padded to two digits; an hour
      count of 100 or more is written in full rather than cut. The result has
      exactly two `':'` and is eight characters long exactly when the count
      is below 100 hours. */
  function SecondsToTime(seconds: nat): (r: string)
    ensures |r| >= 8
    ensures |r| == 8 <==> seconds < 360000
    ensures multiset(r)[':'] == 2
  {
    var c := ClockOf(seconds);
    ClockOfSplits(seconds);
    FormatClockShape(c);
    Pad2OfNatToString(c.hours);
    FormatClock(c)
  }

  /** The three fields of `SecondsToTime(n)`: digit strings padded to two
      characters, denoting the hours, the minutes (0..59) and the seconds
      (0..59) of `n`, which add back up to `n`. */
  lemma SecondsToTimeFields(n: nat)
    ensures PaddedFieldsOf(Split(SecondsToTime(n), ':'), ClockOf(n))
    ensures ClockOf(n).minutes < 60 && ClockOf(n).seconds < 60
    ensures ClockSeconds(ClockOf(n)) == n
  {
    ClockOfSplits(n);
    FormatClockFields(ClockOf(n));
  }

  /** Round trip: reading back `SecondsToTime(n)` gives a clock with minutes
      and seconds in 0..59 whose total is `n`. */
  lemma SecondsToTimeRoundTrip(n: nat)
    ensures DecodeClock(SecondsToTime(n)) == Some(ClockOf(n))
  {
    var c := ClockOf(n);
    FormatClockFields(c);
    var parts := Split(FormatClock(c), ':');
    assert forall k :: 0 <= k < 3 ==> IsPaddedField(parts[k]);
  }

  lemma SecondsToTimeZero()
    ensures SecondsToTime(0) == "00:00:00"
  {
    assert ClockOf(0) == Clock(0, 0, 0);
    assert NatToString(0) == "0";
    assert Repeat('0', 1) == "0";
    assert Pad2("0") == "00";
    assert FormatClock(Clock(0, 0, 0)) == "00" + ":" + "00" + ":" + "00";
  }

  /** `/(Min|Sec)/.test(name)`: the name mentions `Min` or `Sec` anywhere. */
  predicate IsMinSecName(name: string) {
    Contains(name, "Min") || Contains(name, "Sec")
  }

  /** The pattern `^([0-5]?\d)$`, matched as a backtracking engine does: first
      let the optional group take one character of `[0-5]`, and if the rest is
      not a single digit up to the end of the input, retry with the group
      empty. (`$` without the multiline flag matches only at the very end.) */
  predicate MatchesMinSecNumeral(value: string) {
    (|value| >= 1 && '0' <= value[0] <= '5' && DigitThenEnd(value[1..]))
    || DigitThenEnd(value)
  }

  predicate DigitThenEnd(s: string) {
    |s| == 1 && IsDigit(s[0])
  }

  /** The pattern accepts exactly the one- and two-digit numerals up to 59. */
  lemma MatchesMinSecNumeralIff(value: string)
    ensures MatchesMinSecNumeral(value)
      <==> IsDigits(value) && 1 <= |value| <= 2 && Value(value) <= 59
  {
    if |value| == 2 && IsDigits(value) {
      var p := value[..1];
      assert value[..|value| - 1] == p && p[..|p| - 1] == [] && p[|p| - 1] == value[0];
      assert Value(p) == DigitValue(value[0]);
      assert Value(value) == Value(p) * 10 + DigitValue(value[1]);
      assert Value(value) == DigitValue(value[0]) * 10 + DigitValue(value[1]);
    }
    if |value| == 1 && IsDigits(value) {
      assert value[..0] == [];
    }
  }

  /** `validateTimeByName`: for a minutes or seconds field, keep a numeral the
      pattern accepts and replace anything else by `"0"`; any other field
      passes through. A minutes or seconds result always denotes 0..59. */
  function ValidateTimeByName(name: string, value: string): (r: string)
    ensures !IsMinSecName(name) ==> r == value
    ensures IsMinSecName(name) ==> r == value || r == "0"
    ensures IsMinSecName(name) ==> IsDigits(r) && 1 <= |r| <= 2 && Value(r) <= 59
  {
    MatchesMinSecNumeralIff(value);
    MatchesMinSecNumeralIff("0");
    if IsMinSecName(name) then
      (if MatchesMinSecNumeral(value) then value else "0")
    else
      value
  }

  /** A minutes or seconds value is kept exactly when it is one digit, or two
      digits the first of which is 0..5. */
  lemma ValidateKeepsExactly(name: string, value: string)
    requires IsMinSecName(name)
    ensures ValidateTimeByName(name, value) == value <==>
      || (|value| == 1 && IsDigit(value[0]))
      || (|value| == 2 && '0' <= value[0] <= '5' && IsDigit(value[1]))
  {
    MatchesMinSecNumeralIff("0");
  }

  /** Validating an already validated value changes nothing. */
  lemma ValidateIdempotent(name: string, value: string)
    ensures ValidateTimeByName(name, ValidateTimeByName(name, value))
      == ValidateTimeByName(name, value)
  {
    var r := ValidateTimeByName(name, value);
    if IsMinSecName(name) {
      MatchesMinSecNumeralIff(r);
    }
  }

  /** A field's number, a blank field counting as 0 (a zero field is 0
      anyway). */
  function OrZero(f: Option<nat>): nat {
    f.GetOr(0)
  }

  /** The field's number written out as decimal text and parsed back, as
      the difference helper does for each field. */
  function FieldSeconds(f: Option<nat>): nat {
    Value(NatToString(OrZero(f)))
  }

  /** `getTimeDiffInSeconds`: end minus start, each as hours * 3600 +
      minutes * 60 + seconds. */
  function GetTimeDiffInSeconds(d: TrimmedVideoDuration): int {
    var startSeconds :=
      FieldSeconds(d.startHour) * 3600 + FieldSeconds(d.startMin) * 60 + FieldSeconds(d.startSec);
    var endSeconds :=
      FieldSeconds(d.endHour) * 3600 + FieldSeconds(d.endMin) * 60 + FieldSeconds(d.endSec);
    endSeconds - startSeconds
  }

  /** The instant a start or end triple denotes, blanks read as 0. */
  function TotalSeconds(h: Option<nat>, m: Option<nat>, s: Option<nat>): nat {
    OrZero(h) * 3600 + OrZero(m) * 60 + OrZero(s)
  }

  function StartSeconds(d: TrimmedVideoDuration): nat {
    TotalSeconds(d.startHour, d.startMin, d.startSec)
  }

  function EndSeconds(d: TrimmedVideoDuration): nat {
    TotalSeconds(d.endHour, d.endMin, d.endSec)
  }

  /** The difference is the end instant minus the start instant, with blank
      fields counting as zero. */
  lemma TimeDiffIsEndMinusStart(d: TrimmedVideoDuration)
    ensures GetTimeDiffInSeconds(d) == EndSeconds(d) - StartSeconds(d)
  {
    ValueOfNatToString(OrZero(d.startHour));
    ValueOfNatToString(OrZero(d.startMin));
    ValueOfNatToString(OrZero(d.startSec));
    ValueOfNatToString(OrZero(d.endHour));
    ValueOfNatToString(OrZero(d.endMin));
    ValueOfNatToString(OrZero(d.endSec));
  }

  /** A range whose start and end denote the same instant has length 0. */
  lemma TimeDiffOfEqualEnds(d: TrimmedVideoDuration)
    requires StartSeconds(d) == EndSeconds(d)
    ensures GetTimeDiffInSeconds(d) == 0
  {
    TimeDiffIsEndMinusStart(d);
  }

  /** The record with its start and end fields exchanged. */
  function Swap(d: TrimmedVideoDuration): TrimmedVideoDuration {
    TrimmedVideoDuration(d.endHour, d.endMin, d.endSec, d.startHour, d.startMin, d.startSec)
  }

  /** Exchanging start and end negates the difference. */
  lemma TimeDiffAntisymmetric(d: TrimmedVideoDuration)
    ensures GetTimeDiffInSeconds(Swap(d)) == -GetTimeDiffInSeconds(d)
  {
    TimeDiffIsEndMinusStart(d);
    TimeDiffIsEndMinusStart(Swap(d));
  }

  /** The range from the very beginning (all start fields blank) to `c`. */
  function RangeTo(c: Clock): TrimmedVideoDuration {
    TrimmedVideoDuration(None, None, None, Some(c.hours), Some(c.minutes), Some(c.seconds))
  }

  /** The range from the very beginning to `c` lasts `ClockSeconds(c)`. */
  lemma TimeDiffOfRangeTo(c: Clock)
    ensures GetTimeDiffInSeconds(RangeTo(c)) == ClockSeconds(c)
  {
    TimeDiffIsEndMinusStart(RangeTo(c));
  }

  /** Trimming from the very beginning up to the clock `SecondsToTime(n)`
      shows, read back into the end fields, gives a range of exactly `n`
      seconds. */
  lemma TimeDiffUpToFormattedClock(n: nat)
    ensures DecodeClock(SecondsToTime(n)).Some?
    ensures GetTimeDiffInSeconds(RangeTo(DecodeClock(SecondsToTime(n)).value)) == n
  {
    SecondsToTimeRoundTrip(n);
    TimeDiffOfRangeTo(ClockOf(n));
    ClockOfSplits(n);
  }
}
