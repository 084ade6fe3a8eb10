/** Decimal numerals as the browser writes and reads them: `String(n)` for a
    non-negative integer, `parseInt` on a non-empty string of digits, and
    `String.prototype.padStart`. */
module Decimal {

  predicate IsDigit(c: char) {
    '0' <= c <= '9'
  }

  predicate IsDigits(s: string) {
    forall i :: 0 <= i < |s| ==> IsDigit(s[i])
  }

  /** The numeric value of one decimal digit. */
  function DigitValue(c: char): (d: nat)
    requires IsDigit(c)
    ensures d < 10
  {
    c as int - '0' as int
  }

  /** The digit character for a value below ten; the inverse of `DigitValue`. */
  function DigitChar(d: nat): (c: char)
    requires d < 10
    ensures IsDigit(c) && DigitValue(c) == d
  {
    "0123456789"[d]
  }

  /** `String(n)` for a non-negative integer: most significant digit first and
      no leading zero, except for `"0"` itself. */
  function NatToString(n: nat): (s: string)
    decreases n
    ensures IsDigits(s) && 1 <= |s|
    ensures |s| > 1 ==> s[0] != '0'
    ensures s[0] == '0' <==> n == 0
    ensures |s| == 1 <==> n < 10
    ensures |s| <= 2 <==> n < 100
  {
    if n < 10 then [DigitChar(n)] else NatToString(n / 10) + [DigitChar(n % 10)]
  }

  /** The number a string of decimal digits denotes. On a non-empty digit
      string this is what `parseInt` returns (`parseInt('')` is NaN); the
      empty string denotes 0, which models `Number('')`. */
  function Value(s: string): nat
    requires IsDigits(s)
  {
    if s == [] then 0 else Value(s[..|s| - 1]) * 10 + DigitValue(s[|s| - 1])
  }

  /** Reading back what `NatToString` writes gives the number written. */
  lemma {:induction false} ValueOfNatToString(n: nat)
    decreases n
    ensures Value(NatToString(n)) == n
  {
    if n >= 10 {
      ValueOfNatToString(n / 10);
      var s := NatToString(n);
      assert s[..|s| - 1] == NatToString(n / 10);
    }
  }

  /** A string of digits denotes 0 exactly when every digit is `'0'`. */
  lemma {:induction false} ValueZeroIff(s: string)
    requires IsDigits(s)
    ensures Value(s) == 0 <==> forall i :: 0 <= i < |s| ==> s[i] == '0'
  {
    if s != [] {
      var p := s[..|s| - 1];
      ValueZeroIff(p);
      assert forall i :: 0 <= i < |p| ==> p[i] == s[i];
    }
  }

  /** The other direction of the round trip: a canonical numeral (no leading
      zero unless it is the single digit `"0"`) is what `NatToString` writes
      for its value. */
  lemma {:induction false} NatToStringOfValue(s: string)
    requires IsDigits(s) && 1 <= |s|
    requires |s| > 1 ==> s[0] != '0'
    ensures NatToString(Value(s)) == s
  {
    if |s| > 1 {
      var p := s[..|s| - 1];
      var c := s[|s| - 1];
      NatToStringOfValue(p);
      ValueZeroIff(p);
      assert p[0] == s[0];
      assert Value(p) > 0;
      assert Value(s) / 10 == Value(p) && Value(s) % 10 == DigitValue(c);
      assert DigitChar(DigitValue(c)) == c;
      assert s == p + [c];
    }
  }

  /** Any numeral reads back, through `NatToString`, as itself with its
      leading zeros removed; a canonical numeral reads back as itself. */
  lemma NumeralReadBack(text: string)
    requires IsDigits(text)
    ensures 1 <= |text| && (|text| > 1 ==> text[0] != '0') ==> NatToString(Value(text)) == text
    ensures forall k ::
      (0 <= k < |text| && (forall i :: 0 <= i < k ==> text[i] == '0') && text[k] != '0')
        ==> NatToString(Value(text)) == text[k..]
  {
    if 1 <= |text| && (|text| > 1 ==> text[0] != '0') {
      NatToStringOfValue(text);
    }
    forall k | 0 <= k < |text| && (forall i :: 0 <= i < k ==> text[i] == '0') && text[k] != '0'
      ensures NatToString(Value(text)) == text[k..]
    {
      NumeralReadBackFrom(text, k);
    }
  }

  /** A numeral whose first non-zero digit is at `k` reads back as its
      suffix from `k`. */
  lemma NumeralReadBackFrom(text: string, k: nat)
    requires IsDigits(text) && k < |text| && text[k] != '0'
    requires forall i :: 0 <= i < k ==> text[i] == '0'
    ensures NatToString(Value(text)) == text[k..]
  {
    var z, rest := text[..k], text[k..];
    assert text == z + rest;
    assert forall i :: 0 <= i < |z| ==> z[i] == '0';
    assert IsDigits(rest) && rest[0] == text[k];
    ValueIgnoresLeadingZeros(z, rest);
    NatToStringOfValue(rest);
  }

  /** `k` copies of the character `c`. */
  function Repeat(c: char, k: nat): (r: string)
    ensures |r| == k
    ensures forall i :: 0 <= i < k ==> r[i] == c
  {
    if k == 0 then [] else [c] + Repeat(c, k - 1)
  }

  /** `s.padStart(width, fill)` with a one-character fill: strings already at
      least `width` long are returned unchanged (never truncated); shorter ones
      get `fill` added on the left up to exactly `width` characters. */
  function PadStart(s: string, width: nat, fill: char): (r: string)
    ensures |r| == if |s| < width then width else |s|
    ensures r[|r| - |s|..] == s
    ensures forall i :: 0 <= i < |r| - |s| ==> r[i] == fill
  {
    if |s| >= width then s else Repeat(fill, width - |s|) + s
  }

  /** Leading zeros do not change the value of a numeral. */
  lemma {:induction false} ValueIgnoresLeadingZeros(z: string, s: string)
    requires forall i :: 0 <= i < |z| ==> z[i] == '0'
    requires IsDigits(s)
    ensures IsDigits(z + s) && Value(z + s) == Value(s)
  {
    if s == [] {
      assert z + s == z;
      ValueZeroIff(z);
    } else {
      var p := s[..|s| - 1];
      ValueIgnoresLeadingZeros(z, p);
      assert (z + s)[..|z + s| - 1] == z + p;
    }
  }

  /** `String(i)` for an integer: a minus sign before the digits of its
      magnitude when it is negative, and no leading zero. Read back, the
      digits give the magnitude. */
  function IntToString(i: int): (r: string)
    ensures 1 <= |r|
    ensures i >= 0 ==> IsDigits(r) && Value(r) == i
    ensures i >= 0 && |r| > 1 ==> r[0] != '0'
    ensures i < 0 ==> |r| >= 2 && r[0] == '-' && IsDigits(r[1..]) && Value(r[1..]) == -i
    ensures i < 0 ==> r[1] != '0'
  {
    if i < 0 then
      ValueOfNatToString(-i);
      assert ("-" + NatToString(-i))[1..] == NatToString(-i);
      "-" + NatToString(-i)
    else
      ValueOfNatToString(i);
      NatToString(i)
  }
}
