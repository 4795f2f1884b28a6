/**
 * Timestamps of the form HH:MM:SS,mmm (or with '.' before the milliseconds),
 * Python's decimal rendering of integers, and `shift_timestamp`, which moves a
 * timestamp by a number of seconds and renders it canonically.
 *
 * Every field is made of decimal digits, so the Python `float` values the source
 * computes are integral; seconds and milliseconds are modelled as integers.
 */
module Timestamp {

  // ---------------------------------------------------------------------------
  // Decimal digits
  // ---------------------------------------------------------------------------

  predicate IsDigit(c: char) { '0' <= c <= '9' }

  predicate AllDigits(s: string) { forall i :: 0 <= i < |s| ==> IsDigit(s[i]) }

  function DigitValue(c: char): (d: nat)
    requires IsDigit(c)
    ensures d < 10
  {
    (c as int - '0' as int) as nat
  }

  function DigitChar(d: nat): (c: char)
    requires d < 10
    ensures IsDigit(c) && DigitValue(c) == d
  {
    ('0' as int + d) as char
  }

  function Pow10(n: nat): (p: nat)
    ensures p >= 1
  {
    if n == 0 then 1 else 10 * Pow10(n - 1)
  }

  /** Python's `int(s)` on a non-empty string of decimal digits (leading zeros allowed). */
  function DigitsValue(s: string): nat
    requires AllDigits(s)
  {
    if s == [] then 0 else 10 * DigitsValue(s[..|s| - 1]) + DigitValue(s[|s| - 1])
  }

  /**
   * Python's `format(n, "0<width>")` for a non-negative integer: the decimal digits
   * of `n`, zero-padded on the left to at least `width` characters.
   */
  function Decimal(n: nat, width: nat): (r: string)
    decreases n, width
    ensures AllDigits(r) && DigitsValue(r) == n
    ensures |r| >= 1 && |r| >= width
    ensures |r| > width && |r| > 1 ==> r[0] != '0'
  {
    if n < 10 && width <= 1 then [DigitChar(n)]
    else
      var r := Decimal(n / 10, if width == 0 then 0 else width - 1) + [DigitChar(n % 10)];
      assert r[..|r| - 1] == Decimal(n / 10, if width == 0 then 0 else width - 1);
      r
  }

  /** Python's `format(n, "0<width>")` for any integer: the sign counts towards the width. */
  function PadInt(n: int, width: nat): string
  {
    if n < 0 then "-" + Decimal(-n, if width == 0 then 0 else width - 1) else Decimal(n, width)
  }

  lemma {:induction false} DigitsValueBound(s: string)
    requires AllDigits(s)
    ensures DigitsValue(s) < Pow10(|s|)
  {
    if s != [] {
      DigitsValueBound(s[..|s| - 1]);
    }
  }

  /** A digit string rendered back at its own width gives the same characters. */
  lemma DecimalOfDigits(s: string)
    requires AllDigits(s) && |s| >= 1
    ensures Decimal(DigitsValue(s), |s|) == s
  {
    var n := DigitsValue(s);
    DigitsValueBound(s);
    DecimalLength(n, |s|);
    DigitsValueInjective(Decimal(n, |s|), s);
  }

  /** Two digit strings of the same length and value are the same string. */
  lemma {:induction false} DigitsValueInjective(a: string, b: string)
    requires AllDigits(a) && AllDigits(b) && |a| == |b| && DigitsValue(a) == DigitsValue(b)
    ensures a == b
  {
    if a != [] {
      var k := |a| - 1;
      DigitsValueLast(a);
      DigitsValueLast(b);
      DivModUnique(DigitsValue(a), 10, DigitsValue(a[..k]), DigitValue(a[k]));
      DivModUnique(DigitsValue(b), 10, DigitsValue(b[..k]), DigitValue(b[k]));
      DigitsValueInjective(a[..k], b[..k]);
      DigitCharOfValue(a[k]);
      DigitCharOfValue(b[k]);
      assert a == a[..k] + [a[k]] && b == b[..k] + [b[k]];
    }
  }

  /** The value of a digit string is ten times that of its front plus its last digit. */
  lemma DigitsValueLast(s: string)
    requires AllDigits(s) && |s| >= 1
    ensures DigitsValue(s) == 10 * DigitsValue(s[..|s| - 1]) + DigitValue(s[|s| - 1])
  {
  }

  lemma DigitCharOfValue(c: char)
    requires IsDigit(c)
    ensures DigitChar(DigitValue(c)) == c
  {
  }

  /** Past one digit of width, the rendering is that of `n / 10` one narrower, then the last digit. */
  lemma DecimalStep(n: nat, width: nat)
    requires width >= 2
    ensures Decimal(n, width) == Decimal(n / 10, width - 1) + [DigitChar(n % 10)]
  {
  }

  /** A value below 10^width renders in exactly `width` digits, and only such a value does. */
  lemma {:induction false} DecimalLength(n: nat, width: nat)
    requires width >= 1
    ensures |Decimal(n, width)| == width <==> n < Pow10(width)
  {
    var r := Decimal(n, width);
    if |r| == width {
      DigitsValueBound(r);
    }
    if n < Pow10(width) && width > 1 {
      DecimalLength(n / 10, width - 1);
    }
  }

  // ---------------------------------------------------------------------------
  // Stamps and tokens
  // ---------------------------------------------------------------------------

  /** Width of a token matched by the pattern \d{2}:\d{2}:\d{2}[,.]\d{3}. */
  const TokenLength: nat := 12

  predicate IsSeparator(c: char) { c == ',' || c == '.' }

  /**
   * A stamp `H+:MM:SS<sep>mmm`: one or more hour digits, two-digit minutes and seconds,
   * a comma or a dot, and three millisecond digits. These are the strings on which
   * `shift_timestamp` is modelled: every matched token, and every rendering of a
   * non-negative total.
   */
  predicate IsStamp(t: string)
  {
    var n := |t|;
    n >= 11 && AllDigits(t[..n - 10]) &&
    t[n - 10] == ':' && IsDigit(t[n - 9]) && IsDigit(t[n - 8]) &&
    t[n - 7] == ':' && IsDigit(t[n - 6]) && IsDigit(t[n - 5]) &&
    IsSeparator(t[n - 4]) && IsDigit(t[n - 3]) && IsDigit(t[n - 2]) && IsDigit(t[n - 1])
  }

  /** A token the transcript pattern matches: a stamp with exactly two hour digits. */
  predicate IsToken(t: string)
  {
    |t| == TokenLength && IsStamp(t)
  }

  function HourField(t: string): (f: string)
    requires IsStamp(t)
    ensures AllDigits(f)
  {
    t[..|t| - 10]
  }

  function MinuteField(t: string): (f: string)
    requires IsStamp(t)
    ensures AllDigits(f) && |f| == 2
  {
    t[|t| - 9..|t| - 7]
  }

  function SecondField(t: string): (f: string)
    requires IsStamp(t)
    ensures AllDigits(f) && |f| == 2
  {
    t[|t| - 6..|t| - 4]
  }

  function MillisField(t: string): (f: string)
    requires IsStamp(t)
    ensures AllDigits(f) && |f| == 3
  {
    t[|t| - 3..]
  }

  function Hours(t: string): nat requires IsStamp(t) { DigitsValue(HourField(t)) }
  function Minutes(t: string): nat requires IsStamp(t) { DigitsValue(MinuteField(t)) }
  function Seconds(t: string): nat requires IsStamp(t) { DigitsValue(SecondField(t)) }
  function Millis(t: string): nat requires IsStamp(t) { DigitsValue(MillisField(t)) }

  /**
   * The whole-second value of a stamp, `int(h) * 3600 + int(m) * 60 + s`: minutes and
   * seconds of 60 or more are not rejected but carried arithmetically.
   */
  function StampSeconds(t: string): nat
    requires IsStamp(t)
  {
    Hours(t) * 3600 + Minutes(t) * 60 + Seconds(t)
  }

  /** Minutes and seconds are both below 60. */
  predicate InRange(t: string)
    requires IsStamp(t)
  {
    Minutes(t) < 60 && Seconds(t) < 60
  }

  /** The token with its millisecond separator written as a comma. */
  function NormalizeToken(t: string): (r: string)
    requires IsToken(t)
    ensures IsToken(r) && r[8] == ','
    ensures forall i :: 0 <= i < TokenLength && i != 8 ==> r[i] == t[i]
  {
    var r := t[..8] + [','] + t[9..];
    assert HourField(r) == HourField(t) && MinuteField(r) == MinuteField(t);
    assert SecondField(r) == SecondField(t) && MillisField(r) == MillisField(t);
    r
  }

  // ---------------------------------------------------------------------------
  // shift_timestamp
  // ---------------------------------------------------------------------------

  /**
   * Renders a whole-second total and a millisecond count as
   * `{h:02}:{m:02}:{s:02},{ms:03}` with Python's floor division and modulo
   * (which agree with Dafny's for a positive divisor). Hours are not reduced mod 24.
   */
  function Render(total: int, millis: nat): string
  {
    PadInt(total / 3600, 2) + ":" + Decimal((total % 3600) / 60, 2) + ":" +
    Decimal(total % 60, 2) + "," + Decimal(millis, 3)
  }

  /** `shift_timestamp(t, offset)`: the stamp moved by `offset` seconds, rendered canonically. */
  function ShiftTimestamp(t: string, offset: int): string
    requires IsStamp(t)
  {
    Render(StampSeconds(t) + offset, Millis(t))
  }

  lemma MulAtLeast(a: int, d: int)
    requires a >= 1 && d > 0
    ensures a * d >= d
  {
    assert a * d == d + (a - 1) * d;
  }

  /** Euclidean division by a positive divisor has a unique quotient and remainder. */
  lemma DivModUnique(x: int, d: int, q: int, r: int)
    requires d > 0 && 0 <= r < d && x == q * d + r
    ensures x / d == q && x % d == r
  {
    var q', r' := x / d, x % d;
    assert (q - q') * d == r' - r;
    if q' < q {
      MulAtLeast(q - q', d);
    } else if q' > q {
      MulAtLeast(q' - q, d);
    }
  }

  /** Splits a non-negative total into hours, minutes and seconds with carry. */
  lemma HmsOfTotal(total: nat)
    ensures var h, m, s := total / 3600, (total % 3600) / 60, total % 60;
      m < 60 && s < 60 && h * 3600 + m * 60 + s == total
  {
    var h, rest := total / 3600, total % 3600;
    var m, s := rest / 60, rest % 60;
    assert total == h * 3600 + rest;
    assert rest == m * 60 + s;
    assert total == (h * 60 + m) * 60 + s;
    DivModUnique(total, 60, h * 60 + m, s);
  }

  /** A stamp assembled from its fields reads them back. */
  lemma AssembledStamp(hh: string, mm: string, ss: string, sep: char, ms: string)
    requires AllDigits(hh) && AllDigits(mm) && AllDigits(ss) && AllDigits(ms)
    requires |hh| >= 1 && |mm| == 2 && |ss| == 2 && |ms| == 3 && IsSeparator(sep)
    ensures var r := hh + ":" + mm + ":" + ss + [sep] + ms;
      IsStamp(r) && |r| == |hh| + 10 && r[|r| - 4] == sep &&
      HourField(r) == hh && MinuteField(r) == mm && SecondField(r) == ss && MillisField(r) == ms
  {
    var tail := ":" + mm + ":" + ss + [sep] + ms;
    assert hh + ":" + mm + ":" + ss + [sep] + ms == hh + tail;
    assert tail[1..3] == mm && tail[4..6] == ss && tail[7..] == ms;
    StampOfSplit(hh, tail);
  }

  /** A stamp split after its hour digits. */
  lemma StampOfSplit(hh: string, tail: string)
    requires AllDigits(hh) && |hh| >= 1 && |tail| == 10
    requires tail[0] == ':' && AllDigits(tail[1..3]) && tail[3] == ':' && AllDigits(tail[4..6])
    requires IsSeparator(tail[6]) && AllDigits(tail[7..])
    ensures var r := hh + tail;
      IsStamp(r) && |r| == |hh| + 10 && r[|r| - 4] == tail[6] &&
      HourField(r) == hh && MinuteField(r) == tail[1..3] && SecondField(r) == tail[4..6] &&
      MillisField(r) == tail[7..]
  {
    var r, n := hh + tail, |hh|;
    assert |r| == n + 10;
    assert r[..n] == hh;
    assert forall j :: 0 <= j < 10 ==> r[n + j] == tail[j];
    assert IsDigit(tail[1..3][0]) && IsDigit(tail[1..3][1]);
    assert IsDigit(tail[4..6][0]) && IsDigit(tail[4..6][1]);
    assert IsDigit(tail[7..][0]) && IsDigit(tail[7..][1]) && IsDigit(tail[7..][2]);
    assert IsStamp(r);
    assert r[n + 1..n + 3] == tail[1..3];
    assert r[n + 4..n + 6] == tail[4..6];
    assert r[n + 7..] == tail[7..];
  }

  /** The rendering of a non-negative total, read back field by field. */
  lemma RenderFields(total: nat, millis: nat)
    requires millis < 1000
    ensures var r := Render(total, millis);
      IsStamp(r) && r[|r| - 4] == ',' && |HourField(r)| >= 2 &&
      Hours(r) == total / 3600 && Minutes(r) < 60 && Seconds(r) < 60 &&
      StampSeconds(r) == total && Millis(r) == millis &&
      (|r| == TokenLength <==> total < 100 * 3600)
  {
    var h, m, s := total / 3600, (total % 3600) / 60, total % 60;
    HmsOfTotal(total);
    DecimalLength(m, 2);
    DecimalLength(s, 2);
    DecimalLength(millis, 3);
    DecimalLength(h, 2);
    AssembledStamp(Decimal(h, 2), Decimal(m, 2), Decimal(s, 2), ',', Decimal(millis, 3));
    assert total < 100 * 3600 <==> h < 100;
  }

  /**
   * Carry is correct: for a non-negative result the rendered stamp holds
   * exactly `total` seconds with minutes and seconds below 60, keeps the
   * milliseconds digit for digit, always uses a comma, pads hours to two
   * digits and never wraps them at 24; it is a 12-character token exactly
   * when the result is below 100 hours.
   */
  lemma ShiftCarry(t: string, offset: int)
    requires IsStamp(t) && StampSeconds(t) + offset >= 0
    ensures var r, total := ShiftTimestamp(t, offset), StampSeconds(t) + offset;
      IsStamp(r) && r[|r| - 4] == ',' && |HourField(r)| >= 2 &&
      Hours(r) == total / 3600 && Minutes(r) < 60 && Seconds(r) < 60 &&
      StampSeconds(r) == total && MillisField(r) == MillisField(t) &&
      (IsToken(r) <==> total < 100 * 3600)
  {
    var total := StampSeconds(t) + offset;
    DigitsValueBound(MillisField(t));
    RenderFields(total, Millis(t));
    var r := ShiftTimestamp(t, offset);
    DecimalOfDigits(MillisField(t));
    assert MillisField(r) == Decimal(Millis(t), 3);
  }

  /** Shifting by zero only normalises the separator, when minutes and seconds are in range. */
  lemma ShiftByZero(t: string)
    requires IsToken(t) && InRange(t)
    ensures ShiftTimestamp(t, 0) == NormalizeToken(t)
  {
    var h, m, s := Hours(t), Minutes(t), Seconds(t);
    var total := StampSeconds(t);
    assert total == h * 3600 + (m * 60 + s);
    DivModUnique(total, 3600, h, m * 60 + s);
    DivModUnique(m * 60 + s, 60, m, s);
    DivModUnique(total, 60, h * 60 + m, s) by {
      assert total == (h * 60 + m) * 60 + s;
    }
    DecimalOfDigits(HourField(t));
    DecimalOfDigits(MinuteField(t));
    DecimalOfDigits(SecondField(t));
    DecimalOfDigits(MillisField(t));
    assert t == HourField(t) + ":" + MinuteField(t) + ":" + SecondField(t) + [t[8]] + MillisField(t);
  }

  /** Shifts compose additively once the intermediate result is non-negative. */
  lemma ShiftCompose(t: string, a: int, b: int)
    requires IsStamp(t) && StampSeconds(t) + a >= 0
    ensures IsStamp(ShiftTimestamp(t, a))
    ensures ShiftTimestamp(ShiftTimestamp(t, a), b) == ShiftTimestamp(t, a + b)
  {
    ShiftCarry(t, a);
  }

  lemma DigitsValueOfTwo(s: string)
    requires AllDigits(s) && |s| == 2
    ensures DigitsValue(s) == 10 * DigitValue(s[0]) + DigitValue(s[1])
  {
    var front := s[..1];
    assert front[..0] == [] && front[0] == s[0];
    assert DigitsValue(front) == DigitValue(s[0]);
  }

  lemma DigitsValueOfThree(s: string)
    requires AllDigits(s) && |s| == 3
    ensures DigitsValue(s) == 100 * DigitValue(s[0]) + 10 * DigitValue(s[1]) + DigitValue(s[2])
  {
    DigitsValueOfTwo(s[..2]);
  }

  /** The fields of a 12-character token, digit by digit. */
  lemma TokenFieldValues(t: string)
    requires IsToken(t)
    ensures Hours(t) == 10 * DigitValue(t[0]) + DigitValue(t[1])
    ensures Minutes(t) == 10 * DigitValue(t[3]) + DigitValue(t[4])
    ensures Seconds(t) == 10 * DigitValue(t[6]) + DigitValue(t[7])
    ensures Millis(t) == 100 * DigitValue(t[9]) + 10 * DigitValue(t[10]) + DigitValue(t[11])
  {
    DigitsValueOfTwo(HourField(t));
    DigitsValueOfTwo(MinuteField(t));
    DigitsValueOfTwo(SecondField(t));
    DigitsValueOfThree(MillisField(t));
  }

  /**
   * A token's shift is the rendering of its total: the concrete examples below go
   * through this step so that the solver evaluates `Render` on literals only.
   */
  lemma ShiftOfToken(t: string, offset: int, total: int, millis: nat)
    requires IsToken(t)
    requires 3600 * (10 * DigitValue(t[0]) + DigitValue(t[1])) + 60 * (10 * DigitValue(t[3]) + DigitValue(t[4]))
             + 10 * DigitValue(t[6]) + DigitValue(t[7]) + offset == total
    requires 100 * DigitValue(t[9]) + 10 * DigitValue(t[10]) + DigitValue(t[11]) == millis
    ensures ShiftTimestamp(t, offset) == Render(total, millis)
  {
    TokenTotals(t, offset, total, millis);
  }

  /** The seconds and milliseconds of a token, read off its digits. */
  lemma TokenTotals(t: string, offset: int, total: int, millis: nat)
    requires IsToken(t)
    requires 3600 * (10 * DigitValue(t[0]) + DigitValue(t[1])) + 60 * (10 * DigitValue(t[3]) + DigitValue(t[4]))
             + 10 * DigitValue(t[6]) + DigitValue(t[7]) + offset == total
    requires 100 * DigitValue(t[9]) + 10 * DigitValue(t[10]) + DigitValue(t[11]) == millis
    ensures StampSeconds(t) + offset == total && Millis(t) == millis
  {
    TokenFieldValues(t);
  }

  lemma DecimalTwo(n: nat)
    requires n < 100
    ensures Decimal(n, 2) == [DigitChar(n / 10), DigitChar(n % 10)]
  {
    assert Decimal(n / 10, 1) == [DigitChar(n / 10)];
  }

  lemma DecimalThree(n: nat)
    requires n < 1000
    ensures Decimal(n, 3) == [DigitChar(n / 100), DigitChar((n / 10) % 10), DigitChar(n % 10)]
  {
    DecimalTwo(n / 10);
    assert n / 10 / 10 == n / 100;
  }

  /** `Render` of a non-negative total below 100 hours, field by field. */
  lemma RenderShort(total: nat, millis: nat, h: nat, m: nat, sec: nat)
    requires millis < 1000 && h < 100 && m < 60 && sec < 60 && total == 3600 * h + 60 * m + sec
    ensures Render(total, millis) ==
      [DigitChar(h / 10), DigitChar(h % 10), ':', DigitChar(m / 10), DigitChar(m % 10), ':',
       DigitChar(sec / 10), DigitChar(sec % 10), ',',
       DigitChar(millis / 100), DigitChar((millis / 10) % 10), DigitChar(millis % 10)]
  {
    DivModUnique(total, 3600, h, 60 * m + sec);
    DivModUnique(60 * m + sec, 60, m, sec);
    DivModUnique(total, 60, 60 * h + m, sec);
    DecimalTwo(h);
    DecimalTwo(m);
    DecimalTwo(sec);
    DecimalThree(millis);
  }

  lemma RenderOfMidnight()
    ensures Render(86400, 500) == "24:00:00,500"
  {
    RenderShort(86400, 500, 24, 0, 0);
  }

  /** A value of three digits renders in three digits at width two. */
  lemma DecimalWide(n: nat)
    requires 100 <= n < 1000
    ensures Decimal(n, 2) == [DigitChar(n / 100), DigitChar((n / 10) % 10), DigitChar(n % 10)]
  {
    DecimalStep(n, 2);
    assert n / 10 / 10 == n / 100;
    assert Decimal(n / 10, 1) == Decimal(n / 100, 0) + [DigitChar((n / 10) % 10)];
  }

  /** `Render` of a total from 100 to 999 hours: the hours take three digits. */
  lemma RenderLong(total: nat, millis: nat, h: nat, m: nat, sec: nat)
    requires millis < 1000 && 100 <= h < 1000 && m < 60 && sec < 60 && total == 3600 * h + 60 * m + sec
    ensures Render(total, millis) ==
      [DigitChar(h / 100), DigitChar((h / 10) % 10), DigitChar(h % 10), ':',
       DigitChar(m / 10), DigitChar(m % 10), ':', DigitChar(sec / 10), DigitChar(sec % 10), ',',
       DigitChar(millis / 100), DigitChar((millis / 10) % 10), DigitChar(millis % 10)]
  {
    DivModUnique(total, 3600, h, 60 * m + sec);
    DivModUnique(60 * m + sec, 60, m, sec);
    DivModUnique(total, 60, 60 * h + m, sec);
    DecimalWide(h);
    DecimalTwo(m);
    DecimalTwo(sec);
    DecimalThree(millis);
  }

  lemma RenderOfHundredHours()
    ensures Render(360000, 0) == "100:00:00,000"
  {
    RenderLong(360000, 0, 100, 0, 0);
  }

  lemma RenderOfCarriedMinutes()
    ensures Render(4500, 250) == "01:15:00,250"
  {
    RenderShort(4500, 250, 1, 15, 0);
  }

  /** Hours carry past 24: a day boundary is not wrapped. */
  lemma ShiftPastMidnight(t: string)
    requires t == "23:59:59.500"
    ensures ShiftTimestamp(t, 1) == "24:00:00,500"
  {
    ShiftOfToken(t, 1, 86400, 500);
    RenderOfMidnight();
  }

  /** Hours grow past two digits. */
  lemma ShiftPastHundredHours(t: string)
    requires t == "99:59:59,000"
    ensures ShiftTimestamp(t, 1) == "100:00:00,000"
  {
    ShiftOfToken(t, 1, 360000, 0);
    RenderOfHundredHours();
  }

  /** Minutes of 60 or more are carried into the hours, not rejected. */
  lemma ShiftCarriesMinutes(t: string)
    requires t == "00:75:00.250"
    ensures ShiftTimestamp(t, 0) == "01:15:00,250"
  {
    ShiftOfToken(t, 0, 4500, 250);
    RenderOfCarriedMinutes();
  }
}
