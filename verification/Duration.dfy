/** Printing a request's duration. Durations are whole nanoseconds; the hours figure is any number that the
    floating-point computation can deliver, each of its operations being off by at most half a unit in the last of
    53 binary places. */
module Duration {
  import opened Basics
  import opened Strconv
  import opened Strings

  const MINUTE := 60_000_000_000
  const HOUR := 60 * MINUTE

  /** Division that cuts toward zero. */
  function Truncate(n: int, d: int): int
    requires d > 0
  {
    if n >= 0 then n / d else -((-n) / d)
  }

  function TrimSuffix(s: string, c: char): string {
    if s != "" && s[|s| - 1] == c then s[..|s| - 1] else s
  }

  /** Hundredths, rounded to nearest with ties to even. */
  function RoundHundredths(h: real): int {
    var x := h * 100.0;
    var low := x.Floor;
    var above := x - low as real;
    if above < 0.5 then low
    else if above > 0.5 then low + 1
    else if low % 2 == 0 then low else low + 1
  }

  /** The text of a number of hundredths, with two decimals. */
  function FixedText(c: nat): string {
    NatToString(c / 100) + "." + [DigitChar(c / 10 % 10), DigitChar(c % 10)]
  }

  function TrimDecimals(s: string): string {
    TrimSuffix(TrimSuffix(TrimSuffix(s, '0'), '0'), '.')
  }

  function FormatDuration(duration: int, hours: real): string {
    if duration < HOUR then Itoa(Truncate(duration, MINUTE)) + " min"
    else
      var c := RoundHundredths(hours);
      TrimDecimals(if c >= 0 then FixedText(c) else "-" + FixedText(-c)) + " hours"
  }

  // ---- Reading a printed duration back ----

  function ReadHundredths(s: string): Option<nat> {
    var dot := IndexOf(s, '.');
    if dot < 0 then if s != "" && AllDigits(s) then Some(100 * DigitsValue(s)) else None
    else
      var whole, part := s[..dot], s[dot + 1..];
      if whole == "" || !AllDigits(whole) || !AllDigits(part) || !(1 <= |part| <= 2) then None
      else Some(100 * DigitsValue(whole) + if |part| == 1 then 10 * DigitsValue(part) else DigitsValue(part))
  }

  function ReadDuration(s: string): Option<int> {
    var n := |s|;
    if n >= 4 && s[n - 4..] == " min" then Atoi(s[..n - 4])
    else if n >= 6 && s[n - 6..] == " hours" then
      match ReadHundredths(s[..n - 6])
      case None => None
      case Some(c) => Some((6 * c + 5) / 10)
    else None
  }

  const TWO_TO_53 := 9007199254740992.0

  function Abs(x: real): real { if x < 0.0 then -x else x }

  /** y is what a floating-point operation may give for an exact result x. */
  predicate RoundsTo(x: real, y: real) {
    TWO_TO_53 * Abs(y - x) <= Abs(x)
  }

  /** The quotient of what is left of a duration over its whole hours by an hour. */
  predicate PartOfHour(duration: int, part: real) {
    RoundsTo((duration % HOUR) as real / HOUR as real, part)
  }

  /** The hours of a non-negative duration: its whole hours and that part, added. */
  ghost predicate ComputesHours(duration: int, hours: real) {
    exists part: real :: PartOfHour(duration, part) && RoundsTo((duration / HOUR) as real + part, hours)
  }

  /** What the printing of a duration needs to know of the hours figure; below one hour it is not used. */
  ghost predicate HoursFigure(duration: int, hours: real) {
    duration >= HOUR ==> ComputesHours(duration, hours)
  }

  /** How far the computed hours may be from the exact m / 60: less than a sixth of a hundredth. */
  predicate CloseToHours(hours: real, m: int) {
    -1.0 < 600.0 * hours - 10.0 * m as real < 1.0
  }

  /** Over the whole duration range, rounding keeps the computed hours that close. */
  lemma ComputedHoursAreClose(m: int, hours: real)
    requires HOUR <= m * MINUTE <= MAX_INT && ComputesHours(m * MINUTE, hours)
    ensures CloseToHours(hours, m)
  {
    var whole, rest := m / 60, m % 60;
    WholeHours(whole, rest);
    assert m == 60 * whole + rest;
    var d := m * MINUTE;
    assert d / HOUR == whole && d % HOUR == rest * MINUTE;
    var part: real :| PartOfHour(d, part) && RoundsTo((d / HOUR) as real + part, hours);
    QuotientOfHour(rest);
    SumIsClose(whole, rest, part, hours);
  }

  lemma WholeHours(whole: int, rest: int)
    requires 0 <= rest < 60
    ensures (60 * whole + rest) * MINUTE / HOUR == whole
    ensures (60 * whole + rest) * MINUTE % HOUR == rest * MINUTE
  {
  }

  lemma QuotientOfHour(rest: int)
    ensures (rest * MINUTE) as real / HOUR as real == rest as real / 60.0
  {
  }

  lemma SumIsClose(whole: int, rest: int, part: real, hours: real)
    requires 0 <= whole < 3_000_000 && 0 <= rest < 60
    requires RoundsTo(rest as real / 60.0, part) && RoundsTo(whole as real + part, hours)
    ensures CloseToHours(hours, 60 * whole + rest)
  {
  }

  /** A whole number of minutes is never a rounding tie, so the nearest hundredth is the same for every nearby
      figure. */
  lemma HundredthsAreExact(m: int, hours: real)
    requires CloseToHours(hours, m)
    ensures RoundHundredths(hours) == (10 * m + 3) / 6
    ensures (6 * RoundHundredths(hours) + 5) / 10 == m
  {
  }

  lemma DigitText(d: nat)
    requires d < 10
    ensures DigitsValue([DigitChar(d)]) == d
  {
  }

  lemma TwoDigits(a: nat, b: nat)
    requires a < 10 && b < 10
    ensures DigitsValue([DigitChar(a), DigitChar(b)]) == 10 * a + b
  {
    DigitText(a);
    assert [DigitChar(a), DigitChar(b)][..1] == [DigitChar(a)];
  }

  lemma DotAt(whole: string, part: string)
    requires AllDigits(whole)
    ensures var s := whole + "." + part;
            IndexOf(s, '.') == |whole| && s[..|whole|] == whole && s[|whole| + 1..] == part
  {
    var s := whole + "." + part;
    assert s[..|whole|] == whole;
    FirstIndex(s, '.', |whole|);
  }

  lemma ReadTwoDecimals(whole: string, a: nat, b: nat)
    requires whole != "" && AllDigits(whole) && a < 10 && b < 10
    ensures ReadHundredths(whole + "." + [DigitChar(a), DigitChar(b)]) == Some(100 * DigitsValue(whole) + 10 * a + b)
  {
    DotAt(whole, [DigitChar(a), DigitChar(b)]);
    TwoDigits(a, b);
  }

  lemma ReadOneDecimal(whole: string, a: nat)
    requires whole != "" && AllDigits(whole) && a < 10
    ensures ReadHundredths(whole + "." + [DigitChar(a)]) == Some(100 * DigitsValue(whole) + 10 * a)
  {
    DotAt(whole, [DigitChar(a)]);
    DigitText(a);
  }

  lemma ReadWhole(whole: string)
    requires whole != "" && AllDigits(whole)
    ensures ReadHundredths(whole) == Some(100 * DigitsValue(whole))
  {
  }

  lemma TrimCases(whole: string, a: nat, b: nat)
    requires whole != "" && AllDigits(whole) && a < 10 && b < 10
    ensures TrimDecimals(whole + "." + [DigitChar(a), DigitChar(b)]) ==
              if b != 0 then whole + "." + [DigitChar(a), DigitChar(b)]
              else if a != 0 then whole + "." + [DigitChar(a)]
              else whole
  {
  }

  lemma ReadTrimmed(whole: string, a: nat, b: nat)
    requires whole != "" && AllDigits(whole) && a < 10 && b < 10
    ensures ReadHundredths(TrimDecimals(whole + "." + [DigitChar(a), DigitChar(b)])) ==
              Some(100 * DigitsValue(whole) + 10 * a + b)
  {
    TrimCases(whole, a, b);
    if b != 0 {
      ReadTwoDecimals(whole, a, b);
    } else if a != 0 {
      ReadOneDecimal(whole, a);
    } else {
      ReadWhole(whole);
    }
  }

  lemma DecimalPlaces(c: nat)
    ensures c == 100 * (c / 100) + 10 * (c / 10 % 10) + c % 10
  {
    var tens := c / 10;
    assert c == 10 * tens + c % 10;
    assert tens == 10 * (tens / 10) + tens % 10;
    assert 100 * (tens / 10) <= c < 100 * (tens / 10) + 100;
  }

  /** Cutting trailing zeros, and a point with nothing after it, keeps the value. */
  lemma TrimmingKeepsTheValue(c: nat)
    ensures ReadHundredths(TrimDecimals(FixedText(c))) == Some(c)
  {
    var whole, a, b := NatToString(c / 100), c / 10 % 10, c % 10;
    DecimalPlaces(c);
    DigitsRoundTrip(c / 100);
    ReadTrimmed(whole, a, b);
  }

  /** The minutes are recovered exactly from the text, for every whole number of minutes in the duration range and
      however the floating-point operations round. */
  lemma DurationRoundTrip(m: int, hours: real)
    requires -0x8000_0000_0000_0000 <= m * 60_000_000_000 <= 0x7FFF_FFFF_FFFF_FFFF
    requires HoursFigure(m * 60_000_000_000, hours)
    ensures ReadDuration(FormatDuration(m * 60_000_000_000, hours)) == Some(m)
  {
    var text := FormatDuration(m * MINUTE, hours);
    if m * MINUTE < HOUR {
      assert Truncate(m * MINUTE, MINUTE) == m;
      assert text[|text| - 4..] == " min" && text[..|text| - 4] == Itoa(m);
      AtoiItoa(m);
    } else {
      ComputedHoursAreClose(m, hours);
      HundredthsAreExact(m, hours);
      var c := RoundHundredths(hours);
      TrimmingKeepsTheValue(c);
      var shown := TrimDecimals(FixedText(c));
      assert text == shown + " hours";
      assert text[|text| - 6..] == " hours" && text[..|text| - 6] == shown;
      assert text[|text| - 1] == 's' && " min"[3] == 'n';
      assert text[|text| - 4..] != " min" by {
        assert text[|text| - 4..][3] == 's';
      }
    }
  }

  /** So different durations never print alike. */
  lemma DurationsPrintApart(m: int, hours: real, m': int, hours': real)
    requires MIN_INT <= m * MINUTE <= MAX_INT && HoursFigure(m * MINUTE, hours)
    requires MIN_INT <= m' * MINUTE <= MAX_INT && HoursFigure(m' * MINUTE, hours')
    requires m != m'
    ensures FormatDuration(m * MINUTE, hours) != FormatDuration(m' * MINUTE, hours')
  {
    DurationRoundTrip(m, hours);
    DurationRoundTrip(m', hours');
  }

  // ---- The text itself ----

  /** What is printed after the whole hours: nothing, or a point and one or two digits the last of which is not zero. */
  predicate IsFraction(part: string, hundredths: nat)
    requires hundredths < 100
  {
    if hundredths == 0 then part == ""
    else if hundredths % 10 == 0 then part == "." + [DigitChar(hundredths / 10)]
    else part == "." + [DigitChar(hundredths / 10), DigitChar(hundredths % 10)]
  }

  lemma TrimmedParts(c: nat) returns (part: string)
    ensures TrimDecimals(FixedText(c)) == NatToString(c / 100) + part && IsFraction(part, c % 100)
  {
    var whole, a, b := NatToString(c / 100), c / 10 % 10, c % 10;
    TrimCases(whole, a, b);
    DecimalPlaces(c);
    assert c % 100 == 10 * a + b;
    part := if b != 0 then "." + [DigitChar(a), DigitChar(b)] else if a != 0 then "." + [DigitChar(a)] else "";
    assert whole + "." + [DigitChar(a), DigitChar(b)] == whole + ("." + [DigitChar(a), DigitChar(b)]);
    assert whole + "." + [DigitChar(a)] == whole + ("." + [DigitChar(a)]);
  }

  /** What is printed for every whole number of minutes: under an hour the decimal of the minutes, after a minus sign if
      they are negative, and " min"; from an hour on the whole hours in decimal, the hundredths without trailing zeros,
      rounded to nearest, and " hours". */
  lemma DurationText(m: int, hours: real) returns (whole: string, part: string)
    requires -0x8000_0000_0000_0000 <= m * 60_000_000_000 <= 0x7FFF_FFFF_FFFF_FFFF
    requires HoursFigure(m * 60_000_000_000, hours)
    ensures var text := FormatDuration(m * 60_000_000_000, hours);
            var c := (10 * m + 3) / 6;
            if m < 60 then
              IsDecimal(whole, if m < 0 then -m else m) && text == (if m < 0 then "-" else "") + whole + " min"
            else
              IsDecimal(whole, c / 100) && IsFraction(part, c % 100) && text == whole + part + " hours"
  {
    part := "";
    if m < 60 {
      assert Truncate(m * MINUTE, MINUTE) == m;
      whole := NatToString(if m < 0 then -m else m);
      NatToStringIsDecimal(if m < 0 then -m else m);
    } else {
      ComputedHoursAreClose(m, hours);
      HundredthsAreExact(m, hours);
      var c := (10 * m + 3) / 6;
      part := TrimmedParts(c);
      whole := NatToString(c / 100);
      NatToStringIsDecimal(c / 100);
    }
  }

  // ---- Other durations ----

  /** Less than an hour, either way, is printed as the minutes with any seconds cut off, toward zero. */
  lemma SecondsAreCut(duration: int, hours: real) returns (m: nat)
    requires -3_600_000_000_000 < duration < 3_600_000_000_000
    ensures var length := if duration < 0 then -duration else duration;
            m * 60_000_000_000 <= length < (m + 1) * 60_000_000_000
    ensures FormatDuration(duration, hours) == (if duration < 0 && m > 0 then "-" else "") + NatToString(m) + " min"
  {
    m := (if duration < 0 then -duration else duration) / MINUTE;
    assert Truncate(duration, MINUTE) == if duration < 0 then 0 - m else m;
    assert "" + NatToString(m) == NatToString(m);
  }

  /** Rounding gives a nearest hundredth, and of two equally near ones the even. */
  lemma RoundsToNearest(h: real)
    ensures var (x, c) := (100.0 * h, RoundHundredths(h));
            -0.5 <= x - c as real <= 0.5 && (x - c as real in {-0.5, 0.5} ==> c % 2 == 0)
  {
    var x := h * 100.0;
    assert x - 1.0 < x.Floor as real <= x;
  }

  lemma SumIsFull(rest: real, part: real, whole: real, hours: real)
    requires rest >= 0.0 && whole >= 1.0 && RoundsTo(rest, part) && RoundsTo(whole + part, hours)
    ensures RoundHundredths(hours) >= 100
  {
    assert hours > 0.999;
    RoundsToNearest(hours);
  }

  lemma HourParts(duration: int)
    requires HOUR <= duration
    ensures (duration % HOUR) as real / HOUR as real >= 0.0
    ensures (duration / HOUR) as real >= 1.0
  {
  }

  lemma AnHourIsFull(duration: int, hours: real)
    requires HOUR <= duration && ComputesHours(duration, hours)
    ensures RoundHundredths(hours) >= 100
  {
    var part: real :| PartOfHour(duration, part) && RoundsTo((duration / HOUR) as real + part, hours);
    HourParts(duration);
    SumIsFull((duration % HOUR) as real / HOUR as real, part, (duration / HOUR) as real, hours);
  }

  /** An hour or more, to the nanosecond, is printed as the computed hours to a nearest hundredth, without trailing
      zeros. */
  lemma HoursText(duration: int, hours: real) returns (whole: string, part: string)
    requires 3_600_000_000_000 <= duration && ComputesHours(duration, hours)
    ensures var c := RoundHundredths(hours);
            && c >= 100 && IsDecimal(whole, c / 100) && IsFraction(part, c % 100)
            && FormatDuration(duration, hours) == whole + part + " hours"
  {
    AnHourIsFull(duration, hours);
    var c := RoundHundredths(hours);
    part := TrimmedParts(c);
    whole := NatToString(c / 100);
    NatToStringIsDecimal(c / 100);
  }
}
