/** Decimal text, as strconv.Atoi reads it and strconv.Itoa writes it (64-bit int). */
module Strconv {
  import opened Basics

  const MAX_INT := 0x7FFF_FFFF_FFFF_FFFF
  const MIN_INT := -0x8000_0000_0000_0000

  predicate IsDigit(c: char) { '0' <= c <= '9' }

  predicate AllDigits(s: string) { forall i | 0 <= i < |s| :: IsDigit(s[i]) }

  function DigitsValue(s: string): nat
    requires AllDigits(s)
  {
    if s == "" then 0
    else 10 * DigitsValue(s[..|s| - 1]) + (s[|s| - 1] as int - '0' as int)
  }

  /** One optional sign, at least one digit, nothing else, and a value that fits an int. */
  function Atoi(s: string): Option<int> {
    var negative := |s| > 0 && s[0] == '-';
    var digits := if |s| > 0 && (s[0] == '-' || s[0] == '+') then s[1..] else s;
    if digits == "" || !AllDigits(digits) then None
    else
      var magnitude: int := DigitsValue(digits);
      var n := if negative then -magnitude else magnitude;
      if MIN_INT <= n <= MAX_INT then Some(n) else None
  }

  function DigitChar(d: nat): (c: char)
    requires d < 10
    ensures IsDigit(c) && c as int - '0' as int == d
  {
    ('0' as int + d) as char
  }

  function NatToString(n: nat): (s: string)
    ensures s != "" && AllDigits(s)
  {
    if n < 10 then [DigitChar(n)] else NatToString(n / 10) + [DigitChar(n % 10)]
  }

  function Itoa(n: int): string {
    if n < 0 then "-" + NatToString(-n) else NatToString(n)
  }

  lemma {:induction false} DigitsRoundTrip(n: nat)
    ensures DigitsValue(NatToString(n)) == n
  {
    if n >= 10 {
      DigitsRoundTrip(n / 10);
      assert NatToString(n)[..|NatToString(n)| - 1] == NatToString(n / 10);
    }
  }

  lemma AtoiItoa(n: int)
    requires MIN_INT <= n <= MAX_INT
    ensures Atoi(Itoa(n)) == Some(n)
  {
    if n < 0 {
      DigitsRoundTrip(-n);
      assert Itoa(n)[1..] == NatToString(-n);
    } else {
      DigitsRoundTrip(n);
      assert IsDigit(NatToString(n)[0]);
    }
  }

  // ---- Which texts are numbers, and which number they are ----

  /** The number n as it is usually written: digits only, the first of which is zero only in "0" itself. */
  predicate IsDecimal(s: string, n: nat) {
    && s != "" && (forall i | 0 <= i < |s| :: '0' <= s[i] <= '9')
    && (s[0] == '0' ==> s == "0" && n == 0)
    && NatToString(n) == s
  }

  lemma {:induction false} NatToStringIsDecimal(n: nat)
    ensures IsDecimal(NatToString(n), n)
    ensures NatToString(n)[0] == '0' <==> n == 0
  {
    if n >= 10 {
      NatToStringIsDecimal(n / 10);
    }
  }

  predicate IsZeros(s: string) {
    forall i | 0 <= i < |s| :: s[i] == '0'
  }

  lemma {:induction false} ZerosAddNothing(zeros: string, s: string)
    requires IsZeros(zeros) && AllDigits(s)
    ensures AllDigits(zeros + s) && DigitsValue(zeros + s) == DigitsValue(s)
  {
    if s != "" {
      ZerosAddNothing(zeros, s[..|s| - 1]);
      assert (zeros + s)[..|zeros + s| - 1] == zeros + s[..|s| - 1];
    } else if zeros != "" {
      ZerosAddNothing(zeros[..|zeros| - 1], "");
      assert (zeros + s)[..|zeros + s| - 1] == zeros[..|zeros| - 1] + "";
    }
  }

  // A text of digits is the decimal of its value after some zeros.
  lemma {:induction false} DigitsAreZerosAndDecimal(s: string) returns (zeros: string)
    requires s != "" && AllDigits(s)
    ensures IsZeros(zeros) && s == zeros + NatToString(DigitsValue(s))
  {
    var init, last := s[..|s| - 1], s[|s| - 1];
    assert s == init + [last];
    if init == "" {
      assert DigitsValue(init) == 0;
      zeros := "";
    } else {
      zeros := DigitsAreZerosAndDecimal(init);
      if DigitsValue(init) == 0 {
        zeros := init;
        assert NatToString(0) == "0";
      }
    }
  }

  /** The text is this sign, some zeros, and the decimal of |n|. */
  predicate IsWritten(s: string, sign: string, zeros: string, n: int) {
    && IsZeros(zeros)
    && s == sign + zeros + NatToString(if n < 0 then -n else n)
    && ((sign == "-" && n <= 0) || ((sign == "" || sign == "+") && n >= 0))
  }

  /** A text is read as n exactly if it is an optional sign, any number of zeros and the decimal of n, and n fits an
      int. */
  lemma AtoiExact(s: string, n: int)
    ensures Atoi(s) == Some(n) <==>
              -0x8000_0000_0000_0000 <= n <= 0x7FFF_FFFF_FFFF_FFFF && exists sign, zeros :: IsWritten(s, sign, zeros, n)
  {
    if Atoi(s) == Some(n) {
      var sign := if s[0] == '-' || s[0] == '+' then [s[0]] else "";
      var digits := s[|sign|..];
      var zeros := DigitsAreZerosAndDecimal(digits);
      assert s == sign + zeros + NatToString(DigitsValue(digits));
      assert IsWritten(s, sign, zeros, n);
    }
    if MIN_INT <= n <= MAX_INT {
      forall sign, zeros | IsWritten(s, sign, zeros, n) ensures Atoi(s) == Some(n) {
        WrittenIsRead(s, sign, zeros, n);
      }
    }
  }

  lemma SignedDigitsAreRead(sign: string, digits: string)
    requires digits != "" && AllDigits(digits) && (sign == "" || sign == "+" || sign == "-")
    ensures var n: int := if sign == "-" then -(DigitsValue(digits) as int) else DigitsValue(digits);
            MIN_INT <= n <= MAX_INT ==> Atoi(sign + digits) == Some(n)
  {
    assert IsDigit(digits[0]);
    if sign == "" {
      assert sign + digits == digits;
    } else {
      assert (sign + digits)[0] == sign[0] && (sign + digits)[1..] == digits;
    }
  }

  lemma DecimalAfterZeros(zeros: string, k: nat)
    requires IsZeros(zeros)
    ensures var digits := zeros + NatToString(k); digits != "" && AllDigits(digits) && DigitsValue(digits) == k
  {
    DigitsRoundTrip(k);
    ZerosAddNothing(zeros, NatToString(k));
  }

  lemma Regrouped(a: string, b: string, c: string)
    ensures a + b + c == a + (b + c)
  {
  }

  lemma WrittenIsRead(s: string, sign: string, zeros: string, n: int)
    requires IsWritten(s, sign, zeros, n) && MIN_INT <= n <= MAX_INT
    ensures Atoi(s) == Some(n)
  {
    var magnitude: nat := if n < 0 then -n else n;
    DecimalAfterZeros(zeros, magnitude);
    SignedDigitsAreRead(sign, zeros + NatToString(magnitude));
    Regrouped(sign, zeros, NatToString(magnitude));
  }

  /** So text with a character that is neither a digit nor a leading sign is no number. */
  lemma OtherTextIsNoNumber(s: string, i: nat)
    requires i < |s| && !('0' <= s[i] <= '9') && (i > 0 || s[0] !in {'+', '-'} || |s| == 1)
    ensures Atoi(s).None?
  {
    assert i > 0 ==> s[1..][i - 1] == s[i];
  }
}
