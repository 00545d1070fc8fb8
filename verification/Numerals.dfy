/** Which texts are numbers to strconv.Atoi, what they are worth, and what the others give. */
module Numerals {
  import opened Text

  /** An optional sign and one or more digits. */
  ghost predicate IsNumeral(s: string, sign: string, digits: string) {
    && s == sign + digits
    && (sign == "" || sign == "+" || sign == "-")
    && digits != "" && forall i :: 0 <= i < |digits| ==> '0' <= digits[i] <= '9'
  }

  /** What the digits are worth, from the left. */
  function Worth(digits: string, start: int): int {
    if digits == "" then start else Worth(digits[1..], start * 10 + (digits[0] as int - '0' as int))
  }

  ghost predicate Denotes(s: string, n: int) {
    exists sign, digits ::
      IsNumeral(s, sign, digits) && n == if sign == "-" then -Worth(digits, 0) else Worth(digits, 0)
  }

  lemma {:induction false} WorthAppend(a: string, b: string, start: int)
    ensures Worth(a + b, start) == Worth(b, Worth(a, start))
    decreases |a|
  {
    if a == "" {
      assert a + b == b;
    } else {
      assert (a + b)[0] == a[0] && (a + b)[1..] == a[1..] + b;
      WorthAppend(a[1..], b, start * 10 + (a[0] as int - '0' as int));
    }
  }

  lemma {:induction false} WorthIsValue(d: string)
    requires AllDigits(d)
    ensures Worth(d, 0) == Value(d)
  {
    if d != "" {
      var n := |d| - 1;
      var last := [d[n]];
      assert d == d[..n] + last && last[1..] == "";
      WorthIsValue(d[..n]);
      WorthAppend(d[..n], last, 0);
    }
  }

  /** The parts of a text that Atoi takes for sign and digits are the only ones. */
  lemma {:induction false} NumeralParts(s: string, sign: string, digits: string)
    requires IsNumeral(s, sign, digits)
    ensures AllDigits(digits)
    ensures Atoi(s) == Clamped(if sign == "-" then -Worth(digits, 0) else Worth(digits, 0))
  {
    WorthIsValue(digits);
    if sign == "" {
      assert s == digits && IsDigit(s[0]);
    } else {
      assert s[0] == sign[0] && s[1..] == digits;
    }
  }

  /** A number as it is, or the limit and an error when 64 bits do not hold it. */
  function Clamped(n: int): Parsed {
    if n > 0x7fff_ffff_ffff_ffff then Parsed(0x7fff_ffff_ffff_ffff, false)
    else if n < -0x8000_0000_0000_0000 then Parsed(-0x8000_0000_0000_0000, false)
    else Parsed(n, true)
  }

  /** When Atoi finds digits, the text is a numeral. */
  lemma AtoiSeesNumeral(s: string) returns (sign: string, digits: string)
    requires Atoi(s) != Parsed(0, false)
    ensures IsNumeral(s, sign, digits)
  {
    if s[0] == '-' || s[0] == '+' {
      sign, digits := s[..1], s[1..];
      assert sign == "-" || sign == "+";
    } else {
      sign, digits := "", s;
    }
    assert s == sign + digits;
    forall i | 0 <= i < |digits| ensures '0' <= digits[i] <= '9' {
      assert IsDigit(digits[i]);
    }
  }

  /** For every text: a numeral gives its number or the limit, anything else 0 and an error. */
  lemma AtoiMeaning(s: string)
    ensures forall n :: Denotes(s, n) ==> Atoi(s) == Clamped(n)
    ensures (!exists n :: Denotes(s, n)) ==> Atoi(s) == Parsed(0, false)
  {
    forall n | Denotes(s, n) ensures Atoi(s) == Clamped(n) {
      var sign, digits :| IsNumeral(s, sign, digits)
        && n == if sign == "-" then -Worth(digits, 0) else Worth(digits, 0);
      NumeralParts(s, sign, digits);
    }
    if Atoi(s) != Parsed(0, false) {
      var sign, digits := AtoiSeesNumeral(s);
      assert Denotes(s, if sign == "-" then -Worth(digits, 0) else Worth(digits, 0));
    }
  }

  /** A numeral for a number that 64 bits hold. */
  ghost predicate Reads(s: string, n: int) {
    Denotes(s, n) && -0x8000_0000_0000_0000 <= n <= 0x7fff_ffff_ffff_ffff
  }

  /** Parsing succeeds exactly on numerals within 64 bits, and then yields their number. */
  lemma AtoiOkIff(s: string, n: int)
    ensures Atoi(s) == Parsed(n, true) <==> Reads(s, n)
  {
    AtoiMeaning(s);
    if Atoi(s) == Parsed(n, true) {
      var m :| Denotes(s, m);
    }
  }

  /** A value strictly between the limits, and not the 0 of an error, is the text's number. */
  lemma ValueTellsNumber(s: string, n: int)
    requires n != 0 && -0x8000_0000_0000_0000 < n < 0x7fff_ffff_ffff_ffff
    ensures Atoi(s).value == n <==> Reads(s, n)
  {
    AtoiOkIff(s, n);
    AtoiMeaning(s);
    if Atoi(s).value == n {
      var m :| Denotes(s, m);
    }
  }

  /** A character that is neither digit nor sign spoils the whole text. */
  lemma GarbageIsNoNumber(s: string, i: nat)
    requires i < |s| && !('0' <= s[i] <= '9') && s[i] != '+' && s[i] != '-'
    ensures Atoi(s) == Parsed(0, false)
  {
    forall n ensures !Denotes(s, n) {
      forall sign, digits ensures !IsNumeral(s, sign, digits) {
        assert s == sign + digits ==> s[i] == if i < |sign| then sign[i] else digits[i - |sign|];
      }
    }
    AtoiMeaning(s);
  }

  // ---------------------------------------------------------------- printing

  /** Digits, a minus sign in front exactly of negative numbers, and no zero in front of other digits. */
  lemma ItoaIsCanonical(n: int)
    ensures Itoa(n) != "" && (Itoa(n)[0] == '-' <==> n < 0)
    ensures var digits := if n < 0 then Itoa(n)[1..] else Itoa(n);
      && (forall i :: 0 <= i < |digits| ==> '0' <= digits[i] <= '9')
      && digits != "" && (digits[0] == '0' ==> n == 0 && |digits| == 1)
      && Worth(digits, 0) == if n < 0 then -n else n
  {
    var m: nat := if n < 0 then -n else n;
    var digits := Digits(m);
    NoLeadingZero(m);
    ValueOfDigits(m);
    WorthIsValue(digits);
    assert IsDigit(digits[0]);
    assert forall i :: 0 <= i < |digits| ==> IsDigit(digits[i]);
    assert n < 0 ==> Itoa(n)[1..] == digits;
  }

  lemma {:induction false} NoLeadingZero(n: nat)
    ensures Digits(n)[0] == '0' ==> n == 0 && |Digits(n)| == 1
    decreases n
  {
    if n >= 10 {
      NoLeadingZero(n / 10);
      assert Digits(n)[0] == Digits(n / 10)[0];
    }
  }
}
