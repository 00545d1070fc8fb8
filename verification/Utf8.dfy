/**
 Charset clean-up: dropping what is not ASCII, and dropping what is not UTF-8.
 The grammar of valid UTF-8 is section 4 of RFC 3629.
 */
module Utf8 {
  import opened Basics
  import opened Bytes
  import Runes

  // ---------------------------------------------------------------- the grammar

  predicate IsTail(b: Byte) {
    0x80 <= b <= 0xBF
  }

  /** UTF8-char of RFC 3629, section 4. */
  predicate IsUtf8Char(c: seq<Byte>) {
    || (|c| == 1 && c[0] <= 0x7F)
    || (|c| == 2 && 0xC2 <= c[0] <= 0xDF && IsTail(c[1]))
    || (|c| == 3 && c[0] == 0xE0 && 0xA0 <= c[1] <= 0xBF && IsTail(c[2]))
    || (|c| == 3 && 0xE1 <= c[0] <= 0xEC && IsTail(c[1]) && IsTail(c[2]))
    || (|c| == 3 && c[0] == 0xED && 0x80 <= c[1] <= 0x9F && IsTail(c[2]))
    || (|c| == 3 && 0xEE <= c[0] <= 0xEF && IsTail(c[1]) && IsTail(c[2]))
    || (|c| == 4 && c[0] == 0xF0 && 0x90 <= c[1] <= 0xBF && IsTail(c[2]) && IsTail(c[3]))
    || (|c| == 4 && 0xF1 <= c[0] <= 0xF3 && IsTail(c[1]) && IsTail(c[2]) && IsTail(c[3]))
    || (|c| == 4 && c[0] == 0xF4 && 0x80 <= c[1] <= 0x8F && IsTail(c[2]) && IsTail(c[3]))
  }

  function Join(cs: seq<seq<Byte>>): seq<Byte> {
    if cs == [] then [] else cs[0] + Join(cs[1..])
  }

  ghost predicate AllChars(cs: seq<seq<Byte>>) {
    forall i :: 0 <= i < |cs| ==> IsUtf8Char(cs[i])
  }

  /** UTF8-octets of RFC 3629, section 4: a sequence of UTF8-chars. */
  ghost predicate ValidUtf8(b: seq<Byte>) {
    exists cs :: AllChars(cs) && Join(cs) == b
  }

  // ---------------------------------------------------------------- Go's decoder and encoder

  const RUNE_ERROR: char := '\U{FFFD}'

  /** A rune and the number of bytes it was read from. */
  datatype Decoded = Decoded(rune: char, size: nat)

  /** The range the second byte must lie in, by first byte, and the length announced by it. */
  datatype Lead = Lead(length: nat, low: Byte, high: Byte)

  function LeadOf(b: Byte): Lead {
    if b < 0x80 then Lead(1, 0, 0)
    else if b < 0xC2 then Lead(0, 0, 0)
    else if b <= 0xDF then Lead(2, 0x80, 0xBF)
    else if b == 0xE0 then Lead(3, 0xA0, 0xBF)
    else if b == 0xED then Lead(3, 0x80, 0x9F)
    else if b <= 0xEF then Lead(3, 0x80, 0xBF)
    else if b == 0xF0 then Lead(4, 0x90, 0xBF)
    else if b == 0xF4 then Lead(4, 0x80, 0x8F)
    else if b <= 0xF3 then Lead(4, 0x80, 0xBF)
    else Lead(0, 0, 0)
  }

  function Scalar(n: int): char {
    if 0 <= n < 0xD800 || 0xE000 <= n <= 0x10FFFF then n as char else RUNE_ERROR
  }

  function Two(b0: int, b1: int): int {
    (b0 - 0xC0) * 64 + (b1 - 0x80)
  }

  function Three(b0: int, b1: int, b2: int): int {
    (b0 - 0xE0) * 4096 + (b1 - 0x80) * 64 + (b2 - 0x80)
  }

  function Four(b0: int, b1: int, b2: int, b3: int): int {
    (b0 - 0xF0) * 262144 + (b1 - 0x80) * 4096 + (b2 - 0x80) * 64 + (b3 - 0x80)
  }

  /** utf8.DecodeRune: invalid input gives the error rune and size 1. */
  function DecodeRune(b: seq<Byte>): (d: Decoded)
    ensures b != [] ==> 1 <= d.size <= |b|
  {
    if b == [] then Decoded(RUNE_ERROR, 0)
    else
      var lead := LeadOf(b[0]);
      if lead.length == 1 then Decoded(Scalar(b[0]), 1)
      else if lead.length == 0 || |b| < lead.length || !(lead.low <= b[1] <= lead.high) then Decoded(RUNE_ERROR, 1)
      else if lead.length == 2 then Decoded(Scalar(Two(b[0], b[1])), 2)
      else if !IsTail(b[2]) then Decoded(RUNE_ERROR, 1)
      else if lead.length == 3 then Decoded(Scalar(Three(b[0], b[1], b[2])), 3)
      else if !IsTail(b[3]) then Decoded(RUNE_ERROR, 1)
      else Decoded(Scalar(Four(b[0], b[1], b[2], b[3])), 4)
  }

  /** The bytes WriteRune appends for a rune. */
  function EncodeRune(c: char): seq<Byte> {
    var r := c as int;
    if r < 0x80 then [r]
    else if r < 0x800 then [0xC0 + r / 64, 0x80 + r % 64]
    else if r < 0x10000 then [0xE0 + r / 4096, 0x80 + r / 64 % 64, 0x80 + r % 64]
    else [0xF0 + r / 262144, 0x80 + r / 4096 % 64, 0x80 + r / 64 % 64, 0x80 + r % 64]
  }

  // ---------------------------------------------------------------- decoder against grammar

  /** Encoding produces exactly the characters of the grammar. */
  lemma EncodeIsChar(c: char)
    ensures IsUtf8Char(EncodeRune(c))
  {
  }

  lemma EncodeTwo(b0: Byte, b1: Byte)
    requires IsUtf8Char([b0, b1])
    ensures EncodeRune(Scalar(Two(b0, b1))) == [b0, b1]
  {
    var n := Two(b0, b1);
    assert n == (b0 - 0xC0) * 64 + (b1 - 0x80);
    assert n / 64 == b0 - 0xC0 && n % 64 == b1 - 0x80;
  }

  lemma EncodeThree(b0: Byte, b1: Byte, b2: Byte)
    requires IsUtf8Char([b0, b1, b2])
    ensures EncodeRune(Scalar(Three(b0, b1, b2))) == [b0, b1, b2]
  {
    var n := Three(b0, b1, b2);
    var m := (b0 - 0xE0) as int * 64 + (b1 as int - 0x80);
    assert n == m * 64 + (b2 - 0x80);
    assert n / 64 == m && n % 64 == b2 - 0x80;
    assert n / 4096 == b0 - 0xE0 && m % 64 == b1 - 0x80;
    assert 0x800 <= n < 0xD800 || 0xE000 <= n < 0x10000;
  }

  lemma EncodeFour(b0: Byte, b1: Byte, b2: Byte, b3: Byte)
    requires IsUtf8Char([b0, b1, b2, b3])
    ensures EncodeRune(Scalar(Four(b0, b1, b2, b3))) == [b0, b1, b2, b3]
  {
    var n := Four(b0, b1, b2, b3);
    var k := (b0 - 0xF0) as int * 64 + (b1 as int - 0x80);
    var m := k * 64 + (b2 as int - 0x80);
    assert n == m * 64 + (b3 - 0x80);
    assert n / 64 == m && n % 64 == b3 - 0x80;
    assert n / 4096 == k && m % 64 == b2 - 0x80;
    assert n / 262144 == b0 - 0xF0 && k % 64 == b1 - 0x80;
    assert 0x10000 <= n <= 0x10FFFF;
  }

  /** The decoder accepts a character of the grammar, wherever it is followed by anything. */
  lemma DecodeChar(c: seq<Byte>, rest: seq<Byte>)
    requires IsUtf8Char(c)
    ensures DecodeRune(c + rest).size == |c|
    ensures EncodeRune(DecodeRune(c + rest).rune) == c
  {
    var b := c + rest;
    assert b[0] == c[0];
    if |c| == 1 {
      assert c == [c[0]];
    } else if |c| == 2 {
      assert c == [c[0], c[1]] && b[1] == c[1];
      EncodeTwo(c[0], c[1]);
    } else if |c| == 3 {
      assert c == [c[0], c[1], c[2]] && b[1] == c[1] && b[2] == c[2];
      EncodeThree(c[0], c[1], c[2]);
    } else {
      assert c == [c[0], c[1], c[2], c[3]] && b[1] == c[1] && b[2] == c[2] && b[3] == c[3];
      EncodeFour(c[0], c[1], c[2], c[3]);
    }
  }

  /** What it accepts as more than an error of size 1 is a character of the grammar. */
  lemma DecodeAccepts(b: seq<Byte>)
    requires b != [] && DecodeRune(b) != Decoded(RUNE_ERROR, 1)
    ensures 1 <= DecodeRune(b).size <= |b|
    ensures IsUtf8Char(b[..DecodeRune(b).size])
  {
  }

  /** No character of the grammar decodes to an error of size 1, not even an encoded U+FFFD. */
  lemma DecodeNoError(c: seq<Byte>, rest: seq<Byte>)
    requires IsUtf8Char(c)
    ensures DecodeRune(c + rest) != Decoded(RUNE_ERROR, 1)
  {
    DecodeChar(c, rest);
  }

  const DECODE_ERROR := Decoded(RUNE_ERROR, 1)

  // ---------------------------------------------------------------- validity

  /** utf8.Valid: decoding meets no error. */
  predicate DecodesCleanly(b: seq<Byte>)
    decreases |b|
  {
    b == [] || (DecodeRune(b) != DECODE_ERROR && DecodesCleanly(b[DecodeRune(b).size..]))
  }

  lemma {:induction false} ValidDecodesCleanly(cs: seq<seq<Byte>>)
    requires AllChars(cs)
    ensures DecodesCleanly(Join(cs))
    decreases |cs|
  {
    if cs != [] {
      var c, rest := cs[0], Join(cs[1..]);
      DecodeChar(c, rest);
      DecodeNoError(c, rest);
      assert (c + rest)[|c|..] == rest;
      ValidDecodesCleanly(cs[1..]);
    }
  }

  lemma {:induction false} CleanIsValid(b: seq<Byte>) returns (cs: seq<seq<Byte>>)
    requires DecodesCleanly(b)
    ensures AllChars(cs) && Join(cs) == b
    decreases |b|
  {
    if b == [] {
      cs := [];
    } else {
      var n := DecodeRune(b).size;
      DecodeAccepts(b);
      var rest := CleanIsValid(b[n..]);
      cs := [b[..n]] + rest;
      assert cs[1..] == rest;
      assert b == b[..n] + b[n..];
    }
  }

  /** The decoder's notion of validity is that of the grammar. */
  lemma {:induction false} ValidIffDecodesCleanly(b: seq<Byte>)
    ensures DecodesCleanly(b) <==> ValidUtf8(b)
  {
    if DecodesCleanly(b) {
      var cs := CleanIsValid(b);
    }
    if ValidUtf8(b) {
      var cs :| AllChars(cs) && Join(cs) == b;
      ValidDecodesCleanly(cs);
    }
  }

  // ---------------------------------------------------------------- bytes and text

  function EncodeAll(s: string): seq<Byte> {
    if s == [] then [] else EncodeRune(s[0]) + EncodeAll(s[1..])
  }

  /** Python's bytes.decode("utf-8", "ignore"). */
  function DecodeIgnore(b: seq<Byte>): string
    decreases |b|
  {
    if b == [] then []
    else if DecodeRune(b) == DECODE_ERROR then DecodeIgnore(b[1..])
    else [DecodeRune(b).rune] + DecodeIgnore(b[DecodeRune(b).size..])
  }

  lemma {:induction false} EncodeAllAppend(a: string, b: string)
    ensures EncodeAll(a + b) == EncodeAll(a) + EncodeAll(b)
  {
    if a == [] {
      assert a + b == b;
    } else {
      assert (a + b)[1..] == a[1..] + b;
      EncodeAllAppend(a[1..], b);
      Assoc(EncodeRune(a[0]), EncodeAll(a[1..]), EncodeAll(b));
    }
  }

  /** Every text is encoded as valid UTF-8. */
  lemma {:induction false} EncodeAllIsClean(s: string)
    ensures DecodesCleanly(EncodeAll(s))
  {
    if s != [] {
      EncodeAllIsClean(s[1..]);
      DecodeEncoded(s[0], EncodeAll(s[1..]));
    }
  }

  lemma DecodeEncoded(c: char, rest: seq<Byte>)
    ensures DecodeRune(EncodeRune(c) + rest) == Decoded(c, |EncodeRune(c)|)
    ensures DecodeRune(EncodeRune(c) + rest) != DECODE_ERROR
    ensures (EncodeRune(c) + rest)[|EncodeRune(c)|..] == rest
  {
    EncodeIsChar(c);
    DecodeChar(EncodeRune(c), rest);
    DecodeNoError(EncodeRune(c), rest);
    EncodeInjective(c, DecodeRune(EncodeRune(c) + rest).rune);
  }

  lemma EncodeInjective(c: char, d: char)
    requires EncodeRune(c) == EncodeRune(d)
    ensures c == d
  {
    Unpack(c as int);
    Unpack(d as int);
    var e, f := EncodeRune(c), EncodeRune(d);
    assert e[0] == f[0] && e[|e| - 1] == f[|f| - 1] && e[|e| / 2] == f[|f| / 2];
    assert |e| == 4 ==> e[1] == f[1];
  }

  lemma Unpack(n: nat)
    ensures n == n / 64 * 64 + n % 64
    ensures n == n / 4096 * 4096 + n / 64 % 64 * 64 + n % 64
    ensures n == n / 262144 * 262144 + n / 4096 % 64 * 4096 + n / 64 % 64 * 64 + n % 64
  {
    var a := n / 64;
    var c := a / 64;
    var d := c / 64;
    assert n == a * 64 + n % 64 && a == c * 64 + a % 64 && c == d * 64 + c % 64;
    assert n / 4096 == c;
    assert n / 262144 == d;
  }

  /** Text survives encoding and decoding. */
  lemma {:induction false} DecodeInvertsEncode(s: string)
    ensures DecodeIgnore(EncodeAll(s)) == s
  {
    if s != [] {
      DecodeEncoded(s[0], EncodeAll(s[1..]));
      DecodeInvertsEncode(s[1..]);
    }
  }

  /** What utf8Ignore leaves. */
  function Cleaned(b: seq<Byte>): seq<Byte> {
    EncodeAll(DecodeIgnore(b))
  }

  /** The first character of input that does not start with an error. */
  lemma FirstChar(b: seq<Byte>) returns (c: seq<Byte>, rest: seq<Byte>)
    requires b != [] && DecodeRune(b) != DECODE_ERROR
    ensures b == c + rest && IsUtf8Char(c)
    ensures |c| == DecodeRune(b).size && EncodeRune(DecodeRune(b).rune) == c
    ensures rest == b[|c|..]
  {
    DecodeAccepts(b);
    c, rest := b[..DecodeRune(b).size], b[DecodeRune(b).size..];
    DecodeChar(c, rest);
    assert b == c + rest;
  }

  /** A character in front is copied. */
  lemma CleanedChar(c: seq<Byte>, rest: seq<Byte>)
    requires IsUtf8Char(c)
    ensures Cleaned(c + rest) == c + Cleaned(rest)
  {
    DecodeChar(c, rest);
    DecodeNoError(c, rest);
    assert (c + rest)[|c|..] == rest;
  }

  /** Valid input in front is kept as it is, whatever follows; an encoded U+FFFD is no exception. */
  lemma {:induction false} CleanedKeepsValid(a: seq<Byte>, b: seq<Byte>)
    requires DecodesCleanly(a)
    ensures Cleaned(a + b) == a + Cleaned(b)
    decreases |a|
  {
    if a == [] {
      assert a + b == b;
    } else {
      var c, rest := FirstChar(a);
      CleanedKeepsValid(rest, b);
      CleanedChar(c, rest + b);
      Assoc(c, rest, b);
      Assoc(c, rest, Cleaned(b));
    }
  }

  /** The result is always valid UTF-8; it is the input exactly when that was valid; hence idempotent. */
  lemma CleanedIsValid(b: seq<Byte>)
    ensures ValidUtf8(Cleaned(b))
    ensures Cleaned(b) == b <==> ValidUtf8(b)
    ensures Cleaned(Cleaned(b)) == Cleaned(b)
  {
    EncodeAllIsClean(DecodeIgnore(b));
    ValidIffDecodesCleanly(Cleaned(b));
    ValidIffDecodesCleanly(b);
    assert Cleaned([]) == [];
    if ValidUtf8(b) {
      CleanedKeepsValid(b, []);
      assert b + [] == b;
    }
    CleanedKeepsValid(Cleaned(b), []);
    assert Cleaned(b) + [] == Cleaned(b);
  }

  // ---------------------------------------------------------------- bytes that start no character

  /** Some start of `b` is a character of the grammar. */
  ghost predicate StartsChar(b: seq<Byte>) {
    exists n :: 0 <= n <= |b| && IsUtf8Char(b[..n])
  }

  /** The decoder reports an error exactly when no start of its input is a character. */
  lemma ErrorIffNoChar(b: seq<Byte>)
    requires b != []
    ensures DecodeRune(b) == DECODE_ERROR <==> !StartsChar(b)
  {
    if DecodeRune(b) != DECODE_ERROR {
      DecodeAccepts(b);
    }
    if StartsChar(b) {
      var n :| 0 <= n <= |b| && IsUtf8Char(b[..n]);
      DecodeNoError(b[..n], b[n..]);
      assert b == b[..n] + b[n..];
    }
  }

  /** Where no character starts, exactly one byte is dropped. */
  lemma {:induction false} BadByteIsDropped(b: seq<Byte>)
    requires b != [] && !StartsChar(b)
    ensures Cleaned(b) == Cleaned(b[1..])
  {
    ErrorIffNoChar(b);
  }

  lemma {:induction false} ValidFrontStays(a: seq<Byte>, b: seq<Byte>)
    requires ValidUtf8(a)
    ensures Cleaned(a + b) == a + Cleaned(b)
  {
    ValidIffDecodesCleanly(a);
    CleanedKeepsValid(a, b);
  }

  lemma {:induction false} StrayByteGoes(x: Byte, b: seq<Byte>)
    requires forall d :: IsUtf8Char(d) ==> d[0] != x
    ensures Cleaned([x] + b) == Cleaned(b)
  {
    var bad := [x] + b;
    forall n | 0 <= n <= |bad| ensures !IsUtf8Char(bad[..n]) {
      assert n > 0 ==> bad[..n][0] == x;
    }
    BadByteIsDropped(bad);
    assert bad[1..] == b;
  }

  /** A byte that starts no character goes, and nothing of what stands on either side of it. */
  lemma {:induction false} OnlyBadByteGoes(a: seq<Byte>, x: Byte, c: seq<Byte>, rest: seq<Byte>)
    requires ValidUtf8(a) && ValidUtf8(c)
    requires forall d :: IsUtf8Char(d) ==> d[0] != x
    ensures Cleaned(a + ([x] + (c + rest))) == a + (c + Cleaned(rest))
  {
    ValidFrontStays(a, [x] + (c + rest));
    StrayByteGoes(x, c + rest);
    ValidFrontStays(c, rest);
  }

  /** The rune of each character, as the bits of the grammar's bytes say. */
  lemma RuneOfChar(c: seq<Byte>, rest: seq<Byte>)
    requires IsUtf8Char(c)
    ensures var r := DecodeRune(c + rest).rune as int;
      && (|c| == 1 ==> r == c[0])
      && (|c| == 2 ==> r == (c[0] as int - 0xC0) * 0x40 + (c[1] as int - 0x80))
      && (|c| == 3 ==> r == (c[0] as int - 0xE0) * 0x1000 + (c[1] as int - 0x80) * 0x40 + (c[2] as int - 0x80))
      && (|c| == 4 ==> r == (c[0] as int - 0xF0) * 0x40000 + (c[1] as int - 0x80) * 0x1000
                          + (c[2] as int - 0x80) * 0x40 + (c[3] as int - 0x80))
  {
    var b := c + rest;
    assert forall i :: 0 <= i < |c| ==> b[i] == c[i];
    DecodeChar(c, rest);
  }

  // ---------------------------------------------------------------- replacement characters

  /** U+FFFD in UTF-8. */
  const REPLACEMENT: seq<Byte> := [0xEF, 0xBF, 0xBD]

  /** strings.ReplaceAll(b, "\uFFFD", ""), byte by byte. */
  function Dropped(b: seq<Byte>): seq<Byte> {
    if b == [] then []
    else if |b| >= 3 && b[..3] == REPLACEMENT then Dropped(b[3..])
    else [b[0]] + Dropped(b[1..])
  }

  lemma {:induction false} DroppedKeeps(t: seq<Byte>, rest: seq<Byte>)
    requires forall i :: 0 <= i < |t| ==> t[i] != 0xEF
    ensures Dropped(t + rest) == t + Dropped(rest)
  {
    if t == [] {
      assert t + rest == rest;
    } else {
      var s := t + rest;
      assert s[0] == t[0] && s[1..] == t[1..] + rest;
      assert |s| >= 3 ==> s[..3][0] == t[0];
      DroppedKeeps(t[1..], rest);
      assert t == [t[0]] + t[1..];
      Assoc([t[0]], t[1..], Dropped(rest));
    }
  }

  /** The bytes of U+FFFD are found as a character of their own only, never across characters. */
  lemma {:induction false} DroppedChar(c: seq<Byte>, rest: seq<Byte>)
    requires IsUtf8Char(c)
    ensures Dropped(c + rest) == if c == REPLACEMENT then Dropped(rest) else c + Dropped(rest)
  {
    var s := c + rest;
    if c[0] != 0xEF {
      DroppedKeeps(c, rest);
    } else {
      assert |c| == 3 && s[..3] == c && s[3..] == rest;
      if c != REPLACEMENT {
        assert s[1..] == c[1..] + rest;
        DroppedKeeps(c[1..], rest);
        assert c == [c[0]] + c[1..];
        Assoc([c[0]], c[1..], Dropped(rest));
      }
    }
  }

  lemma ReplacementIsRuneError(c: char)
    ensures EncodeRune(c) == REPLACEMENT <==> c == RUNE_ERROR
  {
    assert EncodeRune(RUNE_ERROR) == REPLACEMENT;
    if EncodeRune(c) == REPLACEMENT {
      EncodeInjective(c, RUNE_ERROR);
    }
  }

  /** On a text it removes exactly the runes U+FFFD. */
  lemma {:induction false} DroppedIsRunewise(s: string)
    ensures Dropped(EncodeAll(s)) == EncodeAll(Runes.Without(s, RUNE_ERROR))
  {
    if s != [] {
      var c, rest := EncodeRune(s[0]), Runes.Without(s[1..], RUNE_ERROR);
      DroppedIsRunewise(s[1..]);
      EncodeIsChar(s[0]);
      DroppedChar(c, EncodeAll(s[1..]));
      ReplacementIsRuneError(s[0]);
      if s[0] != RUNE_ERROR {
        assert ([s[0]] + rest)[1..] == rest;
      }
    }
  }

  /** So valid UTF-8 stays valid. */
  lemma {:induction false} DroppedStaysValid(b: seq<Byte>)
    requires ValidUtf8(b)
    ensures Dropped(b) == EncodeAll(Runes.Without(DecodeIgnore(b), RUNE_ERROR))
    ensures ValidUtf8(Dropped(b))
  {
    CleanedIsValid(b);
    var s := DecodeIgnore(b);
    DroppedIsRunewise(s);
    EncodeAllIsClean(Runes.Without(s, RUNE_ERROR));
    ValidIffDecodesCleanly(Dropped(b));
  }

  // ---------------------------------------------------------------- ASCII

  predicate IsAscii(b: Byte) {
    b < 0x80
  }

  /** Dropping invalid bytes loses no ASCII byte: the ASCII reading of the text stays the same. */
  lemma {:induction false} CleanedKeepsAscii(b: seq<Byte>)
    ensures Filter(Cleaned(b), IsAscii) == Filter(b, IsAscii)
    decreases |b|
  {
    if b == [] {
    } else if DecodeRune(b) == DECODE_ERROR {
      CleanedKeepsAscii(b[1..]);
      ErrorIsNoAscii(b);
    } else {
      var c, rest := FirstChar(b);
      CleanedChar(c, rest);
      CleanedKeepsAscii(rest);
      FilterAppend(c, Cleaned(rest), IsAscii);
      FilterAppend(c, rest, IsAscii);
    }
  }

  lemma AsciiDecodes(b: seq<Byte>)
    requires b != [] && IsAscii(b[0])
    ensures DecodeRune(b) != DECODE_ERROR
  {
    DecodeNoError([b[0]], b[1..]);
    assert b == [b[0]] + b[1..];
  }

  lemma ErrorIsNoAscii(b: seq<Byte>)
    requires b != [] && DecodeRune(b) == DECODE_ERROR
    ensures !IsAscii(b[0])
  {
    if IsAscii(b[0]) {
      AsciiDecodes(b);
    }
  }

  /** Python's bytes.decode("ascii", "ignore"). */
  method AsciiIgnore(b: seq<Byte>) returns (r: seq<Byte>)
    ensures r == Filter(b, IsAscii)
  {
    var first := -1;
    for i := 0 to |b|
      invariant first == -1
      invariant forall k :: 0 <= k < i ==> IsAscii(b[k])
    {
      if b[i] >= 0x80 {
        first := i;
        break;
      }
    }
    if first < 0 {
      FilterClears(b, IsAscii);
      return b;
    }
    r := b[..first];
    FilterClears(b[..first], IsAscii);
    for i := first to |b|
      invariant r == Filter(b[..i], IsAscii)
    {
      FilterStep(b, IsAscii, i);
      if b[i] < 0x80 {
        r := r + [b[i]];
      }
    }
    assert b[..|b|] == b;
  }

  /** Python's bytes.decode("utf-8", "ignore"), as the bytes of the resulting text. */
  method Utf8Ignore(b: seq<Byte>) returns (r: seq<Byte>)
    ensures r == Cleaned(b)
  {
    if DecodesCleanly(b) {
      ValidIffDecodesCleanly(b);
      CleanedIsValid(b);
      return b;
    }
    r := [];
    var i := 0;
    assert b[0..] == b;
    ghost var todo := Cleaned(b);
    while i < |b|
      invariant i <= |b|
      invariant todo == Cleaned(b[i..])
      invariant r + todo == Cleaned(b)
    {
      var d := DecodeRune(b[i..]);
      if d.rune == RUNE_ERROR && d.size == 1 {
        assert b[i..][1..] == b[i + 1..];
        i := i + 1;
        todo := Cleaned(b[i..]);
        continue;
      }
      ghost var c, rest := FirstChar(b[i..]);
      CleanedChar(c, rest);
      Assoc(r, c, Cleaned(rest));
      assert rest == b[i + d.size..];
      r := r + EncodeRune(d.rune);
      i := i + d.size;
      todo := Cleaned(b[i..]);
    }
  }
}
