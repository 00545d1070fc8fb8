/**
 The base64 branch of decodeCTE: bytes outside the alphabet are dropped, the rest is decoded
 (section 4 of RFC 4648), and the raw body is returned when that fails.
 */
module Base64 {
  import opened Basics
  import opened Bytes

  const PAD: Byte := 61

  type Sextet = v: int | 0 <= v < 64

  /** Table 1 of RFC 4648. */
  function Letter(v: Sextet): Byte {
    if v < 26 then 65 + v
    else if v < 52 then 97 + (v - 26)
    else if v < 62 then 48 + (v - 52)
    else if v == 62 then 43
    else 47
  }

  function ValueOf(c: Byte): (r: Option<Sextet>)
    ensures r.Some? ==> Letter(r.value) == c
  {
    if 65 <= c <= 90 then Some(c - 65)
    else if 97 <= c <= 122 then Some(c - 97 + 26)
    else if 48 <= c <= 57 then Some(c - 48 + 52)
    else if c == 43 then Some(62)
    else if c == 47 then Some(63)
    else None
  }

  predicate IsBase64Byte(c: Byte) {
    65 <= c <= 90 || 97 <= c <= 122 || 48 <= c <= 57 || c == 43 || c == 47 || c == 61
  }

  /** The accepted bytes are the letters of the alphabet and the padding. */
  lemma AlphabetAndPad(c: Byte)
    ensures IsBase64Byte(c) <==> ValueOf(c).Some? || c == PAD
    ensures ValueOf(PAD) == None
  {
  }

  lemma LetterValue(v: Sextet)
    ensures ValueOf(Letter(v)) == Some(v) && IsBase64Byte(Letter(v)) && Letter(v) != PAD
  {
  }

  // ---------------------------------------------------------------- encoding

  /** Four letters for three bytes; padding stands for what one or two bytes leave out. */
  function EncodeQuantum(x: seq<Byte>): (q: seq<Byte>)
    requires 1 <= |x| <= 3
    ensures |q| == 4
  {
    var a, b, c := x[0], if |x| > 1 then x[1] else 0, if |x| > 2 then x[2] else 0;
    [ Letter(a / 4),
      Letter(a % 4 * 16 + b / 16),
      if |x| > 1 then Letter(b % 16 * 4 + c / 64) else PAD,
      if |x| > 2 then Letter(c % 64) else PAD ]
  }

  function Encode(x: seq<Byte>): seq<Byte> {
    if x == [] then []
    else if |x| <= 3 then EncodeQuantum(x)
    else EncodeQuantum(x[..3]) + Encode(x[3..])
  }

  // ---------------------------------------------------------------- decoding

  function First(v: Sextet, w: Sextet): Byte {
    v * 4 + w / 16
  }

  function Second(w: Sextet, y: Sextet): Byte {
    w % 16 * 16 + y / 4
  }

  function Third(y: Sextet, z: Sextet): Byte {
    y % 4 * 64 + z
  }

  /** One quantum; spare bits of a padded one are ignored. */
  function DecodeQuantum(q: seq<Byte>): (r: Option<seq<Byte>>)
    requires |q| == 4
    ensures r.Some? ==> 1 <= |r.value| <= 3
    ensures r.Some? && |r.value| == 3 <==> forall i :: 0 <= i < 4 ==> ValueOf(q[i]).Some?
  {
    match (ValueOf(q[0]), ValueOf(q[1]), ValueOf(q[2]), ValueOf(q[3]))
    case (Some(v), Some(w), Some(y), Some(z)) => Some([First(v, w), Second(w, y), Third(y, z)])
    case (Some(v), Some(w), Some(y), None) => if q[3] == PAD then Some([First(v, w), Second(w, y)]) else None
    case (Some(v), Some(w), None, None) => if q[2] == PAD && q[3] == PAD then Some([First(v, w)]) else None
    case _ => None
  }

  /** base64.StdEncoding.Decode: quanta of four letters, padding only in the last. */
  function Decode(s: seq<Byte>): Option<seq<Byte>> {
    if s == [] then Some([])
    else if |s| < 4 then None
    else
      match DecodeQuantum(s[..4])
      case None => None
      case Some(x) =>
        if |s| == 4 then Some(x)
        else if |x| < 3 then None
        else
          match Decode(s[4..])
          case None => None
          case Some(rest) => Some(x + rest)
  }

  lemma SextetsGiveBytesBack(a: Byte, b: Byte, c: Byte)
    ensures First(a / 4, a % 4 * 16 + b / 16) == a
    ensures Second(a % 4 * 16 + b / 16, b % 16 * 4 + c / 64) == b
    ensures Third(b % 16 * 4 + c / 64, c % 64) == c
  {
    var w, y := a % 4 * 16 + b / 16, b % 16 * 4 + c / 64;
    assert w / 16 == a % 4 && w % 16 == b / 16;
    assert y / 4 == b % 16 && y % 4 == c / 64;
  }

  lemma LettersDecode(v: Sextet, w: Sextet, y: Sextet, z: Sextet)
    ensures DecodeQuantum([Letter(v), Letter(w), Letter(y), Letter(z)])
         == Some([First(v, w), Second(w, y), Third(y, z)])
    ensures DecodeQuantum([Letter(v), Letter(w), Letter(y), PAD]) == Some([First(v, w), Second(w, y)])
    ensures DecodeQuantum([Letter(v), Letter(w), PAD, PAD]) == Some([First(v, w)])
  {
    LetterValue(v);
    LetterValue(w);
    LetterValue(y);
    LetterValue(z);
    AlphabetAndPad(PAD);
  }

  lemma OneLetters(a: Byte)
    ensures EncodeQuantum([a]) == [Letter(a / 4), Letter(a % 4 * 16), PAD, PAD]
  {
  }

  lemma OneByte(a: Byte)
    ensures DecodeQuantum(EncodeQuantum([a])) == Some([a])
  {
    var v, w := a / 4, a % 4 * 16;
    OneLetters(a);
    LettersDecode(v, w, 0, 0);
    assert First(v, w) == a by {
      SextetsGiveBytesBack(a, 0, 0);
    }
  }

  lemma TwoLetters(a: Byte, b: Byte)
    ensures EncodeQuantum([a, b]) == [Letter(a / 4), Letter(a % 4 * 16 + b / 16), Letter(b % 16 * 4), PAD]
  {
  }

  lemma TwoBytes(a: Byte, b: Byte)
    ensures DecodeQuantum(EncodeQuantum([a, b])) == Some([a, b])
  {
    var v, w, y := a / 4, a % 4 * 16 + b / 16, b % 16 * 4;
    TwoLetters(a, b);
    LettersDecode(v, w, y, 0);
    assert [First(v, w), Second(w, y)] == [a, b] by {
      SextetsGiveBytesBack(a, b, 0);
    }
  }

  lemma ThreeLetters(a: Byte, b: Byte, c: Byte)
    ensures EncodeQuantum([a, b, c])
         == [Letter(a / 4), Letter(a % 4 * 16 + b / 16), Letter(b % 16 * 4 + c / 64), Letter(c % 64)]
  {
  }

  lemma ThreeBytes(a: Byte, b: Byte, c: Byte)
    ensures DecodeQuantum(EncodeQuantum([a, b, c])) == Some([a, b, c])
  {
    var v, w, y, z := a / 4, a % 4 * 16 + b / 16, b % 16 * 4 + c / 64, c % 64;
    ThreeLetters(a, b, c);
    LettersDecode(v, w, y, z);
    assert [First(v, w), Second(w, y), Third(y, z)] == [a, b, c] by {
      SextetsGiveBytesBack(a, b, c);
    }
  }

  /** The letters of a quantum spell out the bits of its bytes, the most significant first. */
  lemma QuantumBits(v: Sextet, w: Sextet, y: Sextet, z: Sextet)
    ensures var d := DecodeQuantum([Letter(v), Letter(w), Letter(y), Letter(z)]);
      && d.Some? && |d.value| == 3
      && (d.value[0] as int * 256 + d.value[1]) * 256 + d.value[2] == ((v as int * 64 + w) * 64 + y) * 64 + z
    ensures var d := DecodeQuantum([Letter(v), Letter(w), Letter(y), PAD]);
      && d.Some? && |d.value| == 2 && d.value[0] as int * 256 + d.value[1] == ((v as int * 64 + w) * 64 + y) / 4
    ensures var d := DecodeQuantum([Letter(v), Letter(w), PAD, PAD]);
      && d.Some? && |d.value| == 1 && d.value[0] == (v as int * 64 + w) / 16
  {
    LettersDecode(v, w, y, z);
    SextetBits(v, w, y, z);
  }

  lemma SextetBits(v: Sextet, w: Sextet, y: Sextet, z: Sextet)
    ensures (First(v, w) as int * 256 + Second(w, y)) * 256 + Third(y, z) == ((v as int * 64 + w) * 64 + y) * 64 + z
    ensures First(v, w) as int * 256 + Second(w, y) == ((v as int * 64 + w) * 64 + y) / 4
    ensures First(v, w) as int == (v as int * 64 + w) / 16
  {
    var w1, w2, y1, y2 := w / 16, w % 16, y / 4, y % 4;
    assert w == w1 * 16 + w2 && y == y1 * 4 + y2;
  }

  /** Table 1 of RFC 4648 and its padding, character by character. */
  lemma LettersAre(v: Sextet)
    ensures v < 26 ==> Letter(v) as int == "ABCDEFGHIJKLMNOPQRSTUVWXYZ"[v] as int
    ensures 26 <= v < 52 ==> Letter(v) as int == "abcdefghijklmnopqrstuvwxyz"[v - 26] as int
    ensures 52 <= v ==> Letter(v) as int == "0123456789+/"[v - 52] as int
    ensures PAD as int == '=' as int
  {
  }

  lemma QuantumRoundTrip(x: seq<Byte>)
    requires 1 <= |x| <= 3
    ensures DecodeQuantum(EncodeQuantum(x)) == Some(x)
  {
    if |x| == 1 {
      OneByte(x[0]);
      assert x == [x[0]];
    } else if |x| == 2 {
      TwoBytes(x[0], x[1]);
      assert x == [x[0], x[1]];
    } else {
      ThreeBytes(x[0], x[1], x[2]);
      assert x == [x[0], x[1], x[2]];
    }
  }

  lemma {:induction false} DecodeStep(q: seq<Byte>, h: seq<Byte>, rest: seq<Byte>, t: seq<Byte>)
    requires |q| == 4 && DecodeQuantum(q) == Some(h)
    requires Decode(rest) == Some(t)
    requires rest == [] || |h| == 3
    ensures Decode(q + rest) == Some(h + t)
  {
    assert (q + rest)[..4] == q && (q + rest)[4..] == rest;
    assert h + [] == h;
  }

  /** Decoding inverts encoding. */
  lemma {:induction false} DecodeInvertsEncode(x: seq<Byte>)
    ensures Decode(Encode(x)) == Some(x)
    decreases |x|
  {
    if x != [] {
      var n := if |x| <= 3 then |x| else 3;
      QuantumRoundTrip(x[..n]);
      DecodeInvertsEncode(x[n..]);
      assert x[..n] + x[n..] == x;
      EncodeStep(x, n);
      DecodeStep(EncodeQuantum(x[..n]), x[..n], Encode(x[n..]), x[n..]);
    }
  }

  lemma {:induction false} EncodeStep(x: seq<Byte>, n: nat)
    requires 1 <= n <= |x| && n == if |x| <= 3 then |x| else 3
    ensures Encode(x) == EncodeQuantum(x[..n]) + Encode(x[n..])
    ensures Encode(x[n..]) == [] || n == 3
  {
    if n == |x| {
      assert x[..n] == x && x[n..] == [];
      var q := EncodeQuantum(x);
      assert q + [] == q;
    } else {
      assert |x| > 3;
    }
  }

  lemma {:induction false} EncodeIsClean(x: seq<Byte>)
    ensures AllOf(Encode(x), IsBase64Byte)
    decreases |x|
  {
    if |x| > 3 {
      EncodeIsClean(x[3..]);
    }
  }

  // ---------------------------------------------------------------- when decoding succeeds

  ghost predicate AllLetters(s: seq<Byte>) {
    forall i :: 0 <= i < |s| ==> ValueOf(s[i]).Some?
  }

  /** Letters, then at most two padding bytes, a multiple of four in all. */
  ghost predicate WellPadded(s: seq<Byte>) {
    && |s| % 4 == 0
    && exists p :: PaddedBy(s, p)
  }

  ghost predicate PaddedBy(s: seq<Byte>, p: nat) {
    && p <= 2 && p <= |s|
    && AllLetters(s[..|s| - p])
    && forall i :: |s| - p <= i < |s| ==> s[i] == PAD
  }

  /** Exactly the well-padded inputs decode. */
  lemma {:induction false} DecodesIffWellPadded(s: seq<Byte>)
    ensures Decode(s).Some? <==> WellPadded(s)
    decreases |s|
  {
    if s == [] {
      assert PaddedBy(s, 0);
    } else if |s| >= 8 {
      DecodesIffWellPadded(s[4..]);
      DecodesByQuantum(s);
      if AllLetters(s[..4]) {
        PaddedTail(s);
      } else {
        var i :| 0 <= i < 4 && ValueOf(s[..4][i]) == None;
        NoLetterUpFront(s, i);
      }
    } else if |s| == 4 {
      LastQuantum(s);
    } else if |s| > 4 {
      assert s[4..] != [] && |s[4..]| < 4;
    }
  }

  /** Before the last quantum only four letters will do. */
  lemma {:induction false} DecodesByQuantum(s: seq<Byte>)
    requires |s| >= 8
    ensures Decode(s).Some? <==> AllLetters(s[..4]) && Decode(s[4..]).Some?
  {
    var q, rest := DecodeQuantum(s[..4]), Decode(s[4..]);
    assert Decode(s).Some? <==> q.Some? && |q.value| == 3 && rest.Some?;
  }

  lemma NoLetterUpFront(s: seq<Byte>, i: nat)
    requires |s| >= 8 && i < 4 && ValueOf(s[i]) == None
    ensures !WellPadded(s)
  {
    forall p: nat | p <= 2 ensures !PaddedBy(s, p) {
      assert s[..|s| - p][i] == s[i];
    }
  }

  lemma PaddedTail(s: seq<Byte>)
    requires |s| >= 8 && AllLetters(s[..4])
    ensures WellPadded(s) <==> WellPadded(s[4..])
  {
    var t := s[4..];
    forall p: nat | p <= 2 ensures PaddedBy(s, p) <==> PaddedBy(t, p) {
      var a, b := s[..|s| - p], t[..|t| - p];
      assert a == s[..4] + b;
      assert forall i :: 0 <= i < |b| ==> b[i] == a[i + 4];
      if PaddedBy(t, p) {
        forall i | 0 <= i < |a| ensures ValueOf(a[i]).Some? {
          assert a[i] == if i < 4 then s[..4][i] else b[i - 4];
        }
        forall i | |s| - p <= i < |s| ensures s[i] == PAD {
          assert s[i] == t[i - 4];
        }
      }
      if PaddedBy(s, p) {
        forall i | |t| - p <= i < |t| ensures t[i] == PAD {
          assert t[i] == s[i + 4];
        }
      }
    }
  }

  lemma {:induction false} LastQuantum(s: seq<Byte>)
    requires |s| == 4
    ensures Decode(s).Some? <==> WellPadded(s)
  {
    AlphabetAndPad(PAD);
    assert s[4..] == [] && s[..4] == s;
    if Decode(s).Some? {
      var p := if ValueOf(s[3]).Some? then 0 else if ValueOf(s[2]).Some? then 1 else 2;
      assert PaddedBy(s, p);
    }
    if WellPadded(s) {
      var p :| PaddedBy(s, p);
      var a := s[..4 - p];
      assert ValueOf(a[0]).Some? && ValueOf(a[1]).Some?;
      if p == 0 {
        assert ValueOf(a[2]).Some? && ValueOf(a[3]).Some?;
      } else if p == 1 {
        assert ValueOf(a[2]).Some? && s[3] == PAD;
      } else {
        assert s[2] == PAD && s[3] == PAD;
      }
    }
  }

  // ---------------------------------------------------------------- the scanner and the branch

  method FilterBase64(src: seq<Byte>) returns (out: seq<Byte>)
    ensures out == Filter(src, IsBase64Byte)
  {
    var firstInvalid := -1;
    for i := 0 to |src|
      invariant firstInvalid == -1
      invariant forall k :: 0 <= k < i ==> IsBase64Byte(src[k])
    {
      if !IsBase64Byte(src[i]) {
        firstInvalid := i;
        break;
      }
    }
    if firstInvalid < 0 {
      FilterClears(src, IsBase64Byte);
      return src;
    }
    out := src[..firstInvalid];
    FilterClears(src[..firstInvalid], IsBase64Byte);
    for i := firstInvalid to |src|
      invariant out == Filter(src[..i], IsBase64Byte)
    {
      FilterStep(src, IsBase64Byte, i);
      if IsBase64Byte(src[i]) {
        out := out + [src[i]];
      }
    }
    assert src[..|src|] == src;
  }

  /** What the base64 branch yields, read from the filtered body. */
  function Decoded(body: seq<Byte>): seq<Byte> {
    match Decode(Filter(body, IsBase64Byte))
    case Some(x) => x
    case None => body
  }

  method DecodeBase64Body(body: seq<Byte>) returns (out: seq<Byte>)
    ensures out == Decoded(body)
    ensures out == body || WellPadded(Filter(body, IsBase64Byte))
  {
    var filtered := FilterBase64(body);
    DecodesIffWellPadded(filtered);
    match Decode(filtered) {
      case Some(x) => out := x;
      case None => out := body;
    }
  }

  // ---------------------------------------------------------------- noise

  /** `s` with gaps[k] in front of its byte k, and the last gap at the end. */
  function Spread(s: seq<Byte>, gaps: seq<seq<Byte>>): seq<Byte>
    requires |gaps| == |s| + 1
  {
    if s == [] then gaps[0] else gaps[0] + [s[0]] + Spread(s[1..], gaps[1..])
  }

  ghost predicate IsNoise(gap: seq<Byte>) {
    forall i :: 0 <= i < |gap| ==> !IsBase64Byte(gap[i])
  }

  lemma {:induction false} FilterUndoesSpread(s: seq<Byte>, gaps: seq<seq<Byte>>)
    requires |gaps| == |s| + 1
    requires AllOf(s, IsBase64Byte)
    requires forall k :: 0 <= k < |gaps| ==> IsNoise(gaps[k])
    ensures Filter(Spread(s, gaps), IsBase64Byte) == s
  {
    FilterDrops(gaps[0], IsBase64Byte);
    if s != [] {
      var rest := Spread(s[1..], gaps[1..]);
      FilterUndoesSpread(s[1..], gaps[1..]);
      FilterAppend(gaps[0] + [s[0]], rest, IsBase64Byte);
      FilterAppend(gaps[0], [s[0]], IsBase64Byte);
      assert [s[0]][1..] == [];
      assert Filter([s[0]], IsBase64Byte) == [s[0]];
      assert s == [s[0]] + s[1..];
    }
  }

  /** Whatever bytes outside the alphabet stand around and between its letters, an encoding decodes. */
  lemma {:induction false} NoiseImmunity(x: seq<Byte>, gaps: seq<seq<Byte>>)
    requires |gaps| == |Encode(x)| + 1
    requires forall k :: 0 <= k < |gaps| ==> IsNoise(gaps[k])
    ensures Decoded(Spread(Encode(x), gaps)) == x
  {
    EncodeIsClean(x);
    FilterUndoesSpread(Encode(x), gaps);
    DecodeInvertsEncode(x);
  }

  /** Filtering twice is filtering once. */
  lemma {:induction false} FilterIsIdempotent(s: seq<Byte>)
    ensures Filter(Filter(s, IsBase64Byte), IsBase64Byte) == Filter(s, IsBase64Byte)
  {
    FilterClears(s, IsBase64Byte);
    FilterClears(Filter(s, IsBase64Byte), IsBase64Byte);
  }
}
