/**
 The parts of Go's strings and strconv packages that the accounts file and the wire format use.
 */
module Text {
  import opened Basics

  // ---------------------------------------------------------------- trimming

  /** unicode.IsSpace. */
  predicate IsSpace(c: char) {
    var r := c as int;
    || 0x09 <= r <= 0x0d || r == 0x20 || r == 0x85 || r == 0xa0 || r == 0x1680
    || 0x2000 <= r <= 0x200a || r == 0x2028 || r == 0x2029 || r == 0x202f || r == 0x205f || r == 0x3000
  }

  ghost predicate AllSpace(s: string) {
    forall i {:trigger IsSpace(s[i])} :: 0 <= i < |s| ==> IsSpace(s[i])
  }

  function TrimLeft(s: string): string {
    if s != [] && IsSpace(s[0]) then TrimLeft(s[1..]) else s
  }

  function TrimRight(s: string): string {
    if s != [] && IsSpace(s[|s| - 1]) then TrimRight(s[..|s| - 1]) else s
  }

  /** strings.TrimSpace. */
  function TrimSpace(s: string): string {
    TrimRight(TrimLeft(s))
  }

  predicate NoLeading(s: string) {
    s == [] || !IsSpace(s[0])
  }

  predicate NoTrailing(s: string) {
    s == [] || !IsSpace(s[|s| - 1])
  }

  predicate Trimmed(s: string) {
    NoLeading(s) && NoTrailing(s)
  }

  lemma {:induction false} TrimLeftPad(pad: string, s: string)
    requires AllSpace(pad) && NoLeading(s)
    ensures TrimLeft(pad + s) == s
  {
    if pad == [] {
      assert pad + s == s;
    } else {
      assert IsSpace(pad[0]);
      forall i | 0 <= i < |pad| - 1 ensures IsSpace(pad[1..][i]) {
        assert IsSpace(pad[i + 1]);
      }
      assert (pad + s)[1..] == pad[1..] + s;
      TrimLeftPad(pad[1..], s);
    }
  }

  lemma {:induction false} TrimRightPad(s: string, pad: string)
    requires AllSpace(pad) && NoTrailing(s)
    ensures TrimRight(s + pad) == s
  {
    if pad == [] {
      assert s + pad == s;
    } else {
      var n := |pad| - 1;
      assert IsSpace(pad[n]);
      forall i | 0 <= i < n ensures IsSpace(pad[..n][i]) {
        assert IsSpace(pad[i]);
      }
      assert (s + pad)[..|s + pad| - 1] == s + pad[..n];
      TrimRightPad(s, pad[..n]);
    }
  }

  /** Trimming removes exactly the padding around a trimmed text. */
  lemma TrimPad(left: string, s: string, right: string)
    requires AllSpace(left) && AllSpace(right) && Trimmed(s)
    ensures TrimSpace(left + s + right) == s
  {
    if s == [] {
      var pad := left + right;
      assert left + s + right == pad;
      forall i | 0 <= i < |pad| ensures IsSpace(pad[i]) {
        if i < |left| {
          assert IsSpace(left[i]);
        } else {
          assert IsSpace(right[i - |left|]);
        }
      }
      TrimLeftPad(pad, []);
      assert pad + [] == pad;
    } else {
      Assoc(left, s, right);
      assert (s + right)[0] == s[0];
      TrimLeftPad(left, s + right);
      TrimRightPad(s, right);
    }
  }

  lemma TrimNothing(s: string)
    requires Trimmed(s)
    ensures TrimSpace(s) == s
  {
    TrimPad([], s, []);
    assert [] + s + [] == s;
  }

  lemma {:induction false} TrimLeftCuts(s: string) returns (pad: string)
    ensures AllSpace(pad) && s == pad + TrimLeft(s) && NoLeading(TrimLeft(s))
  {
    if s != [] && IsSpace(s[0]) {
      var p := TrimLeftCuts(s[1..]);
      pad := [s[0]] + p;
      forall i | 0 <= i < |pad| ensures IsSpace(pad[i]) {
        if i > 0 {
          assert IsSpace(p[i - 1]);
        }
      }
      Assoc([s[0]], p, TrimLeft(s));
    } else {
      pad := [];
      assert s == [] + s;
    }
  }

  lemma {:induction false} TrimRightCuts(s: string) returns (pad: string)
    ensures AllSpace(pad) && s == TrimRight(s) + pad && NoTrailing(TrimRight(s))
    ensures TrimRight(s) <= s
  {
    if s != [] && IsSpace(s[|s| - 1]) {
      var n := |s| - 1;
      var p := TrimRightCuts(s[..n]);
      pad := p + [s[n]];
      Assoc(TrimRight(s), p, [s[n]]);
    } else {
      pad := [];
      assert s == s + [];
    }
  }

  /** A text is its trimmed form between two stretches of whitespace. */
  lemma TrimCuts(s: string) returns (left: string, right: string)
    ensures AllSpace(left) && AllSpace(right)
    ensures s == left + TrimSpace(s) + right && Trimmed(TrimSpace(s))
  {
    left := TrimLeftCuts(s);
    right := TrimRightCuts(TrimLeft(s));
    Assoc(left, TrimSpace(s), right);
    if TrimSpace(s) != [] {
      assert TrimSpace(s)[0] == TrimLeft(s)[0];
    }
  }

  /** A core between two stretches of whitespace that may be empty. */
  ghost predicate Padded(cell: string, core: string) {
    exists left, right :: AllSpace(left) && AllSpace(right) && Trimmed(core) && cell == left + core + right
  }

  lemma PaddedIffTrimmed(cell: string, core: string)
    ensures Padded(cell, core) <==> core == TrimSpace(cell)
  {
    if Padded(cell, core) {
      var left, right :| AllSpace(left) && AllSpace(right) && Trimmed(core) && cell == left + core + right;
      TrimPad(left, core, right);
    }
    var l, r := TrimCuts(cell);
  }

  lemma SpacesJoin(a: string, b: string)
    requires AllSpace(a) && AllSpace(b)
    ensures AllSpace(a + b)
  {
    forall i | 0 <= i < |a + b| ensures IsSpace((a + b)[i]) {
      assert if i < |a| then IsSpace(a[i]) else IsSpace(b[i - |a|]);
    }
  }

  /** More padding changes nothing. */
  lemma TrimMore(left: string, x: string, right: string)
    requires AllSpace(left) && AllSpace(right)
    ensures TrimSpace(left + x + right) == TrimSpace(x)
  {
    var l, r := TrimCuts(x);
    var core := TrimSpace(x);
    SpacesJoin(left, l);
    SpacesJoin(r, right);
    TrimPad(left + l, core, r + right);
    assert left + x + right == left + l + core + (r + right);
  }

  lemma {:induction false} TrimLeftSide(x: string)
    ensures TrimSpace(TrimLeft(x)) == TrimSpace(x)
  {
    var pad := TrimLeftCuts(x);
    var rest := TrimLeft(x);
    assert pad + rest + [] == pad + rest;
    TrimMore(pad, rest, []);
  }

  lemma {:induction false} TrimRightSide(x: string)
    ensures TrimSpace(TrimRight(x)) == TrimSpace(x)
  {
    var pad := TrimRightCuts(x);
    var rest := TrimRight(x);
    assert [] + rest + pad == rest + pad;
    TrimMore([], rest, pad);
  }

  lemma TrimSubset(s: string, c: char)
    requires c !in s
    ensures c !in TrimSpace(s)
  {
    var left, right := TrimCuts(s);
  }

  /** strings.TrimRight(s, "\r"). */
  function DropCr(s: string): string {
    if s != [] && s[|s| - 1] == '\r' then DropCr(s[..|s| - 1]) else s
  }

  lemma {:induction false} DropCrCuts(s: string)
    ensures DropCr(s) <= s
    ensures DropCr(s) == [] || DropCr(s)[|DropCr(s)| - 1] != '\r'
    ensures DropCr(DropCr(s)) == DropCr(s)
    ensures forall i {:trigger s[i]} :: |DropCr(s)| <= i < |s| ==> s[i] == '\r'
  {
    if s != [] && s[|s| - 1] == '\r' {
      DropCrCuts(s[..|s| - 1]);
    }
  }

  /** Trailing carriage returns are whitespace, so trimming does not see them. */
  lemma {:induction false} TrimAfterDropCr(s: string)
    ensures TrimSpace(DropCr(s)) == TrimSpace(s)
  {
    if s != [] && s[|s| - 1] == '\r' {
      TrimDropLast(s);
      TrimAfterDropCr(s[..|s| - 1]);
    }
  }

  lemma TrimDropLast(s: string)
    requires s != [] && IsSpace(s[|s| - 1])
    ensures TrimSpace(s[..|s| - 1]) == TrimSpace(s)
  {
    var n := |s| - 1;
    var left, right := TrimCuts(s[..n]);
    var t := TrimSpace(s[..n]);
    var pad := right + [s[n]];
    forall i | 0 <= i < |pad| ensures IsSpace(pad[i]) {
      if i < |right| {
        assert IsSpace(right[i]);
      }
    }
    TrimPad(left, t, pad);
    assert s == s[..n] + [s[n]];
    Assoc(left + t, right, [s[n]]);
  }

  // ---------------------------------------------------------------- splitting at a character

  /** strings.Split(s, sep). */
  function Split(s: string, sep: char): (parts: seq<string>)
    ensures parts != []
  {
    if s == [] then [[]] else Grown(s[0], Split(s[1..], sep), sep)
  }

  /** strings.Join(parts, sep). */
  function Join(parts: seq<string>, sep: char): string {
    if parts == [] then []
    else if |parts| == 1 then parts[0]
    else parts[0] + [sep] + Join(parts[1..], sep)
  }

  lemma {:induction false} SplitNone(a: string, sep: char)
    requires sep !in a
    ensures Split(a, sep) == [a]
  {
    if a != [] {
      assert a[0] != sep;
      SplitNone(a[1..], sep);
      assert [a[0]] + a[1..] == a;
    }
  }

  /** What splitting adds in front when a text grows by its first character. */
  function Grown(c: char, parts: seq<string>, sep: char): seq<string>
    requires parts != []
  {
    if c == sep then [[]] + parts else [[c] + parts[0]] + parts[1..]
  }

  lemma GrownAppend(c: char, parts: seq<string>, more: seq<string>, sep: char)
    requires parts != []
    ensures Grown(c, parts + more, sep) == Grown(c, parts, sep) + more
  {
    if c == sep {
      Assoc([[]], parts, more);
    } else {
      assert (parts + more)[1..] == parts[1..] + more;
      Assoc([[c] + parts[0]], parts[1..], more);
    }
  }

  /** Texts on both sides of a separator are split on their own. */
  lemma {:induction false} SplitAppend(x: string, y: string, sep: char)
    ensures Split(x + [sep] + y, sep) == Split(x, sep) + Split(y, sep)
  {
    var s := x + [sep] + y;
    if x == [] {
      assert s[1..] == y;
    } else {
      assert s[0] == x[0] && s[1..] == x[1..] + [sep] + y;
      SplitAppend(x[1..], y, sep);
      GrownAppend(x[0], Split(x[1..], sep), Split(y, sep), sep);
    }
  }

  ghost predicate NoneHas(parts: seq<string>, sep: char) {
    forall i :: 0 <= i < |parts| ==> sep !in parts[i]
  }

  lemma {:induction false} JoinAppend(a: seq<string>, b: seq<string>, sep: char)
    requires a != [] && b != []
    ensures Join(a + b, sep) == Join(a, sep) + [sep] + Join(b, sep)
  {
    var all := a + b;
    assert all[1..] == a[1..] + b;
    if |a| == 1 {
      assert all[1..] == b;
    } else {
      JoinAppend(a[1..], b, sep);
      var first, rest, last := a[0] + [sep], Join(a[1..], sep), [sep] + Join(b, sep);
      assert Join(all, sep) == first + (rest + [sep] + Join(b, sep));
      Assoc(rest, [sep], Join(b, sep));
      Assoc(first, rest, last);
      Assoc(first + rest, [sep], Join(b, sep));
    }
  }

  /** Splitting inverts joining. */
  lemma {:induction false} SplitInvertsJoin(parts: seq<string>, sep: char)
    requires parts != [] && NoneHas(parts, sep)
    ensures Split(Join(parts, sep), sep) == parts
  {
    SplitNone(parts[0], sep);
    if |parts| > 1 {
      SplitInvertsJoin(parts[1..], sep);
      SplitAppend(parts[0], Join(parts[1..], sep), sep);
      assert [parts[0]] + parts[1..] == parts;
    }
  }

  /** Joining inverts splitting, for every text. */
  lemma {:induction false} JoinInvertsSplit(s: string, sep: char)
    ensures Join(Split(s, sep), sep) == s
  {
    if s != [] {
      var rest := Split(s[1..], sep);
      JoinInvertsSplit(s[1..], sep);
      assert s == [s[0]] + s[1..];
      GrownJoins(s[0], rest, sep);
    }
  }

  lemma {:induction false} GrownJoins(c: char, parts: seq<string>, sep: char)
    requires parts != []
    ensures Join(Grown(c, parts, sep), sep) == [c] + Join(parts, sep)
  {
    var all := Grown(c, parts, sep);
    if c == sep {
      assert all[0] == [] && all[1..] == parts;
      assert [] + [sep] == [c];
    } else {
      assert all[0] == [c] + parts[0] && all[1..] == parts[1..];
      if |parts| > 1 {
        var more := Join(parts[1..], sep);
        Assoc([c], parts[0] + [sep], more);
        Assoc([c], parts[0], [sep]);
      }
    }
  }

  /** The parts hold no separator. */
  lemma {:induction false} SplitParts(s: string, sep: char)
    ensures NoneHas(Split(s, sep), sep)
  {
    if s != [] {
      SplitParts(s[1..], sep);
    }
  }

  /** Position of the first `c`, or the length. */
  function IndexOf(s: string, c: char): (n: nat)
    ensures n <= |s|
    ensures n < |s| ==> s[n] == c
    ensures c !in s[..n]
    ensures n < |s| <==> c in s
  {
    if s == [] then 0
    else if s[0] == c then 0
    else
      assert s == [s[0]] + s[1..];
      var n := 1 + IndexOf(s[1..], c);
      assert s[..n] == [s[0]] + s[1..][..n - 1];
      n
  }

  lemma {:induction false} IndexOfFirst(a: string, rest: string, c: char)
    requires c !in a
    ensures IndexOf(a + [c] + rest, c) == |a|
  {
    var s := a + [c] + rest;
    if a == [] {
      assert s[0] == c;
    } else {
      assert a[0] != c;
      assert s[1..] == a[1..] + [c] + rest;
      IndexOfFirst(a[1..], rest, c);
    }
  }

  // ---------------------------------------------------------------- decimal numbers

  const MAX_INT := 0x7fff_ffff_ffff_ffff
  const MIN_INT := -0x8000_0000_0000_0000

  predicate IsInt(n: int) {
    MIN_INT <= n <= MAX_INT
  }

  predicate IsDigit(c: char) {
    '0' <= c <= '9'
  }

  predicate AllDigits(s: string) {
    forall i :: 0 <= i < |s| ==> IsDigit(s[i])
  }

  function Digit(d: nat): char
    requires d < 10
  {
    ('0' as int + d) as char
  }

  function Digits(n: nat): (s: string)
    ensures s != [] && AllDigits(s)
  {
    if n < 10 then [Digit(n)] else Digits(n / 10) + [Digit(n % 10)]
  }

  /** strconv.Itoa. */
  function Itoa(n: int): string {
    if n < 0 then ['-'] + Digits(-n) else Digits(n)
  }

  function Value(s: string): nat
    requires AllDigits(s)
  {
    if s == [] then 0 else Value(s[..|s| - 1]) * 10 + (s[|s| - 1] as int - '0' as int)
  }

  /** What strconv.Atoi returns: a value even with an error, 0 for bad syntax, the limit when out of range. */
  datatype Parsed = Parsed(value: int, ok: bool)

  function Atoi(s: string): Parsed {
    var signed := s != [] && (s[0] == '-' || s[0] == '+');
    var digits := if signed then s[1..] else s;
    if digits == [] || !AllDigits(digits) then Parsed(0, false)
    else
      var v: int := Value(digits);
      var n := if signed && s[0] == '-' then -v else v;
      if n > MAX_INT then Parsed(MAX_INT, false)
      else if n < MIN_INT then Parsed(MIN_INT, false)
      else Parsed(n, true)
  }

  lemma {:induction false} ValueOfDigits(n: nat)
    ensures Value(Digits(n)) == n
  {
    if n < 10 {
      assert [Digit(n)][..0] == [];
    } else {
      ValueOfDigits(n / 10);
      assert (Digits(n / 10) + [Digit(n % 10)])[..|Digits(n / 10)|] == Digits(n / 10);
    }
  }

  lemma {:induction false} AtoiOfDigits(d: string)
    requires d != [] && AllDigits(d) && Value(d) <= MAX_INT
    ensures Atoi(d) == Parsed(Value(d), true)
  {
    assert IsDigit(d[0]);
  }

  lemma {:induction false} AtoiOfNegative(d: string)
    requires d != [] && AllDigits(d) && -(Value(d) as int) >= MIN_INT
    ensures Atoi(['-'] + d) == Parsed(-(Value(d) as int), true)
  {
    var s := ['-'] + d;
    assert s[0] == '-' && s[1..] == d;
  }

  /** Parsing inverts printing, for every integer of the machine. */
  lemma AtoiInvertsItoa(n: int)
    requires IsInt(n)
    ensures Atoi(Itoa(n)) == Parsed(n, true)
  {
    if n < 0 {
      ValueOfDigits(-n);
      AtoiOfNegative(Digits(-n));
    } else {
      ValueOfDigits(n);
      AtoiOfDigits(Digits(n));
    }
  }

  /** A printed number has no whitespace, separator or line end in it. */
  lemma ItoaIsPlain(n: int)
    ensures Trimmed(Itoa(n)) && Itoa(n) != []
    ensures ':' !in Itoa(n) && '\n' !in Itoa(n) && ',' !in Itoa(n) && ']' !in Itoa(n)
  {
    var d := Digits(if n < 0 then -n else n);
    assert IsDigit(d[0]) && IsDigit(d[|d| - 1]);
    forall c | c in Itoa(n) ensures c == '-' || IsDigit(c) {
      if c in d {
        var i :| 0 <= i < |d| && d[i] == c;
        assert IsDigit(d[i]);
      }
    }
  }

  /** Different numbers print differently. */
  lemma ItoaInjective(m: int, n: int)
    requires IsInt(m) && IsInt(n) && Itoa(m) == Itoa(n)
    ensures m == n
  {
    AtoiInvertsItoa(m);
    AtoiInvertsItoa(n);
  }
}
