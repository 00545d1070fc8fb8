/**
 Rune classes of the digest pipeline. A Go string holding valid UTF-8 is a `string`:
 one `char` for each rune that a `range` loop over the Go string visits.
 */
module Runes {
  /** The whitespace class of the normalisation patterns (Python's \s on str). */
  predicate IsPySpace(c: char) {
    var r := c as int;
    || 0x09 <= r <= 0x0d || r == 0x20 || 0x1c <= r <= 0x1f
    || r == 0x85 || r == 0xa0 || r == 0x1680 || 0x2000 <= r <= 0x200a
    || r == 0x2028 || r == 0x2029 || r == 0x202f || r == 0x205f || r == 0x3000
  }

  /** What Go's (?i)[a-z] matches: the ASCII letters, and the two runes that fold to s and k. */
  predicate IsFoldedLetter(c: char) {
    || 'a' <= c <= 'z' || 'A' <= c <= 'Z'
    || c as int == 0x017f || c as int == 0x212a
  }

  /** Line boundaries of Python's str.splitlines(). */
  predicate IsBreak(c: char) {
    var r := c as int;
    || 0x0a <= r <= 0x0d || 0x1c <= r <= 0x1e || r == 0x85 || r == 0x2028 || r == 0x2029
  }

  const NUL: char := '\0'
  const CR: char := '\r'
  const LF: char := '\n'

  ghost predicate NoSpaceIn(s: string) {
    forall i {:trigger IsPySpace(s[i])} :: 0 <= i < |s| ==> !IsPySpace(s[i])
  }

  ghost predicate AllSpaces(s: string) {
    forall i {:trigger IsPySpace(s[i])} :: 0 <= i < |s| ==> IsPySpace(s[i])
  }

  /** `s` is empty or starts with whitespace: the end of a run ending just before `s`. */
  ghost predicate AtRunEnd(s: string) {
    s == [] || IsPySpace(s[0])
  }

  /** `s` without the runes equal to `c`. */
  function Without(s: string, c: char): (r: string)
    ensures c !in r
    ensures c !in s ==> r == s
  {
    if s == [] then []
    else if s[0] == c then Without(s[1..], c)
    else [s[0]] + Without(s[1..], c)
  }

  lemma {:induction false} WithoutAppend(a: string, b: string, c: char)
    ensures Without(a + b, c) == Without(a, c) + Without(b, c)
  {
    if a == [] {
      assert a + b == b;
    } else {
      assert (a + b)[1..] == a[1..] + b;
      WithoutAppend(a[1..], b, c);
    }
  }

  /** `s` without whitespace. */
  function Squeeze(s: string): string {
    if s == [] then []
    else if IsPySpace(s[0]) then Squeeze(s[1..])
    else [s[0]] + Squeeze(s[1..])
  }

  lemma {:induction false} SqueezeClears(s: string)
    ensures NoSpaceIn(Squeeze(s))
    ensures NoSpaceIn(s) ==> Squeeze(s) == s
  {
    if s != [] {
      SqueezeClears(s[1..]);
    }
  }

  lemma {:induction false} SqueezeAppend(a: string, b: string)
    ensures Squeeze(a + b) == Squeeze(a) + Squeeze(b)
  {
    if a == [] {
      assert a + b == b;
    } else {
      assert (a + b)[1..] == a[1..] + b;
      SqueezeAppend(a[1..], b);
    }
  }
}
