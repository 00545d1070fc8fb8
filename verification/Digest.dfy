/**
 Selection of the lines that are hashed. SHA1 itself is a parameter: the results are about
 the text it is given.
 */
module Digest {
  import opened Basics
  import opened Runes
  import opened Normalize
  import opened Lines
  import Regex

  const ATOMIC_NUM_LINES := 4

  /** Offset into the line list, in percent, and number of lines taken from there. */
  const DIGEST_SPEC: seq<(nat, nat)> := [(20, 3), (60, 3)]

  // ---------------------------------------------------------------- positions

  /** The positions hashed out of `n` kept lines, in hashing order. */
  function Positions(n: nat): seq<nat> {
    if n <= 4 then seq(n, i => i)
    else if n == 5 then [1, 2, 3, 3, 4]
    else if n == 6 then [1, 2, 3, 3, 4, 5]
    else [n / 5, n / 5 + 1, n / 5 + 2, 3 * n / 5, 3 * n / 5 + 1, 3 * n / 5 + 2]
  }

  ghost predicate AllBelow(at: seq<nat>, n: nat) {
    forall k :: 0 <= k < |at| ==> at[k] < n
  }

  /** Those of the `k` positions from `start` that exist. */
  function Window(n: nat, start: nat, k: nat): seq<nat> {
    if k == 0 then []
    else Window(n, start, k - 1) + if start + k - 1 < n then [start + k - 1] else []
  }

  /** Both windows together; at n == 5 the second one is cut, at n == 5 and n == 6 they overlap. */
  lemma {:induction false} WindowsArePositions(n: nat)
    requires n > ATOMIC_NUM_LINES
    ensures Window(n, 20 * n / 100, 3) + Window(n, 60 * n / 100, 3) == Positions(n)
  {
    Percentages(n);
    WindowOfThree(n, n / 5);
    WindowOfThree(n, 3 * n / 5);
  }

  lemma Percentages(n: nat)
    ensures 20 * n / 100 == n / 5 && 60 * n / 100 == 3 * n / 5
  {
  }

  lemma {:induction false} WindowOfThree(n: nat, a: nat)
    requires a + 1 < n
    ensures Window(n, a, 3) == if a + 2 < n then [a, a + 1, a + 2] else [a, a + 1]
  {
    assert Window(n, a, 0) == [];
    assert Window(n, a, 1) == [a];
    assert Window(n, a, 2) == [a, a + 1];
  }

  /** The positions of the first `s` entries of DIGEST_SPEC. */
  function Windows(n: nat, s: nat): seq<nat>
    requires s <= |DIGEST_SPEC|
  {
    if s == 0 then []
    else Windows(n, s - 1) + Window(n, DIGEST_SPEC[s - 1].0 * n / 100, DIGEST_SPEC[s - 1].1)
  }

  lemma {:induction false} WindowsUnfold(n: nat)
    requires n > ATOMIC_NUM_LINES
    ensures Windows(n, 2) == Positions(n)
  {
    assert Windows(n, 0) == [];
    assert Windows(n, 1) == [] + Window(n, 20 * n / 100, 3);
    WindowsArePositions(n);
  }

  /** Every line is hashed at most once, in order, except line 3 of five or six. */
  lemma PositionsAreSound(n: nat)
    ensures AllBelow(Positions(n), n)
    ensures n != 5 && n != 6 ==>
              forall j, k :: 0 <= j < k < |Positions(n)| ==> Positions(n)[j] < Positions(n)[k]
    ensures |Positions(n)| == if n < 6 then n else 6
    ensures n == 5 || n == 6 ==>
              forall k :: 0 <= k < n ==> (k in Positions(n) <==> k != 0)
  {
    if n == 5 || n == 6 {
      assert Positions(n)[0] == 1 && Positions(n)[1] == 2 && Positions(n)[2] == 3 && Positions(n)[4] == 4;
      assert n == 6 ==> Positions(n)[5] == 5;
    }
  }

  // ---------------------------------------------------------------- rstrip

  predicate IsAsciiSpace(c: char) {
    c == ' ' || 0x09 <= c as int <= 0x0d
  }

  /** Python's bytes.rstrip(). */
  function RStrip(s: string): (r: string)
    ensures r <= s
    ensures r != [] ==> !IsAsciiSpace(r[|r| - 1])
    ensures forall i :: |r| <= i < |s| ==> IsAsciiSpace(s[i])
  {
    if s != [] && IsAsciiSpace(s[|s| - 1]) then RStrip(s[..|s| - 1]) else s
  }

  /** It has nothing to do on a normalised line. */
  lemma RStripKeeps(s: string)
    ensures RStrip(Normalized(s)) == Normalized(s)
  {
    NormalizedClears(s);
    var l := Normalized(s);
    if l != [] {
      assert !IsPySpace(l[|l| - 1]);
    }
  }

  lemma NormalizedClears(s: string)
    ensures NoSpaceIn(Normalized(s))
  {
    PassesAreRunwise(Without(s, NUL));
    var t := Regex.DeleteAll(Regex.EMAIL, Regex.DeleteAll(Regex.LONG, Without(s, NUL)));
    SqueezeClears(Regex.DeleteAll(Regex.URL, t));
  }

  // ---------------------------------------------------------------- the hashed text

  /** The normalised lines of all payloads that are long enough, in order. */
  ghost function KeptAll(payloads: seq<string>): seq<string> {
    if payloads == [] then [] else KeptLines(payloads[0]) + KeptAll(payloads[1..])
  }

  function Pick(lines: seq<string>, at: seq<nat>): string
    requires AllBelow(at, |lines|)
  {
    if at == [] then [] else Pick(lines, at[..|at| - 1]) + lines[at[|at| - 1]]
  }

  /** The text whose SHA1 is the digest. */
  ghost function HashedText(payloads: seq<string>): string {
    var lines := KeptAll(payloads);
    PositionsAreSound(|lines|);
    Pick(lines, Positions(|lines|))
  }

  lemma {:induction false} KeptAllAppend(a: seq<string>, b: seq<string>)
    ensures KeptAll(a + b) == KeptAll(a) + KeptAll(b)
  {
    if a == [] {
      assert a + b == b;
    } else {
      assert (a + b)[1..] == a[1..] + b;
      KeptAllAppend(a[1..], b);
      Assoc(KeptLines(a[0]), KeptAll(a[1..]), KeptAll(b));
    }
  }

  lemma KeptAllOne(p: string)
    ensures KeptAll([p]) == KeptLines(p)
  {
    assert [p][1..] == [];
    var kept := KeptLines(p);
    assert kept + [] == kept;
  }

  lemma KeptAllNext(payloads: seq<string>, p: nat)
    requires p < |payloads|
    ensures KeptAll(payloads[..p + 1]) == KeptAll(payloads[..p]) + KeptLines(payloads[p])
  {
    assert payloads[..p + 1] == payloads[..p] + [payloads[p]];
    KeptAllAppend(payloads[..p], [payloads[p]]);
    KeptAllOne(payloads[p]);
  }

  lemma KeptOfNext(lines: seq<string>, l: nat)
    requires l < |lines|
    ensures KeptOf(lines[..l + 1]) == KeptOf(lines[..l])
              + if ShouldHandle(Normalized(lines[l])) then [Normalized(lines[l])] else []
  {
    assert lines[..l + 1] == lines[..l] + [lines[l]];
    KeptOfAppend(lines[..l], [lines[l]]);
    assert [lines[l]][1..] == [];
  }

  /** Normalises every line of every payload and keeps the long enough ones. */
  method CollectLines(payloads: seq<string>) returns (lines: seq<string>)
    ensures lines == KeptAll(payloads)
  {
    lines := [];
    for p := 0 to |payloads|
      invariant lines == KeptAll(payloads[..p])
    {
      var split := SplitLinesScan(payloads[p]);
      ghost var before := lines;
      for l := 0 to |split|
        invariant lines == before + KeptOf(split[..l])
      {
        var norm := NormalizeLine(split[l]);
        KeptOfNext(split, l);
        Assoc(before, KeptOf(split[..l]), [norm]);
        if ShouldHandle(norm) {
          lines := lines + [norm];
        }
      }
      assert split[..|split|] == split;
      KeptAllNext(payloads, p);
    }
    assert payloads[..|payloads|] == payloads;
  }

  lemma {:induction false} KeptAllAreNormalized(payloads: seq<string>, k: nat)
    requires k < |KeptAll(payloads)|
    ensures |KeptAll(payloads)[k]| >= 8
    ensures RStrip(KeptAll(payloads)[k]) == KeptAll(payloads)[k]
  {
    var here := KeptLines(payloads[0]);
    if k < |here| {
      KeptAreNormalized(SplitLines(payloads[0]), k);
    } else {
      KeptAllAreNormalized(payloads[1..], k - |here|);
    }
  }

  lemma {:induction false} KeptAreNormalized(lines: seq<string>, k: nat)
    requires k < |KeptOf(lines)|
    ensures |KeptOf(lines)[k]| >= 8
    ensures RStrip(KeptOf(lines)[k]) == KeptOf(lines)[k]
  {
    var here := KeptOf(lines[..1]);
    assert lines == lines[..1] + lines[1..];
    KeptOfAppend(lines[..1], lines[1..]);
    RStripKeeps(lines[0]);
    if !ShouldHandle(Normalized(lines[0])) {
      KeptAreNormalized(lines[1..], k);
    } else if k > 0 {
      KeptAreNormalized(lines[1..], k - 1);
    }
  }

  lemma {:induction false} PickNext(lines: seq<string>, at: seq<nat>, next: nat)
    requires AllBelow(at, |lines|)
    requires next < |lines|
    ensures Pick(lines, at + [next]) == Pick(lines, at) + lines[next]
  {
    assert (at + [next])[..|at|] == at;
  }

  lemma {:induction false} PickAppend(lines: seq<string>, a: seq<nat>, b: seq<nat>)
    requires AllBelow(a, |lines|)
    requires AllBelow(b, |lines|)
    ensures Pick(lines, a + b) == Pick(lines, a) + Pick(lines, b)
  {
    if b == [] {
      assert a + b == a;
    } else {
      var b', last := b[..|b| - 1], b[|b| - 1];
      assert b == b' + [last];
      PickAppend(lines, a, b');
      Assoc(a, b', [last]);
      PickNext(lines, a + b', last);
      PickNext(lines, b', last);
      Assoc(Pick(lines, a), Pick(lines, b'), lines[last]);
    }
  }

  lemma {:induction false} WindowInRange(n: nat, start: nat, k: nat)
    ensures AllBelow(Window(n, start, k), n)
  {
    if k > 0 {
      WindowInRange(n, start, k - 1);
    }
  }

  lemma {:induction false} WindowsInRange(n: nat, s: nat)
    requires s <= |DIGEST_SPEC|
    ensures AllBelow(Windows(n, s), n)
  {
    if s > 0 {
      WindowsInRange(n, s - 1);
      WindowInRange(n, DIGEST_SPEC[s - 1].0 * n / 100, DIGEST_SPEC[s - 1].1);
    }
  }

  lemma NextInWindow(lines: seq<string>, start: nat, i: nat)
    ensures AllBelow(Window(|lines|, start, i), |lines|) && AllBelow(Window(|lines|, start, i + 1), |lines|)
    ensures Pick(lines, Window(|lines|, start, i + 1))
         == Pick(lines, Window(|lines|, start, i)) + if start + i < |lines| then lines[start + i] else []
  {
    var n := |lines|;
    WindowInRange(n, start, i);
    WindowInRange(n, start, i + 1);
    if start + i < n {
      PickNext(lines, Window(n, start, i), start + i);
    } else {
      assert Window(n, start, i + 1) == Window(n, start, i);
    }
  }

  function StripAll(lines: seq<string>): seq<string> {
    seq(|lines|, i requires 0 <= i < |lines| => RStrip(lines[i]))
  }

  /** The inner loop: `length` lines from `start`, as far as they exist. */
  method HashWindow(lines: seq<string>, start: nat, length: nat) returns (input: string)
    ensures AllBelow(Window(|lines|, start, length), |lines|)
    ensures input == Pick(StripAll(lines), Window(|lines|, start, length))
  {
    var n := |lines|;
    ghost var stripped := StripAll(lines);
    WindowInRange(n, start, length);
    input := [];
    for i := 0 to length
      invariant AllBelow(Window(n, start, i), n)
      invariant input == Pick(stripped, Window(n, start, i))
    {
      NextInWindow(stripped, start, i);
      var idx := start + i;
      if 0 <= idx < n {
        assert stripped[idx] == RStrip(lines[idx]);
        input := input + RStrip(lines[idx]);
      }
    }
  }

  method HashAll(lines: seq<string>) returns (input: string)
    ensures input == Pick(StripAll(lines), seq(|lines|, i => i))
  {
    ghost var stripped := StripAll(lines);
    input := [];
    ghost var at: seq<nat> := [];
    for i := 0 to |lines|
      invariant |at| == i && forall k :: 0 <= k < i ==> at[k] == k
      invariant input == Pick(stripped, at)
    {
      PickNext(stripped, at, i);
      input := input + RStrip(lines[i]);
      at := at + [i];
    }
    assert at == seq(|lines|, i => i);
  }

  lemma NextWindow(lines: seq<string>, s: nat)
    requires s < |DIGEST_SPEC|
    ensures var n := |lines|; var (offset, length) := DIGEST_SPEC[s];
      && AllBelow(Windows(n, s), n)
      && AllBelow(Windows(n, s + 1), n)
      && AllBelow(Window(n, offset * n / 100, length), n)
      && Pick(lines, Windows(n, s + 1)) == Pick(lines, Windows(n, s)) + Pick(lines, Window(n, offset * n / 100, length))
  {
    var n := |lines|; var (offset, length) := DIGEST_SPEC[s];
    WindowsInRange(n, s);
    WindowsInRange(n, s + 1);
    WindowInRange(n, offset * n / 100, length);
    PickAppend(lines, Windows(n, s), Window(n, offset * n / 100, length));
  }

  /** Feeds the selected lines to the hash. */
  method HashInput(lines: seq<string>) returns (input: string)
    ensures AllBelow(Positions(|lines|), |lines|)
    ensures input == Pick(StripAll(lines), Positions(|lines|))
  {
    var n := |lines|;
    PositionsAreSound(n);
    if n <= ATOMIC_NUM_LINES {
      input := HashAll(lines);
    } else {
      input := [];
      for s := 0 to |DIGEST_SPEC|
        invariant AllBelow(Windows(n, s), n)
        invariant input == Pick(StripAll(lines), Windows(n, s))
      {
        var (offset, length) := DIGEST_SPEC[s];
        var start := offset * n / 100;
        var part := HashWindow(lines, start, length);
        NextWindow(StripAll(lines), s);
        input := input + part;
      }
      WindowsUnfold(n);
    }
  }

  /** The digest: the hash of the sampled lines of all payloads. */
  method Compute(payloads: seq<string>, sha1: string -> string) returns (digest: string)
    ensures digest == sha1(HashedText(payloads))
  {
    var lines := CollectLines(payloads);
    forall k | 0 <= k < |lines| ensures RStrip(lines[k]) == lines[k] {
      KeptAllAreNormalized(payloads, k);
    }
    assert StripAll(lines) == lines;
    var input := HashInput(lines);
    digest := sha1(input);
  }

  // ---------------------------------------------------------------- what is hashed

  function Concat(lines: seq<string>): string {
    if lines == [] then [] else Concat(lines[..|lines| - 1]) + lines[|lines| - 1]
  }

  lemma {:induction false} PickAll(lines: seq<string>, n: nat)
    requires n <= |lines|
    ensures AllBelow(seq(n, i => i), |lines|) && Pick(lines, seq(n, i => i)) == Concat(lines[..n])
  {
    var at: seq<nat> := seq(n, i => i);
    if n > 0 {
      PickAll(lines, n - 1);
      assert at == seq(n - 1, i => i) + [n - 1];
      PickNext(lines, seq(n - 1, i => i), n - 1);
      assert lines[..n][..n - 1] == lines[..n - 1];
    }
  }

  lemma {:induction false} PickThree(lines: seq<string>, at: seq<nat>, i: nat, j: nat, k: nat)
    requires AllBelow(at, |lines|) && i < |lines| && j < |lines| && k < |lines|
    ensures AllBelow(at + [i, j, k], |lines|)
    ensures Pick(lines, at + [i, j, k]) == Pick(lines, at) + lines[i] + lines[j] + lines[k]
  {
    PickNext(lines, at, i);
    PickNext(lines, at + [i], j);
    PickNext(lines, at + [i] + [j], k);
    assert at + [i] + [j] + [k] == at + [i, j, k];
  }

  /**
   The hash input, line by line: up to four kept lines all of them in order; from seven on three
   from a fifth and three from three fifths of the way; in between the second window is cut.
   */
  lemma {:induction false} SampledText(payloads: seq<string>)
    ensures var ls, n := KeptAll(payloads), |KeptAll(payloads)|;
      && (n <= 4 ==> HashedText(payloads) == Concat(ls))
      && (n == 5 ==> HashedText(payloads) == ls[1] + ls[2] + ls[3] + ls[3] + ls[4])
      && (n == 6 ==> HashedText(payloads) == ls[1] + ls[2] + ls[3] + ls[3] + ls[4] + ls[5])
      && (n >= 7 ==> HashedText(payloads) == ls[n / 5] + ls[n / 5 + 1] + ls[n / 5 + 2]
                                           + ls[3 * n / 5] + ls[3 * n / 5 + 1] + ls[3 * n / 5 + 2])
  {
    var ls := KeptAll(payloads);
    PositionsAreSound(|ls|);
    if |ls| <= 4 {
      PickAll(ls, |ls|);
      assert ls[..|ls|] == ls;
    } else if |ls| == 5 {
      PickOfFive(ls);
    } else {
      PickOfSix(ls, if |ls| == 6 then 1 else |ls| / 5, if |ls| == 6 then 3 else 3 * |ls| / 5);
    }
  }

  lemma {:induction false} PickOfFive(ls: seq<string>)
    requires |ls| == 5
    ensures AllBelow([1, 2, 3, 3, 4], 5) && Pick(ls, [1, 2, 3, 3, 4]) == ls[1] + ls[2] + ls[3] + ls[3] + ls[4]
  {
    PickThree(ls, [], 1, 2, 3);
    var at: seq<nat> := [1, 2, 3];
    assert [] + at == at && [] + ls[1] == ls[1];
    PickNext(ls, at, 3);
    PickNext(ls, at + [3], 4);
    assert at + [3] + [4] == [1, 2, 3, 3, 4];
  }

  lemma {:induction false} PickOfSix(ls: seq<string>, i: nat, j: nat)
    requires i + 2 < |ls| && j + 2 < |ls|
    ensures AllBelow([i, i + 1, i + 2, j, j + 1, j + 2], |ls|)
    ensures Pick(ls, [i, i + 1, i + 2, j, j + 1, j + 2])
         == ls[i] + ls[i + 1] + ls[i + 2] + ls[j] + ls[j + 1] + ls[j + 2]
  {
    var at: seq<nat> := [i, i + 1, i + 2];
    PickThree(ls, [], i, i + 1, i + 2);
    assert [] + at == at && [] + ls[i] == ls[i];
    PickThree(ls, at, j, j + 1, j + 2);
    assert at + [j, j + 1, j + 2] == [i, i + 1, i + 2, j, j + 1, j + 2];
  }

  /** A payload that is one line is hashed when the line normalises to eight runes or more. */
  lemma {:induction false} OneLineIsHashed(l: string, e: string)
    requires Unbroken(l) && (e == [] || IsBoundary(e))
    ensures HashedText([l + e]) == if |Normalized(l)| >= 8 then Normalized(l) else []
  {
    KeptAllOne(l + e);
    KeptOfOne(l);
    if e == [] {
      assert l + e == l;
      SplitLast(l);
      NothingNormalized();
    } else {
      KeptWhole(l, e);
    }
    SampledText([l + e]);
    var one := KeptAll([l + e]);
    assert one != [] ==> one[..0] == [];
  }

  // ---------------------------------------------------------------- what the digest does not see

  lemma {:induction false} KeptAllDependsOnKept(a: seq<string>, b: seq<string>)
    requires |a| == |b|
    requires forall p :: 0 <= p < |a| ==> KeptLines(a[p]) == KeptLines(b[p])
    ensures KeptAll(a) == KeptAll(b)
  {
    if a != [] {
      KeptAllDependsOnKept(a[1..], b[1..]);
    }
  }

  /** Rewriting the LFs of every payload as CR LF leaves the hashed text as it is. */
  lemma LineEndsDoNotMatter(a: seq<string>, b: seq<string>)
    requires |a| == |b|
    requires forall p :: 0 <= p < |a| ==> b[p] == ToCrlf(a[p])
    ensures HashedText(b) == HashedText(a)
  {
    forall p | 0 <= p < |a| ensures KeptLines(b[p]) == KeptLines(a[p]) {
      CrlfIsNoise(a[p]);
    }
    KeptAllDependsOnKept(b, a);
  }

  /** So does a line inserted anywhere with any boundary, when it normalises to fewer than eight runes. */
  lemma ShortLinesDoNotMatter(before: seq<string>, a: string, l: string, e: string, b: string, after: seq<string>)
    requires EndsWith(a, IsBreak) && Unbroken(l) && IsBoundary(e) && |Normalized(l)| < 8
    ensures HashedText(before + [a + (l + e) + b] + after) == HashedText(before + [a + b] + after)
  {
    ShortLineIsNoise(a, l, e, b);
    KeptAllMiddle(before, a + (l + e) + b, after);
    KeptAllMiddle(before, a + b, after);
  }

  lemma {:induction false} KeptAllMiddle(before: seq<string>, p: string, after: seq<string>)
    ensures KeptAll(before + [p] + after) == KeptAll(before) + KeptLines(p) + KeptAll(after)
  {
    KeptAllAppend(before + [p], after);
    KeptAllAppend(before, [p]);
    KeptAllOne(p);
  }
}
