/**
 Line normalisation: NUL strip, long runs, e-mail addresses, URLs, all whitespace.
 The passes are given their regular-expression meaning (module Regex); the closed form,
 one map over the maximal non-whitespace runs, is `Normalized`.
 */
module Normalize {
  import opened Basics
  import opened Runes
  import opened Regex

  // ---------------------------------------------------------------- closed form

  /** The maximal non-whitespace runs of `s`, in order. */
  function Runs(s: string): (rs: seq<string>)
    decreases |s|
  {
    if s == [] then []
    else if IsPySpace(s[0]) then Runs(s[1..])
    else
      var n := Span(NonSpace, s);
      [s[..n]] + Runs(s[n..])
  }

  /** '@' strictly inside the run. */
  ghost predicate AtInside(w: string) {
    exists k :: 0 < k < |w| - 1 && w[k] == '@'
  }

  /** From `j`, letters only up to a ':' that at least one more rune follows. */
  ghost predicate SchemeAt(w: string, j: int) {
    exists m :: 0 <= j < m < |w| - 1 && w[m] == ':' && LettersIn(w, j, m)
  }

  ghost predicate LettersIn(w: string, from: int, to: int)
    requires 0 <= from <= to <= |w|
  {
    forall i {:trigger IsFoldedLetter(w[i])} :: from <= i < to ==> IsFoldedLetter(w[i])
  }

  /** The first place at or after `j` where a scheme starts, or the end of the run. */
  ghost function SchemeFrom(w: string, j: nat): (n: nat)
    requires j <= |w|
    ensures j <= n <= |w|
    ensures n < |w| ==> SchemeAt(w, n)
    ensures forall i :: j <= i < n ==> !SchemeAt(w, i)
    decreases |w| - j
  {
    if j == |w| || SchemeAt(w, j) then j else SchemeFrom(w, j + 1)
  }

  /** What normalisation leaves of one run. */
  ghost function RunForm(w: string): string {
    if |w| >= 10 || AtInside(w) then [] else w[..SchemeFrom(w, 0)]
  }

  ghost function FormsOf(rs: seq<string>): string {
    if rs == [] then [] else RunForm(rs[0]) + FormsOf(rs[1..])
  }

  /** The closed form of `normalize`. */
  ghost function Normalized(s: string): string {
    FormsOf(Runs(Without(s, NUL)))
  }

  // ---------------------------------------------------------------- one run

  /** A leading space is never part of a match of the three token patterns. */
  lemma {:induction false} SpaceStays(p: Pattern, s: string)
    requires p == LONG || p == EMAIL || p == URL
    requires s != [] && IsPySpace(s[0])
    ensures DeleteAll(p, s) == [s[0]] + DeleteAll(p, s[1..])
  {
    assert Span(p[0].cls, s) == 0;
    assert MatchAt(p, s) == TryCount(p, s, 0);
  }

  lemma {:induction false} RunEndStays(p: Pattern, s: string)
    requires p == LONG || p == EMAIL || p == URL
    requires AtRunEnd(s)
    ensures AtRunEnd(DeleteAll(p, s))
  {
    if s != [] {
      SpaceStays(p, s);
    }
  }

  lemma {:induction false} LongAtRun(w: string, rest: string)
    requires NoSpaceIn(w) && AtRunEnd(rest)
    ensures MatchAt(LONG, w + rest) == if |w| < 10 then NoMatch else Length(|w|)
  {
    SpanRun(w, rest);
    GreedyMatch(NonSpace, 10, w + rest);
  }

  /** What the pattern sees at position `i` of a run. */
  lemma RunFrom(w: string, rest: string, i: nat)
    requires i <= |w|
    ensures (w + rest)[i..] == w[i..] + rest
    ensures (w + rest)[..i] == w[..i]
    ensures w[0..] == w[..|w|] == w && w[|w|..] + rest == rest
    ensures NoSpaceIn(w) ==> NoSpaceIn(w[i..])
  {
  }

  lemma {:induction false} LongOnRun(w: string, rest: string)
    requires NoSpaceIn(w) && AtRunEnd(rest)
    ensures |w| >= 10 ==> DeleteAll(LONG, w + rest) == DeleteAll(LONG, rest)
    ensures |w| < 10 ==> DeleteAll(LONG, w + rest) == w + DeleteAll(LONG, rest)
  {
    if |w| >= 10 {
      LongAtRun(w, rest);
      RunFrom(w, rest, 0);
      RunFrom(w, rest, |w|);
      DeleteFirst(LONG, w + rest, 0, |w|);
    } else {
      forall i | 0 <= i < |w| ensures MatchAt(LONG, (w + rest)[i..]) == NoMatch {
        RunFrom(w, rest, i);
        LongAtRun(w[i..], rest);
      }
      RunFrom(w, rest, |w|);
      KeepPrefix(LONG, w + rest, |w|);
    }
  }

  /** Whether '@' occurs in w[1..k] with a rune after it. */
  ghost predicate AtUpTo(w: string, k: int) {
    exists j :: 0 < j <= k && j < |w| - 1 && w[j] == '@'
  }

  /** The rest of the pattern, from position k on, matches to the end of the run. */
  lemma EmailFrom(w: string, rest: string, k: nat)
    requires NoSpaceIn(w) && AtRunEnd(rest) && 0 < k <= |w|
    ensures MatchAt(EMAIL[1..], (w + rest)[k..]) ==
            if k < |w| - 1 && w[k] == '@' then Length(|w| - k) else NoMatch
  {
    var s := w + rest;
    assert EMAIL[1..] == [Atom(Only('@'), 1, false), Atom(NonSpace, 1, true)];
    TailMatch('@', s[k..]);
    if k < |w| {
      SpanRun(w, rest);
      SpanDrop(NonSpace, s, k + 1);
      assert s[k..][1..] == s[k + 1..];
      assert s[k..][0] == w[k];
    }
  }

  lemma {:induction false} EmailTry(w: string, rest: string, k: nat)
    requires NoSpaceIn(w) && AtRunEnd(rest) && k <= |w|
    ensures TryCount(EMAIL, w + rest, k) == if AtUpTo(w, k) then Length(|w|) else NoMatch
    decreases k
  {
    if k == 0 {
      assert !AtUpTo(w, 0);
    } else {
      EmailFrom(w, rest, k);
      EmailTry(w, rest, k - 1);
      assert AtUpTo(w, k) <==> AtUpTo(w, k - 1) || (k < |w| - 1 && w[k] == '@');
    }
  }

  lemma {:induction false} EmailAtRun(w: string, rest: string)
    requires NoSpaceIn(w) && AtRunEnd(rest) && w != []
    ensures MatchAt(EMAIL, w + rest) == if AtInside(w) then Length(|w|) else NoMatch
  {
    SpanRun(w, rest);
    EmailTry(w, rest, |w|);
    assert AtUpTo(w, |w|) <==> AtInside(w);
  }

  lemma {:induction false} EmailOnRun(w: string, rest: string)
    requires NoSpaceIn(w) && AtRunEnd(rest)
    ensures AtInside(w) ==> DeleteAll(EMAIL, w + rest) == DeleteAll(EMAIL, rest)
    ensures !AtInside(w) ==> DeleteAll(EMAIL, w + rest) == w + DeleteAll(EMAIL, rest)
  {
    RunFrom(w, rest, |w|);
    RunFrom(w, rest, 0);
    if AtInside(w) {
      EmailAtRun(w, rest);
      DeleteFirst(EMAIL, w + rest, 0, |w|);
    } else {
      forall i | 0 <= i < |w| ensures MatchAt(EMAIL, (w + rest)[i..]) == NoMatch {
        RunFrom(w, rest, i);
        EmailAtRun(w[i..], rest);
        if AtInside(w[i..]) {
          AtInsideSuffix(w, i);
        }
      }
      KeepPrefix(EMAIL, w + rest, |w|);
    }
  }

  lemma AtInsideSuffix(w: string, i: nat)
    requires i <= |w| && AtInside(w[i..])
    ensures AtInside(w)
  {
    var k :| 0 < k < |w[i..]| - 1 && w[i..][k] == '@';
    assert w[i + k] == '@';
  }

  /** The rest of the pattern, from position k on, matches to the end of the run. */
  lemma UrlTail(w: string, rest: string, k: nat)
    requires NoSpaceIn(w) && AtRunEnd(rest) && 0 < k <= |w|
    ensures MatchAt(URL[1..], (w + rest)[k..]) ==
            if k < |w| - 1 && w[k] == ':' then Length(|w| - k) else NoMatch
  {
    var s := w + rest;
    assert URL[1..] == [Atom(Only(':'), 1, false), Atom(NonSpace, 1, true)];
    TailMatch(':', s[k..]);
    if k < |w| {
      SpanRun(w, rest);
      SpanDrop(NonSpace, s, k + 1);
      assert s[k..][1..] == s[k + 1..];
      assert s[k..][0] == w[k];
    }
  }

  lemma {:induction false} UrlTry(w: string, rest: string, k: nat)
    requires NoSpaceIn(w) && AtRunEnd(rest) && k <= |w| && LettersIn(w, 0, k)
    ensures TryCount(URL, w + rest, k) == if 0 < k < |w| - 1 && w[k] == ':' then Length(|w|) else NoMatch
    decreases k
  {
    if k > 0 {
      UrlTail(w, rest, k);
      assert IsFoldedLetter(w[k - 1]);
      UrlTry(w, rest, k - 1);
    }
  }

  lemma SpacesAreNoLetters(c: char)
    requires IsPySpace(c)
    ensures !IsFoldedLetter(c)
  {
  }

  lemma {:induction false} UrlAtRun(w: string, rest: string)
    requires NoSpaceIn(w) && AtRunEnd(rest) && w != []
    ensures MatchAt(URL, w + rest) == if SchemeAt(w, 0) then Length(|w|) else NoMatch
  {
    var s := w + rest;
    var n := Span(Letter, s);
    SpanIsLongest(Letter, s);
    assert n <= |w| by {
      if n > |w| {
        RunFrom(w, rest, |w|);
        SpacesAreNoLetters(s[|w|..][0]);
        assert false;
      }
    }
    assert forall i :: 0 <= i < n ==> s[i] == w[i];
    UrlTry(w, rest, n);
    if SchemeAt(w, 0) {
      var m :| 0 < m < |w| - 1 && w[m] == ':' && LettersIn(w, 0, m);
      assert s[m] == w[m];
      assert m == n;
    }
  }

  lemma SchemeShift(w: string, j: nat)
    requires j <= |w|
    ensures SchemeAt(w[j..], 0) <==> SchemeAt(w, j)
  {
    var v := w[j..];
    if SchemeAt(v, 0) {
      var m :| 0 < m < |v| - 1 && v[m] == ':' && LettersIn(v, 0, m);
      forall i | j <= i < m + j ensures IsFoldedLetter(w[i]) {
        assert w[i] == v[i - j];
      }
      assert w[m + j] == ':' && LettersIn(w, j, m + j);
    }
    if SchemeAt(w, j) {
      var m :| j < m < |w| - 1 && w[m] == ':' && LettersIn(w, j, m);
      assert v[m - j] == ':' && LettersIn(v, 0, m - j);
    }
  }

  lemma UrlAt(w: string, rest: string, i: nat)
    requires NoSpaceIn(w) && AtRunEnd(rest) && i < |w|
    ensures MatchAt(URL, (w + rest)[i..]) == if SchemeAt(w, i) then Length(|w| - i) else NoMatch
  {
    RunFrom(w, rest, i);
    UrlAtRun(w[i..], rest);
    SchemeShift(w, i);
  }

  lemma {:induction false} UrlOnRun(w: string, rest: string)
    requires NoSpaceIn(w) && AtRunEnd(rest)
    ensures DeleteAll(URL, w + rest) == w[..SchemeFrom(w, 0)] + DeleteAll(URL, rest)
  {
    var s, n := w + rest, SchemeFrom(w, 0);
    forall i | 0 <= i < n ensures MatchAt(URL, s[i..]) == NoMatch {
      UrlAt(w, rest, i);
    }
    if n < |w| {
      UrlAt(w, rest, n);
      DeleteFirst(URL, s, n, |w| - n);
    } else {
      KeepPrefix(URL, s, |w|);
    }
    RunFrom(w, rest, |w|);
    RunFrom(w, rest, n);
  }

  // ---------------------------------------------------------------- all runs

  /** The regular-expression passes of `normalize` after the NUL strip, without the fast guards. */
  function Passes(s: string): string {
    Squeeze(DeleteAll(URL, DeleteAll(EMAIL, DeleteAll(LONG, s))))
  }

  lemma PassesOnRun(w: string, rest: string)
    requires NoSpaceIn(w) && AtRunEnd(rest)
    ensures Passes(w + rest) == RunForm(w) + Passes(rest)
  {
    var r1 := DeleteAll(LONG, rest);
    var r2 := DeleteAll(EMAIL, r1);
    RunEndStays(LONG, rest);
    RunEndStays(EMAIL, r1);
    LongOnRun(w, rest);
    EmailOnRun(w, r1);
    UrlOnRun(w, r2);
    SqueezeAppend(w[..SchemeFrom(w, 0)], DeleteAll(URL, r2));
    SqueezeClears(w[..SchemeFrom(w, 0)]);
    assert [] + Passes(rest) == Passes(rest);
  }

  /** The passes, applied one after the other to the whole text, amount to the closed form. */
  lemma {:induction false} PassesAreRunwise(s: string)
    ensures Passes(s) == FormsOf(Runs(s))
    decreases |s|
  {
    if s == [] {
    } else if IsPySpace(s[0]) {
      var s1 := DeleteAll(LONG, s);
      SpaceStays(LONG, s);
      assert s1[1..] == DeleteAll(LONG, s[1..]);
      SpaceStays(EMAIL, s1);
      var s2 := DeleteAll(EMAIL, s1);
      assert s2[1..] == DeleteAll(EMAIL, s1[1..]);
      SpaceStays(URL, s2);
      assert Passes(s) == Passes(s[1..]);
      PassesAreRunwise(s[1..]);
    } else {
      var n := Span(NonSpace, s);
      FirstRun(s);
      PassesOnRun(s[..n], s[n..]);
      PassesAreRunwise(s[n..]);
    }
  }

  // ---------------------------------------------------------------- the fast guards

  /** EMAIL and URL need their separator: without it nothing is deleted. */
  lemma {:induction false} NoSeparatorNoMatch(p: Pattern, s: string)
    requires (p == EMAIL && '@' !in s) || (p == URL && ':' !in s)
    ensures DeleteAll(p, s) == s
    decreases |s|
  {
    if s == [] {
    } else if IsPySpace(s[0]) {
      SpaceStays(p, s);
      NoSeparatorNoMatch(p, s[1..]);
    } else {
      var n := Span(NonSpace, s);
      FirstRun(s);
      NoSeparatorInRun(p, s[..n], s[n..]);
      NoSeparatorNoMatch(p, s[n..]);
    }
  }

  lemma {:induction false} NoSeparatorInRun(p: Pattern, w: string, rest: string)
    requires (p == EMAIL && '@' !in w) || (p == URL && ':' !in w)
    requires NoSpaceIn(w) && AtRunEnd(rest)
    ensures DeleteAll(p, w + rest) == w + DeleteAll(p, rest)
  {
    if p == EMAIL {
      EmailOnRun(w, rest);
    } else {
      UrlOnRun(w, rest);
      assert w[..|w|] == w;
    }
  }

  // ---------------------------------------------------------------- long runs

  ghost predicate HasLongRun(s: string) {
    exists i :: LongRunAt(s, i)
  }

  ghost predicate LongRunAt(s: string, i: int) {
    0 <= i <= |s| - 10 && NoSpaceIn(s[i..i + 10])
  }

  lemma RunEndInside(w: string, rest: string, i: nat)
    requires AtRunEnd(rest) && i < |w| < i + 10 <= |w + rest|
    ensures !NoSpaceIn((w + rest)[i..i + 10])
  {
    assert (w + rest)[i..i + 10][|w| - i] == rest[0];
  }

  lemma LongRunSplit(w: string, rest: string)
    requires AtRunEnd(rest) && |w| < 10
    ensures HasLongRun(w + rest) <==> HasLongRun(rest)
  {
    var s := w + rest;
    if HasLongRun(s) {
      var i :| LongRunAt(s, i);
      if i < |w| {
        RunEndInside(w, rest, i);
        assert false;
      } else {
        assert s[i..i + 10] == rest[i - |w|..i - |w| + 10];
        assert LongRunAt(rest, i - |w|);
      }
    }
    if HasLongRun(rest) {
      var i :| LongRunAt(rest, i);
      assert s[i + |w|..i + |w| + 10] == rest[i..i + 10];
      assert LongRunAt(s, i + |w|);
    }
  }

  lemma LongRunSpace(s: string)
    requires s != [] && IsPySpace(s[0])
    ensures HasLongRun(s) <==> HasLongRun(s[1..])
  {
    if HasLongRun(s) {
      var i :| LongRunAt(s, i);
      assert s[i..i + 10][0] == s[i];
      assert s[1..][i - 1..i + 9] == s[i..i + 10];
      assert LongRunAt(s[1..], i - 1);
    }
    if HasLongRun(s[1..]) {
      var i :| LongRunAt(s[1..], i);
      assert s[1..][i..i + 10] == s[i + 1..i + 11];
      assert LongRunAt(s, i + 1);
    }
  }

  /** Deleting long runs leaves none, and changes the text exactly when there was one. */
  lemma {:induction false} LongRunsGone(s: string)
    ensures !HasLongRun(DeleteAll(LONG, s))
    ensures DeleteAll(LONG, s) == s <==> !HasLongRun(s)
    ensures |DeleteAll(LONG, s)| <= |s|
    decreases |s|
  {
    if s == [] {
    } else if IsPySpace(s[0]) {
      SpaceStays(LONG, s);
      LongRunsGone(s[1..]);
      LongRunSpace(s);
      LongRunSpace(DeleteAll(LONG, s));
      assert DeleteAll(LONG, s)[1..] == DeleteAll(LONG, s[1..]);
      assert s == [s[0]] + s[1..];
    } else {
      var n := Span(NonSpace, s);
      var w, rest := s[..n], s[n..];
      FirstRun(s);
      LongRunsGone(rest);
      if n >= 10 {
        LongOnRun(w, rest);
        assert LongRunAt(s, 0) by {
          assert s[0..0 + 10] == w[..10];
        }
        assert |DeleteAll(LONG, s)| < |s|;
      } else {
        LongOnRun(w, rest);
        LongRunSplit(w, rest);
        RunEndStays(LONG, rest);
        LongRunSplit(w, DeleteAll(LONG, rest));
      }
    }
  }

  /** Hence a second pass over the result changes nothing. */
  lemma {:induction false} LongRunsIdempotent(s: string)
    ensures DeleteAll(LONG, DeleteAll(LONG, s)) == DeleteAll(LONG, s)
  {
    LongRunsGone(s);
    LongRunsGone(DeleteAll(LONG, s));
  }

  /** No whitespace in s[from..to]. */
  ghost predicate Clear(s: string, from: int, to: int)
    requires 0 <= from <= to <= |s|
  {
    forall k {:trigger IsPySpace(s[k])} :: from <= k < to ==> !IsPySpace(s[k])
  }

  /** The scanner meets the end `i` of the run that starts at `from`. */
  lemma CloseRun(s: string, from: nat, i: nat)
    requires from <= i <= |s| && Clear(s, from, i)
    requires i < |s| ==> IsPySpace(s[i])
    ensures DeleteAll(LONG, s[from..]) == Kept(s, from, i) + DeleteAll(LONG, s[i..])
    ensures i < |s| ==> DeleteAll(LONG, s[i..]) == [s[i]] + DeleteAll(LONG, s[i + 1..])
  {
    var w, rest := s[from..i], s[i..];
    assert s[from..] == w + rest;
    LongOnRun(w, rest);
    if i < |s| {
      SpaceStays(LONG, rest);
      assert rest[1..] == s[i + 1..];
    }
  }

  /** What is kept of the run s[from..i]. */
  function Kept(s: string, from: nat, i: nat): string
    requires from <= i <= |s|
  {
    if i - from >= 10 then [] else s[from..i]
  }

  /** The result of the rest of the scan, position by position, as the scanner may use it. */
  ghost predicate Scannable(s: string, rest: seq<string>) {
    && |rest| == |s| + 1
    && rest[|s|] == []
    && (forall i {:trigger IsCopied(s, rest, i)} :: 0 <= i < |s| && IsPySpace(s[i]) ==> IsCopied(s, rest, i))
    && (forall from, i {:trigger Kept(s, from, i)} ::
          0 <= from <= i <= |s| && Clear(s, from, i) && (i < |s| ==> IsPySpace(s[i])) ==>
            rest[from] == Kept(s, from, i) + rest[i])
  }

  ghost predicate IsCopied(s: string, rest: seq<string>, i: nat)
    requires i < |s| < |rest|
  {
    rest[i] == [s[i]] + rest[i + 1]
  }

  lemma ScanTable(s: string) returns (rest: seq<string>)
    ensures Scannable(s, rest) && rest[0] == DeleteAll(LONG, s)
  {
    rest := seq(|s| + 1, k requires 0 <= k <= |s| => DeleteAll(LONG, s[k..]));
    assert s[0..] == s && s[|s|..] == [];
    forall i | 0 <= i < |s| && IsPySpace(s[i]) ensures IsCopied(s, rest, i) {
      CloseRun(s, i, i);
    }
    forall from, i | 0 <= from <= i <= |s| && Clear(s, from, i) && (i < |s| ==> IsPySpace(s[i]))
      ensures rest[from] == Kept(s, from, i) + rest[i]
    {
      CloseRun(s, from, i);
    }
  }

  /** A short run and the space behind it join the slice still to copy. */
  lemma KeepRun(s: string, rest: seq<string>, out: string, last: nat, from: nat, i: nat)
    requires Scannable(s, rest)
    requires last <= from <= i < |s| && Clear(s, from, i) && IsPySpace(s[i]) && i - from < 10
    ensures out + s[last..from] + rest[from] == out + s[last..i + 1] + rest[i + 1]
  {
    var w := Kept(s, from, i);
    assert IsCopied(s, rest, i);
    Assoc(w, [s[i]], rest[i + 1]);
    Assoc(out + s[last..from], w + [s[i]], rest[i + 1]);
    Assoc(out, s[last..from], w + [s[i]]);
    assert s[last..i + 1] == s[last..from] + (w + [s[i]]);
  }

  /** Before a long run the slice is copied; the next one starts at the space behind the run. */
  lemma SkipRun(s: string, rest: seq<string>, out: string, last: nat, from: nat, i: nat)
    requires Scannable(s, rest)
    requires last <= from <= i < |s| && Clear(s, from, i) && IsPySpace(s[i]) && i - from >= 10
    ensures out + s[last..from] + rest[from] == out + s[last..from] + s[i..i + 1] + rest[i + 1]
  {
    assert IsCopied(s, rest, i);
    assert Kept(s, from, i) + rest[i] == rest[i];
    Assoc(out + s[last..from], s[i..i + 1], rest[i + 1]);
  }

  /** The text ends with a run. */
  lemma LastRun(s: string, rest: seq<string>, out: string, last: nat, from: nat)
    requires Scannable(s, rest)
    requires last <= from <= |s| && Clear(s, from, |s|)
    ensures |s| - from >= 10 ==> out + s[last..from] + rest[from] == out + s[last..from] + s[|s|..]
    ensures |s| - from < 10 ==> out + s[last..from] + rest[from] == out + s[last..]
  {
    var w := Kept(s, from, |s|);
    assert w + rest[|s|] == w;
    if |s| - from < 10 {
      Assoc(out, s[last..from], w);
      assert s[last..] == s[last..from] + w;
    }
  }

  /** The hand-written scanner: `runStart`, `runes` describe the current run, `last` what is copied. */
  method RemoveLongRuns(s: string) returns (r: string)
    ensures r == DeleteAll(LONG, s)
  {
    var runStart, runes, last := 0, 0, 0;
    var out: string := [];
    var grown := false;
    ghost var rest := ScanTable(s);
    ghost var from := 0;
    for i := 0 to |s|
      invariant last <= from <= i && runes == i - from
      invariant runes > 0 ==> runStart == from
      invariant Clear(s, from, i)
      invariant !grown ==> out == [] && last == 0
      invariant out + s[last..from] + rest[from] == rest[0]
    {
      if !IsPySpace(s[i]) {
        if runes == 0 {
          runStart := i;
        }
        runes := runes + 1;
        continue;
      }
      if runes >= 10 {
        SkipRun(s, rest, out, last, from, i);
        grown := true;
        out := out + s[last..runStart];
        last := i;
      } else {
        KeepRun(s, rest, out, last, from, i);
      }
      runes := 0;
      from := i + 1;
    }
    if runes >= 10 {
      LastRun(s, rest, out, last, from);
      grown := true;
      out := out + s[last..runStart];
      last := |s|;
    } else {
      LastRun(s, rest, out, last, from);
    }
    if !grown {
      assert [] + s[0..] == s;
      return s;
    }
    out := out + s[last..];
    return out;
  }

  // ---------------------------------------------------------------- whitespace

  /** Deleting every whitespace rune is what the reference pattern does. */
  lemma {:induction false} SqueezeIsDeletion(s: string)
    ensures DeleteAll(SPACES, s) == Squeeze(s)
  {
    if s != [] {
      assert SPACES[1..] == [];
      assert MatchAt(SPACES, s) == if IsPySpace(s[0]) then Length(1) else NoMatch by {
        if IsPySpace(s[0]) {
          assert Span(Space, s) >= 1;
          assert MatchAt(SPACES, s) == TryCount(SPACES, s, 1);
        }
      }
      SqueezeIsDeletion(s[1..]);
    }
  }

  lemma SqueezeStep(s: string, out: string, last: nat, i: nat)
    requires last <= i < |s| && Clear(s, last, i) && IsPySpace(s[i])
    ensures out + Squeeze(s[last..]) == out + s[last..i] + Squeeze(s[i + 1..])
  {
    assert s[last..] == s[last..i] + s[i..];
    SqueezeAppend(s[last..i], s[i..]);
    SqueezeClears(s[last..i]);
    assert s[i..][1..] == s[i + 1..];
    Assoc(out, s[last..i], Squeeze(s[i + 1..]));
  }

  lemma {:induction false} SqueezeHead(s: string, first: nat)
    requires first <= |s| && Clear(s, 0, first)
    ensures s[..first] + Squeeze(s[first..]) == Squeeze(s)
  {
    SqueezeAppend(s[..first], s[first..]);
    SqueezeClears(s[..first]);
    assert s == s[..first] + s[first..];
  }

  lemma SqueezeTail(s: string, last: nat)
    requires last <= |s| && Clear(s, last, |s|)
    ensures Squeeze(s[last..]) == s[last..]
  {
    SqueezeClears(s[last..]);
  }

  method RemovePyWhitespace(s: string) returns (r: string)
    ensures r == Squeeze(s)
  {
    var first := -1;
    for i := 0 to |s|
      invariant first == -1
      invariant Clear(s, 0, i)
    {
      if IsPySpace(s[i]) {
        first := i;
        break;
      }
    }
    if first < 0 {
      SqueezeTail(s, 0);
      assert s[0..] == s;
      return s;
    }
    var out := s[..first];
    var last := first;
    ghost var todo := Squeeze(s[first..]);
    SqueezeHead(s, first);
    for i := first to |s|
      invariant first <= last <= i
      invariant Clear(s, last, i)
      invariant todo == Squeeze(s[last..]) && out + todo == Squeeze(s)
    {
      if !IsPySpace(s[i]) {
        continue;
      }
      SqueezeStep(s, out, last, i);
      todo := Squeeze(s[i + 1..]);
      assert out + s[last..i] + todo == Squeeze(s);
      out := out + s[last..i];
      last := i + 1;
    }
    SqueezeTail(s, last);
    out := out + s[last..];
    return out;
  }

  // ---------------------------------------------------------------- normalize

  /** The five passes with their guards compute the closed form. */
  method NormalizeLine(line: string) returns (s: string)
    ensures s == Normalized(line)
    ensures NoSpaceIn(s)
  {
    s := line;
    if NUL in s {
      s := Without(s, NUL);
    }
    ghost var t := s;
    s := RemoveLongRuns(s);
    if '@' in s {
      s := DeleteAll(EMAIL, s);
    } else {
      NoSeparatorNoMatch(EMAIL, s);
    }
    if ':' in s {
      s := DeleteAll(URL, s);
    } else {
      NoSeparatorNoMatch(URL, s);
    }
    SqueezeClears(s);
    s := RemovePyWhitespace(s);
    PassesAreRunwise(t);
  }
}
