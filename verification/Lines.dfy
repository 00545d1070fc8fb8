/**
 Splitting a payload into lines, and the normalised lines that enter the digest.
 */
module Lines {
  import opened Basics
  import opened Runes
  import opened Normalize
  import opened Regex

  const MIN_LINE_LENGTH := 8

  // ---------------------------------------------------------------- splitting

  /** Position of the first line boundary, or the length. */
  function FirstBreak(s: string): (n: nat)
    ensures n <= |s|
  {
    if s == [] || IsBreak(s[0]) then 0 else 1 + FirstBreak(s[1..])
  }

  lemma {:induction false} FirstBreakSpec(s: string)
    ensures Unbroken(s[..FirstBreak(s)])
    ensures FirstBreak(s) < |s| ==> IsBreak(s[FirstBreak(s)])
  {
    if s != [] && !IsBreak(s[0]) {
      FirstBreakSpec(s[1..]);
      assert s[..FirstBreak(s)] == [s[0]] + s[1..][..FirstBreak(s[1..])];
    }
  }

  ghost predicate Unbroken(l: string) {
    forall i {:trigger IsBreak(l[i])} :: 0 <= i < |l| ==> !IsBreak(l[i])
  }

  lemma {:induction false} FirstBreakAt(l: string, t: string)
    requires Unbroken(l)
    requires t == [] || IsBreak(t[0])
    ensures FirstBreak(l + t) == |l|
  {
    if l == [] {
      assert l + t == t;
    } else {
      assert !IsBreak(l[0]);
      forall i | 0 <= i < |l| - 1 ensures !IsBreak(l[1..][i]) {
        assert !IsBreak(l[i + 1]);
      }
      assert (l + t)[1..] == l[1..] + t;
      FirstBreakAt(l[1..], t);
    }
  }

  /** How many runes the boundary at the start of `t` takes: CR LF is one boundary. */
  function BreakLength(t: string): (n: nat)
    requires t != []
    ensures 1 <= n <= |t|
  {
    if t[0] == CR && |t| > 1 && t[1] == LF then 2 else 1
  }

  function SplitLines(s: string): (lines: seq<string>)
    decreases |s|
  {
    var n := FirstBreak(s);
    if n < |s| then [s[..n]] + SplitLines(s[n..][BreakLength(s[n..])..])
    else if s != [] then [s]
    else []
  }

  /** One line taken off the front. */
  lemma {:induction false} SplitFirst(l: string, t: string)
    requires Unbroken(l) && t != [] && IsBreak(t[0])
    ensures SplitLines(l + t) == [l] + SplitLines(t[BreakLength(t)..])
  {
    FirstBreakAt(l, t);
    assert (l + t)[..|l|] == l;
    assert (l + t)[|l|..] == t;
  }

  lemma {:induction false} SplitLast(l: string)
    requires Unbroken(l)
    ensures SplitLines(l) == if l == [] then [] else [l]
  {
    FirstBreakAt(l, []);
    assert l + [] == l;
  }

  ghost predicate NoBreak(s: string, from: int, to: int)
    requires 0 <= from <= to <= |s|
  {
    forall k {:trigger IsBreak(s[k])} :: from <= k < to ==> !IsBreak(s[k])
  }

  /** Where the text goes on after the boundary at `i`. */
  function BreakEnd(s: string, i: nat): (n: nat)
    requires i < |s|
    ensures i < n <= |s|
  {
    if s[i] == CR && i + 1 < |s| && s[i + 1] == LF then i + 2 else i + 1
  }

  /** `out` holds the lines of everything in front of `start`. */
  ghost predicate SplitUpTo(s: string, out: seq<string>, start: nat)
    requires start <= |s|
  {
    out + SplitLines(s[start..]) == SplitLines(s)
  }

  lemma NothingSplit(s: string)
    ensures SplitUpTo(s, [], 0)
  {
    assert s[0..] == s;
    var all := SplitLines(s);
    assert [] + all == all;
  }

  /** The boundary at `i` ends the first line of what starts at `start`. */
  lemma LineAt(s: string, start: nat, i: nat)
    requires start <= i < |s| && NoBreak(s, start, i) && IsBreak(s[i])
    ensures SplitLines(s[start..]) == [s[start..i]] + SplitLines(s[BreakEnd(s, i)..])
  {
    var l, t := s[start..i], s[i..];
    assert s[start..] == l + t;
    SplitFirst(l, t);
    assert BreakEnd(s, i) == i + BreakLength(t);
    assert t[BreakLength(t)..] == s[BreakEnd(s, i)..];
  }

  /** It closes the line s[start..i]. */
  lemma CloseLine(s: string, out: seq<string>, start: nat, i: nat)
    requires start <= i < |s| && NoBreak(s, start, i) && IsBreak(s[i])
    requires SplitUpTo(s, out, start)
    ensures SplitUpTo(s, out + [s[start..i]], BreakEnd(s, i))
  {
    LineAt(s, start, i);
    var after := SplitLines(s[BreakEnd(s, i)..]);
    Assoc(out, [s[start..i]], after);
  }

  /** What is left without a boundary is a last line, unless it is empty. */
  lemma {:induction false} LastLine(s: string, out: seq<string>, start: nat)
    requires start <= |s| && NoBreak(s, start, |s|) && SplitUpTo(s, out, start)
    ensures SplitLines(s) == if start < |s| then out + [s[start..]] else out
  {
    SplitLast(s[start..]);
    assert out + [] == out;
  }

  /** The scanner: s[start..i] is the line being read. */
  method SplitLinesScan(s: string) returns (out: seq<string>)
    ensures out == SplitLines(s)
  {
    out := [];
    var start, i := 0, 0;
    NothingSplit(s);
    while i < |s|
      invariant start <= i <= |s|
      invariant NoBreak(s, start, i)
      invariant SplitUpTo(s, out, start)
    {
      ghost var next := BreakEnd(s, i);
      if s[i] == CR {
        CloseLine(s, out, start, i);
        out := out + [s[start..i]];
        assert SplitUpTo(s, out, next);
        i := i + 1;
        if i < |s| && s[i] == LF {
          i := i + 1;
        }
        start := i;
        assert start == next;
      } else if IsBreak(s[i]) {
        CloseLine(s, out, start, i);
        out := out + [s[start..i]];
        assert SplitUpTo(s, out, next);
        i := i + 1;
        start := i;
        assert start == next;
      } else {
        i := i + 1;
      }
    }
    LastLine(s, out, start);
    if start < |s| {
      out := out + [s[start..]];
    }
  }

  // ---------------------------------------------------------------- exactness

  /** A line and the boundary that ended it; the boundary is empty after an unterminated last line. */
  datatype Piece = Piece(line: string, end: string)

  function Rebuild(ps: seq<Piece>): string {
    if ps == [] then [] else ps[0].line + ps[0].end + Rebuild(ps[1..])
  }

  function LinesOf(ps: seq<Piece>): seq<string> {
    if ps == [] then [] else [ps[0].line] + LinesOf(ps[1..])
  }

  /** A boundary: one break rune, or CR LF. */
  ghost predicate IsBoundary(e: string) {
    (|e| == 1 && IsBreak(e[0])) || e == [CR, LF]
  }

  /**
   No line holds a break rune; every line has its boundary, save a last line that is not empty;
   and no boundary cuts a CR LF in two.
   */
  ghost predicate WellSplit(ps: seq<Piece>) {
    ps != [] ==>
      && Unbroken(ps[0].line)
      && (if ps[0].end == [] then |ps| == 1 && ps[0].line != [] else IsBoundary(ps[0].end))
      && (ps[0].end == [CR] ==> !StartsWith(Rebuild(ps[1..]), LF))
      && WellSplit(ps[1..])
  }

  predicate StartsWith(s: string, c: char) {
    s != [] && s[0] == c
  }

  /** The decomposition that SplitLines stands for. */
  function Pieces(s: string): seq<Piece>
    decreases |s|
  {
    var n := FirstBreak(s);
    if n < |s| then
      var t := s[n..];
      [Piece(s[..n], t[..BreakLength(t)])] + Pieces(t[BreakLength(t)..])
    else if s != [] then [Piece(s, [])]
    else []
  }

  lemma {:induction false} PieceFirst(l: string, t: string)
    requires Unbroken(l) && t != [] && IsBreak(t[0])
    ensures Pieces(l + t) == [Piece(l, t[..BreakLength(t)])] + Pieces(t[BreakLength(t)..])
  {
    FirstBreakAt(l, t);
    assert (l + t)[..|l|] == l;
    assert (l + t)[|l|..] == t;
  }

  lemma {:induction false} RebuildFirst(p: Piece, ps: seq<Piece>)
    ensures Rebuild([p] + ps) == p.line + p.end + Rebuild(ps)
    ensures LinesOf([p] + ps) == [p.line] + LinesOf(ps)
    ensures WellSplit([p] + ps) <==>
              && Unbroken(p.line)
              && (if p.end == [] then ps == [] && p.line != [] else IsBoundary(p.end))
              && (p.end == [CR] ==> !StartsWith(Rebuild(ps), LF))
              && WellSplit(ps)
  {
    assert ([p] + ps)[1..] == ps;
  }

  /** Splitting is lossless, and its lines are those of a well-formed decomposition. */
  lemma {:induction false} SplitIsLossless(s: string)
    ensures WellSplit(Pieces(s))
    ensures Rebuild(Pieces(s)) == s
    ensures LinesOf(Pieces(s)) == SplitLines(s)
    decreases |s|, 1
  {
    var n := FirstBreak(s);
    FirstBreakSpec(s);
    if n < |s| {
      var l, t := s[..n], s[n..];
      assert s == l + t && t[0] == s[n];
      LosslessFirst(l, t);
    } else {
      LosslessLast(s);
    }
  }

  lemma {:induction false} LosslessLast(s: string)
    requires FirstBreak(s) == |s|
    ensures WellSplit(Pieces(s))
    ensures Rebuild(Pieces(s)) == s
    ensures LinesOf(Pieces(s)) == SplitLines(s)
  {
    if s != [] {
      FirstBreakSpec(s);
      assert s[..|s|] == s;
      assert Pieces(s)[1..] == [];
      assert Rebuild(Pieces(s)) == s + [] + [];
      assert LinesOf(Pieces(s)) == [s] + [];
    }
  }

  lemma {:induction false} LosslessFirst(l: string, t: string)
    requires Unbroken(l) && t != [] && IsBreak(t[0])
    ensures WellSplit(Pieces(l + t))
    ensures Rebuild(Pieces(l + t)) == l + t
    ensures LinesOf(Pieces(l + t)) == SplitLines(l + t)
    decreases |l + t|, 0
  {
    var e, u := t[..BreakLength(t)], t[BreakLength(t)..];
    SplitIsLossless(u);
    PieceFirst(l, t);
    SplitFirst(l, t);
    RebuildFirst(Piece(l, e), Pieces(u));
    BoundaryFirst(t);
    Assoc(l, e, u);
  }

  lemma BoundaryFirst(t: string)
    requires t != [] && IsBreak(t[0])
    ensures var e, u := t[..BreakLength(t)], t[BreakLength(t)..];
            t == e + u && IsBoundary(e) && (e == [CR] ==> !StartsWith(u, LF))
  {
  }

  /** There is no other well-formed decomposition: any one of them has exactly these lines. */
  lemma {:induction false} SplitIsUnique(ps: seq<Piece>)
    requires WellSplit(ps)
    ensures SplitLines(Rebuild(ps)) == LinesOf(ps)
    decreases |ps|
  {
    if ps != [] {
      var l, e, rest := ps[0].line, ps[0].end, Rebuild(ps[1..]);
      SplitIsUnique(ps[1..]);
      if e == [] {
        assert ps[1..] == [];
        assert Rebuild(ps) == l;
        SplitLast(l);
      } else {
        Assoc(l, e, rest);
        SplitFirst(l, e + rest);
        BoundaryLength(e, rest);
      }
    }
  }

  lemma BoundaryLength(e: string, rest: string)
    requires IsBoundary(e)
    requires e == [CR] ==> !StartsWith(rest, LF)
    ensures BreakLength(e + rest) == |e| && (e + rest)[|e|..] == rest
  {
    assert e == [CR] && rest != [] ==> (e + rest)[1] == rest[0];
  }

  // ---------------------------------------------------------------- splitting and normalising

  /** Every line boundary is whitespace to the normaliser. */
  lemma BreaksAreSpaces(c: char)
    requires IsBreak(c)
    ensures IsPySpace(c) && c != NUL
  {
  }

  ghost predicate EndsWith(a: string, ok: char -> bool) {
    a == [] || ok(a[|a| - 1])
  }

  lemma {:induction false} RunsFirst(w: string, rest: string)
    requires w != [] && NoSpaceIn(w) && AtRunEnd(rest)
    ensures Runs(w + rest) == [w] + Runs(rest)
  {
    var s := w + rest;
    SpanRun(w, rest);
    assert s[0] == w[0] && s[..|w|] == w && s[|w|..] == rest;
  }

  lemma {:induction false} RunsAppend(a: string, b: string)
    requires EndsWith(a, IsPySpace)
    ensures Runs(a + b) == Runs(a) + Runs(b)
    decreases |a|
  {
    if a == [] {
      assert a + b == b;
    } else if IsPySpace(a[0]) {
      assert (a + b)[0] == a[0] && (a + b)[1..] == a[1..] + b;
      RunsAppend(a[1..], b);
    } else {
      FirstRun(a);
      var n := Span(NonSpace, a);
      var w, u := a[..n], a[n..];
      assert a == w + u && n < |a|;
      assert u[|u| - 1] == a[|a| - 1] && (u + b)[0] == u[0];
      RunsFirst(w, u);
      RunsFirst(w, u + b);
      RunsAppend(u, b);
      Assoc(w, u, b);
      Assoc([w], Runs(u), Runs(b));
    }
  }

  lemma {:induction false} RunsOfBlanks(b: string)
    requires AllSpaces(b)
    ensures Runs(b) == []
  {
    if b != [] {
      assert IsPySpace(b[0]);
      forall i | 0 <= i < |b| - 1 ensures IsPySpace(b[1..][i]) {
        assert IsPySpace(b[i + 1]);
      }
      RunsOfBlanks(b[1..]);
    }
  }

  /** Whitespace at the end adds no run. */
  lemma {:induction false} RunsTrailing(a: string, b: string)
    requires AllSpaces(b)
    ensures Runs(a + b) == Runs(a)
    decreases |a|
  {
    if a == [] {
      assert a + b == b;
      RunsOfBlanks(b);
    } else if IsPySpace(a[0]) {
      assert (a + b)[0] == a[0] && (a + b)[1..] == a[1..] + b;
      RunsTrailing(a[1..], b);
    } else {
      FirstRun(a);
      var n := Span(NonSpace, a);
      var w, u := a[..n], a[n..];
      assert a == w + u;
      assert u + b != [] ==> (u + b)[0] == if u != [] then u[0] else b[0];
      RunsFirst(w, u);
      RunsFirst(w, u + b);
      RunsTrailing(u, b);
      Assoc(w, u, b);
    }
  }

  lemma {:induction false} FormsAppend(a: seq<string>, b: seq<string>)
    ensures FormsOf(a + b) == FormsOf(a) + FormsOf(b)
  {
    if a == [] {
      assert a + b == b;
    } else {
      assert (a + b)[1..] == a[1..] + b;
      FormsAppend(a[1..], b);
      Assoc(RunForm(a[0]), FormsOf(a[1..]), FormsOf(b));
    }
  }

  lemma {:induction false} WithoutEnd(a: string)
    requires a != [] && IsPySpace(a[|a| - 1])
    ensures EndsWith(Without(a, NUL), IsPySpace)
  {
    var c, init := a[|a| - 1], a[..|a| - 1];
    assert a == init + [c];
    WithoutAppend(init, [c], NUL);
    assert NUL !in [c];
  }

  /** Normalising is a homomorphism wherever a text is cut behind whitespace. */
  lemma NormalizedAppend(a: string, b: string)
    requires EndsWith(a, IsPySpace)
    ensures Normalized(a + b) == Normalized(a) + Normalized(b)
  {
    WithoutAppend(a, b, NUL);
    if a != [] {
      WithoutEnd(a);
    }
    RunsAppend(Without(a, NUL), Without(b, NUL));
    FormsAppend(Runs(Without(a, NUL)), Runs(Without(b, NUL)));
  }

  /** The boundary that ends a line leaves no trace. */
  lemma NormalizedBoundary(l: string, e: string)
    requires IsBoundary(e)
    ensures Normalized(l + e) == Normalized(l)
  {
    BreaksAreSpaces(e[0]);
    BreaksAreSpaces(e[|e| - 1]);
    assert AllSpaces(e);
    WithoutAppend(l, e, NUL);
    RunsTrailing(Without(l, NUL), e);
  }

  ghost function NormalizedAll(lines: seq<string>): string {
    if lines == [] then [] else Normalized(lines[0]) + NormalizedAll(lines[1..])
  }

  lemma NothingNormalized()
    ensures Normalized([]) == []
  {
  }

  /** The first line of a text that has a boundary, the boundary, and what follows. */
  lemma FirstLine(s: string) returns (l: string, e: string, u: string)
    requires FirstBreak(s) < |s|
    ensures s == l + e + u && |u| < |s|
    ensures Unbroken(l) && IsBoundary(e) && (e == [CR] ==> !StartsWith(u, LF))
    ensures IsBreak((l + e)[|l + e| - 1])
    ensures SplitLines(s) == [l] + SplitLines(u)
    ensures SplitLines(s)[1..] == SplitLines(u)
  {
    FirstBreakSpec(s);
    var t := s[FirstBreak(s)..];
    l, e, u := s[..FirstBreak(s)], t[..BreakLength(t)], t[BreakLength(t)..];
    BoundaryFirst(t);
    assert s == l + t;
    Assoc(l, e, u);
    SplitFirst(l, t);
    assert t[|e|..] == u;
    assert ([l] + SplitLines(u))[1..] == SplitLines(u);
    assert (l + e)[|l + e| - 1] == e[|e| - 1];
  }

  lemma {:induction false} LastLineWhole(s: string)
    requires FirstBreak(s) == |s|
    ensures Unbroken(s)
    ensures SplitLines(s) == if s == [] then [] else [s]
  {
    FirstBreakSpec(s);
    assert s[..|s|] == s;
  }

  /** Normalising line by line, in order, gives what normalising the whole text gives. */
  lemma {:induction false} NormalizeDistributes(s: string)
    ensures NormalizedAll(SplitLines(s)) == Normalized(s)
    decreases |s|
  {
    if FirstBreak(s) < |s| {
      var l, e, u := FirstLine(s);
      NormalizeDistributes(u);
      BreaksAreSpaces((l + e)[|l + e| - 1]);
      NormalizedAppend(l + e, u);
      NormalizedBoundary(l, e);
    } else {
      LastLineWhole(s);
      NothingNormalized();
      assert s != [] ==> SplitLines(s)[1..] == [];
    }
  }

  /** The same for whitespace removal alone. */
  lemma {:induction false} SqueezeDistributes(s: string)
    ensures SqueezeAll(SplitLines(s)) == Squeeze(s)
    decreases |s|
  {
    if FirstBreak(s) < |s| {
      var l, e, u := FirstLine(s);
      SqueezeDistributes(u);
      SqueezeAppend(l + e, u);
      SqueezeBoundary(l, e);
    } else {
      LastLineWhole(s);
      assert s != [] ==> SplitLines(s)[1..] == [];
    }
  }

  function SqueezeAll(lines: seq<string>): string {
    if lines == [] then [] else Squeeze(lines[0]) + SqueezeAll(lines[1..])
  }

  lemma {:induction false} SqueezeBoundary(l: string, e: string)
    requires IsBoundary(e)
    ensures Squeeze(l + e) == Squeeze(l)
  {
    BreaksAreSpaces(e[0]);
    BreaksAreSpaces(e[|e| - 1]);
    assert e[1..] == [] || e[1..] == [LF];
    assert [LF][1..] == [];
    assert Squeeze([LF]) == [];
    SqueezeAppend(l, e);
  }

  // ---------------------------------------------------------------- kept lines

  predicate ShouldHandle(norm: string) {
    |norm| >= MIN_LINE_LENGTH
  }

  /** The normalised lines that are long enough, in order. */
  ghost function KeptOf(lines: seq<string>): seq<string> {
    if lines == [] then []
    else (if ShouldHandle(Normalized(lines[0])) then [Normalized(lines[0])] else []) + KeptOf(lines[1..])
  }

  ghost function KeptLines(s: string): seq<string> {
    KeptOf(SplitLines(s))
  }

  lemma {:induction false} KeptOfAppend(a: seq<string>, b: seq<string>)
    ensures KeptOf(a + b) == KeptOf(a) + KeptOf(b)
  {
    if a == [] {
      assert a + b == b;
    } else {
      assert (a + b)[0] == a[0] && (a + b)[1..] == a[1..] + b;
      KeptOfAppend(a[1..], b);
      var norm := Normalized(a[0]);
      Assoc(if ShouldHandle(norm) then [norm] else [], KeptOf(a[1..]), KeptOf(b));
    }
  }

  /** A first line and its boundary, split off. */
  lemma KeptFirst(l: string, e: string, u: string)
    requires Unbroken(l) && IsBoundary(e) && (e == [CR] ==> !StartsWith(u, LF))
    ensures KeptLines(l + e + u) == KeptOf([l]) + KeptLines(u)
  {
    Assoc(l, e, u);
    SplitFirst(l, e + u);
    BoundaryLength(e, u);
    KeptOfAppend([l], SplitLines(u));
  }

  /** An empty line is never kept, so an LF at the front adds nothing. */
  lemma KeptAfterLf(u: string)
    ensures KeptLines([LF] + u) == KeptLines(u)
    ensures KeptOf([[]]) == []
  {
    NothingNormalized();
    var blank: seq<string> := [[]];
    assert blank[1..] == [];
    KeptFirst([], [LF], u);
    assert [] + [LF] + u == [LF] + u;
  }

  lemma KeptWhole(l: string, e: string)
    requires Unbroken(l) && IsBoundary(e)
    ensures KeptLines(l + e) == KeptOf([l])
  {
    KeptFirst(l, e, []);
    assert l + e + [] == l + e;
    assert SplitLines([]) == [];
  }

  /** A cut between CR and LF only adds an empty line. */
  lemma KeptInsideCrLf(l: string, u: string)
    requires Unbroken(l)
    ensures KeptLines(l + [CR] + ([LF] + u)) == KeptLines(l + [CR]) + KeptLines([LF] + u)
  {
    KeptFirst(l, [CR, LF], u);
    assert [CR] + [LF] == [CR, LF];
    Assoc([CR], [LF], u);
    Assoc(l, [CR], [LF] + u);
    Assoc(l, [CR, LF], u);
    KeptAfterLf(u);
    KeptWhole(l, [CR]);
  }

  lemma {:induction false} BrokenBy(s: string, i: nat)
    requires i < |s| && IsBreak(s[i])
    ensures FirstBreak(s) <= i
  {
    if i > 0 && !IsBreak(s[0]) {
      BrokenBy(s[1..], i - 1);
    }
  }

  /** Cutting a text behind any boundary, even between CR and LF, cuts its kept lines in two. */
  lemma {:induction false} KeptAppend(a: string, b: string)
    requires EndsWith(a, IsBreak)
    ensures KeptLines(a + b) == KeptLines(a) + KeptLines(b)
    decreases |a|
  {
    if a == [] {
      assert a + b == b;
    } else {
      BrokenBy(a, |a| - 1);
      var l, e, u := FirstLine(a);
      if e == [CR] && u == [] && StartsWith(b, LF) {
        assert b == [LF] + b[1..];
        assert a == l + [CR];
        KeptInsideCrLf(l, b[1..]);
      } else {
        assert u != [] ==> u[|u| - 1] == a[|a| - 1];
        KeptAppend(u, b);
        KeptLonger(l, e, u, b);
      }
    }
  }

  lemma KeptLonger(l: string, e: string, u: string, b: string)
    requires Unbroken(l) && IsBoundary(e)
    requires e == [CR] ==> !StartsWith(u, LF) && !StartsWith(u + b, LF)
    requires KeptLines(u + b) == KeptLines(u) + KeptLines(b)
    ensures KeptLines(l + e + u + b) == KeptLines(l + e + u) + KeptLines(b)
  {
    KeptFirst(l, e, u);
    KeptFirst(l, e, u + b);
    Assoc(l + e, u, b);
    Assoc(KeptOf([l]), KeptLines(u), KeptLines(b));
  }

  /** A line and its boundary put in at the start of any line add its normal form, if that has eight runes. */
  lemma InsertedLine(a: string, l: string, e: string, b: string)
    requires EndsWith(a, IsBreak) && Unbroken(l) && IsBoundary(e)
    ensures KeptLines(a + (l + e) + b)
         == KeptLines(a) + (if |Normalized(l)| >= 8 then [Normalized(l)] else []) + KeptLines(b)
    ensures KeptLines(a + b) == KeptLines(a) + KeptLines(b)
  {
    var x := l + e;
    assert x[|x| - 1] == e[|e| - 1];
    KeptWhole(l, e);
    KeptOfOne(l);
    KeptAppend(x, b);
    Assoc(a, x, b);
    KeptAppend(a, x + b);
    KeptAppend(a, b);
    Assoc(KeptLines(a), KeptOf([l]), KeptLines(b));
  }

  lemma KeptOfOne(l: string)
    ensures KeptOf([l]) == if |Normalized(l)| >= 8 then [Normalized(l)] else []
  {
    assert [l][1..] == [];
  }

  /** It leaves the kept lines as they are exactly when it normalises to fewer than eight runes. */
  lemma ShortLineIsNoise(a: string, l: string, e: string, b: string)
    requires EndsWith(a, IsBreak) && Unbroken(l) && IsBoundary(e)
    ensures KeptLines(a + (l + e) + b) == KeptLines(a + b) <==> |Normalized(l)| < 8
  {
    InsertedLine(a, l, e, b);
    var front := KeptLines(a);
    assert front + [] == front;
  }

  /** NULs have no say, wherever they stand. */
  lemma NulIsNoise(a: string, b: string)
    ensures Normalized(a + ['\0'] + b) == Normalized(a + b)
  {
    WithoutAppend(a + ['\0'], b, NUL);
    WithoutAppend(a, ['\0'], NUL);
    WithoutAppend(a, b, NUL);
    assert ['\0'][1..] == [];
    assert Without(a, NUL) + [] == Without(a, NUL);
  }

  // ---------------------------------------------------------------- line ends of another system

  /** Every LF written as CR LF. */
  function ToCrlf(s: string): string {
    if s == [] then [] else (if s[0] == LF then [CR, LF] else [s[0]]) + ToCrlf(s[1..])
  }

  lemma {:induction false} ToCrlfAppend(a: string, b: string)
    ensures ToCrlf(a + b) == ToCrlf(a) + ToCrlf(b)
  {
    if a == [] {
      assert a + b == b;
    } else {
      assert (a + b)[1..] == a[1..] + b;
      ToCrlfAppend(a[1..], b);
      Assoc(if a[0] == LF then [CR, LF] else [a[0]], ToCrlf(a[1..]), ToCrlf(b));
    }
  }

  lemma {:induction false} ToCrlfUnbroken(l: string)
    requires Unbroken(l)
    ensures ToCrlf(l) == l
  {
    if l != [] {
      assert !IsBreak(l[0]);
      forall i | 0 <= i < |l| - 1 ensures !IsBreak(l[1..][i]) {
        assert !IsBreak(l[i + 1]);
      }
      ToCrlfUnbroken(l[1..]);
    }
  }

  /** How a boundary is rewritten. */
  lemma {:induction false} ToCrlfBoundary(e: string)
    requires IsBoundary(e)
    ensures ToCrlf(e) == if e == [LF] then [CR, LF] else if e == [CR, LF] then [CR] + [CR, LF] else e
  {
    assert e[1..] == [] || e[1..] == [LF];
    assert [LF][1..] == [];
    assert ToCrlf([LF]) == [CR, LF] + [];
    assert ToCrlf(e) == (if e[0] == LF then [CR, LF] else [e[0]]) + ToCrlf(e[1..]);
  }

  /** One line with its boundary: rewriting the boundary adds at most an empty line. */
  lemma {:induction false} CrlfLine(l: string, e: string)
    requires Unbroken(l) && IsBoundary(e)
    ensures KeptLines(ToCrlf(l + e)) == KeptOf([l]) == KeptLines(l + e)
    ensures EndsWith(ToCrlf(l + e), IsBreak)
  {
    ToCrlfAppend(l, e);
    ToCrlfUnbroken(l);
    ToCrlfBoundary(e);
    KeptWhole(l, e);
    if e == [CR, LF] {
      KeptFirst(l, [CR], [CR, LF]);
      KeptWhole([], [CR, LF]);
      KeptAfterLf([]);
      assert [] + [CR, LF] == [CR, LF];
      Assoc(l, [CR], [CR, LF]);
    } else if e == [LF] {
      KeptWhole(l, [CR, LF]);
    }
  }

  /** The digest does not see whether a message has LF or CR LF line ends. */
  lemma {:induction false} CrlfIsNoise(s: string)
    ensures KeptLines(ToCrlf(s)) == KeptLines(s)
    decreases |s|
  {
    if FirstBreak(s) < |s| {
      var l, e, u := FirstLine(s);
      var x := l + e;
      CrlfIsNoise(u);
      CrlfLine(l, e);
      ToCrlfAppend(x, u);
      KeptAppend(ToCrlf(x), ToCrlf(u));
      KeptAppend(x, u);
    } else {
      LastLineWhole(s);
      ToCrlfUnbroken(s);
    }
  }
}
