/**
 The fragment of Go's regexp that the digest uses: concatenations of character classes,
 each either repeated greedily or matched once, with leftmost-first matching.
 */
module Regex {
  import opened Basics
  import opened Runes

  datatype Class = Space | NonSpace | Letter | Only(c: char)

  predicate In(c: char, k: Class) {
    match k
    case Space => IsPySpace(c)
    case NonSpace => !IsPySpace(c)
    case Letter => IsFoldedLetter(c)
    case Only(d) => c == d
  }

  /** At least `min` runes of class `cls`: any number more when `more`, none otherwise. */
  datatype Atom = Atom(cls: Class, min: nat, more: bool)

  type Pattern = seq<Atom>

  datatype Match = NoMatch | Length(n: nat)

  /** Length of the longest prefix of `s` made of runes of class `k`. */
  function Span(k: Class, s: string): (n: nat)
    ensures n <= |s|
  {
    if s == [] || !In(s[0], k) then 0 else 1 + Span(k, s[1..])
  }

  lemma {:induction false} SpanIsLongest(k: Class, s: string)
    ensures forall i :: 0 <= i < Span(k, s) ==> In(s[i], k)
    ensures Span(k, s) < |s| ==> !In(s[Span(k, s)], k)
  {
    if s != [] && In(s[0], k) {
      SpanIsLongest(k, s[1..]);
      forall i | 0 <= i < Span(k, s) ensures In(s[i], k) {
        assert i > 0 ==> s[i] == s[1..][i - 1];
      }
    }
  }

  /** The match a backtracking matcher prefers at the start of `s`: most repetitions first. */
  function MatchAt(p: Pattern, s: string): (m: Match)
    ensures m.Length? ==> m.n <= |s|
    decreases |p|, |s| + 1
  {
    if p == [] then Length(0)
    else
      var most := Span(p[0].cls, s);
      TryCount(p, s, if p[0].more || most < p[0].min then most else p[0].min)
  }

  /** Gives the first atom `k` runes, then fewer, until the rest of the pattern matches. */
  function TryCount(p: Pattern, s: string, k: nat): (m: Match)
    requires p != [] && k <= |s|
    ensures m.Length? ==> m.n <= |s|
    decreases |p|, k
  {
    if k < p[0].min then NoMatch
    else
      match MatchAt(p[1..], s[k..])
      case Length(n) => Length(k + n)
      case NoMatch => if k == 0 then NoMatch else TryCount(p, s, k - 1)
  }

  /** ReplaceAllString(s, ""): deletes the leftmost match, then goes on after it. */
  function DeleteAll(p: Pattern, s: string): (r: string)
  {
    if s == [] then []
    else
      match MatchAt(p, s)
      case Length(n) =>
        if n == 0 then [s[0]] + DeleteAll(p, s[1..]) else DeleteAll(p, s[n..])
      case NoMatch => [s[0]] + DeleteAll(p, s[1..])
  }

  const LONG: Pattern := [Atom(NonSpace, 10, true)]
  const EMAIL: Pattern := [Atom(NonSpace, 1, true), Atom(Only('@'), 1, false), Atom(NonSpace, 1, true)]
  const URL: Pattern := [Atom(Letter, 1, true), Atom(Only(':'), 1, false), Atom(NonSpace, 1, true)]
  const SPACES: Pattern := [Atom(Space, 1, false)]

  /** The class of a run of `w` followed by `rest` spans exactly `w`. */
  lemma {:induction false} SpanRun(w: string, rest: string)
    requires NoSpaceIn(w) && AtRunEnd(rest)
    ensures Span(NonSpace, w + rest) == |w|
  {
    if w == [] {
      assert w + rest == rest;
    } else {
      assert (w + rest)[1..] == w[1..] + rest;
      SpanRun(w[1..], rest);
    }
  }

  /** `s` starts with a run: cut it off. */
  lemma {:induction false} FirstRun(s: string)
    requires s != [] && !IsPySpace(s[0])
    ensures var n := Span(NonSpace, s);
            n > 0 && NoSpaceIn(s[..n]) && AtRunEnd(s[n..]) && s == s[..n] + s[n..]
  {
    var n := Span(NonSpace, s);
    SpanIsLongest(NonSpace, s);
    assert In(s[0], NonSpace);
    forall i | 0 <= i < n ensures !IsPySpace(s[..n][i]) {
      assert In(s[i], NonSpace);
    }
    assert s[n..] != [] ==> s[n..][0] == s[n];
  }

  lemma {:induction false} SpanDrop(k: Class, s: string, i: nat)
    requires i <= Span(k, s)
    ensures Span(k, s[i..]) == Span(k, s) - i
  {
    if i == 0 {
      assert s[0..] == s;
    } else {
      SpanDrop(k, s[1..], i - 1);
      assert s[1..][i - 1..] == s[i..];
    }
  }

  /** A pattern of one greedy atom takes the whole span, or nothing when the span is too short. */
  lemma {:induction false} GreedyMatch(k: Class, min: nat, s: string)
    ensures MatchAt([Atom(k, min, true)], s) == if Span(k, s) < min then NoMatch else Length(Span(k, s))
  {
    var p := [Atom(k, min, true)];
    assert p[1..] == [];
    assert MatchAt(p[1..], s[Span(k, s)..]) == Length(0);
  }

  /** What remains of EMAIL and URL once the first atom is matched: `c`, then a whole span. */
  lemma {:induction false} TailMatch(c: char, s: string)
    ensures MatchAt([Atom(Only(c), 1, false), Atom(NonSpace, 1, true)], s)
         == if s != [] && s[0] == c && Span(NonSpace, s[1..]) > 0
            then Length(1 + Span(NonSpace, s[1..])) else NoMatch
  {
    var p := [Atom(Only(c), 1, false), Atom(NonSpace, 1, true)];
    assert p[1..] == [Atom(NonSpace, 1, true)];
    if s != [] && s[0] == c {
      assert Span(Only(c), s) >= 1;
      GreedyMatch(NonSpace, 1, s[1..]);
      assert TryCount(p, s, 0) == NoMatch;
      assert MatchAt(p, s) == TryCount(p, s, 1);
    } else {
      assert Span(Only(c), s) == 0;
      assert MatchAt(p, s) == TryCount(p, s, 0);
    }
  }

  lemma {:induction false} Unmatched(p: Pattern, s: string)
    requires s != [] && MatchAt(p, s) == NoMatch
    ensures DeleteAll(p, s) == [s[0]] + DeleteAll(p, s[1..])
  {
  }

  /** Text before the first place where the pattern matches is kept. */
  lemma {:induction false} KeepFrom(p: Pattern, s: string, k: nat, n: nat)
    requires k <= n <= |s|
    requires forall i :: k <= i < n ==> MatchAt(p, s[i..]) == NoMatch
    ensures DeleteAll(p, s[k..]) == s[k..n] + DeleteAll(p, s[n..])
    decreases n - k
  {
    if k < n {
      Unmatched(p, s[k..]);
      assert s[k..][1..] == s[k + 1..];
      KeepFrom(p, s, k + 1, n);
      Assoc([s[k]], s[k + 1..n], DeleteAll(p, s[n..]));
      assert [s[k]] + s[k + 1..n] == s[k..n];
    }
  }

  lemma {:induction false} KeepPrefix(p: Pattern, s: string, n: nat)
    requires n <= |s|
    requires forall i :: 0 <= i < n ==> MatchAt(p, s[i..]) == NoMatch
    ensures DeleteAll(p, s) == s[..n] + DeleteAll(p, s[n..])
  {
    KeepFrom(p, s, 0, n);
    assert s[0..] == s;
  }

  /** The leftmost match is deleted, and nothing before it. */
  lemma {:induction false} DeleteFirst(p: Pattern, s: string, n: nat, len: nat)
    requires 0 < len && n + len <= |s|
    requires forall i :: 0 <= i < n ==> MatchAt(p, s[i..]) == NoMatch
    requires MatchAt(p, s[n..]) == Length(len)
    ensures DeleteAll(p, s) == s[..n] + DeleteAll(p, s[n + len..])
  {
    KeepPrefix(p, s, n);
    assert s[n..][len..] == s[n + len..];
  }
}
