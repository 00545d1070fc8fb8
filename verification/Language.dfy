/**
 What a match is, apart from how it is searched for: the language of a pattern, and which of the
 ways to match it a greedy matcher prefers.
 */
module Language {
  import opened Runes
  import opened Regex

  /** The first n runes of `s` are in the class. */
  ghost predicate AllIn(s: string, n: nat, k: Class)
    requires n <= |s|
  {
    forall i {:trigger In(s[i], k)} :: 0 <= i < n ==> In(s[i], k)
  }

  /** One way to match the start of `s`: counts[i] runes for atom i. */
  ghost predicate Fits(p: Pattern, s: string, counts: seq<nat>)
    decreases |p|
  {
    && |counts| == |p|
    && (p != [] ==>
          && p[0].min <= counts[0] <= |s| && (p[0].more || counts[0] == p[0].min)
          && AllIn(s, counts[0], p[0].cls)
          && Fits(p[1..], s[counts[0]..], counts[1..]))
  }

  function Total(counts: seq<nat>): nat {
    if counts == [] then 0 else counts[0] + Total(counts[1..])
  }

  /** The first atom that differs takes more in `a`. */
  ghost predicate AsGreedy(a: seq<nat>, b: seq<nat>)
    requires |a| == |b|
  {
    a == [] || a[0] > b[0] || (a[0] == b[0] && AsGreedy(a[1..], b[1..]))
  }

  /** A text in the language of the pattern. */
  ghost predicate Matches(p: Pattern, t: string) {
    exists counts :: Fits(p, t, counts) && Total(counts) == |t|
  }

  // ---------------------------------------------------------------- the search

  lemma {:induction false} SpanBounds(k: Class, s: string, n: nat)
    requires n <= |s|
    ensures AllIn(s, n, k) <==> n <= Span(k, s)
  {
    SpanIsLongest(k, s);
  }

  /** `counts` is the preferred one of the ways to match that give the first atom at most k runes. */
  ghost predicate Preferred(p: Pattern, s: string, k: nat, counts: seq<nat>)
    requires p != []
  {
    && Fits(p, s, counts) && counts[0] <= k
    && forall ds :: Fits(p, s, ds) && ds[0] <= k ==> AsGreedy(counts, ds)
  }

  /** The same without a bound. */
  ghost predicate Best(p: Pattern, s: string, counts: seq<nat>) {
    Fits(p, s, counts) && forall ds :: Fits(p, s, ds) ==> AsGreedy(counts, ds)
  }

  /** The matcher finds a way to match whenever there is one, and finds the most greedy. */
  lemma {:induction false} MatchIsBest(p: Pattern, s: string) returns (counts: seq<nat>)
    ensures MatchAt(p, s).NoMatch? ==> forall ds :: !Fits(p, s, ds)
    ensures MatchAt(p, s).Length? ==> Best(p, s, counts) && Total(counts) == MatchAt(p, s).n
    decreases |p|, |s| + 1
  {
    if p == [] {
      counts := [];
    } else {
      var most := Span(p[0].cls, s);
      if most < p[0].min {
        forall ds ensures !Fits(p, s, ds) {
          if |ds| == |p| && ds[0] <= |s| {
            SpanBounds(p[0].cls, s, ds[0]);
          }
        }
        assert MatchAt(p, s) == TryCount(p, s, most) == NoMatch;
        counts := [];
      } else {
        var k := if p[0].more then most else p[0].min;
        counts := TryIsPreferred(p, s, k);
        forall ds | Fits(p, s, ds) ensures ds[0] <= k {
          SpanBounds(p[0].cls, s, ds[0]);
        }
      }
    }
  }

  lemma {:induction false} TryIsPreferred(p: Pattern, s: string, k: nat) returns (counts: seq<nat>)
    requires p != [] && k <= Span(p[0].cls, s) && (p[0].more || k <= p[0].min)
    ensures TryCount(p, s, k).NoMatch? ==> forall ds :: Fits(p, s, ds) ==> ds[0] > k
    ensures TryCount(p, s, k).Length? ==> Preferred(p, s, k, counts) && Total(counts) == TryCount(p, s, k).n
    decreases |p|, k
  {
    counts := [];
    if k >= p[0].min {
      var rest := MatchIsBest(p[1..], s[k..]);
      SpanBounds(p[0].cls, s, k);
      if MatchAt(p[1..], s[k..]).Length? {
        counts := [k] + rest;
        FirstCount(p, s, k, rest);
      } else if k > 0 {
        counts := TryIsPreferred(p, s, k - 1);
        NotWith(p, s, k);
        if TryCount(p, s, k).Length? {
          forall ds | Fits(p, s, ds) && ds[0] <= k ensures AsGreedy(counts, ds) {
            assert ds[0] != k;
          }
        }
      } else {
        NotWith(p, s, 0);
      }
    }
  }

  /** k runes for the first atom and the best for the others are preferred among those with at most k. */
  lemma {:induction false} FirstCount(p: Pattern, s: string, k: nat, rest: seq<nat>)
    requires p != [] && p[0].min <= k <= |s| && (p[0].more || k == p[0].min) && AllIn(s, k, p[0].cls)
    requires Best(p[1..], s[k..], rest)
    ensures Preferred(p, s, k, [k] + rest) && Total([k] + rest) == k + Total(rest)
  {
    var counts := [k] + rest;
    assert counts[1..] == rest;
    forall ds | Fits(p, s, ds) && ds[0] <= k ensures AsGreedy(counts, ds) {
      if ds[0] == k {
        assert Fits(p[1..], s[k..], ds[1..]);
      }
    }
  }

  lemma {:induction false} NotWith(p: Pattern, s: string, k: nat)
    requires p != [] && k <= |s|
    requires forall ds :: !Fits(p[1..], s[k..], ds)
    ensures forall ds :: Fits(p, s, ds) ==> ds[0] != k
  {
    forall ds | Fits(p, s, ds) ensures ds[0] != k {
      assert Fits(p[1..], s[ds[0]..], ds[1..]);
    }
  }

  // ---------------------------------------------------------------- the language

  lemma {:induction false} FitsPrefix(p: Pattern, s: string, counts: seq<nat>, n: nat)
    requires Total(counts) <= n <= |s|
    ensures Fits(p, s, counts) <==> Fits(p, s[..n], counts)
    decreases |p|
  {
    if p != [] && |counts| == |p| {
      var t, k := s[..n], counts[0];
      assert t[k..] == s[k..][..n - k];
      FitsPrefix(p[1..], s[k..], counts[1..], n - k);
      assert AllIn(s, k, p[0].cls) <==> AllIn(t, k, p[0].cls) by {
        assert forall i :: 0 <= i < k ==> In(s[i], p[0].cls) == In(t[i], p[0].cls);
      }
    }
  }

  /** A match is in the language, and no match means that no start of the text is. */
  lemma {:induction false} MatchIsInLanguage(p: Pattern, s: string)
    ensures MatchAt(p, s).Length? ==> Matches(p, s[..MatchAt(p, s).n])
    ensures MatchAt(p, s).NoMatch? ==> forall n :: 0 <= n <= |s| ==> !Matches(p, s[..n])
  {
    var counts := MatchIsBest(p, s);
    if MatchAt(p, s).Length? {
      FitsPrefix(p, s, counts, MatchAt(p, s).n);
    } else {
      forall n | 0 <= n <= |s| ensures !Matches(p, s[..n]) {
        if Matches(p, s[..n]) {
          var ds :| Fits(p, s[..n], ds) && Total(ds) == n;
          FitsPrefix(p, s, ds, n);
        }
      }
    }
  }

  /** There is only one most greedy way to match, so the length found is determined. */
  lemma {:induction false} BestIsUnique(a: seq<nat>, b: seq<nat>)
    requires |a| == |b| && AsGreedy(a, b) && AsGreedy(b, a)
    ensures a == b
  {
    if a != [] {
      BestIsUnique(a[1..], b[1..]);
      assert a == [a[0]] + a[1..] && b == [b[0]] + b[1..];
    }
  }

  // ---------------------------------------------------------------- the patterns of the digest

  lemma {:induction false} AllInWhole(t: string)
    ensures AllIn(t, |t|, NonSpace) <==> NoSpaceIn(t)
  {
    if NoSpaceIn(t) {
      forall i | 0 <= i < |t| ensures In(t[i], NonSpace) {
        assert !IsPySpace(t[i]);
      }
    }
    if AllIn(t, |t|, NonSpace) {
      forall i | 0 <= i < |t| ensures !IsPySpace(t[i]) {
        assert In(t[i], NonSpace);
      }
    }
  }

  lemma {:induction false} OneAtom(p: Pattern, t: string)
    requires |p| == 1 && p[0].more
    ensures Matches(p, t) <==> p[0].min <= |t| && AllIn(t, |t|, p[0].cls)
  {
    assert p[1..] == [];
    if p[0].min <= |t| && AllIn(t, |t|, p[0].cls) {
      var counts: seq<nat> := [|t|];
      assert counts[1..] == [] && Fits([], t[|t|..], []);
      assert Fits(p, t, counts) && Total(counts) == |t|;
    }
    if counts :| Fits(p, t, counts) && Total(counts) == |t| {
      assert counts[1..] == [] && Total(counts[1..]) == 0;
    }
  }

  /** The long-token pattern matches ten or more runes that are no whitespace. */
  lemma LongMatches(t: string)
    ensures Matches(LONG, t) <==> |t| >= 10 && NoSpaceIn(t)
  {
    OneAtom(LONG, t);
    AllInWhole(t);
  }

  /** k runes for the first atom, and the rest for the others. */
  ghost predicate FirstTakes(p: Pattern, t: string, k: int)
    requires p != []
  {
    && p[0].min <= k <= |t| && (p[0].more || k == p[0].min)
    && AllIn(t, k, p[0].cls) && Matches(p[1..], t[k..])
  }

  lemma {:induction false} FirstAtom(p: Pattern, t: string)
    requires p != []
    ensures Matches(p, t) <==> exists k :: FirstTakes(p, t, k)
  {
    if Matches(p, t) {
      var counts :| Fits(p, t, counts) && Total(counts) == |t|;
      assert Fits(p[1..], t[counts[0]..], counts[1..]) && Total(counts[1..]) == |t[counts[0]..]|;
      assert FirstTakes(p, t, counts[0]);
    }
    forall k | FirstTakes(p, t, k) ensures Matches(p, t) {
      var rest :| Fits(p[1..], t[k..], rest) && Total(rest) == |t| - k;
      var counts := [k] + rest;
      assert counts[1..] == rest;
      assert Fits(p, t, counts) && Total(counts) == |t|;
    }
  }

  /** Position k holds the separator, with runes of the class in front and no whitespace behind it. */
  ghost predicate SeparatedAt(t: string, k: int, front: Class, c: char) {
    && 0 < k < |t| - 1 && t[k] == c
    && AllIn(t, k, front) && NoSpaceIn(t[k + 1..])
  }

  lemma {:induction false} SeparatorMatches(front: Class, c: char, t: string)
    ensures Matches([Atom(front, 1, true), Atom(Only(c), 1, false), Atom(NonSpace, 1, true)], t) <==>
              exists k :: SeparatedAt(t, k, front, c)
  {
    var p := [Atom(front, 1, true), Atom(Only(c), 1, false), Atom(NonSpace, 1, true)];
    var tail := [Atom(Only(c), 1, false), Atom(NonSpace, 1, true)];
    assert p[1..] == tail;
    FirstAtom(p, t);
    forall k ensures FirstTakes(p, t, k) <==> SeparatedAt(t, k, front, c) {
      if 0 < k <= |t| {
        SeparatorAndRest(c, t[k..]);
        assert k < |t| ==> t[k..][1..] == t[k + 1..];
      }
    }
  }

  lemma {:induction false} SeparatorAndRest(c: char, t: string)
    ensures Matches([Atom(Only(c), 1, false), Atom(NonSpace, 1, true)], t) <==>
              |t| > 1 && t[0] == c && NoSpaceIn(t[1..])
  {
    var p, last := [Atom(Only(c), 1, false), Atom(NonSpace, 1, true)], [Atom(NonSpace, 1, true)];
    assert p[1..] == last;
    FirstAtom(p, t);
    if |t| > 0 {
      OneAtom(last, t[1..]);
      AllInWhole(t[1..]);
      assert AllIn(t, 1, Only(c)) <==> In(t[0], Only(c));
      assert FirstTakes(p, t, 1) <==> |t| > 1 && t[0] == c && NoSpaceIn(t[1..]);
    }
  }

  /** The e-mail pattern matches what has an '@' strictly inside, and no whitespace. */
  lemma EmailMatches(t: string)
    ensures Matches(EMAIL, t) <==> NoSpaceIn(t) && exists k :: 0 < k < |t| - 1 && t[k] == '@'
  {
    SeparatorMatches(NonSpace, '@', t);
    forall k | 0 < k < |t| - 1 && t[k] == '@' ensures SeparatedAt(t, k, NonSpace, '@') <==> NoSpaceIn(t) {
      CleanAround(t, k);
    }
  }

  lemma CleanAround(t: string, k: nat)
    requires k < |t| && !IsPySpace(t[k])
    ensures AllIn(t, k, NonSpace) && NoSpaceIn(t[k + 1..]) <==> NoSpaceIn(t)
  {
    if NoSpaceIn(t) {
      forall i | 0 <= i < k ensures In(t[i], NonSpace) {
        assert !IsPySpace(t[i]);
      }
      var rest := t[k + 1..];
      forall i | 0 <= i < |rest| ensures !IsPySpace(rest[i]) {
        assert !IsPySpace(t[i + k + 1]);
      }
    }
    if AllIn(t, k, NonSpace) && NoSpaceIn(t[k + 1..]) {
      forall i | 0 <= i < |t| ensures !IsPySpace(t[i]) {
        if i < k {
          assert In(t[i], NonSpace);
        } else if i > k {
          assert !IsPySpace(t[k + 1..][i - k - 1]);
        }
      }
    }
  }

  /** Letters up to a colon, and at least one more rune, none of them whitespace. */
  ghost predicate IsUrl(t: string, k: int) {
    && 0 < k < |t| - 1 && t[k] == ':' && NoSpaceIn(t[k + 1..])
    && forall i :: 0 <= i < k ==> IsFoldedLetter(t[i])
  }

  lemma UrlMatches(t: string)
    ensures Matches(URL, t) <==> exists k :: IsUrl(t, k)
  {
    SeparatorMatches(Letter, ':', t);
    forall k ensures IsUrl(t, k) <==> SeparatedAt(t, k, Letter, ':') {
      if SeparatedAt(t, k, Letter, ':') {
        forall i | 0 <= i < k ensures IsFoldedLetter(t[i]) {
          assert In(t[i], Letter);
        }
      }
    }
  }
}
