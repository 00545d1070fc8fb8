/**
 Two saves for disjoint sets of addresses, in either order: what the two texts load as, for every
 old file.
 */
module IndependentSaves {
  import opened Basics
  import opened Text
  import opened Accounts
  import opened AccountsFile
  import opened AccountsMeaning

  ghost function SavedBoth(file: Option<string>, s: seq<Server>, a: Account, t: seq<Server>, b: Account): string {
    SavedText(Some(SavedText(file, s, a)), t, b)
  }

  // ---------------------------------------------------------------- the lines of both saves

  lemma {:induction false} KeptTwice(lines: seq<string>, x: set<string>, y: set<string>)
    ensures KeptLines(KeptLines(lines, x), y) == KeptLines(lines, x + y)
  {
    if lines != [] {
      var l, rest := lines[0], KeptLines(lines[1..], x);
      KeptTwice(lines[1..], x, y);
      SameWithoutCr(l);
      DropCrCuts(l);
      if Stale(l, x) || DropCr(l) == [] {
        assert [] + rest == rest;
        assert [] + KeptLines(lines[1..], x + y) == KeptLines(lines[1..], x + y);
      } else {
        assert ([DropCr(l)] + rest)[1..] == rest;
      }
    }
  }

  lemma {:induction false} NewAreSteady(s: seq<Server>, a: Account, replace: set<string>)
    requires Storable(s, a) && AddrsOf(s) !! replace
    ensures AllSteady(NewLines(s, a), replace)
  {
    NewLinesAt(s, a);
    forall i | 0 <= i < |s| ensures Steady(NewLines(s, a)[i], replace) {
      assert Addr(s[i]) in AddrsOf(s);
      PrintedIsSteady(s[i], a, replace);
    }
  }

  /** What both saves keep of the old file, then the lines of the first save, then those of the second. */
  lemma {:induction false} BothFall(file: Option<string>, s: seq<Server>, a: Account, t: seq<Server>, b: Account)
    requires s != [] && t != [] && Storable(s, a) && Storable(t, b) && AddrsOf(s) !! AddrsOf(t)
    ensures Split(SavedBoth(file, s, a, t, b), '\n')
         == KeptLines(OldLines(file), AddrsOf(s) + AddrsOf(t)) + (NewLines(s, a) + NewLines(t, b)) + [[]]
  {
    var was, first, second := OldLines(file), NewLines(s, a), NewLines(t, b);
    var x, y := AddrsOf(s), AddrsOf(t);
    SavedTextSplits(file, s, a);
    SavedTextSplits(Some(SavedText(file, s, a)), t, b);
    var blank: seq<string> := [[]];
    KeptAppend(KeptLines(was, x) + first, blank, y);
    KeptAppend(KeptLines(was, x), first, y);
    KeptTwice(was, x, y);
    NewAreSteady(s, a, y);
    KeptAgain(first, y);
    KeptBlank(y);
    var kept := KeptLines(was, x + y);
    assert kept + first + [] == kept + first;
    Assoc(kept, first, second);
  }

  lemma {:induction false} KeptBlank(replace: set<string>)
    ensures KeptLines([[]], replace) == []
  {
    var blank: seq<string> := [[]];
    assert blank[1..] == [];
  }

  // ---------------------------------------------------------------- what they load as

  lemma {:induction false} FittingStops(lines: seq<string>, more: seq<string>)
    requires !AllFit(lines)
    ensures Fitting(lines + more) == Fitting(lines)
  {
    if LineFits(lines[0]) {
      assert (lines + more)[0] == lines[0] && (lines + more)[1..] == lines[1..] + more;
      FittingStops(lines[1..], more);
    }
  }

  /** The servers whose new lines are read before the first that does not fit. */
  function Reached(s: seq<Server>, a: Account): (p: seq<Server>)
    ensures p <= s
  {
    if s == [] || !LineFits(LineOf(s[0], a)) then []
    else
      var p := Reached(s[1..], a);
      assert s == [s[0]] + s[1..];
      [s[0]] + p
  }

  lemma {:induction false} FittingNew(s: seq<Server>, a: Account)
    ensures Fitting(NewLines(s, a)) == NewLines(Reached(s, a), a)
    ensures AllFit(NewLines(s, a)) <==> Reached(s, a) == s
    ensures s != [] ==> (Reached(s, a) == [] <==> !LineFits(LineOf(s[0], a)))
  {
    if s != [] {
      var line, rest, p := LineOf(s[0], a), NewLines(s[1..], a), Reached(s[1..], a);
      FittingNew(s[1..], a);
      var lines := NewLines(s, a);
      assert lines[0] == line && lines[1..] == rest;
      assert ([s[0]] + p)[1..] == p;
      assert s == [s[0]] + s[1..];
      FitsFirst(line, rest);
    }
  }

  lemma FitsFirst(line: string, rest: seq<string>)
    ensures AllFit([line] + rest) <==> LineFits(line) && AllFit(rest)
  {
    var lines := [line] + rest;
    assert lines[0] == line;
    assert forall i :: 0 <= i < |rest| ==> rest[i] == lines[i + 1];
  }

  /** The new lines of two saves, one after the other. */
  lemma {:induction false} LoadTwo(m: Bindings, s: seq<Server>, a: Account, t: seq<Server>, b: Account)
    requires Storable(s, a) && Storable(t, b)
    ensures LoadFrom(m, Fitting(NewLines(s, a) + NewLines(t, b)))
         == if AllFit(NewLines(s, a)) then m + BindAll(s, a) + BindAll(Reached(t, b), b)
            else m + BindAll(Reached(s, a), a)
  {
    var first, second := NewLines(s, a), NewLines(t, b);
    FittingNew(s, a);
    FittingNew(t, b);
    if AllFit(first) {
      FittingAll(first, second);
      LoadFromAppend(m, first, Fitting(second));
      LoadNew(m, s, a);
      LoadNew(m + BindAll(s, a), Reached(t, b), b);
    } else {
      FittingStops(first, second);
      LoadNew(m, Reached(s, a), a);
    }
  }

  /** The bindings of the lines that both saves keep. */
  ghost function KeptBindings(file: Option<string>, replace: set<string>): Bindings {
    LoadFrom(map[], Fitting(KeptLines(OldLines(file), replace)))
  }

  lemma {:induction false} BothLoad(file: Option<string>, s: seq<Server>, a: Account, t: seq<Server>, b: Account)
    requires s != [] && t != [] && Storable(s, a) && Storable(t, b) && AddrsOf(s) !! AddrsOf(t)
    ensures var both := AddrsOf(s) + AddrsOf(t);
      var kept, m := KeptLines(OldLines(file), both), KeptBindings(file, both);
      Loaded(Some(SavedBoth(file, s, a, t, b)))
        == if AllFit(kept) then LoadFrom(m, Fitting(NewLines(s, a) + NewLines(t, b))) else m
  {
    var kept, added := KeptLines(OldLines(file), AddrsOf(s) + AddrsOf(t)), NewLines(s, a) + NewLines(t, b);
    BothFall(file, s, a, t, b);
    FinalBlank(map[], kept + added);
    if AllFit(kept) {
      FittingAll(kept, added);
      LoadFromAppend(map[], kept, Fitting(added));
      FittingAll(kept, []);
      assert kept + [] == kept;
    } else {
      FittingStops(kept, added);
    }
  }

  /** The kept lines bind none of the replaced addresses. */
  lemma {:induction false} KeptBindNothing(file: Option<string>, replace: set<string>)
    requires AllFit(KeptLines(OldLines(file), replace))
    ensures KeptBindings(file, replace).Keys !! replace
  {
    var kept, none: Bindings := KeptLines(OldLines(file), replace), map[];
    FittingAll(kept, []);
    assert kept + [] == kept;
    assert none - replace == none;
    LoadKept(none, OldLines(file), replace);
  }

  // ---------------------------------------------------------------- when the order does not matter

  /**
   Reading stops inside the old lines that both keep; or all new lines fit; or the first new line
   of neither does.
   */
  ghost predicate OrderIsUnseen(file: Option<string>, s: seq<Server>, a: Account, t: seq<Server>, b: Account)
    requires s != [] && t != []
  {
    || !AllFit(KeptLines(OldLines(file), AddrsOf(s) + AddrsOf(t)))
    || (AllFit(NewLines(s, a)) && AllFit(NewLines(t, b)))
    || (!LineFits(LineOf(s[0], a)) && !LineFits(LineOf(t[0], b)))
  }

  /** For every old file: exactly then do saves for disjoint sets of addresses commute. */
  lemma DisjointSavesCommuteIff(file: Option<string>, s: seq<Server>, a: Account, t: seq<Server>, b: Account)
    requires s != [] && t != [] && Storable(s, a) && Storable(t, b)
    requires AddrsOf(s) !! AddrsOf(t)
    ensures OrderIsUnseen(file, s, a, t, b) <==>
              Loaded(Some(SavedBoth(file, s, a, t, b))) == Loaded(Some(SavedBoth(file, t, b, s, a)))
  {
    var x, y := AddrsOf(s), AddrsOf(t);
    assert x + y == y + x;
    BothLoad(file, s, a, t, b);
    BothLoad(file, t, b, s, a);
    if AllFit(KeptLines(OldLines(file), x + y)) {
      KeptBindNothing(file, x + y);
      LoadTwo(KeptBindings(file, x + y), s, a, t, b);
      LoadTwo(KeptBindings(file, x + y), t, b, s, a);
      FittingNew(s, a);
      FittingNew(t, b);
      OrdersCompared(KeptBindings(file, x + y), s, a, Reached(s, a), t, b, Reached(t, b));
    }
  }

  /** Where reading the new lines of s, as far as p, and then those of t, as far as q, ends. */
  ghost function EndsIn(m: Bindings, s: seq<Server>, a: Account, p: seq<Server>, b: Account, q: seq<Server>): Bindings {
    if p == s then m + BindAll(s, a) + BindAll(q, b) else m + BindAll(p, a)
  }

  lemma OrdersCompared(m: Bindings, s: seq<Server>, a: Account, p: seq<Server>,
                       t: seq<Server>, b: Account, q: seq<Server>)
    requires s != [] && t != [] && p <= s && q <= t
    requires AddrsOf(s) !! AddrsOf(t) && m.Keys !! AddrsOf(s) && m.Keys !! AddrsOf(t)
    ensures EndsIn(m, s, a, p, b, q) == EndsIn(m, t, b, q, a, p) <==> (p == s && q == t) || (p == [] && q == [])
  {
    AddrsOfPrefix(p, s);
    AddrsOfPrefix(q, t);
    var one, two := EndsIn(m, s, a, p, b, q), EndsIn(m, t, b, q, a, p);
    if p == s && q == t {
      OverridesCommute(m, BindAll(s, a), BindAll(t, b));
    } else if p == [] && q == [] {
      assert BindAll(p, a) == map[] == BindAll(q, b);
    } else if p != [] && q != t {
      assert Addr(p[0]) in one && Addr(p[0]) !in two;
    } else {
      assert Addr(q[0]) in two && Addr(q[0]) !in one;
    }
  }

  lemma AddrsOfPrefix(p: seq<Server>, s: seq<Server>)
    requires p <= s
    ensures AddrsOf(p) <= AddrsOf(s)
    ensures p != [] ==> Addr(p[0]) in AddrsOf(p)
    ensures p == [] ==> AddrsOf(p) == {}
  {
    forall d | d in AddrsOf(p) ensures d in AddrsOf(s) {
      var i :| 0 <= i < |p| && d == Addr(p[i]);
      assert s[i] == p[i];
    }
  }

  lemma OverridesCommute(m: Bindings, x: Bindings, y: Bindings)
    requires x.Keys !! y.Keys
    ensures m + x + y == m + y + x
  {
  }

  /** So they commute whatever the old file holds, as long as the new lines fit. */
  lemma {:induction false} DisjointSavesCommute(file: Option<string>, s: seq<Server>, a: Account,
                                                t: seq<Server>, b: Account)
    requires s != [] && t != [] && Storable(s, a) && Storable(t, b)
    requires AddrsOf(s) !! AddrsOf(t)
    requires AllFit(NewLines(s, a)) && AllFit(NewLines(t, b))
    ensures Loaded(Some(SavedText(Some(SavedText(file, s, a)), t, b)))
         == Loaded(Some(SavedText(Some(SavedText(file, t, b)), s, a)))
  {
    DisjointSavesCommuteIff(file, s, a, t, b);
  }
}
