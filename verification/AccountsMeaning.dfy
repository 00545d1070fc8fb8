/**
 What saving means for a later load, and for a later save.
 */
module AccountsMeaning {
  import opened Basics
  import opened Text
  import opened Accounts
  import opened AccountsFile
  import Utf8

  /** Every line written for `servers` is one line, and carries what was meant. */
  ghost predicate Storable(servers: seq<Server>, acc: Account) {
    forall i :: 0 <= i < |servers| ==> WellFormed(servers[i], acc) && OneLine(servers[i], acc)
  }

  ghost predicate AllOneLine(servers: seq<Server>, acc: Account) {
    forall i :: 0 <= i < |servers| ==> OneLine(servers[i], acc)
  }

  ghost function BindAll(servers: seq<Server>, acc: Account): Bindings {
    map a | a in AddrsOf(servers) :: acc
  }

  // ---------------------------------------------------------------- the text as lines

  lemma {:induction false} KeptLinesAreLines(lines: seq<string>, replace: set<string>)
    requires NoneHas(lines, '\n')
    ensures NoneHas(KeptLines(lines, replace), '\n')
    ensures AllFit(lines) ==> AllFit(KeptLines(lines, replace))
  {
    if lines != [] {
      KeptLinesAreLines(lines[1..], replace);
      DropCrCuts(lines[0]);
      PrefixFits(DropCr(lines[0]), lines[0]);
      assert AllFit(lines) ==> AllFit(lines[1..]) && LineFits(lines[0]);
    }
  }

  lemma PrefixFits(a: string, b: string)
    requires a <= b
    ensures LineFits(b) ==> LineFits(a)
  {
    Utf8.EncodeAllAppend(a, b[|a|..]);
    assert b == a + b[|a|..];
  }

  lemma LineHasNoNewline(s: Server, acc: Account)
    requires OneLine(s, acc)
    ensures '\n' !in LineOf(s, acc)
  {
    ItoaIsPlain(s.port);
  }

  lemma OldLinesAreLines(file: Option<string>)
    ensures NoneHas(OldLines(file), '\n')
  {
    if file.Some? {
      SplitParts(file.value, '\n');
    }
  }

  /** The lines that the text written for `servers` falls into; more than |servers| if a field holds a newline. */
  function WrittenLines(servers: seq<Server>, acc: Account): seq<string> {
    Split(Join(NewLines(servers, acc), '\n'), '\n')
  }

  lemma {:induction false} WrittenOneLine(servers: seq<Server>, acc: Account)
    requires servers != [] && AllOneLine(servers, acc)
    ensures WrittenLines(servers, acc) == NewLines(servers, acc)
  {
    var added := NewLines(servers, acc);
    NewLinesAt(servers, acc);
    forall i | 0 <= i < |added| ensures '\n' !in added[i] {
      LineHasNoNewline(servers[i], acc);
    }
    SplitInvertsJoin(added, '\n');
  }

  /** The saved text, split again: what was kept, what was written, and nothing behind the last newline. */
  lemma SavedTextFalls(file: Option<string>, servers: seq<Server>, acc: Account)
    requires servers != []
    ensures Split(SavedText(file, servers, acc), '\n')
         == KeptLines(OldLines(file), AddrsOf(servers)) + WrittenLines(servers, acc) + [[]]
  {
    var kept, added := KeptLines(OldLines(file), AddrsOf(servers)), NewLines(servers, acc);
    var text := Join(kept + added, '\n');
    NewLinesAt(servers, acc);
    if kept == [] {
      assert kept + added == added && kept + WrittenLines(servers, acc) == WrittenLines(servers, acc);
    } else {
      OldLinesAreLines(file);
      KeptLinesAreLines(OldLines(file), AddrsOf(servers));
      SplitInvertsJoin(kept, '\n');
      JoinAppend(kept, added, '\n');
      SplitAppend(Join(kept, '\n'), Join(added, '\n'), '\n');
    }
    assert Split(text, '\n') == kept + WrittenLines(servers, acc);
    SplitAppend(text, [], '\n');
    assert text + ['\n'] + [] == text + "\n";
  }

  /** When every line written is one line, these are the saved lines. */
  lemma SavedTextSplits(file: Option<string>, servers: seq<Server>, acc: Account)
    requires servers != [] && AllOneLine(servers, acc)
    ensures Split(SavedText(file, servers, acc), '\n') == SavedLines(file, servers, acc) + [[]]
    ensures SavedLines(file, servers, acc) != []
  {
    SavedTextFalls(file, servers, acc);
    WrittenOneLine(servers, acc);
    NewLinesAt(servers, acc);
  }

  // ---------------------------------------------------------------- loading what was saved

  lemma {:induction false} FittingAll(lines: seq<string>, more: seq<string>)
    requires AllFit(lines)
    ensures Fitting(lines + more) == lines + Fitting(more)
  {
    if lines == [] {
      assert lines + more == more;
    } else {
      assert (lines + more)[1..] == lines[1..] + more;
      FittingAll(lines[1..], more);
      Assoc([lines[0]], lines[1..], Fitting(more));
      assert lines == [lines[0]] + lines[1..];
    }
  }

  lemma {:induction false} LoadFirst(m: Bindings, line: string, rest: seq<string>)
    ensures LoadFrom(m, [line] + rest) == LoadFrom(Load(m, line), rest)
  {
    assert ([line] + rest)[1..] == rest;
  }

  /** A line that is dropped binds nothing outside the replaced addresses. */
  lemma {:induction false} LoadDropped(n: Bindings, line: string, replace: set<string>)
    requires Stale(line, replace) || DropCr(line) == []
    ensures Load(n, line) - replace == n - replace
  {
    SameAddress(line);
    SameWithoutCr(line);
  }

  /** A line that stays binds what it bound before. */
  lemma {:induction false} LoadStaying(n: Bindings, line: string, replace: set<string>)
    requires !Stale(line, replace)
    ensures Load(n - replace, DropCr(line)) == Load(n, line) - replace
  {
    SameAddress(line);
    SameWithoutCr(line);
  }

  /** The lines that stay bind what the old lines bind, except the replaced addresses. */
  lemma {:induction false} LoadKept(n: Bindings, lines: seq<string>, replace: set<string>)
    ensures LoadFrom(n - replace, KeptLines(lines, replace)) == LoadFrom(n, lines) - replace
    decreases |lines|
  {
    if lines != [] {
      var l, rest := lines[0], KeptLines(lines[1..], replace);
      LoadKept(Load(n, l), lines[1..], replace);
      if Stale(l, replace) || DropCr(l) == [] {
        LoadDropped(n, l, replace);
        assert [] + rest == rest;
      } else {
        LoadStaying(n, l, replace);
        LoadFirst(n - replace, DropCr(l), rest);
      }
    }
  }

  lemma LoadPrinted(m: Bindings, s: Server, acc: Account)
    requires WellFormed(s, acc)
    ensures Load(m, LineOf(s, acc)) == m[Addr(s) := acc]
  {
    PrintedLineParses(s, acc);
  }

  lemma BindFirst(m: Bindings, servers: seq<Server>, acc: Account)
    requires servers != []
    ensures m[Addr(servers[0]) := acc] + BindAll(servers[1..], acc) == m + BindAll(servers, acc)
  {
    AddrsSplit(servers);
  }

  /** The new lines bind every given address to the account. */
  lemma {:induction false} LoadNew(m: Bindings, servers: seq<Server>, acc: Account)
    requires forall i :: 0 <= i < |servers| ==> WellFormed(servers[i], acc)
    ensures LoadFrom(m, NewLines(servers, acc)) == m + BindAll(servers, acc)
    decreases |servers|
  {
    if servers == [] {
      assert BindAll(servers, acc) == map[];
    } else {
      LoadPrinted(m, servers[0], acc);
      LoadFirst(m, LineOf(servers[0], acc), NewLines(servers[1..], acc));
      LoadNew(m[Addr(servers[0]) := acc], servers[1..], acc);
      BindFirst(m, servers, acc);
    }
  }

  lemma AddrsSplit(servers: seq<Server>)
    requires servers != []
    ensures AddrsOf(servers) == {Addr(servers[0])} + AddrsOf(servers[1..])
  {
    forall a | a in AddrsOf(servers) ensures a == Addr(servers[0]) || a in AddrsOf(servers[1..]) {
      var i :| 0 <= i < |servers| && a == Addr(servers[i]);
      if i > 0 {
        assert servers[i] == servers[1..][i - 1];
      }
    }
    forall a | a in AddrsOf(servers[1..]) ensures a in AddrsOf(servers) {
      var i :| 0 <= i < |servers[1..]| && a == Addr(servers[1..][i]);
      assert servers[i + 1] == servers[1..][i];
    }
  }

  /** The saved lines, all of them read: the old bindings overridden at the given addresses. */
  lemma SavedLinesLoad(file: Option<string>, servers: seq<Server>, acc: Account)
    requires forall i :: 0 <= i < |servers| ==> WellFormed(servers[i], acc)
    ensures LoadFrom(map[], SavedLines(file, servers, acc))
         == LoadFrom(map[], OldLines(file)) + BindAll(servers, acc)
  {
    var replace := AddrsOf(servers);
    var kept, none: Bindings := KeptLines(OldLines(file), replace), map[];
    assert none - replace == none;
    LoadKept(none, OldLines(file), replace);
    LoadFromAppend(none, kept, NewLines(servers, acc));
    LoadNew(LoadFrom(none, kept), servers, acc);
    OverrideRemoved(LoadFrom(none, OldLines(file)), replace, BindAll(servers, acc));
  }

  lemma OverrideRemoved(m: Bindings, replace: set<string>, b: Bindings)
    requires b.Keys == replace
    ensures (m - replace) + b == m + b
  {
  }

  lemma SavedTextLoads(file: Option<string>, servers: seq<Server>, acc: Account)
    requires servers != [] && Storable(servers, acc)
    requires AllFit(SavedLines(file, servers, acc))
    ensures Loaded(Some(SavedText(file, servers, acc)))
         == LoadFrom(map[], OldLines(file)) + BindAll(servers, acc)
  {
    var lines := SavedLines(file, servers, acc);
    SavedTextSplits(file, servers, acc);
    FinalBlank(map[], lines);
    FittingAll(lines, []);
    assert lines + [] == lines;
    SavedLinesLoad(file, servers, acc);
  }

  // ---------------------------------------------------------------- when a saved binding loads

  ghost predicate AllBound(m: Bindings, servers: seq<Server>, acc: Account) {
    forall i :: 0 <= i < |servers| ==> Addr(servers[i]) in m && m[Addr(servers[i])] == acc
  }

  /** A loaded binding comes from the last line that has its address. */
  lemma {:induction false} LastBinding(m: Bindings, lines: seq<string>, a: string) returns (i: nat)
    requires a !in m && a in LoadFrom(m, lines)
    ensures i < |lines| && ParseLine(lines[i]) == Some(Entry(a, LoadFrom(m, lines)[a]))
    decreases |lines|
  {
    var n := |lines| - 1;
    assert lines == lines[..n] + [lines[n]];
    LoadFromAppend(m, lines[..n], [lines[n]]);
    assert [lines[n]][1..] == [];
    var before := LoadFrom(m, lines[..n]);
    assert LoadFrom(m, lines) == Load(before, lines[n]);
    if ParseLine(lines[n]).Some? && ParseLine(lines[n]).value.addr == a {
      i := n;
    } else {
      i := LastBinding(m, lines[..n], a);
    }
  }

  lemma {:induction false} FittingAreLines(lines: seq<string>, i: nat)
    requires i < |Fitting(lines)|
    ensures i < |lines| && Fitting(lines)[i] == lines[i]
  {
    if i > 0 {
      FittingAreLines(lines[1..], i - 1);
    }
  }

  lemma {:induction false} FittingCut(lines: seq<string>, j: nat)
    requires j < |lines| && AllFit(lines[..j]) && !LineFits(lines[j])
    ensures Fitting(lines) == lines[..j]
  {
    if j > 0 {
      var cut, rest := lines[..j], lines[1..];
      assert cut[0] == lines[0] && cut == [lines[0]] + rest[..j - 1];
      assert rest[..j - 1] == cut[1..];
      FittingCut(rest, j - 1);
    }
  }

  lemma {:induction false} FirstUnfit(lines: seq<string>) returns (j: nat)
    requires !AllFit(lines)
    ensures j < |lines| && AllFit(lines[..j]) && !LineFits(lines[j])
  {
    var k :| 0 <= k < |lines| && !LineFits(lines[k]);
    j := 0;
    while LineFits(lines[j])
      invariant j <= k
      invariant forall i :: 0 <= i < j ==> LineFits(lines[i])
      decreases k - j
    {
      j := j + 1;
    }
  }

  /** A line that another save for the same addresses keeps as it is. */
  ghost predicate Steady(line: string, replace: set<string>) {
    !Stale(line, replace) && line != [] && DropCr(line) == line
  }

  ghost predicate AllSteady(lines: seq<string>, replace: set<string>) {
    forall i :: 0 <= i < |lines| ==> Steady(lines[i], replace)
  }

  lemma {:induction false} KeptAreSteady(lines: seq<string>, replace: set<string>)
    ensures AllSteady(KeptLines(lines, replace), replace)
  {
    if lines != [] {
      KeptAreSteady(lines[1..], replace);
      SameWithoutCr(lines[0]);
      DropCrCuts(lines[0]);
    }
  }

  /** A binding that loads was plain, and written on one line. */
  lemma BoundIsStorable(text: string, s: Server, acc: Account)
    requires Addr(s) in Loaded(Some(text)) && Loaded(Some(text))[Addr(s)] == acc
    ensures WellFormed(s, acc) && OneLine(s, acc)
  {
    var lines := Split(text, '\n');
    var i := LastBinding(map[], Fitting(lines), Addr(s));
    FittingAreLines(lines, i);
    SplitParts(text, '\n');
    var t := ParsedIsPlain(lines[i]);
    AddrInjective(s, t);
  }

  /** A line in front of line `j`, which does not fit, does not bind the address of `s`. */
  lemma {:induction false} BindsOther(kept: seq<string>, servers: seq<Server>, acc: Account, j: nat, s: Server, i: nat)
    requires Storable(servers, acc) && WellFormed(s, acc) && Addr(s) in AddrsOf(servers)
    requires AllSteady(kept, AddrsOf(servers))
    requires var lines := kept + NewLines(servers, acc);
             i < j < |lines| && AllFit(lines[..j]) && !LineFits(lines[j])
             && (j >= |kept| ==> lines[j] == LineOf(s, acc))
    ensures var entry := ParseLine((kept + NewLines(servers, acc))[i]);
            entry.Some? ==> entry.value.addr != Addr(s)
  {
    var lines := kept + NewLines(servers, acc);
    NewLinesAt(servers, acc);
    SameAddress(lines[i]);
    if i < |kept| {
      assert Steady(kept[i], AddrsOf(servers));
    } else {
      var t := servers[i - |kept|];
      PrintedLineParses(t, acc);
      assert LineFits(lines[..j][i]) && lines[..j][i] == LineOf(t, acc);
      if Addr(t) == Addr(s) {
        AddrInjective(s, t);
      }
    }
  }

  /** Up to the line `j` that does not fit, nothing binds the address of `s`. */
  lemma {:induction false} NotBoundBefore(kept: seq<string>, servers: seq<Server>, acc: Account, j: nat, s: Server)
    requires Storable(servers, acc) && WellFormed(s, acc) && Addr(s) in AddrsOf(servers)
    requires AllSteady(kept, AddrsOf(servers))
    requires var lines := kept + NewLines(servers, acc);
             j < |lines| && AllFit(lines[..j]) && !LineFits(lines[j])
             && (j >= |kept| ==> lines[j] == LineOf(s, acc))
    ensures Addr(s) !in LoadFrom(map[], (kept + NewLines(servers, acc))[..j])
  {
    var lines := kept + NewLines(servers, acc);
    NewLinesAt(servers, acc);
    if Addr(s) in LoadFrom(map[], lines[..j]) {
      var i := LastBinding(map[], lines[..j], Addr(s));
      BindsOther(kept, servers, acc, j, s, i);
    }
  }

  /** Loading stops in front of the first line that does not fit. */
  lemma LoadedUpTo(file: Option<string>, servers: seq<Server>, acc: Account, j: nat)
    requires servers != [] && Storable(servers, acc)
    requires var lines := SavedLines(file, servers, acc); j < |lines| && AllFit(lines[..j]) && !LineFits(lines[j])
    ensures Loaded(Some(SavedText(file, servers, acc))) == LoadFrom(map[], SavedLines(file, servers, acc)[..j])
  {
    var lines := SavedLines(file, servers, acc);
    SavedTextSplits(file, servers, acc);
    assert (lines + [[]])[..j] == lines[..j];
    FittingCut(lines + [[]], j);
  }

  /** If some saved line does not fit, some address is not bound. */
  lemma UnfitLosesBinding(file: Option<string>, servers: seq<Server>, acc: Account)
    requires servers != [] && Storable(servers, acc)
    requires !AllFit(SavedLines(file, servers, acc))
    ensures !AllBound(Loaded(Some(SavedText(file, servers, acc))), servers, acc)
  {
    var kept, lines := KeptLines(OldLines(file), AddrsOf(servers)), SavedLines(file, servers, acc);
    KeptAreSteady(OldLines(file), AddrsOf(servers));
    NewLinesAt(servers, acc);
    var j := FirstUnfit(lines);
    LoadedUpTo(file, servers, acc, j);
    var k := if j < |kept| then 0 else j - |kept|;
    NotBoundBefore(kept, servers, acc, j, servers[k]);
  }

  /**
   The exact condition for a save to take effect: every given address is bound to the account
   after loading if and only if all fields can be printed on their line, and no line that is
   kept or written exceeds the scanner's buffer.
   */
  lemma SavedBindingsLoad(file: Option<string>, servers: seq<Server>, acc: Account)
    requires servers != []
    ensures AllBound(Loaded(Some(SavedText(file, servers, acc))), servers, acc) <==>
              Storable(servers, acc) && AllFit(SavedLines(file, servers, acc))
  {
    var m := Loaded(Some(SavedText(file, servers, acc)));
    if AllBound(m, servers, acc) {
      forall i | 0 <= i < |servers| ensures WellFormed(servers[i], acc) && OneLine(servers[i], acc) {
        BoundIsStorable(SavedText(file, servers, acc), servers[i], acc);
      }
      if !AllFit(SavedLines(file, servers, acc)) {
        UnfitLosesBinding(file, servers, acc);
        assert false;
      }
    }
    if Storable(servers, acc) && AllFit(SavedLines(file, servers, acc)) {
      SavedTextLoads(file, servers, acc);
      forall i | 0 <= i < |servers| ensures Addr(servers[i]) in AddrsOf(servers) {
      }
    }
  }

  /**
   The state of the old file in which a save is exactly an update of the map: everything is
   printed on its line and fits, and no unreadable rest of the old file comes to light.
   */
  ghost predicate Overrides(file: Option<string>, servers: seq<Server>, acc: Account) {
    && Storable(servers, acc) && AllFit(SavedLines(file, servers, acc))
    && LoadFrom(map[], OldLines(file)) - AddrsOf(servers) == Loaded(file) - AddrsOf(servers)
  }

  /** For any old file whatever, saving rebinds exactly the given addresses under just that condition. */
  lemma SaveOverridesIff(file: Option<string>, servers: seq<Server>, acc: Account)
    requires servers != []
    ensures Overrides(file, servers, acc) <==>
              Loaded(Some(SavedText(file, servers, acc))) == Loaded(file) + (map a | a in AddrsOf(servers) :: acc)
  {
    var replace, added := AddrsOf(servers), BindAll(servers, acc);
    var was, all := Loaded(file), LoadFrom(map[], OldLines(file));
    var now := Loaded(Some(SavedText(file, servers, acc)));
    SavedBindingsLoad(file, servers, acc);
    if now == was + added {
      forall i | 0 <= i < |servers| ensures Addr(servers[i]) in now && now[Addr(servers[i])] == acc {
        assert Addr(servers[i]) in replace;
      }
      assert AllBound(now, servers, acc);
    }
    if Storable(servers, acc) && AllFit(SavedLines(file, servers, acc)) {
      SavedTextLoads(file, servers, acc);
      OverrideEqual(all, was, replace, added);
    }
  }

  /** It is met when the old file's lines and the new ones fit. */
  lemma {:induction false} FittingFileIsOverridden(file: Option<string>, servers: seq<Server>, acc: Account)
    requires servers != [] && Storable(servers, acc)
    requires AllFit(OldLines(file)) && AllFit(NewLines(servers, acc))
    ensures Overrides(file, servers, acc)
  {
    OldLinesAreLines(file);
    KeptLinesAreLines(OldLines(file), AddrsOf(servers));
    FittingAll(OldLines(file), []);
    assert OldLines(file) + [] == OldLines(file);
  }

  /** Then saving is a map update: loading gives the old bindings with exactly the given addresses rebound. */
  lemma {:induction false} SaveThenLoad(file: Option<string>, servers: seq<Server>, acc: Account)
    requires servers != [] && Storable(servers, acc)
    requires AllFit(OldLines(file)) && AllFit(NewLines(servers, acc))
    ensures Loaded(Some(SavedText(file, servers, acc)))
         == Loaded(file) + (map a | a in AddrsOf(servers) :: acc)
  {
    FittingFileIsOverridden(file, servers, acc);
    SaveOverridesIff(file, servers, acc);
  }

  /**
   The third part can fail: an overlong line for `s` hides the line of `t` behind it, until a save
   for `s` drops it.
   */
  lemma UnreadRestComesToLight(s: Server, c: Account, a: Account, t: Server, b: Account)
    requires WellFormed(s, c) && OneLine(s, c) && |c.username| > MAX_LINE_BYTES
    requires WellFormed(t, b) && OneLine(t, b) && LineFits(LineOf(t, b)) && Addr(t) != Addr(s)
    requires WellFormed(s, a) && OneLine(s, a) && LineFits(LineOf(s, a))
    ensures var file := Some(LineOf(s, c) + ['\n'] + LineOf(t, b));
      && Loaded(file) == map[]
      && Loaded(Some(SavedText(file, [s], a))) == map[Addr(t) := b, Addr(s) := a]
      && !Overrides(file, [s], a)
  {
    var file := Some(LineOf(s, c) + ['\n'] + LineOf(t, b));
    TwoLines(s, c, t, b);
    LongLineIsUnfit(s, c);
    OnlySecondKept(s, c, t, b);
    SavedBehindOne(file, s, a, t, b);
    assert Fitting([LineOf(s, c), LineOf(t, b)]) == [];
    NotOverridden(file, s, a, Addr(t));
  }

  /** A binding for another address that appears with a save. */
  lemma NotOverridden(file: Option<string>, s: Server, a: Account, d: string)
    requires d !in Loaded(file) && d in Loaded(Some(SavedText(file, [s], a))) && d != Addr(s)
    ensures !Overrides(file, [s], a)
  {
    SaveOverridesIff(file, [s], a);
    forall e | e in AddrsOf([s]) ensures e == Addr(s) {
      var i :| 0 <= i < |[s]| && e == Addr([s][i]);
    }
  }

  lemma TwoLines(s: Server, c: Account, t: Server, b: Account)
    requires OneLine(s, c) && OneLine(t, b)
    ensures Split(LineOf(s, c) + ['\n'] + LineOf(t, b), '\n') == [LineOf(s, c), LineOf(t, b)]
  {
    LineHasNoNewline(s, c);
    LineHasNoNewline(t, b);
    SplitAppend(LineOf(s, c), LineOf(t, b), '\n');
    SplitNone(LineOf(s, c), '\n');
    SplitNone(LineOf(t, b), '\n');
  }

  lemma LongLineIsUnfit(s: Server, c: Account)
    requires |c.username| > MAX_LINE_BYTES
    ensures !LineFits(LineOf(s, c))
  {
    EncodingIsNoShorter(LineOf(s, c));
  }

  lemma {:induction false} EncodingIsNoShorter(s: string)
    ensures |Utf8.EncodeAll(s)| >= |s|
  {
    if s != [] {
      EncodingIsNoShorter(s[1..]);
      Utf8.EncodeIsChar(s[0]);
    }
  }

  lemma OnlySecondKept(s: Server, c: Account, t: Server, b: Account)
    requires WellFormed(s, c) && WellFormed(t, b) && Addr(t) != Addr(s)
    ensures KeptLines([LineOf(s, c), LineOf(t, b)], AddrsOf([s])) == [LineOf(t, b)]
  {
    var x, y := LineOf(s, c), LineOf(t, b);
    PrintedLineParses(s, c);
    SameAddress(x);
    PrintedIsSteady(t, b, AddrsOf([s]));
    assert [s][0] == s && Addr(s) in AddrsOf([s]);
    KeptAgain([y], AddrsOf([s]));
    assert [x, y][1..] == [y];
    assert [] + [y] == [y];
  }

  /** A line printed for another address stays as it is. */
  lemma PrintedIsSteady(s: Server, acc: Account, replace: set<string>)
    requires WellFormed(s, acc) && Addr(s) !in replace
    ensures Steady(LineOf(s, acc), replace)
  {
    PrintedLineParses(s, acc);
    SameAddress(LineOf(s, acc));
    LineEnd(s, acc);
  }

  lemma SavedBehindOne(file: Option<string>, s: Server, a: Account, t: Server, b: Account)
    requires KeptLines(OldLines(file), AddrsOf([s])) == [LineOf(t, b)]
    requires WellFormed(t, b) && LineFits(LineOf(t, b))
    requires WellFormed(s, a) && OneLine(s, a) && LineFits(LineOf(s, a))
    ensures Loaded(Some(SavedText(file, [s], a))) == map[Addr(t) := b, Addr(s) := a]
  {
    var x, y := LineOf(t, b), LineOf(s, a);
    var none: Bindings := map[];
    assert [s][1..] == [] && NewLines([s], a) == [y];
    var lines := [x, y];
    assert SavedLines(file, [s], a) == lines;
    SavedTextSplits(file, [s], a);
    FinalBlank(none, lines);
    FittingAll(lines, []);
    assert lines + [] == lines && lines == [x] + [y] && [y] == [y] + [];
    LoadPrinted(none, t, b);
    LoadFirst(none, x, [y]);
    LoadPrinted(none[Addr(t) := b], s, a);
    LoadFirst(none[Addr(t) := b], y, []);
  }

  lemma OverrideEqual(x: Bindings, y: Bindings, replace: set<string>, b: Bindings)
    requires b.Keys == replace
    ensures x + b == y + b <==> x - replace == y - replace
  {
    assert x + b - replace == x - replace;
    assert y + b - replace == y - replace;
    OverrideRemoved(x, replace, b);
    OverrideRemoved(y, replace, b);
  }

  // ---------------------------------------------------------------- saving again

  lemma {:induction false} KeptAgain(lines: seq<string>, replace: set<string>)
    requires AllSteady(lines, replace)
    ensures KeptLines(lines, replace) == lines
  {
    if lines != [] {
      KeptAgain(lines[1..], replace);
      assert Steady(lines[0], replace);
      assert lines == [lines[0]] + lines[1..];
    }
  }

  lemma {:induction false} KeptOfText(kept: seq<string>, added: seq<string>, replace: set<string>)
    requires AllSteady(kept, replace)
    ensures KeptLines(kept + added + [[]], replace) == kept + KeptLines(added, replace)
  {
    KeptAppend(kept + added, [[]], replace);
    KeptAppend(kept, added, replace);
    KeptAgain(kept, replace);
    var blank: seq<string> := [[]];
    assert blank[1..] == [] && blank[0] == [];
    assert KeptLines(blank, replace) == [];
  }

  /** Lines that a save for these addresses drops. */
  ghost predicate AllDropped(lines: seq<string>, replace: set<string>) {
    forall i :: 0 <= i < |lines| ==> Stale(lines[i], replace) || DropCr(lines[i]) == []
  }

  lemma {:induction false} KeptNothing(lines: seq<string>, replace: set<string>)
    ensures KeptLines(lines, replace) == [] <==> AllDropped(lines, replace)
  {
    if lines != [] {
      var rest := lines[1..];
      KeptNothing(rest, replace);
      assert AllDropped(lines, replace) ==> AllDropped(rest, replace);
      if AllDropped(rest, replace) && (Stale(lines[0], replace) || DropCr(lines[0]) == []) {
        forall i | 0 <= i < |lines| ensures Stale(lines[i], replace) || DropCr(lines[i]) == [] {
          assert i > 0 ==> lines[i] == rest[i - 1];
        }
      }
    }
  }

  lemma PrintedIsNotBlank(s: Server, acc: Account)
    ensures DropCr(LineOf(s, acc)) != []
  {
    var line := LineOf(s, acc);
    DropCrCuts(line);
    assert line[|s.host|] == ' ';
  }

  /** Saving over a saved file: the kept lines, those written lines that are not dropped, the new ones. */
  lemma {:induction false} SavedLinesAgain(file: Option<string>, servers: seq<Server>, a: Account, b: Account)
    requires servers != []
    ensures SavedLines(Some(SavedText(file, servers, a)), servers, b)
         == KeptLines(OldLines(file), AddrsOf(servers))
            + KeptLines(WrittenLines(servers, a), AddrsOf(servers)) + NewLines(servers, b)
  {
    SavedTextFalls(file, servers, a);
    KeptAreSteady(OldLines(file), AddrsOf(servers));
    KeptOfText(KeptLines(OldLines(file), AddrsOf(servers)), WrittenLines(servers, a), AddrsOf(servers));
  }

  function TotalLength(lines: seq<string>): nat {
    if lines == [] then 0 else |lines[0]| + 1 + TotalLength(lines[1..])
  }

  lemma {:induction false} JoinLength(lines: seq<string>, sep: char)
    requires lines != []
    ensures |Join(lines, sep)| == TotalLength(lines) - 1
  {
    if |lines| > 1 {
      JoinLength(lines[1..], sep);
    }
  }

  lemma {:induction false} TotalLengthAppend(a: seq<string>, b: seq<string>)
    ensures TotalLength(a + b) == TotalLength(a) + TotalLength(b)
  {
    if a == [] {
      assert a + b == b;
    } else {
      assert (a + b)[1..] == a[1..] + b;
      TotalLengthAppend(a[1..], b);
    }
  }

  /** Extra lines show in the text. */
  lemma {:induction false} ExtraLinesShow(x: seq<string>, extra: seq<string>, y: seq<string>)
    requires y != []
    ensures Join(x + extra + y, '\n') + "\n" == Join(x + y, '\n') + "\n" <==> extra == []
  {
    if extra == [] {
      assert x + [] + y == x + y;
    } else {
      JoinLength(x + extra + y, '\n');
      JoinLength(x + y, '\n');
      TotalLengthAppend(x + extra, y);
      TotalLengthAppend(x, extra);
      TotalLengthAppend(x, y);
    }
  }

  /**
   The exact condition for a second save to replace the first, for any accounts and servers:
   saving `a` and then `b` writes, byte for byte, what saving `b` alone writes, if and only if
   every line that the text written for `a` falls into is blank or recognised as belonging to one
   of the servers.
   */
  lemma SaveTwice(file: Option<string>, servers: seq<Server>, a: Account, b: Account)
    requires servers != []
    ensures SavedText(Some(SavedText(file, servers, a)), servers, b) == SavedText(file, servers, b) <==>
              AllDropped(WrittenLines(servers, a), AddrsOf(servers))
  {
    var replace := AddrsOf(servers);
    SavedLinesAgain(file, servers, a, b);
    NewLinesAt(servers, b);
    KeptNothing(WrittenLines(servers, a), replace);
    var kept, extra := KeptLines(OldLines(file), replace), KeptLines(WrittenLines(servers, a), replace);
    ExtraLinesShow(kept, extra, NewLines(servers, b));
  }

  /** When no field holds a newline, it is that every printed line is recognised. */
  lemma SaveTwiceOneLine(file: Option<string>, servers: seq<Server>, a: Account, b: Account)
    requires servers != [] && AllOneLine(servers, a)
    ensures SavedText(Some(SavedText(file, servers, a)), servers, b) == SavedText(file, servers, b) <==>
              forall i :: 0 <= i < |servers| ==> Stale(LineOf(servers[i], a), AddrsOf(servers))
  {
    SaveTwice(file, servers, a, b);
    WrittenOneLine(servers, a);
    NewLinesAt(servers, a);
    forall i | 0 <= i < |servers| ensures DropCr(NewLines(servers, a)[i]) != [] {
      PrintedIsNotBlank(servers[i], a);
    }
    if AllDropped(WrittenLines(servers, a), AddrsOf(servers)) {
      forall i | 0 <= i < |servers| ensures Stale(LineOf(servers[i], a), AddrsOf(servers)) {
        assert NewLines(servers, a)[i] == LineOf(servers[i], a);
      }
    }
  }

  /** A newline in the user name: the text behind it is a line of its own, which registering again leaves there. */
  lemma NewlineIsNotReplaced(file: Option<string>, s: Server, a: Account, b: Account, u: string, v: string)
    requires a.username == u + ['\n'] + v
    requires '\n' !in v && '\n' !in a.salt && '\n' !in a.key
    requires ':' !in v && ':' !in a.salt && ':' !in a.key
    ensures SavedText(Some(SavedText(file, [s], a)), [s], b) != SavedText(file, [s], b)
  {
    SaveTwice(file, [s], a, b);
    WrittenForOne(s, a);
    var rest := LastLineOf(a, v);
    LineBreaks(s, a, u, v);
    LastLineStays(a, v, AddrsOf([s]));
    var written := WrittenLines([s], a);
    assert written[|written| - 1] == rest;
  }

  lemma LastLineStays(a: Account, v: string, replace: set<string>)
    requires ':' !in v && ':' !in a.salt && ':' !in a.key
    ensures !Stale(LastLineOf(a, v), replace) && DropCr(LastLineOf(a, v)) != []
  {
    var x, y := v + " ", " " + a.salt + "," + a.key;
    assert LastLineOf(a, v) == x + [':'] + y;
    TwoCells(x, y);
  }

  function LastLineOf(a: Account, v: string): string {
    v + " : " + a.salt + "," + a.key
  }

  lemma WrittenForOne(s: Server, a: Account)
    ensures WrittenLines([s], a) == Split(LineOf(s, a), '\n')
  {
    assert [s][1..] == [];
    assert NewLines([s], a) == [LineOf(s, a)];
  }

  lemma LineBreaks(s: Server, a: Account, u: string, v: string)
    requires a.username == u + ['\n'] + v
    requires '\n' !in v && '\n' !in a.salt && '\n' !in a.key
    ensures exists start :: Split(LineOf(s, a), '\n') == Split(start, '\n') + [LastLineOf(a, v)]
  {
    var start, rest := s.host + " : " + Itoa(s.port) + " : " + u, LastLineOf(a, v);
    assert LineOf(s, a) == start + ['\n'] + rest;
    SplitAppend(start, rest, '\n');
    SplitNone(rest, '\n');
  }

  /** A line with a single colon is no binding, and not blank. */
  lemma {:induction false} TwoCells(x: string, y: string)
    requires ':' !in x && ':' !in y
    ensures AddrOfLine(x + [':'] + y).None? && DropCr(x + [':'] + y) != []
  {
    var line := x + [':'] + y;
    DropCrCuts(line);
    assert line[|x|] == ':';
    CountIn(x, ':');
    CountIn(y, ':');
    CountAppend(x, [':'], ':');
    CountAppend(x + [':'], y, ':');
    UnrecognisedByCount(line);
  }

  /** Trimming takes no colon away. */
  lemma {:induction false} ColonsStay(line: string)
    ensures Count(TrimSpace(DropCr(line)), ':') == Count(line, ':')
  {
    var t := TrimSpace(DropCr(line));
    TrimAfterDropCr(line);
    var left, right := TrimCuts(line);
    CountAppend(left, t, ':');
    CountAppend(left + t, right, ':');
    CountSpaces(left);
    CountSpaces(right);
  }

  /** Only lines with exactly three colons are recognised. */
  lemma {:induction false} UnrecognisedByCount(line: string)
    requires Count(line, ':') != 3
    ensures AddrOfLine(line).None?
  {
    ColonsStay(line);
    SplitCount(TrimSpace(DropCr(line)), ':');
  }

  /** Well-formed lines are recognised, so re-registering is idempotent and overwrites. */
  lemma SaveOverwrites(file: Option<string>, servers: seq<Server>, a: Account, b: Account)
    requires servers != [] && Storable(servers, a)
    ensures SavedText(Some(SavedText(file, servers, a)), servers, b) == SavedText(file, servers, b)
  {
    forall i | 0 <= i < |servers| ensures Stale(LineOf(servers[i], a), AddrsOf(servers)) {
      PrintedLineParses(servers[i], a);
      SameAddress(LineOf(servers[i], a));
    }
    SaveTwiceOneLine(file, servers, a, b);
  }

  /** A host with a colon in it, an IPv6 address, is never recognised. */
  lemma ColonHostIsNotRecognised(s: Server, acc: Account)
    requires ':' in s.host
    ensures AddrOfLine(LineOf(s, acc)).None? && ParseLine(LineOf(s, acc)).None?
  {
    var cells := Cells(s, acc);
    SameAddress(LineOf(s, acc));
    LineIsJoined(s, acc);
    JoinCount(cells, ':');
    CountIn(cells[0], ':');
    assert cells[0][..|s.host|] == s.host;
    UnrecognisedByCount(LineOf(s, acc));
  }

  /** Joining adds one separator between two neighbours to those in the first part, and to any others. */
  lemma {:induction false} JoinCount(parts: seq<string>, sep: char)
    requires parts != []
    ensures Count(Join(parts, sep), sep) >= |parts| - 1 + Count(parts[0], sep)
  {
    if |parts| > 1 {
      JoinCount(parts[1..], sep);
      CountAppend(parts[0] + [sep], Join(parts[1..], sep), sep);
      CountAppend(parts[0], [sep], sep);
    }
  }

  function Count(s: string, c: char): nat {
    if s == [] then 0 else (if s[0] == c then 1 else 0) + Count(s[1..], c)
  }

  lemma {:induction false} CountAppend(a: string, b: string, c: char)
    ensures Count(a + b, c) == Count(a, c) + Count(b, c)
  {
    if a == [] {
      assert a + b == b;
    } else {
      assert (a + b)[1..] == a[1..] + b;
      CountAppend(a[1..], b, c);
    }
  }

  lemma {:induction false} CountIn(s: string, c: char)
    ensures c in s <==> Count(s, c) > 0
  {
    if s != [] {
      CountIn(s[1..], c);
      assert s == [s[0]] + s[1..];
    }
  }

  lemma {:induction false} CountSpaces(s: string)
    requires AllSpace(s)
    ensures Count(s, ':') == 0
  {
    CountIn(s, ':');
    forall i | 0 <= i < |s| ensures s[i] != ':' {
      assert IsSpace(s[i]);
    }
  }

  lemma {:induction false} SplitCount(s: string, sep: char)
    ensures |Split(s, sep)| == Count(s, sep) + 1
  {
    if s != [] {
      SplitCount(s[1..], sep);
    }
  }
}
