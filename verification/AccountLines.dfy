/**
 Which lines of an accounts file are read, and as what; which of them an edit keeps; and what the
 file as a whole binds. Everything is said of the characters of the line.
 */
module AccountLines {
  import opened Basics
  import opened Text
  import opened Accounts
  import opened AccountsFile
  import Numerals
  import Utf8

  lemma SpacesHaveNoColon(pad: string)
    requires AllSpace(pad)
    ensures ':' !in pad
  {
    forall i | 0 <= i < |pad| ensures pad[i] != ':' {
      assert IsSpace(pad[i]);
    }
  }

  // ---------------------------------------------------------------- cells

  function FourCells(a: string, b: string, c: string, d: string): string {
    a + ":" + b + ":" + c + ":" + d
  }

  ghost predicate NoColons(a: string, b: string, c: string, d: string) {
    ':' !in a && ':' !in b && ':' !in c && ':' !in d
  }

  lemma FourCellsEnds(a: string, b: string, c: string, d: string)
    requires NoLeading(a) && NoTrailing(d)
    ensures Trimmed(FourCells(a, b, c, d)) && FourCells(a, b, c, d) != []
    ensures FourCells(a, b, c, d)[0] == if a == [] then ':' else a[0]
  {
    var line := FourCells(a, b, c, d);
    assert line[|line| - 1] == if d == [] then ':' else d[|d| - 1];
  }

  lemma FourCellsPadded(left: string, a: string, b: string, c: string, d: string, right: string)
    ensures FourCells(left + a, b, c, d + right) == left + FourCells(a, b, c, d) + right
  {
    var m := ":" + b + ":" + c + ":";
    FourCellsMiddle(left + a, b, c, d + right);
    FourCellsMiddle(a, b, c, d);
    assert left + a + m + (d + right) == left + (a + m + d) + right;
  }

  lemma FourCellsMiddle(a: string, b: string, c: string, d: string)
    ensures FourCells(a, b, c, d) == a + (":" + b + ":" + c + ":") + d
  {
  }

  /** A line of four cells is split into them, but for the whitespace at its two ends. */
  lemma {:induction false} SplitsIntoCells(a: string, b: string, c: string, d: string)
    requires NoColons(a, b, c, d)
    ensures var line := TrimSpace(FourCells(a, b, c, d));
      && line != [] && line[0] == (if TrimLeft(a) == [] then ':' else TrimLeft(a)[0])
      && Split(line, ':') == [TrimLeft(a), b, c, TrimRight(d)]
  {
    var left := TrimLeftCuts(a);
    var right := TrimRightCuts(d);
    var x, y := TrimLeft(a), TrimRight(d);
    FourCellsEnds(x, b, c, y);
    FourCellsPadded(left, x, b, c, y, right);
    TrimPad(left, FourCells(x, b, c, y), right);
    JoinFour(x, b, c, y);
    SplitInvertsJoin([x, b, c, y], ':');
  }

  /** A line that is split into four parts has four cells. */
  lemma CellsOf(raw: string) returns (a: string, b: string, c: string, d: string)
    requires |Split(TrimSpace(raw), ':')| == 4
    ensures raw == FourCells(a, b, c, d) && NoColons(a, b, c, d)
  {
    var line := TrimSpace(raw);
    var parts := Split(line, ':');
    var left, right := TrimCuts(raw);
    SplitParts(line, ':');
    JoinInvertsSplit(line, ':');
    assert parts == [parts[0], parts[1], parts[2], parts[3]];
    JoinFour(parts[0], parts[1], parts[2], parts[3]);
    FourCellsPadded(left, parts[0], parts[1], parts[2], parts[3], right);
    SpacesHaveNoColon(left);
    SpacesHaveNoColon(right);
    a, b, c, d := left + parts[0], parts[1], parts[2], parts[3] + right;
  }

  /** The line has four cells with these cores, and is not commented out. */
  ghost predicate Says(raw: string, host: string, numeral: string, user: string, rest: string) {
    && (host == "" || host[0] != '#')
    && exists a, b, c, d ::
         && raw == FourCells(a, b, c, d) && NoColons(a, b, c, d)
         && Padded(a, host) && Padded(b, numeral) && Padded(c, user) && Padded(d, rest)
  }

  lemma {:induction false} StartOfHost(a: string)
    ensures TrimSpace(a) == [] <==> TrimLeft(a) == []
    ensures TrimSpace(a) != [] ==> TrimSpace(a)[0] == TrimLeft(a)[0]
  {
    var left := TrimLeftCuts(a);
    var right := TrimRightCuts(TrimLeft(a));
    if TrimSpace(a) == [] {
      assert TrimLeft(a) == right == right + [];
      NoPad(right, []);
    }
  }

  /** The fields of a line are those four cores. */
  lemma SaysIffFields(raw: string, host: string, numeral: string, user: string, rest: string)
    ensures Says(raw, host, numeral, user, rest) <==>
              var fields := Fields(TrimSpace(raw));
              && fields.Some?
              && host == TrimSpace(fields.value[0]) && numeral == TrimSpace(fields.value[1])
              && user == TrimSpace(fields.value[2]) && rest == TrimSpace(fields.value[3])
  {
    if Says(raw, host, numeral, user, rest) {
      var a, b, c, d :| raw == FourCells(a, b, c, d) && NoColons(a, b, c, d)
        && Padded(a, host) && Padded(b, numeral) && Padded(c, user) && Padded(d, rest);
      CellsAreRead(raw, a, b, c, d);
      PaddedIffTrimmed(a, host);
      PaddedIffTrimmed(b, numeral);
      PaddedIffTrimmed(c, user);
      PaddedIffTrimmed(d, rest);
    }
    if Fields(TrimSpace(raw)).Some? {
      var a, b, c, d := CellsOf(raw);
      CellsAreRead(raw, a, b, c, d);
      PaddedIffTrimmed(a, TrimSpace(a));
      PaddedIffTrimmed(b, TrimSpace(b));
      PaddedIffTrimmed(c, TrimSpace(c));
      PaddedIffTrimmed(d, TrimSpace(d));
    }
  }

  lemma CellsAreRead(raw: string, a: string, b: string, c: string, d: string)
    requires raw == FourCells(a, b, c, d) && NoColons(a, b, c, d)
    ensures var fields := Fields(TrimSpace(raw));
      && (fields.Some? <==> TrimSpace(a) == "" || TrimSpace(a)[0] != '#')
      && (fields.Some? ==>
           && TrimSpace(fields.value[0]) == TrimSpace(a) && TrimSpace(fields.value[1]) == TrimSpace(b)
           && TrimSpace(fields.value[2]) == TrimSpace(c) && TrimSpace(fields.value[3]) == TrimSpace(d))
  {
    SplitsIntoCells(a, b, c, d);
    StartOfHost(a);
    TrimLeftSide(a);
    TrimRightSide(d);
  }

  // ---------------------------------------------------------------- what a line says

  /** The numeral is a port of this host, and that is the address. */
  ghost predicate Names(host: string, numeral: string, addr: string) {
    exists port: Int :: Numerals.Reads(numeral, port) && addr == Addr(Server(host, port))
  }

  lemma NamesIff(host: string, numeral: string, addr: string)
    ensures Names(host, numeral, addr) <==>
              Atoi(numeral).ok && addr == Addr(Server(host, Atoi(numeral).value))
  {
    if Atoi(numeral).ok {
      var port: Int := Atoi(numeral).value;
      Numerals.AtoiOkIff(numeral, port);
    }
    forall port: Int | Numerals.Reads(numeral, port) ensures Atoi(numeral) == Parsed(port, true) {
      Numerals.AtoiOkIff(numeral, port);
    }
  }

  /** The editor reads an address off exactly the lines with four cells, a numeral in the second. */
  lemma AddressReadIff(raw: string, addr: string)
    ensures AddrOfLine(raw) == Some(addr) <==>
              exists host, numeral, user, rest ::
                Says(raw, host, numeral, user, rest) && Names(host, numeral, addr)
  {
    TrimAfterDropCr(raw);
    if AddrOfLine(raw) == Some(addr) {
      var parts := Fields(TrimSpace(raw)).value;
      var host, numeral, user, rest :=
        TrimSpace(parts[0]), TrimSpace(parts[1]), TrimSpace(parts[2]), TrimSpace(parts[3]);
      SaysIffFields(raw, host, numeral, user, rest);
      NamesIff(host, numeral, addr);
    }
    forall host, numeral, user, rest | Says(raw, host, numeral, user, rest) && Names(host, numeral, addr)
      ensures AddrOfLine(raw) == Some(addr)
    {
      SaysIffFields(raw, host, numeral, user, rest);
      NamesIff(host, numeral, addr);
    }
  }

  /** Salt and key in the last cell, split at its first comma; one of them is not empty. */
  ghost predicate SaysAccount(raw: string, host: string, numeral: string, acc: Account) {
    && Says(raw, host, numeral, acc.username, acc.salt + "," + acc.key)
    && ',' !in acc.salt && (acc.salt != "" || acc.key != "")
  }

  lemma FirstComma(salt: string, key: string, cell: string)
    ensures KeyFromHex(cell) == Some((salt, key)) <==> cell == salt + "," + key && ',' !in salt
  {
    if cell == salt + "," + key && ',' !in salt {
      IndexOfFirst(salt, key, ',');
      assert cell[..|salt|] == salt && cell[|salt| + 1..] == key;
    }
    var i := IndexOf(cell, ',');
    if i < |cell| {
      assert cell == cell[..i] + [','] + cell[i + 1..];
    }
  }

  /** The loader reads an entry off exactly the lines whose last cell holds salt and key besides. */
  lemma EntryReadIff(raw: string, e: Entry)
    ensures ParseLine(raw) == Some(e) <==>
              exists host, numeral :: SaysAccount(raw, host, numeral, e.account) && Names(host, numeral, e.addr)
  {
    var acc := e.account;
    var rest := acc.salt + "," + acc.key;
    if ParseLine(raw) == Some(e) {
      var parts := Fields(TrimSpace(raw)).value;
      var host, numeral := TrimSpace(parts[0]), TrimSpace(parts[1]);
      FirstComma(acc.salt, acc.key, TrimSpace(parts[3]));
      SaysIffFields(raw, host, numeral, acc.username, rest);
      NamesIff(host, numeral, e.addr);
      assert SaysAccount(raw, host, numeral, acc);
    }
    forall host, numeral | SaysAccount(raw, host, numeral, acc) && Names(host, numeral, e.addr)
      ensures ParseLine(raw) == Some(e)
    {
      SaysIffFields(raw, host, numeral, acc.username, rest);
      FirstComma(acc.salt, acc.key, rest);
      NamesIff(host, numeral, e.addr);
    }
  }

  /** However the cells are padded, or not at all, a well-formed binding is read. */
  lemma PaddedLineIsRead(s: Server, acc: Account, raw: string, a: string, b: string, c: string, d: string)
    requires WellFormed(s, acc) && raw == a + ":" + b + ":" + c + ":" + d
    requires Padded(a, s.host) && Padded(b, Itoa(s.port))
    requires Padded(c, acc.username) && Padded(d, acc.salt + "," + acc.key)
    ensures ParseLine(raw) == Some(Entry(Addr(s), acc))
    ensures AddrOfLine(raw) == Some(Addr(s))
  {
    var rest := acc.salt + "," + acc.key;
    ItoaIsPlain(s.port);
    NoColonInPadded(a, s.host);
    NoColonInPadded(b, Itoa(s.port));
    NoColonInPadded(c, acc.username);
    NoColonInPadded(d, rest);
    assert raw == FourCells(a, b, c, d);
    assert SaysAccount(raw, s.host, Itoa(s.port), acc);
    AtoiInvertsItoa(s.port);
    NamesIff(s.host, Itoa(s.port), Addr(s));
    EntryReadIff(raw, Entry(Addr(s), acc));
    SameAddress(raw);
  }

  lemma NoColonInPadded(cell: string, core: string)
    requires Padded(cell, core) && ':' !in core
    ensures ':' !in cell
  {
    var left, right :| AllSpace(left) && AllSpace(right) && Trimmed(core) && cell == left + core + right;
    SpacesHaveNoColon(left);
    SpacesHaveNoColon(right);
  }

  // ---------------------------------------------------------------- what a file binds

  /** The scanner gets to line i: this line and those before it take less than 65536 bytes each. */
  ghost predicate Reached(lines: seq<string>, i: int) {
    0 <= i < |lines| && forall j :: 0 <= j <= i ==> |Utf8.EncodeAll(lines[j])| < 65536
  }

  /** The account the line is read as for this address. */
  function Said(line: string, addr: string): Option<Account> {
    match ParseLine(line)
    case Some(e) => if e.addr == addr then Some(e.account) else None
    case None => None
  }

  /** Line i is reached, says this account for the address, and no line reached behind it says another. */
  ghost predicate LastWord(lines: seq<string>, i: int, addr: string, acc: Account) {
    && Reached(lines, i) && Said(lines[i], addr) == Some(acc)
    && forall j :: i < j < |lines| && Reached(lines, j) ==> Said(lines[j], addr) == None
  }

  function Bound(m: Bindings, addr: string): Option<Account> {
    if addr in m then Some(m[addr]) else None
  }

  lemma {:induction false} FittingIsReached(lines: seq<string>)
    ensures Fitting(lines) <= lines
    ensures forall i :: 0 <= i < |lines| ==> (Reached(lines, i) <==> i < |Fitting(lines)|)
  {
    if lines != [] && LineFits(lines[0]) {
      var rest := lines[1..];
      FittingIsReached(rest);
      forall i | 0 <= i < |lines| ensures Reached(lines, i) <==> i < |Fitting(lines)| {
        if i > 0 && Reached(rest, i - 1) {
          assert forall j :: 0 < j <= i ==> lines[j] == rest[j - 1];
        }
        if i > 0 && Reached(lines, i) {
          assert forall j :: 0 <= j < i ==> rest[j] == lines[j + 1];
        }
      }
    } else if lines != [] {
      assert forall i :: Reached(lines, i) ==> |Utf8.EncodeAll(lines[0])| < 65536;
    }
  }

  lemma LoadSaid(m: Bindings, line: string, addr: string)
    ensures Bound(Load(m, line), addr) == if Said(line, addr).Some? then Said(line, addr) else Bound(m, addr)
  {
  }

  /** What a map binds after loading: the last word of the lines, or what it bound before. */
  lemma {:induction false} LoadFromSaid(m: Bindings, lines: seq<string>, addr: string) returns (last: int)
    ensures -1 <= last < |lines|
    ensures forall j :: last < j < |lines| ==> Said(lines[j], addr) == None
    ensures last >= 0 ==> Said(lines[last], addr).Some?
    ensures Bound(LoadFrom(m, lines), addr) == if last >= 0 then Said(lines[last], addr) else Bound(m, addr)
    decreases |lines|
  {
    last := -1;
    if lines != [] {
      LoadSaid(m, lines[0], addr);
      var k := LoadFromSaid(Load(m, lines[0]), lines[1..], addr);
      if k >= 0 || Said(lines[0], addr).Some? {
        last := k + 1;
      }
      forall j | last < j < |lines| ensures Said(lines[j], addr) == None {
        assert j > 0 ==> lines[j] == lines[1..][j - 1];
      }
    }
  }

  /** A file binds an address to the account on the last line that is reached and read as one for it. */
  lemma {:induction false} FileMeans(text: string, addr: string, acc: Account)
    ensures Bound(Loaded(Some(text)), addr) == Some(acc) <==>
              exists i :: LastWord(Split(text, '\n'), i, addr, acc)
  {
    var lines := Split(text, '\n');
    var read := Fitting(lines);
    FittingIsReached(lines);
    var last := LoadFromSaid(map[], read, addr);
    assert forall j :: 0 <= j < |read| ==> lines[j] == read[j];
    if last >= 0 && Said(read[last], addr) == Some(acc) {
      assert LastWord(lines, last, addr, acc);
    }
  }

  /** A file of one line binds what the line says, and nothing else. */
  lemma {:induction false} OneLineFile(line: string)
    requires '\n' !in line && |Utf8.EncodeAll(line)| < 65536
    ensures Loaded(Some(line)) == Loaded(Some(line + "\n"))
    ensures Loaded(Some(line)) == match ParseLine(line) case Some(e) => map[e.addr := e.account] case None => map[]
  {
    var one, two: seq<string> := [line], [line] + [[]];
    SplitNone(line, '\n');
    SplitAppend(line, [], '\n');
    assert line + ['\n'] + [] == line + "\n";
    assert LineFits(line) && one[1..] == [];
    assert Split(line + "\n", '\n') == two && Fitting(one) == one;
    FinalBlank(map[], one);
    assert LoadFrom(map[], one) == Load(map[], line);
  }

  /** So a file of one such line, padded anyhow, loads as that binding. */
  lemma {:induction false} PaddedFileLoads(s: Server, acc: Account, line: string,
                                           a: string, b: string, c: string, d: string)
    requires WellFormed(s, acc) && line == a + ":" + b + ":" + c + ":" + d
    requires Padded(a, s.host) && Padded(b, Itoa(s.port))
    requires Padded(c, acc.username) && Padded(d, acc.salt + "," + acc.key)
    requires '\n' !in line && |Utf8.EncodeAll(line)| < 65536
    ensures Loaded(Some(line + "\n")) == map[Addr(s) := acc]
  {
    PaddedLineIsRead(s, acc, line, a, b, c, d);
    OneLineFile(line);
  }

  // ---------------------------------------------------------------- what an edit keeps

  /**
   An old line stays, without the carriage returns at its end, exactly when something is left of it
   and it is not read as one for a replaced address; the lines around it have no say.
   */
  lemma {:induction false} OldLineStays(a: seq<string>, t: string, crs: string, b: seq<string>, replace: set<string>)
    requires t == "" || t[|t| - 1] != '\r'
    requires forall i :: 0 <= i < |crs| ==> crs[i] == '\r'
    ensures KeptLines(a + [t + crs] + b, replace)
         == KeptLines(a, replace)
            + (if t == "" || (exists addr :: addr in replace && AddrOfLine(t) == Some(addr)) then [] else [t])
            + KeptLines(b, replace)
  {
    var line := t + crs;
    KeptAppend(a + [line], b, replace);
    KeptAppend(a, [line], replace);
    DropsCrs(t, crs);
    SameWithoutCr(line);
    KeptOne(line, replace);
  }

  lemma {:induction false} KeptOne(line: string, replace: set<string>)
    ensures KeptLines([line], replace)
         == if Stale(line, replace) || DropCr(line) == [] then [] else [DropCr(line)]
  {
    assert [line][1..] == [];
  }

  lemma {:induction false} DropsCrs(t: string, crs: string)
    requires t == "" || t[|t| - 1] != '\r'
    requires forall i :: 0 <= i < |crs| ==> crs[i] == '\r'
    ensures DropCr(t + crs) == t
  {
    if crs == "" {
      assert t + crs == t;
    } else {
      var n := |crs| - 1;
      assert (t + crs)[..|t + crs| - 1] == t + crs[..n];
      DropsCrs(t, crs[..n]);
    }
  }

  // ---------------------------------------------------------------- addresses

  /** Host and port, with a colon between them; a host with a colon in it is put in brackets. */
  lemma AddrReads(s: Server)
    ensures ':' !in s.host ==> Split(Addr(s), ':') == [s.host, Itoa(s.port)]
    ensures ':' in s.host ==> Addr(s) == "[" + s.host + "]:" + Itoa(s.port)
  {
    var host, port := s.host, Itoa(s.port);
    ItoaIsPlain(s.port);
    if ':' !in host {
      SplitAppend(host, port, ':');
      SplitNone(host, ':');
      SplitNone(port, ':');
    }
  }
}
