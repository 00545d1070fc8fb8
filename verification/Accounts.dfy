/**
 The accounts file: one "host : port : username : salt,key" line for each server.
 Loading reads it as a map from addresses to accounts; saving edits the text.
 */
module Accounts {
  import opened Basics
  import opened Text

  type Int = n: int | IsInt(n)

  datatype Server = Server(host: string, port: Int)
  datatype Account = Account(username: string, salt: string, key: string)

  /** Server.addr: net.JoinHostPort. */
  function Addr(s: Server): string {
    if ':' in s.host then ['['] + s.host + [']', ':'] + Itoa(s.port)
    else s.host + [':'] + Itoa(s.port)
  }

  // ---------------------------------------------------------------- one line

  /** accountLine: host : port : username : salt,key. */
  function LineOf(s: Server, acc: Account): string {
    s.host + " : " + Itoa(s.port) + " : " + acc.username + " : " + acc.salt + "," + acc.key
  }

  /** keyFromHexStr: split at the first comma. */
  function KeyFromHex(s: string): Option<(string, string)> {
    var i := IndexOf(s, ',');
    if i < |s| then Some((s[..i], s[i + 1..])) else None
  }

  datatype Entry = Entry(addr: string, account: Account)

  /** The four fields of a line that is not blank, not a comment and has three colons. */
  function Fields(line: string): (r: Option<seq<string>>)
    ensures r.Some? ==> |r.value| == 4
  {
    if line == [] || line[0] == '#' then None
    else
      var parts := Split(line, ':');
      if |parts| != 4 then None else Some(parts)
  }

  /** What LoadAccounts makes of one line. */
  function ParseLine(raw: string): Option<Entry> {
    match Fields(TrimSpace(raw))
    case None => None
    case Some(parts) =>
      var port := Atoi(TrimSpace(parts[1]));
      if !port.ok then None
      else
        match KeyFromHex(TrimSpace(parts[3]))
        case None => None
        case Some((salt, key)) =>
          if salt == [] && key == [] then None
          else Some(Entry(Addr(Server(TrimSpace(parts[0]), port.value)),
                          Account(TrimSpace(parts[2]), salt, key)))
  }

  /** accountAddrOfLine. */
  function AddrOfLine(raw: string): Option<string> {
    match Fields(TrimSpace(DropCr(raw)))
    case None => None
    case Some(parts) =>
      var port := Atoi(TrimSpace(parts[1]));
      if !port.ok then None
      else Some(Addr(Server(TrimSpace(parts[0]), port.value)))
  }

  /** Saving and loading agree on the address of a line. */
  lemma SameAddress(raw: string)
    ensures AddrOfLine(raw).None? ==> ParseLine(raw).None?
    ensures ParseLine(raw).Some? ==> AddrOfLine(raw) == Some(ParseLine(raw).value.addr)
  {
    TrimAfterDropCr(raw);
  }

  /** Neither sees carriage returns at the end of a line. */
  lemma {:induction false} SameWithoutCr(raw: string)
    ensures ParseLine(DropCr(raw)) == ParseLine(raw)
    ensures AddrOfLine(DropCr(raw)) == AddrOfLine(raw)
    ensures DropCr(raw) == [] ==> AddrOfLine(raw).None? && ParseLine(raw).None?
  {
    TrimAfterDropCr(raw);
    DropCrCuts(raw);
  }

  // ---------------------------------------------------------------- addresses

  lemma OnlyColon(a: string, b: string, k: nat)
    requires ':' !in a && ':' !in b && k < |a| + 1 + |b|
    ensures (a + [':'] + b)[k] == ':' ==> k == |a|
  {
    var x := a + [':'] + b;
    assert x[k] == if k < |a| then a[k] else if k == |a| then ':' else b[k - |a| - 1];
  }

  /** A host with a colon is put in brackets: its address has two colons. */
  lemma BracketsShow(s: Server, t: Server)
    requires ':' in s.host && ':' !in t.host
    ensures Addr(s) != Addr(t)
  {
    var p, q := Itoa(s.port), Itoa(t.port);
    ItoaIsPlain(t.port);
    var k :| 0 <= k < |s.host| && s.host[k] == ':';
    var x := Addr(s);
    assert x == (['['] + s.host + [']', ':']) + p;
    assert x[k + 1] == ':' && x[|s.host| + 2] == ':';
    if |x| == |Addr(t)| {
      OnlyColon(t.host, q, k + 1);
      OnlyColon(t.host, q, |s.host| + 2);
    }
  }

  /** An address whose host has no colon determines the server. */
  lemma AddrInjective(s: Server, t: Server)
    requires Addr(s) == Addr(t) && ':' !in t.host
    ensures s == t
  {
    var p, q := Itoa(s.port), Itoa(t.port);
    ItoaIsPlain(s.port);
    ItoaIsPlain(t.port);
    if ':' in s.host {
      BracketsShow(s, t);
    } else {
      IndexOfFirst(s.host, p, ':');
      IndexOfFirst(t.host, q, ':');
      assert s.host == Addr(s)[..|s.host|] && p == Addr(s)[|s.host| + 1..];
      assert t.host == Addr(t)[..|t.host|] && q == Addr(t)[|t.host| + 1..];
      ItoaInjective(s.port, t.port);
    }
  }

  // ---------------------------------------------------------------- what a line can carry

  ghost predicate PlainHost(host: string) {
    ':' !in host && Trimmed(host) && (host != [] ==> host[0] != '#')
  }

  ghost predicate PlainAccount(acc: Account) {
    && ':' !in acc.username && Trimmed(acc.username)
    && ':' !in acc.salt && ',' !in acc.salt && NoLeading(acc.salt)
    && ':' !in acc.key && NoTrailing(acc.key)
    && (acc.salt != [] || acc.key != [])
  }

  /** Exactly what survives printing and parsing (lemma LineRoundTrip). */
  ghost predicate WellFormed(s: Server, acc: Account) {
    PlainHost(s.host) && PlainAccount(acc)
  }

  predicate OneLine(s: Server, acc: Account) {
    '\n' !in s.host && '\n' !in acc.username && '\n' !in acc.salt && '\n' !in acc.key
  }

  // ---------------------------------------------------------------- printing

  /** The text between the colons of a printed line. */
  function Cells(s: Server, acc: Account): seq<string> {
    [s.host + " ", " " + Itoa(s.port) + " ", " " + acc.username + " ", " " + acc.salt + "," + acc.key]
  }

  lemma MiddleCell(x: string, y: string)
    ensures x + " " + ":" + (" " + y + " ") == x + " : " + y + " "
  {
  }

  lemma LastCell(x: string, y: string, z: string)
    ensures x + " " + ":" + (" " + y + "," + z) == x + " : " + y + "," + z
  {
  }

  lemma JoinFour(a: string, b: string, c: string, d: string)
    ensures Join([a, b, c, d], ':') == a + ":" + b + ":" + c + ":" + d
  {
    assert [a, b, c, d][1..] == [b, c, d] && [b, c, d][1..] == [c, d] && [c, d][1..] == [d];
    assert Join([c, d], ':') == c + ":" + d;
    assert Join([b, c, d], ':') == b + ":" + (c + ":" + d);
    Assoc(b + ":", c + ":", d);
    Assoc(b + ":", c, ":");
    Assoc(a + ":", b + ":" + c + ":", d);
    Assoc(a + ":", b + ":" + c, ":");
    Assoc(a + ":", b + ":", c);
    Assoc(a + ":", b, ":");
  }

  lemma LineIsJoined(s: Server, acc: Account)
    ensures LineOf(s, acc) == Join(Cells(s, acc), ':')
  {
    var f := Cells(s, acc);
    JoinFour(f[0], f[1], f[2], f[3]);
    var x := s.host + " : " + Itoa(s.port);
    MiddleCell(s.host, Itoa(s.port));
    MiddleCell(x, acc.username);
    LastCell(x + " : " + acc.username, acc.salt, acc.key);
  }

  /** Trimming the line takes the blank off an empty host's cell, and nothing else. */
  lemma TrimmedLine(s: Server, acc: Account)
    requires Trimmed(s.host) && NoTrailing(acc.key)
    ensures TrimSpace(LineOf(s, acc)) == Join(Cells(s, acc)[0 := if s.host == [] then [] else s.host + " "], ':')
  {
    LineIsJoined(s, acc);
    var f := Cells(s, acc);
    var g := f[0 := if s.host == [] then [] else s.host + " "];
    var rest := Join(f[1..], ':');
    var line, joined := LineOf(s, acc), Join(g, ':');
    assert g[1..] == f[1..];
    assert line == s.host + " " + ":" + rest && joined == g[0] + ":" + rest;
    if s.host == [] {
      assert joined == ":" + rest;
      assert line == " " + joined by {
        Assoc(" ", ":", rest);
      }
      BlankInFront(s, acc, joined);
    } else {
      NothingToTrim(s, acc);
    }
  }

  lemma BlankInFront(s: Server, acc: Account, joined: string)
    requires NoTrailing(acc.key) && LineOf(s, acc) == " " + joined && joined != [] && joined[0] == ':'
    ensures TrimSpace(LineOf(s, acc)) == joined
  {
    LineEnd(s, acc);
    assert joined[|joined| - 1] == LineOf(s, acc)[|LineOf(s, acc)| - 1];
    assert " " + joined + [] == " " + joined;
    TrimPad(" ", joined, []);
  }

  lemma NothingToTrim(s: Server, acc: Account)
    requires s.host != [] && Trimmed(s.host) && NoTrailing(acc.key)
    ensures TrimSpace(LineOf(s, acc)) == LineOf(s, acc)
  {
    LineEnd(s, acc);
    assert LineOf(s, acc)[0] == s.host[0];
    TrimNothing(LineOf(s, acc));
  }

  lemma LineEnd(s: Server, acc: Account)
    ensures var line := LineOf(s, acc);
            line != [] && line[|line| - 1] == if acc.key == [] then ',' else acc.key[|acc.key| - 1]
  {
  }

  lemma AbsentFromCells(s: Server, acc: Account)
    requires ':' !in s.host && ':' !in acc.username && ':' !in acc.salt && ':' !in acc.key
    ensures NoneHas(Cells(s, acc), ':')
  {
    ItoaIsPlain(s.port);
  }

  /** The four fields come back. */
  lemma PrintedFields(s: Server, acc: Account)
    requires PlainHost(s.host) && NoTrailing(acc.key)
    requires ':' !in acc.username && ':' !in acc.salt && ':' !in acc.key
    ensures Fields(TrimSpace(LineOf(s, acc)))
         == Some(Cells(s, acc)[0 := if s.host == [] then [] else s.host + " "])
  {
    TrimmedLine(s, acc);
    AbsentFromCells(s, acc);
    var g := Cells(s, acc)[0 := if s.host == [] then [] else s.host + " "];
    SplitInvertsJoin(g, ':');
    assert Join(g, ':') == g[0] + ":" + Join(g[1..], ':');
    assert Join(g, ':')[0] == if s.host == [] then ':' else s.host[0];
  }

  lemma TrimCell(x: string)
    requires Trimmed(x)
    ensures TrimSpace(x + " ") == x && TrimSpace(" " + x + " ") == x
  {
    TrimPad([], x, " ");
    assert [] + x + " " == x + " ";
    TrimPad(" ", x, " ");
  }

  lemma TrimKeyCell(salt: string, key: string)
    requires NoLeading(salt) && NoTrailing(key) && ',' !in salt
    ensures TrimSpace(" " + salt + "," + key) == salt + "," + key
    ensures KeyFromHex(salt + "," + key) == Some((salt, key))
  {
    var x := salt + "," + key;
    assert x[|x| - 1] == if key == [] then ',' else key[|key| - 1];
    assert x[0] == if salt == [] then ',' else salt[0];
    TrimPad(" ", x, []);
    assert " " + x + [] == " " + salt + "," + key;
    IndexOfFirst(salt, key, ',');
    assert x[..|salt|] == salt && x[|salt| + 1..] == key;
  }

  /** A well-formed line is read back as it was meant. */
  lemma PrintedLineParses(s: Server, acc: Account)
    requires WellFormed(s, acc)
    ensures ParseLine(LineOf(s, acc)) == Some(Entry(Addr(s), acc))
  {
    PrintedFields(s, acc);
    PrintedCells(s, acc);
    TrimNothing([]);
  }

  lemma PrintedCells(s: Server, acc: Account)
    requires WellFormed(s, acc)
    ensures var f := Cells(s, acc);
      && TrimSpace(s.host + " ") == s.host
      && Atoi(TrimSpace(f[1])) == Parsed(s.port, true)
      && TrimSpace(f[2]) == acc.username
      && KeyFromHex(TrimSpace(f[3])) == Some((acc.salt, acc.key))
  {
    ItoaIsPlain(s.port);
    AtoiInvertsItoa(s.port);
    TrimCell(s.host);
    TrimCell(Itoa(s.port));
    TrimCell(acc.username);
    TrimKeyCell(acc.salt, acc.key);
  }

  // ---------------------------------------------------------------- parsing

  lemma PadShows(pad: string, rest: string)
    requires AllSpace(pad) && pad != []
    ensures !NoLeading(pad + rest)
  {
    assert (pad + rest)[0] == pad[0];
  }

  lemma NoPad(pad: string, rest: string)
    requires AllSpace(pad) && NoLeading(pad + rest)
    ensures pad == []
  {
    if pad != [] {
      PadShows(pad, rest);
    }
  }

  lemma FirstCellStart(line: string, parts: seq<string>)
    requires Trimmed(line) && Fields(line) == Some(parts)
    ensures TrimSpace(parts[0]) != [] ==> TrimSpace(parts[0])[0] != '#'
  {
    var a := parts[0];
    if a != [] {
      SplitStart(line, ':');
      var left, right := TrimCuts(a);
      var rest := TrimSpace(a) + right;
      assert a == left + rest;
      NoPad(left, rest);
      assert TrimSpace(a) != [] ==> TrimSpace(a)[0] == a[0];
    } else {
      TrimNothing([]);
    }
  }

  lemma {:induction false} SplitStart(s: string, sep: char)
    ensures Split(s, sep)[0] <= s
  {
    if s != [] {
      SplitStart(s[1..], sep);
    }
  }

  /** Whatever is parsed is plain: it could have been printed. */
  lemma ParsedIsPlain(raw: string) returns (s: Server)
    requires ParseLine(raw).Some?
    ensures PlainHost(s.host) && Addr(s) == ParseLine(raw).value.addr
    ensures PlainAccount(ParseLine(raw).value.account)
    ensures '\n' !in raw ==> OneLine(s, ParseLine(raw).value.account)
  {
    var line := TrimSpace(raw);
    var l0, r0 := TrimCuts(raw);
    var parts := Fields(line).value;
    s := Server(TrimSpace(parts[0]), Atoi(TrimSpace(parts[1])).value);
    SplitParts(line, ':');
    TrimSubset(parts[0], ':');
    TrimSubset(parts[2], ':');
    TrimSubset(parts[3], ':');
    FirstCellStart(line, parts);
    var l1, r1 := TrimCuts(parts[0]);
    var l2, r2 := TrimCuts(parts[2]);
    var l3, r3 := TrimCuts(parts[3]);
    KeyIsPlain(TrimSpace(parts[3]));
    if '\n' !in raw {
      TrimSubset(raw, '\n');
      SplitSubset(line, ':', '\n');
    }
  }

  lemma {:induction false} SplitSubset(s: string, sep: char, c: char)
    requires c !in s
    ensures NoneHas(Split(s, sep), c)
  {
    if s != [] {
      SplitSubset(s[1..], sep, c);
    }
  }

  lemma KeyIsPlain(f: string)
    requires Trimmed(f) && KeyFromHex(f).Some? && ':' !in f
    ensures var (salt, key) := KeyFromHex(f).value;
            ':' !in salt && ',' !in salt && NoLeading(salt) && ':' !in key && NoTrailing(key)
  {
  }

  /** Printing and parsing give a binding back exactly when it is well formed. */
  lemma LineRoundTrip(s: Server, acc: Account)
    ensures ParseLine(LineOf(s, acc)) == Some(Entry(Addr(s), acc)) <==> WellFormed(s, acc)
  {
    if WellFormed(s, acc) {
      PrintedLineParses(s, acc);
    }
    if ParseLine(LineOf(s, acc)) == Some(Entry(Addr(s), acc)) {
      var t := ParsedIsPlain(LineOf(s, acc));
      AddrInjective(s, t);
    }
  }
}
