/**
 Loading and saving the accounts file as a whole. Saving is a text edit; its meaning under
 loading is an update of the map from addresses to accounts.
 */
module AccountsFile {
  import opened Basics
  import opened Text
  import opened Accounts
  import Utf8

  type Bindings = map<string, Account>

  // ---------------------------------------------------------------- loading

  /** bufio.Scanner gives up at the first line that does not fit its 64 KiB buffer. */
  const MAX_LINE_BYTES := 0xffff

  predicate LineFits(line: string) {
    |Utf8.EncodeAll(line)| <= MAX_LINE_BYTES
  }

  ghost predicate AllFit(lines: seq<string>) {
    forall i :: 0 <= i < |lines| ==> LineFits(lines[i])
  }

  /** The lines before the first that does not fit. */
  function Fitting(lines: seq<string>): seq<string> {
    if lines == [] || !LineFits(lines[0]) then [] else [lines[0]] + Fitting(lines[1..])
  }

  function DropOneCr(s: string): string {
    if s != [] && s[|s| - 1] == '\r' then s[..|s| - 1] else s
  }

  function DropOneCrAll(lines: seq<string>): seq<string> {
    if lines == [] then [] else [DropOneCr(lines[0])] + DropOneCrAll(lines[1..])
  }

  /** The tokens of bufio.ScanLines: no empty token after a final newline, one carriage return dropped. */
  function Tokens(text: string): seq<string> {
    var lines := Split(text, '\n');
    var n := |lines| - 1;
    DropOneCrAll(Fitting(if lines[n] == [] then lines[..n] else lines))
  }

  /** One line read into the map; a later line for the same address wins. */
  function Load(m: Bindings, line: string): Bindings {
    match ParseLine(line)
    case None => m
    case Some(e) => m[e.addr := e.account]
  }

  function LoadFrom(m: Bindings, lines: seq<string>): Bindings
    decreases |lines|
  {
    if lines == [] then m else LoadFrom(Load(m, lines[0]), lines[1..])
  }

  /** The meaning of an accounts file; a missing one has no bindings. */
  function Loaded(file: Option<string>): Bindings {
    match file
    case None => map[]
    case Some(text) => LoadFrom(map[], Fitting(Split(text, '\n')))
  }

  lemma {:induction false} LoadFromAppend(m: Bindings, a: seq<string>, b: seq<string>)
    ensures LoadFrom(m, a + b) == LoadFrom(LoadFrom(m, a), b)
    decreases |a|
  {
    if a == [] {
      assert a + b == b;
    } else {
      assert (a + b)[1..] == a[1..] + b;
      LoadFromAppend(Load(m, a[0]), a[1..], b);
    }
  }

  lemma OneCrUnseen(m: Bindings, line: string)
    ensures Load(m, DropOneCr(line)) == Load(m, line)
  {
    if line != [] && line[|line| - 1] == '\r' {
      TrimDropLast(line);
    }
  }

  lemma {:induction false} TokensUnseen(m: Bindings, lines: seq<string>)
    ensures LoadFrom(m, DropOneCrAll(lines)) == LoadFrom(m, lines)
    decreases |lines|
  {
    if lines != [] {
      OneCrUnseen(m, lines[0]);
      assert DropOneCrAll(lines)[1..] == DropOneCrAll(lines[1..]);
      TokensUnseen(Load(m, lines[0]), lines[1..]);
    }
  }

  lemma BlankLoadsNothing(m: Bindings)
    ensures Load(m, []) == m
  {
    TrimNothing([]);
  }

  lemma {:induction false} FinalBlank(m: Bindings, lines: seq<string>)
    ensures LoadFrom(m, Fitting(lines + [[]])) == LoadFrom(m, Fitting(lines))
    decreases |lines|
  {
    if lines == [] {
      BlankLoadsNothing(m);
      assert lines + [[]] == [[]];
      assert Fitting([[]])[1..] == [] && Fitting([[]])[0] == [];
    } else if LineFits(lines[0]) {
      assert (lines + [[]])[1..] == lines[1..] + [[]];
      assert ([lines[0]] + Fitting(lines[1..] + [[]]))[1..] == Fitting(lines[1..] + [[]]);
      assert ([lines[0]] + Fitting(lines[1..]))[1..] == Fitting(lines[1..]);
      FinalBlank(Load(m, lines[0]), lines[1..]);
    }
  }

  lemma TokensMeanLoaded(text: string)
    ensures LoadFrom(map[], Tokens(text)) == Loaded(Some(text))
  {
    var lines := Split(text, '\n');
    var n := |lines| - 1;
    if lines[n] == [] {
      assert lines == lines[..n] + [[]];
      FinalBlank(map[], lines[..n]);
      TokensUnseen(map[], Fitting(lines[..n]));
    } else {
      TokensUnseen(map[], Fitting(lines));
    }
  }

  method LoadAccounts(file: Option<string>) returns (accounts: Bindings)
    ensures accounts == Loaded(file)
  {
    accounts := map[];
    if file.None? {
      return;
    }
    var tokens := Tokens(file.value);
    TokensMeanLoaded(file.value);
    assert tokens[0..] == tokens;
    for i := 0 to |tokens|
      invariant LoadFrom(accounts, tokens[i..]) == Loaded(file)
    {
      assert tokens[i..][1..] == tokens[i + 1..];
      var line := TrimSpace(tokens[i]);
      if line == "" || line[0] == '#' {
        continue;
      }
      var parts := Split(line, ':');
      if |parts| != 4 {
        continue;
      }
      var host := TrimSpace(parts[0]);
      var port := Atoi(TrimSpace(parts[1]));
      if !port.ok {
        continue;
      }
      var username := TrimSpace(parts[2]);
      var pair := KeyFromHex(TrimSpace(parts[3]));
      if pair.None? {
        continue;
      }
      var (salt, key) := pair.value;
      if salt == "" && key == "" {
        continue;
      }
      accounts := accounts[Addr(Server(host, port.value)) := Account(username, salt, key)];
    }
  }

  // ---------------------------------------------------------------- saving

  ghost function AddrsOf(servers: seq<Server>): set<string> {
    set i | 0 <= i < |servers| :: Addr(servers[i])
  }

  predicate Stale(line: string, replace: set<string>) {
    var a := AddrOfLine(line);
    a.Some? && a.value in replace
  }

  /** The old lines that stay: neither replaced nor blank, without carriage returns at the end. */
  function KeptLines(lines: seq<string>, replace: set<string>): seq<string> {
    if lines == [] then []
    else (if Stale(lines[0], replace) || DropCr(lines[0]) == [] then [] else [DropCr(lines[0])])
         + KeptLines(lines[1..], replace)
  }

  function NewLines(servers: seq<Server>, acc: Account): seq<string> {
    if servers == [] then [] else [LineOf(servers[0], acc)] + NewLines(servers[1..], acc)
  }

  function OldLines(file: Option<string>): seq<string> {
    match file
    case None => []
    case Some(text) => Split(text, '\n')
  }

  ghost function SavedLines(file: Option<string>, servers: seq<Server>, acc: Account): seq<string> {
    KeptLines(OldLines(file), AddrsOf(servers)) + NewLines(servers, acc)
  }

  /** The text SaveAccount writes. */
  ghost function SavedText(file: Option<string>, servers: seq<Server>, acc: Account): string {
    Join(SavedLines(file, servers, acc), '\n') + "\n"
  }

  lemma {:induction false} KeptAppend(a: seq<string>, b: seq<string>, replace: set<string>)
    ensures KeptLines(a + b, replace) == KeptLines(a, replace) + KeptLines(b, replace)
  {
    if a == [] {
      assert a + b == b;
    } else {
      assert (a + b)[1..] == a[1..] + b;
      KeptAppend(a[1..], b, replace);
    }
  }

  lemma {:induction false} NewLinesAt(servers: seq<Server>, acc: Account)
    ensures |NewLines(servers, acc)| == |servers|
    ensures forall i :: 0 <= i < |servers| ==> NewLines(servers, acc)[i] == LineOf(servers[i], acc)
  {
    if servers != [] {
      var rest := servers[1..];
      NewLinesAt(rest, acc);
      forall i | 0 <= i < |servers| ensures NewLines(servers, acc)[i] == LineOf(servers[i], acc) {
        assert i > 0 ==> NewLines(servers, acc)[i] == NewLines(rest, acc)[i - 1] && servers[i] == rest[i - 1];
      }
    }
  }

  lemma {:induction false} NewLinesAppend(a: seq<Server>, b: seq<Server>, acc: Account)
    ensures NewLines(a + b, acc) == NewLines(a, acc) + NewLines(b, acc)
  {
    if a == [] {
      assert a + b == b;
    } else {
      assert (a + b)[0] == a[0] && (a + b)[1..] == a[1..] + b;
      NewLinesAppend(a[1..], b, acc);
      Assoc([LineOf(a[0], acc)], NewLines(a[1..], acc), NewLines(b, acc));
    }
  }

  lemma {:induction false} NewLinesNext(servers: seq<Server>, acc: Account, i: nat)
    requires i < |servers|
    ensures NewLines(servers[..i + 1], acc) == NewLines(servers[..i], acc) + [LineOf(servers[i], acc)]
  {
    var one := [servers[i]];
    assert servers[..i + 1] == servers[..i] + one;
    NewLinesAppend(servers[..i], one, acc);
    assert one[1..] == [];
  }

  lemma {:induction false} KeptNext(lines: seq<string>, replace: set<string>, i: nat)
    requires i < |lines|
    ensures KeptLines(lines[..i + 1], replace) == KeptLines(lines[..i], replace)
              + if Stale(lines[i], replace) || DropCr(lines[i]) == [] then [] else [DropCr(lines[i])]
  {
    assert lines[..i + 1] == lines[..i] + [lines[i]];
    KeptAppend(lines[..i], [lines[i]], replace);
    assert [lines[i]][1..] == [];
  }

  lemma AddrsNext(servers: seq<Server>, i: nat)
    requires i < |servers|
    ensures AddrsOf(servers[..i + 1]) == AddrsOf(servers[..i]) + {Addr(servers[i])}
  {
    var now, was := servers[..i + 1], servers[..i];
    assert now[i] == servers[i];
    forall a | a in AddrsOf(now) ensures a in AddrsOf(was) + {Addr(servers[i])} {
      var j :| 0 <= j <= i && a == Addr(now[j]);
      assert j < i ==> now[j] == was[j];
    }
    forall a | a in AddrsOf(was) ensures a in AddrsOf(now) {
      var j :| 0 <= j < i && a == Addr(was[j]);
      assert now[j] == was[j];
    }
  }

  /** The edit: drop stale lines, keep the others, append one line for each server. */
  method EditAccounts(file: Option<string>, servers: seq<Server>, acc: Account) returns (text: string)
    ensures text == SavedText(file, servers, acc)
  {
    var replace: set<string> := {};
    for i := 0 to |servers|
      invariant replace == AddrsOf(servers[..i])
    {
      AddrsNext(servers, i);
      replace := replace + {Addr(servers[i])};
    }
    assert servers[..|servers|] == servers;
    var kept: seq<string> := [];
    if file.Some? {
      var lines := Split(file.value, '\n');
      for i := 0 to |lines|
        invariant kept == KeptLines(lines[..i], replace)
      {
        KeptNext(lines, replace, i);
        var a := AddrOfLine(lines[i]);
        if a.Some? && a.value in replace {
          continue;
        }
        if DropCr(lines[i]) != "" {
          kept := kept + [DropCr(lines[i])];
        }
      }
      assert lines[..|lines|] == lines;
    }
    ghost var stayed := kept;
    for i := 0 to |servers|
      invariant kept == stayed + NewLines(servers[..i], acc)
    {
      NewLinesNext(servers, acc, i);
      kept := kept + [LineOf(servers[i], acc)];
    }
    text := Join(kept, '\n') + "\n";
  }
}
