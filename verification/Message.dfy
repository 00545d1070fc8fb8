/**
 The wire format: an ordered header list, printed, signed, and parsed back.
 */
module Message {
  import opened Basics
  import opened Text

  datatype Header = Header(key: string, val: string)

  type FieldMap = map<string, string>

  /** SHA1 and its helpers are parameters: raw digest, hexadecimal form, lower-casing. */
  datatype Crypto = Crypto(sum: string -> string, hex: string -> string, lower: string -> string)

  function HashKey(c: Crypto, key: string, user: string): string {
    c.lower(c.hex(c.sum(user + ":" + c.lower(key))))
  }

  function SignMsg(c: Crypto, hashedKey: string, timestamp: int, signedText: string): string {
    c.lower(c.hex(c.sum(c.sum(signedText) + ":" + Itoa(timestamp) + ":" + hashedKey)))
  }

  const PROTO_VERSION := "2.1"
  const DIGEST_SPEC_FLAT := "20,3,60,3"
  const THREAD_OK_MIN := 1024

  // ---------------------------------------------------------------- printing

  function LineOf(h: Header): string {
    h.key + ": " + h.val
  }

  function LinesOf(hs: seq<Header>): seq<string> {
    seq(|hs|, i requires 0 <= i < |hs| => LineOf(hs[i]))
  }

  /** The headers as "Key: Value" lines, no newline at the end. */
  function HeaderText(hs: seq<Header>): string {
    Join(LinesOf(hs), '\n')
  }

  /** A header added to a list shows as one more line at the end. */
  lemma HeaderTextNext(hs: seq<Header>, h: Header)
    ensures HeaderText(hs + [h]) == if hs == [] then LineOf(h) else HeaderText(hs) + "\n" + LineOf(h)
  {
    assert LinesOf(hs + [h]) == LinesOf(hs) + [LineOf(h)];
    if hs != [] {
      JoinAppend(LinesOf(hs), [LineOf(h)], '\n');
    }
  }

  class Request {
    var headers: seq<Header>

    /** newRequest. */
    constructor (op: string, digest: string, withSpec: bool)
      ensures headers == OpHeaders(op, digest, withSpec)
      ensures Op() == op
    {
      headers := [];
      new;
      Add("Op", op);
      if digest != "" {
        Add("Op-Digest", digest);
        if withSpec {
          Add("Op-Spec", DIGEST_SPEC_FLAT);
        }
      }
    }

    method Add(key: string, val: string)
      modifies this
      ensures headers == old(headers) + [Header(key, val)]
    {
      headers := headers + [Header(key, val)];
    }

    function Op(): string
      reads this
    {
      if headers != [] then headers[0].val else ""
    }

    method HeaderString() returns (b: string)
      ensures b == HeaderText(headers)
    {
      b := "";
      for i := 0 to |headers|
        invariant b == HeaderText(headers[..i])
      {
        assert headers[..i + 1] == headers[..i] + [headers[i]];
        HeaderTextNext(headers[..i], headers[i]);
        if i > 0 {
          b := b + "\n";
        }
        b := b + headers[i].key + ": " + headers[i].val;
      }
      assert headers[..|headers|] == headers;
    }

    /** serialize: completes the header list, signs it, and prints it. */
    method Serialize(acc: Identity, timestamp: int, thread: int, c: Crypto) returns (packet: string)
      modifies this
      ensures headers == Completed(old(headers), acc, timestamp, thread, c)
      ensures packet == HeaderText(headers) + "\n\n"
      ensures old(headers) != [] ==> Op() == old(Op())
    {
      Add("Thread", Itoa(thread));
      Add("PV", PROTO_VERSION);
      Add("User", acc.username);
      Add("Time", Itoa(timestamp));
      assert headers == old(headers) + Envelope(acc, timestamp, thread);
      var signedText := HeaderString();
      var sig := SignMsg(c, HashKey(c, acc.key, acc.username), timestamp, signedText);
      Add("Sig", sig);
      var all := HeaderString();
      packet := all + "\n\n";
    }
  }

  /** The headers of a new request. */
  function OpHeaders(op: string, digest: string, withSpec: bool): seq<Header> {
    if digest == "" then [Header("Op", op)]
    else [Header("Op", op), Header("Op-Digest", digest)]
         + if withSpec then [Header("Op-Spec", DIGEST_SPEC_FLAT)] else []
  }

  datatype Identity = Identity(username: string, key: string)

  /** The headers every request gets before it is signed. */
  function Envelope(acc: Identity, timestamp: int, thread: int): seq<Header> {
    [ Header("Thread", Itoa(thread)), Header("PV", PROTO_VERSION),
      Header("User", acc.username), Header("Time", Itoa(timestamp)) ]
  }

  function Completed(hs: seq<Header>, acc: Identity, timestamp: int, thread: int, c: Crypto): seq<Header> {
    var signed := hs + Envelope(acc, timestamp, thread);
    signed + [Header("Sig", SignMsg(c, HashKey(c, acc.key, acc.username), timestamp, HeaderText(signed)))]
  }

  /** On the wire: the signed text, byte for byte, then the Sig line and a blank line. */
  lemma WireIsSignedTextAndSig(hs: seq<Header>, acc: Identity, timestamp: int, thread: int, c: Crypto, signed: string)
    requires signed == HeaderText(hs + Envelope(acc, timestamp, thread))
    ensures HeaderText(Completed(hs, acc, timestamp, thread, c)) + "\n\n"
         == signed + "\n" + "Sig: " + SignMsg(c, HashKey(c, acc.key, acc.username), timestamp, signed) + "\n\n"
  {
    var sig := SignMsg(c, HashKey(c, acc.key, acc.username), timestamp, signed);
    HeaderTextNext(hs + Envelope(acc, timestamp, thread), Header("Sig", sig));
    assert "Sig" + ": " == "Sig: ";
    Assoc(signed + "\n", "Sig: ", sig);
  }

  // ---------------------------------------------------------------- parsing

  /** What parseResponse makes of one line. */
  function ParseLine(raw: string): Option<Header> {
    var line := DropCr(raw);
    var i := IndexOf(line, ':');
    if i == |line| then None else Some(Header(TrimSpace(line[..i]), TrimSpace(line[i + 1..])))
  }

  function Store(m: FieldMap, h: Option<Header>): FieldMap {
    match h
    case None => m
    case Some(x) => m[x.key := x.val]
  }

  /** The field map of a packet: later lines win. */
  function ParseFrom(m: FieldMap, lines: seq<string>): FieldMap
    decreases |lines|
  {
    if lines == [] then m else ParseFrom(Store(m, ParseLine(lines[0])), lines[1..])
  }

  function FieldsOf(packet: string): FieldMap {
    ParseFrom(map[], Split(packet, '\n'))
  }

  method ParseResponse(packet: string) returns (fields: FieldMap)
    ensures fields == FieldsOf(packet)
  {
    fields := map[];
    var lines := Split(packet, '\n');
    assert lines[0..] == lines;
    for k := 0 to |lines|
      invariant ParseFrom(fields, lines[k..]) == FieldsOf(packet)
    {
      assert lines[k..][1..] == lines[k + 1..];
      var line := DropCr(lines[k]);
      if line == "" {
        continue;
      }
      var i := IndexOf(line, ':');
      if i == |line| {
        continue;
      }
      var key := TrimSpace(line[..i]);
      var val := TrimSpace(line[i + 1..]);
      fields := fields[key := val];
    }
  }

  // ---------------------------------------------------------------- printing and parsing

  /** A header that one printed line carries unchanged (lemma HeaderRoundTrip). */
  ghost predicate Plain(h: Header) {
    ':' !in h.key && Trimmed(h.key) && Trimmed(h.val)
  }

  predicate OneLine(h: Header) {
    '\n' !in h.key && '\n' !in h.val
  }

  lemma {:induction false} NoTrailingCr(s: string)
    requires s == [] || s[|s| - 1] != '\r'
    ensures DropCr(s) == s
  {
  }

  lemma PlainLineHasNoCr(h: Header)
    requires Plain(h)
    ensures DropCr(LineOf(h)) == LineOf(h)
  {
    var line := LineOf(h);
    if h.val == [] {
      assert line[|line| - 1] == ' ';
    } else {
      assert line[|line| - 1] == h.val[|h.val| - 1];
    }
    NoTrailingCr(line);
  }

  lemma PlainParses(h: Header)
    requires Plain(h)
    ensures ParseLine(LineOf(h)) == Some(h)
  {
    var line := LineOf(h);
    PlainLineHasNoCr(h);
    TrimNothing(h.key);
    TrimPad(" ", h.val, []);
    assert " " + h.val + [] == " " + h.val;
    assert line == h.key + ":" + (" " + h.val);
    IndexOfFirst(h.key, " " + h.val, ':');
    assert line[..|h.key|] == h.key && line[|h.key| + 1..] == " " + h.val;
  }

  /** A header survives printing and parsing exactly when its key has no colon and both parts are trimmed. */
  lemma HeaderRoundTrip(h: Header)
    ensures ParseLine(LineOf(h)) == Some(h) <==> Plain(h)
  {
    if Plain(h) {
      PlainParses(h);
    }
    if ParseLine(LineOf(h)) == Some(h) {
      var line := DropCr(LineOf(h));
      var i := IndexOf(line, ':');
      var l0, r0 := TrimCuts(line[..i]);
      var l1, r1 := TrimCuts(line[i + 1..]);
      assert ':' !in line[..i];
    }
  }

  /** The map a header list stands for. */
  function HeaderMap(m: FieldMap, hs: seq<Header>): FieldMap
    decreases |hs|
  {
    if hs == [] then m else HeaderMap(m[hs[0].key := hs[0].val], hs[1..])
  }

  lemma {:induction false} ParsePrinted(m: FieldMap, hs: seq<Header>, rest: seq<string>)
    requires forall i :: 0 <= i < |hs| ==> Plain(hs[i])
    ensures ParseFrom(m, LinesOf(hs) + rest) == ParseFrom(HeaderMap(m, hs), rest)
    decreases |hs|
  {
    var lines := LinesOf(hs) + rest;
    if hs == [] {
      assert lines == rest;
    } else {
      PlainParses(hs[0]);
      assert lines[0] == LineOf(hs[0]);
      assert lines[1..] == LinesOf(hs[1..]) + rest;
      ParsePrinted(m[hs[0].key := hs[0].val], hs[1..], rest);
    }
  }

  /** Parsing a printed header list gives its map: nothing lost, nothing added. */
  lemma {:induction false} ParseInvertsPrint(hs: seq<Header>)
    requires hs != []
    requires forall i :: 0 <= i < |hs| ==> Plain(hs[i]) && OneLine(hs[i])
    ensures FieldsOf(HeaderText(hs) + "\n\n") == HeaderMap(map[], hs)
  {
    PrintedPacketSplits(hs);
    ParsePrinted(map[], hs, [[], []]);
    BlanksStoreNothing(HeaderMap(map[], hs));
  }

  lemma {:induction false} BlanksStoreNothing(m: FieldMap)
    ensures ParseFrom(m, [[], []]) == m
  {
    var blank, blanks: seq<string> := [[]], [[], []];
    assert blanks[1..] == blank && blank[1..] == [];
    assert ParseLine([]) == None;
  }

  lemma {:induction false} ParseFromAppend(m: FieldMap, a: seq<string>, b: seq<string>)
    ensures ParseFrom(m, a + b) == ParseFrom(ParseFrom(m, a), b)
    decreases |a|
  {
    if a == [] {
      assert a + b == b;
    } else {
      assert (a + b)[1..] == a[1..] + b;
      ParseFromAppend(Store(m, ParseLine(a[0])), a[1..], b);
    }
  }

  /**
   Adding a clean header changes exactly its own field in what the receiver reads, whatever the
   headers in front of it hold.
   */
  lemma AddedHeaderArrives(hs: seq<Header>, h: Header)
    requires Plain(h) && OneLine(h)
    ensures FieldsOf(HeaderText(hs + [h]) + "\n\n") == FieldsOf(HeaderText(hs) + "\n\n")[h.key := h.val]
  {
    var line, blanks: seq<string> := [LineOf(h)], [[], []];
    var before: seq<string> := if hs == [] then [] else Split(HeaderText(hs), '\n');
    HeaderTextNext(hs, h);
    SplitNone(LineOf(h), '\n');
    if hs != [] {
      SplitAppend(HeaderText(hs), LineOf(h), '\n');
      assert HeaderText(hs) + ['\n'] + LineOf(h) == HeaderText(hs) + "\n" + LineOf(h);
    } else {
      assert [] + line == line;
    }
    assert Split(HeaderText(hs + [h]), '\n') == before + line;
    PacketSplits(HeaderText(hs + [h]));
    PacketSplits(HeaderText(hs));
    ParseFromAppend(map[], before + line, blanks);
    ParseFromAppend(map[], before, line);
    BlanksStoreNothing(ParseFrom(map[], before + line));
    BlanksStoreNothing(ParseFrom(map[], before));
    PlainParses(h);
    LineStores(ParseFrom(map[], before), h);
    TextReads(hs, before);
  }

  lemma {:induction false} LineStores(m: FieldMap, h: Header)
    requires ParseLine(LineOf(h)) == Some(h)
    ensures ParseFrom(m, [LineOf(h)]) == m[h.key := h.val]
  {
    var line := [LineOf(h)];
    assert line[1..] == [];
  }

  /** What the text of a list is read as; the empty text of no headers stores nothing. */
  lemma {:induction false} TextReads(hs: seq<Header>, before: seq<string>)
    requires before == if hs == [] then [] else Split(HeaderText(hs), '\n')
    ensures FieldsOf(HeaderText(hs) + "\n\n") == ParseFrom(map[], before)
  {
    var text := Split(HeaderText(hs), '\n');
    PacketSplits(HeaderText(hs));
    ParseFromAppend(map[], text, [[], []]);
    BlanksStoreNothing(ParseFrom(map[], text));
    if hs == [] {
      var blank: seq<string> := [[]];
      assert text == blank && blank[1..] == [] && ParseLine([]) == None;
    }
  }

  lemma PrintedPacketSplits(hs: seq<Header>)
    requires hs != []
    requires forall i :: 0 <= i < |hs| ==> OneLine(hs[i])
    ensures Split(HeaderText(hs) + "\n\n", '\n') == LinesOf(hs) + [[], []]
  {
    SplitInvertsJoin(LinesOf(hs), '\n');
    PacketSplits(HeaderText(hs));
  }

  /** The two newlines at the end of a packet are two empty lines to the parser. */
  lemma {:induction false} PacketSplits(text: string)
    ensures Split(text + "\n\n", '\n') == Split(text, '\n') + [[], []]
  {
    SplitAppend(text, "\n", '\n');
    SplitAppend([], [], '\n');
    assert [] + ['\n'] + [] == "\n";
    assert text + ['\n'] + "\n" == text + "\n\n";
  }

  ghost predicate DistinctKeys(hs: seq<Header>) {
    forall i, j :: 0 <= i < j < |hs| ==> hs[i].key != hs[j].key
  }

  lemma {:induction false} HeaderMapExact(m: FieldMap, hs: seq<Header>)
    requires DistinctKeys(hs)
    requires forall i :: 0 <= i < |hs| ==> hs[i].key !in m
    ensures HeaderMap(m, hs).Keys == m.Keys + (set i | 0 <= i < |hs| :: hs[i].key)
    ensures forall i :: 0 <= i < |hs| ==> HeaderMap(m, hs)[hs[i].key] == hs[i].val
    ensures forall k :: k in m ==> HeaderMap(m, hs)[k] == m[k]
    decreases |hs|
  {
    if hs != [] {
      var n := m[hs[0].key := hs[0].val];
      forall i | 0 <= i < |hs| - 1 ensures hs[1..][i].key !in n {
        assert hs[1..][i] == hs[i + 1];
      }
      HeaderMapExact(n, hs[1..]);
      forall i | 0 <= i < |hs|
        ensures hs[i].key in HeaderMap(m, hs) && HeaderMap(m, hs)[hs[i].key] == hs[i].val
      {
        if i > 0 {
          assert hs[i] == hs[1..][i - 1];
        }
      }
      forall k | k in HeaderMap(m, hs) ensures k in m || exists i :: 0 <= i < |hs| && hs[i].key == k {
        if k !in n {
          var i :| 0 <= i < |hs[1..]| && hs[1..][i].key == k;
          assert hs[i + 1].key == k;
        }
      }
    }
  }

  // ---------------------------------------------------------------- the signature covers the headers

  /** A line tells its header, whatever the value holds. */
  lemma LineInjective(g: Header, h: Header)
    requires ':' !in g.key && ':' !in h.key && LineOf(g) == LineOf(h)
    ensures g == h
  {
    LineParts(g);
    LineParts(h);
  }

  lemma LineParts(h: Header)
    requires ':' !in h.key
    ensures h.key == LineOf(h)[..IndexOf(LineOf(h), ':')]
    ensures IndexOf(LineOf(h), ':') + 2 <= |LineOf(h)| && h.val == LineOf(h)[IndexOf(LineOf(h), ':') + 2..]
  {
    IndexOfFirst(h.key, " " + h.val, ':');
    assert LineOf(h) == h.key + ":" + (" " + h.val);
  }

  /** Different header lists never have the same signed text. */
  lemma HeaderTextInjective(a: seq<Header>, b: seq<Header>)
    requires forall i :: 0 <= i < |a| ==> ':' !in a[i].key && OneLine(a[i])
    requires forall i :: 0 <= i < |b| ==> ':' !in b[i].key && OneLine(b[i])
    requires HeaderText(a) == HeaderText(b)
    ensures a == b
  {
    HeaderTextSplits(a);
    HeaderTextSplits(b);
    HeaderTextEmpty(a);
    HeaderTextEmpty(b);
    if a != [] {
      assert LinesOf(a) == LinesOf(b);
      forall i | 0 <= i < |a| ensures a[i] == b[i] {
        assert LinesOf(a)[i] == LinesOf(b)[i];
        LineInjective(a[i], b[i]);
      }
    }
  }

  lemma HeaderTextEmpty(hs: seq<Header>)
    ensures HeaderText(hs) == [] <==> hs == []
  {
    if hs != [] {
      assert LinesOf(hs)[0] == LineOf(hs[0]);
    }
  }

  lemma HeaderTextSplits(hs: seq<Header>)
    requires forall i :: 0 <= i < |hs| ==> OneLine(hs[i])
    ensures hs != [] ==> Split(HeaderText(hs), '\n') == LinesOf(hs)
  {
    if hs != [] {
      SplitInvertsJoin(LinesOf(hs), '\n');
    }
  }
}
