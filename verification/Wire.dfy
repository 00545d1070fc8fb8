/** The packets themselves: a request character by character, and which fields are read off a reply. */
module Wire {
  import opened Basics
  import opened Text
  import opened Message
  import opened Reply
  import opened Arrival

  // ---------------------------------------------------------------- what is sent

  /** The operation's own lines: a digest where there is one, and a spec only with it. */
  function OpText(op: string, digest: string, withSpec: bool): string {
    if digest == "" then "Op: " + op
    else if !withSpec then "Op: " + op + "\nOp-Digest: " + digest
    else "Op: " + op + "\nOp-Digest: " + digest + "\nOp-Spec: 20,3,60,3"
  }

  /** The text that is signed, as it goes over the wire. */
  function SignedText(op: string, digest: string, withSpec: bool, user: string, timestamp: int, thread: int): string {
    OpText(op, digest, withSpec)
    + "\nThread: " + Itoa(thread) + "\nPV: 2.1" + "\nUser: " + user + "\nTime: " + Itoa(timestamp)
  }

  /** The signature: a key made of user name and account key, hashed with the text's hash and the time. */
  function Signature(c: Crypto, acc: Identity, timestamp: int, text: string): string {
    var hashedKey := c.lower(c.hex(c.sum(acc.username + ":" + c.lower(acc.key))));
    c.lower(c.hex(c.sum(c.sum(text) + ":" + Itoa(timestamp) + ":" + hashedKey)))
  }

  /** One more line behind the others. */
  lemma OneMore(hs: seq<Header>, h: Header, text: string, name: string)
    requires hs != [] && HeaderText(hs) == text && name == "\n" + h.key + ": "
    ensures HeaderText(hs + [h]) == text + name + h.val
  {
    HeaderTextNext(hs, h);
    assert text + "\n" + LineOf(h) == text + name + h.val;
  }

  lemma OpIsPrinted(op: string, digest: string, withSpec: bool)
    ensures HeaderText(OpHeaders(op, digest, withSpec)) == OpText(op, digest, withSpec)
  {
    var h0, h1, h2 := Header("Op", op), Header("Op-Digest", digest), Header("Op-Spec", DIGEST_SPEC_FLAT);
    HeaderTextNext([], h0);
    assert [] + [h0] == [h0];
    assert "Op" + ": " == "Op: ";
    if digest != "" {
      DigestIsPrinted(h0, h1, "Op: " + op);
      if withSpec {
        SpecIsPrinted([h0, h1], h2, "Op: " + op + "\nOp-Digest: " + digest);
      } else {
        assert [h0, h1] + [] == [h0, h1];
      }
    }
  }

  lemma DigestIsPrinted(h0: Header, h1: Header, text: string)
    requires HeaderText([h0]) == text && h1.key == "Op-Digest"
    ensures HeaderText([h0, h1]) == text + "\nOp-Digest: " + h1.val
  {
    OneMore([h0], h1, text, "\nOp-Digest: ");
    assert [h0] + [h1] == [h0, h1];
  }

  lemma SpecIsPrinted(hs: seq<Header>, h: Header, text: string)
    requires hs != [] && HeaderText(hs) == text && h == Header("Op-Spec", DIGEST_SPEC_FLAT)
    ensures HeaderText(hs + [h]) == text + "\nOp-Spec: 20,3,60,3"
  {
    OneMore(hs, h, text, "\nOp-Spec: ");
    assert "\nOp-Spec: " + DIGEST_SPEC_FLAT == "\nOp-Spec: 20,3,60,3";
    Assoc(text, "\nOp-Spec: ", DIGEST_SPEC_FLAT);
  }

  lemma EnvelopeText(hs: seq<Header>, acc: Identity, timestamp: int, thread: int)
    requires hs != []
    ensures HeaderText(hs + Envelope(acc, timestamp, thread)) == HeaderText(hs)
      + "\nThread: " + Itoa(thread) + "\nPV: 2.1" + "\nUser: " + acc.username + "\nTime: " + Itoa(timestamp)
  {
    var e := Envelope(acc, timestamp, thread);
    var t1 := HeaderText(hs) + "\nThread: " + Itoa(thread);
    var t2 := t1 + "\nPV: 2.1";
    var t3 := t2 + "\nUser: " + acc.username;
    OneMore(hs, e[0], HeaderText(hs), "\nThread: ");
    OneMore(hs + [e[0]], e[1], t1, "\nPV: ");
    assert "\nPV: " + PROTO_VERSION == "\nPV: 2.1";
    Assoc(t1, "\nPV: ", PROTO_VERSION);
    OneMore(hs + [e[0]] + [e[1]], e[2], t2, "\nUser: ");
    OneMore(hs + [e[0]] + [e[1]] + [e[2]], e[3], t3, "\nTime: ");
    assert hs + e == hs + [e[0]] + [e[1]] + [e[2]] + [e[3]];
  }

  /** A request on the wire: the signed text, the signature of just that text, and a blank line. */
  lemma RequestOnTheWire(op: string, digest: string, withSpec: bool, acc: Identity,
                         timestamp: int, thread: int, c: Crypto)
    ensures var text := SignedText(op, digest, withSpec, acc.username, timestamp, thread);
      HeaderText(Completed(OpHeaders(op, digest, withSpec), acc, timestamp, thread, c)) + "\n\n"
        == text + "\nSig: " + Signature(c, acc, timestamp, text) + "\n\n"
  {
    var ops := OpHeaders(op, digest, withSpec);
    var text := SignedText(op, digest, withSpec, acc.username, timestamp, thread);
    OpIsPrinted(op, digest, withSpec);
    EnvelopeText(ops, acc, timestamp, thread);
    OneMore(ops + Envelope(acc, timestamp, thread), Header("Sig", Signature(c, acc, timestamp, text)), text, "\nSig: ");
  }

  /** What the server reads of a clean request: these fields and no others. */
  lemma RequestIsRead(op: string, digest: string, withSpec: bool, acc: Identity,
                      timestamp: int, thread: int, c: Crypto)
    requires CleanValue(op) && CleanValue(digest) && CleanValue(acc.username)
    requires CleanValue(SigOf(op, digest, withSpec, acc, timestamp, thread, c))
    ensures var all := Completed(OpHeaders(op, digest, withSpec), acc, timestamp, thread, c);
      var fields := FieldsOf(HeaderText(all) + "\n\n");
      && (forall k :: k in fields <==> IsSent(k, digest, withSpec))
      && fields["Op"] == op && fields["Thread"] == Itoa(thread) && fields["PV"] == "2.1"
      && fields["User"] == acc.username && fields["Time"] == Itoa(timestamp)
      && (digest != "" ==> fields["Op-Digest"] == digest)
      && (digest != "" && withSpec ==> fields["Op-Spec"] == "20,3,60,3")
  {
    var ops, e := OpHeaders(op, digest, withSpec), Envelope(acc, timestamp, thread);
    var all := Completed(ops, acc, timestamp, thread, c);
    var n := |ops|;
    RequestArrivesIff(op, digest, withSpec, acc, timestamp, thread, c);
    ArrivesAt(all, 0, ops[0]);
    ArrivesAt(all, n, e[0]);
    ArrivesAt(all, n + 1, e[1]);
    ArrivesAt(all, n + 2, e[2]);
    ArrivesAt(all, n + 3, e[3]);
    ArrivesAt(all, n + 4, all[n + 4]);
    if digest != "" {
      ArrivesAt(all, 1, ops[1]);
      if withSpec {
        ArrivesAt(all, 2, ops[2]);
      }
    }
    forall i | 0 <= i < |all| ensures IsSent(all[i].key, digest, withSpec) {
      KeyOfRequest(op, digest, withSpec, acc, timestamp, thread, c, i);
    }
  }

  lemma ArrivesAt(hs: seq<Header>, i: nat, h: Header)
    requires Arrives(hs) && i < |hs| && hs[i] == h
    ensures h.key in FieldsOf(HeaderText(hs) + "\n\n") && FieldsOf(HeaderText(hs) + "\n\n")[h.key] == h.val
  {
  }

  /** The keys of a request: the digest's when there is one, the spec's only with it. */
  predicate IsSent(key: string, digest: string, withSpec: bool) {
    || key == "Op" || (digest != "" && key == "Op-Digest") || (digest != "" && withSpec && key == "Op-Spec")
    || key == "Thread" || key == "PV" || key == "User" || key == "Time" || key == "Sig"
  }

  lemma KeyOfRequest(op: string, digest: string, withSpec: bool, acc: Identity, timestamp: int, thread: int, c: Crypto,
                     i: nat)
    requires i < |Completed(OpHeaders(op, digest, withSpec), acc, timestamp, thread, c)|
    ensures IsSent(Completed(OpHeaders(op, digest, withSpec), acc, timestamp, thread, c)[i].key, digest, withSpec)
  {
    var ops, e := OpHeaders(op, digest, withSpec), Envelope(acc, timestamp, thread);
    if i >= |ops| {
      assert Completed(ops, acc, timestamp, thread, c)[i].key == if i == |ops| + 4 then "Sig" else e[i - |ops|].key;
    }
  }

  // ---------------------------------------------------------------- what is received

  /** The line is cut at its first colon. */
  ghost predicate IsCut(line: string, a: string, b: string) {
    line == a + ":" + b && ':' !in a
  }

  lemma CutAtColon(line: string) returns (a: string, b: string)
    requires ':' in line
    ensures IsCut(line, a, b)
  {
    var i := IndexOf(line, ':');
    a, b := line[..i], line[i + 1..];
  }

  lemma ReadLineHasColon(line: string)
    requires ParseLine(line).Some?
    ensures ':' in line
  {
    DropCrCuts(line);
  }

  /** A line is a key up to its first colon and a value behind it, padded on every side. */
  lemma LineReadIff(line: string, h: Header)
    ensures ParseLine(line) == Some(h) <==>
              exists a, b :: IsCut(line, a, b) && Padded(a, h.key) && Padded(b, h.val)
  {
    forall a, b | IsCut(line, a, b) ensures ParseLine(line) == Some(h) <==> Padded(a, h.key) && Padded(b, h.val) {
      CellsAreRead(a, b, h);
    }
    if ParseLine(line) == Some(h) {
      ReadLineHasColon(line);
      var a, b := CutAtColon(line);
    }
  }

  lemma CellsAreRead(a: string, b: string, h: Header)
    requires ':' !in a
    ensures ParseLine(a + ":" + b) == Some(h) <==> Padded(a, h.key) && Padded(b, h.val)
  {
    ColonCut(a, b);
    TrimAfterDropCr(b);
    PaddedIffTrimmed(a, h.key);
    PaddedIffTrimmed(b, h.val);
  }

  lemma {:induction false} ColonCut(a: string, b: string)
    requires ':' !in a
    ensures var cut := DropCr(a + ":" + b); var i := IndexOf(cut, ':');
      i < |cut| && cut[..i] == a && cut[i + 1..] == DropCr(b)
  {
    DropCrBehind(a, b);
    IndexOfFirst(a, DropCr(b), ':');
  }

  lemma {:induction false} DropCrBehind(a: string, b: string)
    ensures DropCr(a + ":" + b) == a + ":" + DropCr(b)
  {
    var s := a + ":" + b;
    if b != "" && b[|b| - 1] == '\r' {
      assert s[..|s| - 1] == a + ":" + b[..|b| - 1];
      DropCrBehind(a, b[..|b| - 1]);
    } else {
      NoTrailingCr(s);
      NoTrailingCr(b);
    }
  }

  /** The value the line holds for this key. */
  function Told(line: string, key: string): Option<string> {
    match ParseLine(line)
    case Some(h) => if h.key == key then Some(h.val) else None
    case None => None
  }

  function Kept(m: FieldMap, key: string): Option<string> {
    if key in m then Some(m[key]) else None
  }

  lemma StoreTold(m: FieldMap, line: string, key: string)
    ensures Kept(Store(m, ParseLine(line)), key) == if Told(line, key).Some? then Told(line, key) else Kept(m, key)
  {
  }

  lemma {:induction false} ParseFromTold(m: FieldMap, lines: seq<string>, key: string) returns (last: int)
    ensures -1 <= last < |lines|
    ensures forall j :: last < j < |lines| ==> Told(lines[j], key) == None
    ensures last >= 0 ==> Told(lines[last], key).Some?
    ensures Kept(ParseFrom(m, lines), key) == if last >= 0 then Told(lines[last], key) else Kept(m, key)
    decreases |lines|
  {
    last := -1;
    if lines != [] {
      StoreTold(m, lines[0], key);
      var k := ParseFromTold(Store(m, ParseLine(lines[0])), lines[1..], key);
      if k >= 0 || Told(lines[0], key).Some? {
        last := k + 1;
      }
      forall j | last < j < |lines| ensures Told(lines[j], key) == None {
        assert j > 0 ==> lines[j] == lines[1..][j - 1];
      }
    }
  }

  /** Line i gives this value for the key, and no line behind it gives one. */
  ghost predicate IsLastTold(lines: seq<string>, i: int, key: string, val: string) {
    && 0 <= i < |lines| && Told(lines[i], key) == Some(val)
    && forall j :: i < j < |lines| ==> Told(lines[j], key) == None
  }

  /** A packet holds a field exactly when the last of its lines with that key has that value. */
  lemma {:induction false} PacketMeans(packet: string, key: string, val: string)
    ensures Kept(FieldsOf(packet), key) == Some(val) <==>
              exists i :: IsLastTold(Split(packet, '\n'), i, key, val)
  {
    var lines := Split(packet, '\n');
    var last := ParseFromTold(map[], lines, key);
    if last >= 0 && Told(lines[last], key) == Some(val) {
      assert IsLastTold(lines, last, key, val);
    }
  }
}
