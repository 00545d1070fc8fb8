/**
 Acceptance of a server's reply, and the result that is made of it.
 */
module Reply {
  import opened Basics
  import opened Text
  import opened Message
  import Numerals

  datatype ReplyError = Missing(key: string) | BadThread | UnexpectedThread | BadCount(key: string)

  const REQUIRED: seq<string> := ["Code", "Diag", "PV", "Thread"]
  const COUNTS: seq<string> := ["Count", "WL-Count"]

  /** A missing key reads as the empty string. */
  function Field(fields: FieldMap, key: string): string {
    if key in fields then fields[key] else ""
  }

  function IntField(fields: FieldMap, key: string): int {
    Atoi(Field(fields, key)).value
  }

  predicate Carries(fields: FieldMap, keys: seq<string>) {
    forall i :: 0 <= i < |keys| ==> keys[i] in fields
  }

  predicate CarriesInts(fields: FieldMap, keys: seq<string>) {
    forall i :: 0 <= i < |keys| ==> keys[i] in fields && Atoi(fields[keys[i]]).ok
  }

  /** validate: the reply is complete, and its thread is an error thread or the request's own. */
  method Validate(fields: FieldMap, expectedThread: int) returns (err: Option<ReplyError>)
    ensures err.None? <==>
              && Carries(fields, REQUIRED)
              && Atoi(Field(fields, "Thread")).ok
              && (IntField(fields, "Thread") < THREAD_OK_MIN || IntField(fields, "Thread") == expectedThread)
  {
    for i := 0 to |REQUIRED|
      invariant forall j :: 0 <= j < i ==> REQUIRED[j] in fields
    {
      if REQUIRED[i] !in fields {
        return Some(Missing(REQUIRED[i]));
      }
    }
    assert REQUIRED[3] in fields;
    var thread := Atoi(fields["Thread"]);
    if !thread.ok {
      return Some(BadThread);
    }
    if thread.value >= THREAD_OK_MIN && thread.value != expectedThread {
      return Some(UnexpectedThread);
    }
    return None;
  }

  /** requireCounts: both counts are present and are integers. */
  method RequireCounts(fields: FieldMap) returns (err: Option<ReplyError>)
    ensures err.None? <==> CarriesInts(fields, COUNTS)
  {
    for i := 0 to |COUNTS|
      invariant forall j :: 0 <= j < i ==> COUNTS[j] in fields && Atoi(fields[COUNTS[j]]).ok
    {
      if COUNTS[i] !in fields {
        return Some(Missing(COUNTS[i]));
      }
      if !Atoi(fields[COUNTS[i]]).ok {
        return Some(BadCount(COUNTS[i]));
      }
    }
    return None;
  }

  /** Which packets `query` accepts as the reply to a request of operation `op` with `thread`. */
  ghost predicate Acceptable(packet: string, op: string, thread: int) {
    AcceptableFields(FieldsOf(packet), op, thread)
  }

  ghost predicate AcceptableFields(fields: FieldMap, op: string, thread: int) {
    && Carries(fields, REQUIRED)
    && Atoi(Field(fields, "Thread")).ok
    && (IntField(fields, "Thread") < THREAD_OK_MIN || IntField(fields, "Thread") == thread)
    && (op == "check" && IntField(fields, "Code") == 200 ==> CarriesInts(fields, COUNTS))
  }

  /** The part of `query` behind the socket. `op` is the request's, unchanged by serialising it. */
  method Accept(packet: string, op: string, thread: int) returns (fields: FieldMap, err: Option<ReplyError>)
    ensures fields == FieldsOf(packet)
    ensures err.None? <==> Acceptable(packet, op, thread)
  {
    fields := ParseResponse(packet);
    err := Validate(fields, thread);
    if err.Some? {
      return;
    }
    if op == "check" && IntField(fields, "Code") == 200 {
      err := RequireCounts(fields);
    }
  }

  /** The field is there and reads as some integer. */
  ghost predicate IsNumber(fields: FieldMap, key: string) {
    key in fields && exists n :: Numerals.Reads(fields[key], n)
  }

  lemma NumberIff(fields: FieldMap, key: string)
    ensures IsNumber(fields, key) <==> key in fields && Atoi(fields[key]).ok
  {
    if key in fields {
      if Atoi(fields[key]).ok {
        Numerals.AtoiOkIff(fields[key], Atoi(fields[key]).value);
      }
      forall n | Numerals.Reads(fields[key], n) ensures Atoi(fields[key]).ok {
        Numerals.AtoiOkIff(fields[key], n);
      }
    }
  }

  /**
   What is demanded of a packet: four fields, a thread below 1024 or the request's own, and of a
   reply with code 200 to a check two counts.
   */
  lemma AcceptableMeans(packet: string, op: string, thread: int)
    ensures var fields := FieldsOf(packet);
      Acceptable(packet, op, thread) <==>
        && "Code" in fields && "Diag" in fields && "PV" in fields && "Thread" in fields
        && (exists n :: Numerals.Reads(fields["Thread"], n) && (n < 1024 || n == thread))
        && (op == "check" && Numerals.Reads(fields["Code"], 200) ==>
              IsNumber(fields, "Count") && IsNumber(fields, "WL-Count"))
  {
    var fields := FieldsOf(packet);
    CarriesMeans(fields);
    NumberIff(fields, "Count");
    NumberIff(fields, "WL-Count");
    if "Code" in fields && "Thread" in fields {
      Numerals.ValueTellsNumber(fields["Code"], 200);
      Numerals.AtoiOkIff(fields["Thread"], IntField(fields, "Thread"));
      forall n | Numerals.Reads(fields["Thread"], n) ensures Atoi(fields["Thread"]) == Parsed(n, true) {
        Numerals.AtoiOkIff(fields["Thread"], n);
      }
    }
  }

  lemma CarriesMeans(fields: FieldMap)
    ensures Carries(fields, REQUIRED) <==>
              "Code" in fields && "Diag" in fields && "PV" in fields && "Thread" in fields
    ensures CarriesInts(fields, COUNTS) <==>
              && "Count" in fields && Atoi(fields["Count"]).ok
              && "WL-Count" in fields && Atoi(fields["WL-Count"]).ok
  {
    assert REQUIRED[0] == "Code" && REQUIRED[1] == "Diag" && REQUIRED[2] == "PV" && REQUIRED[3] == "Thread";
    assert COUNTS[0] == "Count" && COUNTS[1] == "WL-Count";
  }

  predicate IsForeign(c: char) {
    !('0' <= c <= '9') && c != '+' && c != '-'
  }

  /** The field is absent, or holds a character that is neither digit nor sign. */
  ghost predicate Garbled(fields: FieldMap, key: string) {
    key in fields ==> exists i :: 0 <= i < |fields[key]| && IsForeign(fields[key][i])
  }

  lemma GarbledIsNoNumber(fields: FieldMap, key: string)
    requires Garbled(fields, key)
    ensures key in fields ==> Atoi(fields[key]) == Parsed(0, false)
    ensures !IsNumber(fields, key)
  {
    NumberIff(fields, key);
    if key in fields {
      var i :| 0 <= i < |fields[key]| && IsForeign(fields[key][i]);
      Numerals.GarbageIsNoNumber(fields[key], i);
    }
  }

  /** A packet whose Thread is garbage is accepted for no request. */
  lemma GarbledThreadRejected(packet: string, op: string, thread: int)
    requires Garbled(FieldsOf(packet), "Thread")
    ensures !Acceptable(packet, op, thread)
  {
    GarbledIsNoNumber(FieldsOf(packet), "Thread");
    AcceptableMeans(packet, op, thread);
  }

  /** A successful reply to a check is not accepted when one of its counts is garbage. */
  lemma GarbledCountRejected(packet: string, thread: int, key: string)
    requires "Code" in FieldsOf(packet) && Numerals.Reads(FieldsOf(packet)["Code"], 200)
    requires (key == "Count" || key == "WL-Count") && Garbled(FieldsOf(packet), key)
    ensures !Acceptable(packet, "check", thread)
  {
    GarbledIsNoNumber(FieldsOf(packet), key);
    AcceptableMeans(packet, "check", thread);
  }

  // ---------------------------------------------------------------- replies a server prints

  ghost predicate Printable(hs: seq<Header>) {
    && hs != [] && DistinctKeys(hs)
    && forall i :: 0 <= i < |hs| ==> Plain(hs[i]) && OneLine(hs[i])
  }

  /** A field of a printed reply arrives as it was sent. */
  lemma FieldArrives(hs: seq<Header>, i: nat)
    requires Printable(hs) && i < |hs|
    ensures hs[i].key in FieldsOf(HeaderText(hs) + "\n\n")
    ensures FieldsOf(HeaderText(hs) + "\n\n")[hs[i].key] == hs[i].val
  {
    ParseInvertsPrint(hs);
    HeaderMapExact(map[], hs);
  }

  predicate Generated(thread: int) {
    THREAD_OK_MIN <= thread < 65536
  }

  /** Any packet whose Thread is another request's generated thread is rejected. */
  lemma ForeignReplyRejected(packet: string, op: string, thread: int, other: int)
    requires Generated(other) && other != thread
    requires Atoi(Field(FieldsOf(packet), "Thread")) == Parsed(other, true)
    ensures !Acceptable(packet, op, thread)
  {
  }

  /** A packet that two requests accept is an error reply, and then every request accepts it. */
  lemma SharedReplyIsError(packet: string, op: string)
    ensures (exists t1, t2 :: t1 != t2 && Acceptable(packet, op, t1) && Acceptable(packet, op, t2)) <==>
              forall t :: Acceptable(packet, op, t)
    ensures (forall t :: Acceptable(packet, op, t)) ==> IntField(FieldsOf(packet), "Thread") < THREAD_OK_MIN
  {
    if forall t :: Acceptable(packet, op, t) {
      var n := IntField(FieldsOf(packet), "Thread");
      assert Acceptable(packet, op, n) && Acceptable(packet, op, n + 1);
    }
  }

  /** The reply printed for another request is such a packet. */
  lemma PrintedForeignReplyRejected(hs: seq<Header>, i: nat, op: string, thread: int, other: int)
    requires Printable(hs) && i < |hs| && hs[i] == Header("Thread", Itoa(other))
    requires Generated(other) && other != thread
    ensures !Acceptable(HeaderText(hs) + "\n\n", op, thread)
  {
    FieldArrives(hs, i);
    AtoiInvertsItoa(other);
    ForeignReplyRejected(HeaderText(hs) + "\n\n", op, thread, other);
  }

  /** So is any printed text, clean or not, that ends with the other request's Thread line. */
  lemma LastThreadDecides(before: seq<Header>, op: string, thread: int, other: int)
    requires Generated(other) && other != thread
    ensures !Acceptable(HeaderText(before + [Header("Thread", Itoa(other))]) + "\n\n", op, thread)
  {
    var h := Header("Thread", Itoa(other));
    PrintedNumber("Thread", other);
    AddedHeaderArrives(before, h);
    AtoiInvertsItoa(other);
    ForeignReplyRejected(HeaderText(before + [h]) + "\n\n", op, thread, other);
  }

  /** What the reply header list says under `key`. */
  ghost predicate Says(hs: seq<Header>, key: string, val: string) {
    Header(key, val) in hs
  }

  lemma SaidArrives(hs: seq<Header>, key: string, val: string)
    requires Printable(hs) && Says(hs, key, val)
    ensures Field(FieldsOf(HeaderText(hs) + "\n\n"), key) == val && key in FieldsOf(HeaderText(hs) + "\n\n")
  {
    var i :| 0 <= i < |hs| && hs[i] == Header(key, val);
    FieldArrives(hs, i);
  }

  /** A complete reply to a check is accepted, and read back as exactly the integers printed. */
  lemma CheckReplyArrives(hs: seq<Header>, thread: int, diag: string, pv: string, count: int, wl: int)
    requires Printable(hs) && IsInt(thread) && IsInt(count) && IsInt(wl)
    requires Says(hs, "Code", Itoa(200)) && Says(hs, "Diag", diag) && Says(hs, "PV", pv)
    requires Says(hs, "Thread", Itoa(thread))
    requires Says(hs, "Count", Itoa(count)) && Says(hs, "WL-Count", Itoa(wl))
    ensures Acceptable(HeaderText(hs) + "\n\n", "check", thread)
    ensures ResultOf(FieldsOf(HeaderText(hs) + "\n\n")) == Replied(200, diag, count, wl)
  {
    var fields := FieldsOf(HeaderText(hs) + "\n\n");
    NumberArrives(hs, "Code", 200);
    SaidArrives(hs, "Diag", diag);
    SaidArrives(hs, "PV", pv);
    NumberArrives(hs, "Thread", thread);
    NumberArrives(hs, "Count", count);
    NumberArrives(hs, "WL-Count", wl);
    CompleteIsAcceptable(fields, thread);
  }

  lemma NumberArrives(hs: seq<Header>, key: string, n: int)
    requires Printable(hs) && Says(hs, key, Itoa(n)) && IsInt(n)
    ensures var fields := FieldsOf(HeaderText(hs) + "\n\n");
            && key in fields && Atoi(fields[key]).ok && IntField(fields, key) == n
  {
    SaidArrives(hs, key, Itoa(n));
    AtoiInvertsItoa(n);
  }

  lemma CompleteIsAcceptable(fields: FieldMap, thread: int)
    requires "Code" in fields && "Diag" in fields && "PV" in fields && "Thread" in fields
    requires Atoi(fields["Thread"]).ok && IntField(fields, "Thread") == thread
    requires "Count" in fields && Atoi(fields["Count"]).ok
    requires "WL-Count" in fields && Atoi(fields["WL-Count"]).ok
    ensures AcceptableFields(fields, "check", thread)
  {
  }

  /** The outcome of one query: an error, or the numbers of the reply. */
  datatype Outcome = Failed | Replied(code: int, diag: string, count: int, wlCount: int)

  function ResultOf(fields: FieldMap): Outcome {
    Replied(IntField(fields, "Code"), Field(fields, "Diag"), IntField(fields, "Count"), IntField(fields, "WL-Count"))
  }

  // ---------------------------------------------------------------- the request itself

  ghost predicate CleanValue(v: string) {
    Trimmed(v) && '\n' !in v
  }

  /** The signature under which a request is sent. */
  function SigOf(op: string, digest: string, withSpec: bool, acc: Identity, timestamp: int, thread: int,
                 c: Crypto): string
  {
    var signed := OpHeaders(op, digest, withSpec) + Envelope(acc, timestamp, thread);
    SignMsg(c, HashKey(c, acc.key, acc.username), timestamp, HeaderText(signed))
  }

  /** The headers of a signed request have distinct keys, and are clean when its values are. */
  lemma RequestIsPrintable(op: string, digest: string, withSpec: bool, acc: Identity, timestamp: int, thread: int,
                           c: Crypto)
    ensures Printable(Completed(OpHeaders(op, digest, withSpec), acc, timestamp, thread, c)) <==>
              && CleanValue(op) && CleanValue(digest) && CleanValue(acc.username)
              && CleanValue(SigOf(op, digest, withSpec, acc, timestamp, thread, c))
  {
    var ops, e := OpHeaders(op, digest, withSpec), Envelope(acc, timestamp, thread);
    var sig := SigOf(op, digest, withSpec, acc, timestamp, thread, c);
    var all := Completed(ops, acc, timestamp, thread, c);
    if CleanValue(op) && CleanValue(digest) && CleanValue(acc.username) && CleanValue(sig) {
      OpPrintable(op, digest, withSpec);
      EnvelopePrintable(ops, acc, timestamp, thread);
      SigPrintable(ops + e, sig);
    }
    if Printable(all) {
      HeaderIsClean(all, 0, "Op", op);
      if digest != "" {
        HeaderIsClean(all, 1, "Op-Digest", digest);
      }
      HeaderIsClean(all, |ops| + 2, "User", acc.username);
      HeaderIsClean(all, |ops| + 4, "Sig", sig);
    }
  }

  lemma HeaderIsClean(hs: seq<Header>, i: nat, key: string, val: string)
    requires Printable(hs) && i < |hs| && hs[i] == Header(key, val)
    ensures CleanValue(val)
  {
    assert Plain(hs[i]) && OneLine(hs[i]);
  }

  /** No header of `hs` has this key. */
  ghost predicate Free(hs: seq<Header>, key: string) {
    forall i :: 0 <= i < |hs| ==> hs[i].key != key
  }

  /** None of the keys that serialising adds is there yet. */
  ghost predicate Unsigned(hs: seq<Header>) {
    Free(hs, "Thread") && Free(hs, "PV") && Free(hs, "User") && Free(hs, "Time") && Free(hs, "Sig")
  }

  lemma NextUnsigned(hs: seq<Header>, h: Header)
    requires Printable(hs) && Unsigned(hs) && Sound(h) && Free(hs, h.key)
    requires h.key != [] && h.key[0] == 'O'
    ensures Printable(hs + [h]) && Unsigned(hs + [h])
  {
    NextHeader(hs, h);
  }

  lemma FirstUnsigned(h: Header)
    requires Sound(h) && h.key != [] && h.key[0] == 'O'
    ensures Printable([h]) && Unsigned([h])
  {
    FirstHeader(h);
  }

  lemma OpKeys(op: string, digest: string)
    requires CleanValue(op) && CleanValue(digest)
    ensures Sound(Header("Op", op)) && Sound(Header("Op-Digest", digest)) && Sound(Header("Op-Spec", DIGEST_SPEC_FLAT))
  {
  }

  lemma OpPrintable(op: string, digest: string, withSpec: bool)
    requires CleanValue(op) && CleanValue(digest)
    ensures Printable(OpHeaders(op, digest, withSpec)) && Unsigned(OpHeaders(op, digest, withSpec))
  {
    var h0, h1, h2 := Header("Op", op), Header("Op-Digest", digest), Header("Op-Spec", DIGEST_SPEC_FLAT);
    OpKeys(op, digest);
    FirstUnsigned(h0);
    if digest != "" {
      assert |h0.key| < |h2.key| < |h1.key|;
      NextUnsigned([h0], h1);
      assert [h0] + [h1] == [h0, h1];
      if withSpec {
        NextUnsigned([h0, h1], h2);
      } else {
        assert [h0, h1] + [] == [h0, h1];
      }
    }
  }

  /** The keys of the envelope and of the signature all differ. */
  lemma EnvelopeKeysDiffer()
    ensures "PV" != "Thread" && "User" != "Thread" && "User" != "PV"
    ensures "Time" != "Thread" && "Time" != "PV" && "Time" != "User"
    ensures "Sig" != "Thread" && "Sig" != "PV" && "Sig" != "User" && "Sig" != "Time"
  {
    assert "Time"[1] == 'i' && "Thread"[1] == 'h';
  }

  lemma EnvelopePrintable(hs: seq<Header>, acc: Identity, timestamp: int, thread: int)
    requires Printable(hs) && CleanValue(acc.username)
    requires Unsigned(hs)
    ensures Printable(hs + Envelope(acc, timestamp, thread))
    ensures Free(hs + Envelope(acc, timestamp, thread), "Sig")
  {
    var e := Envelope(acc, timestamp, thread);
    EnvelopeSound(acc, timestamp, thread);
    EnvelopeKeysDiffer();
    var x1 := hs + [e[0]];
    NextHeader(hs, e[0]);
    var x2 := x1 + [e[1]];
    NextHeader(x1, e[1]);
    var x3 := x2 + [e[2]];
    NextHeader(x2, e[2]);
    NextHeader(x3, e[3]);
    assert hs + e == x3 + [e[3]];
  }

  lemma EnvelopeSound(acc: Identity, timestamp: int, thread: int)
    requires CleanValue(acc.username)
    ensures var e := Envelope(acc, timestamp, thread); Sound(e[0]) && Sound(e[1]) && Sound(e[2]) && Sound(e[3])
  {
    EnvelopeKeys();
    PrintedNumber("Thread", thread);
    PrintedNumber("Time", timestamp);
  }

  lemma EnvelopeKeys()
    ensures Sound(Header("Thread", "")) && Sound(Header("PV", PROTO_VERSION))
    ensures Sound(Header("User", "")) && Sound(Header("Time", ""))
  {
  }

  lemma PrintedNumber(key: string, n: int)
    requires Sound(Header(key, ""))
    ensures Sound(Header(key, Itoa(n)))
  {
    ItoaIsPlain(n);
  }

  lemma SigPrintable(hs: seq<Header>, sig: string)
    requires Printable(hs) && CleanValue(sig) && Free(hs, "Sig")
    ensures Printable(hs + [Header("Sig", sig)])
  {
    NextHeader(hs, Header("Sig", sig));
  }

  ghost predicate Sound(h: Header) {
    Plain(h) && OneLine(h)
  }

  lemma FirstHeader(h: Header)
    requires Sound(h)
    ensures Printable([h])
    ensures forall k :: Free([h], k) <==> k != h.key
  {
    forall k | Free([h], k) ensures k != h.key {
      assert [h][0].key != k;
    }
  }

  lemma NextHeader(hs: seq<Header>, h: Header)
    requires Printable(hs) && Sound(h)
    requires Free(hs, h.key)
    ensures Printable(hs + [h])
    ensures forall k :: Free(hs + [h], k) <==> Free(hs, k) && k != h.key
  {
    forall k | Free(hs + [h], k) ensures Free(hs, k) && k != h.key {
      assert (hs + [h])[|hs|].key != k;
      forall i | 0 <= i < |hs| ensures hs[i].key != k {
        assert (hs + [h])[i] == hs[i];
      }
    }
  }
}
