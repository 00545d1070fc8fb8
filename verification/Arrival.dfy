/** When a printed header list arrives: the receiver reads back just what was added to it. */
module Arrival {
  import opened Basics
  import opened Text
  import opened Message
  import opened Reply

  /** The receiver's fields are exactly the headers of the list. */
  ghost predicate Arrives(hs: seq<Header>) {
    var fields := FieldsOf(HeaderText(hs) + "\n\n");
    && fields.Keys == (set i | 0 <= i < |hs| :: hs[i].key)
    && forall i :: 0 <= i < |hs| ==> hs[i].key in fields && fields[hs[i].key] == hs[i].val
  }

  // ---------------------------------------------------------------- whatever is received is clean

  ghost predicate IsClean(h: Header) {
    ':' !in h.key && CleanValue(h.key) && CleanValue(h.val)
  }

  ghost predicate AllClean(fields: FieldMap) {
    forall k :: k in fields ==> IsClean(Header(k, fields[k]))
  }

  lemma TrimIsClean(s: string)
    requires '\n' !in s
    ensures CleanValue(TrimSpace(s))
  {
    var left, right := TrimCuts(s);
    TrimSubset(s, '\n');
  }

  lemma ParsedIsClean(raw: string)
    requires '\n' !in raw && ParseLine(raw).Some?
    ensures IsClean(ParseLine(raw).value)
  {
    var line := DropCr(raw);
    DropCrCuts(raw);
    var i := IndexOf(line, ':');
    TrimIsClean(line[..i]);
    TrimIsClean(line[i + 1..]);
    TrimSubset(line[..i], ':');
  }

  lemma {:induction false} ParseKeepsClean(m: FieldMap, lines: seq<string>)
    requires AllClean(m) && NoneHas(lines, '\n')
    ensures AllClean(ParseFrom(m, lines))
    decreases |lines|
  {
    if lines != [] {
      if ParseLine(lines[0]).Some? {
        ParsedIsClean(lines[0]);
      }
      ParseKeepsClean(Store(m, ParseLine(lines[0])), lines[1..]);
    }
  }

  /** Keys and values of any packet are trimmed and hold no newline, keys no colon. */
  lemma FieldsAreClean(packet: string)
    ensures AllClean(FieldsOf(packet))
  {
    SplitParts(packet, '\n');
    ParseKeepsClean(map[], Split(packet, '\n'));
  }

  /** So whatever arrives was clean. */
  lemma ArrivedIsClean(hs: seq<Header>, i: nat)
    requires Arrives(hs) && i < |hs|
    ensures IsClean(hs[i])
  {
    FieldsAreClean(HeaderText(hs) + "\n\n");
  }

  // ---------------------------------------------------------------- when a list arrives

  /** A list with distinct keys arrives exactly when each of its headers is clean. */
  lemma ArrivesIffClean(hs: seq<Header>)
    requires hs != [] && DistinctKeys(hs)
    ensures Arrives(hs) <==> forall i :: 0 <= i < |hs| ==> IsClean(hs[i])
  {
    if Arrives(hs) {
      forall i | 0 <= i < |hs| ensures IsClean(hs[i]) {
        ArrivedIsClean(hs, i);
      }
    }
    if forall i :: 0 <= i < |hs| ==> IsClean(hs[i]) {
      assert forall i :: 0 <= i < |hs| ==> Plain(hs[i]) && OneLine(hs[i]);
      PrintableArrives(hs);
    }
  }

  lemma PrintableArrives(hs: seq<Header>)
    requires Printable(hs)
    ensures Arrives(hs)
  {
    ParseInvertsPrint(hs);
    HeaderMapExact(map[], hs);
  }

  /**
   A signed request arrives exactly when operation, digest, user name and signature are trimmed
   and hold no newline.
   */
  lemma RequestArrivesIff(op: string, digest: string, withSpec: bool, acc: Identity,
                          timestamp: int, thread: int, c: Crypto)
    ensures Arrives(Completed(OpHeaders(op, digest, withSpec), acc, timestamp, thread, c)) <==>
              && CleanValue(op) && CleanValue(digest) && CleanValue(acc.username)
              && CleanValue(SigOf(op, digest, withSpec, acc, timestamp, thread, c))
  {
    var ops := OpHeaders(op, digest, withSpec);
    var all := Completed(ops, acc, timestamp, thread, c);
    RequestIsPrintable(op, digest, withSpec, acc, timestamp, thread, c);
    if Printable(all) {
      PrintableArrives(all);
    }
    if Arrives(all) {
      ArrivedIsClean(all, 0);
      assert all[0] == Header("Op", op);
      if digest != "" {
        ArrivedIsClean(all, 1);
        assert all[1] == Header("Op-Digest", digest);
      }
      ArrivedIsClean(all, |ops| + 2);
      assert all[|ops| + 2] == Header("User", acc.username);
      ArrivedIsClean(all, |ops| + 4);
      assert all[|ops| + 4] == Header("Sig", SigOf(op, digest, withSpec, acc, timestamp, thread, c));
    }
  }

  /** Requests that do not arrive: a user name with a newline in it, or with a blank in front. */
  lemma UncleanUserIsMisread(op: string, digest: string, withSpec: bool, key: string,
                             timestamp: int, thread: int, c: Crypto)
    ensures !Arrives(Completed(OpHeaders(op, digest, withSpec), Identity("x\ny", key), timestamp, thread, c))
    ensures !Arrives(Completed(OpHeaders(op, digest, withSpec), Identity(" x", key), timestamp, thread, c))
  {
    var newline, blank := "x\ny", " x";
    assert newline[1] == '\n' && blank[0] == ' ';
    RequestArrivesIff(op, digest, withSpec, Identity(newline, key), timestamp, thread, c);
    RequestArrivesIff(op, digest, withSpec, Identity(blank, key), timestamp, thread, c);
  }
}
