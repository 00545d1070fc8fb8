/**
 What the signature covers: the signed text of a request determines the request, also when the
 user name holds newlines.
 */
module Signature {
  import opened Basics
  import opened Text
  import opened Message

  /** Two lists print alike when a value holds a newline and what looks like another header. */
  lemma NewlineMakesListsAlike(hs: seq<Header>, k: string, v: string, h: Header)
    ensures HeaderText(hs + [Header(k, v + "\n" + LineOf(h))]) == HeaderText(hs + [Header(k, v)] + [h])
  {
    var long, short := Header(k, v + "\n" + LineOf(h)), Header(k, v);
    HeaderTextNext(hs, long);
    HeaderTextNext(hs, short);
    HeaderTextNext(hs + [short], h);
    assert LineOf(long) == LineOf(short) + "\n" + LineOf(h);
    if hs != [] {
      var front := HeaderText(hs) + "\n";
      assert HeaderText(hs + [long]) == front + (LineOf(short) + "\n" + LineOf(h));
      Assoc(front, LineOf(short) + "\n", LineOf(h));
      Assoc(front, LineOf(short), "\n");
    }
  }

  // ---------------------------------------------------------------- the text of a request

  /** The headers in front of the user name. */
  function Front(op: string, digest: string, withSpec: bool, thread: int): seq<Header> {
    OpHeaders(op, digest, withSpec) + [Header("Thread", Itoa(thread)), Header("PV", PROTO_VERSION)]
  }

  /** The text that is signed. */
  function SignedText(op: string, digest: string, withSpec: bool, user: string, timestamp: int, thread: int): string {
    HeaderText(OpHeaders(op, digest, withSpec) + Envelope(Identity(user, ""), timestamp, thread))
  }

  ghost predicate IsLine(h: Header) {
    ':' !in h.key && OneLine(h)
  }

  lemma OpsAreLines(op: string, digest: string)
    requires '\n' !in op && '\n' !in digest
    ensures IsLine(Header("Op", op)) && IsLine(Header("Op-Digest", digest))
    ensures IsLine(Header("Op-Spec", DIGEST_SPEC_FLAT))
  {
  }

  lemma FrontIsOneLine(op: string, digest: string, withSpec: bool, thread: int)
    requires '\n' !in op && '\n' !in digest
    ensures forall h :: h in Front(op, digest, withSpec, thread) ==> IsLine(h)
  {
    OpsAreLines(op, digest);
    ItoaIsPlain(thread);
    assert IsLine(Header("Thread", Itoa(thread))) && IsLine(Header("PV", PROTO_VERSION));
  }

  /** Split at newlines: the lines in front, then those of the user name, then the time. */
  lemma SignedTextFalls(op: string, digest: string, withSpec: bool, user: string, timestamp: int, thread: int)
    requires '\n' !in op && '\n' !in digest
    ensures Split(SignedText(op, digest, withSpec, user, timestamp, thread), '\n')
         == LinesOf(Front(op, digest, withSpec, thread)) + Split(LineOf(Header("User", user)), '\n')
            + [LineOf(Header("Time", Itoa(timestamp)))]
  {
    var front, u, t := Front(op, digest, withSpec, thread), Header("User", user), Header("Time", Itoa(timestamp));
    FrontIsOneLine(op, digest, withSpec, thread);
    forall i | 0 <= i < |front| ensures OneLine(front[i]) {
      assert front[i] in front;
    }
    HeaderTextSplits(front);
    assert OpHeaders(op, digest, withSpec) + Envelope(Identity(user, ""), timestamp, thread) == front + [u] + [t];
    NextHeaderSplits(front, u);
    NextHeaderSplits(front + [u], t);
    ItoaIsPlain(timestamp);
    SplitNone(LineOf(t), '\n');
  }

  lemma NextHeaderSplits(hs: seq<Header>, h: Header)
    requires hs != []
    ensures Split(HeaderText(hs + [h]), '\n') == Split(HeaderText(hs), '\n') + Split(LineOf(h), '\n')
  {
    HeaderTextNext(hs, h);
    assert HeaderText(hs) + ['\n'] + LineOf(h) == HeaderText(hs) + "\n" + LineOf(h);
    SplitAppend(HeaderText(hs), LineOf(h), '\n');
  }

  /** How many operation headers there are shows in the second and third line. */
  function OpsShown(lines: seq<string>): nat
    requires |lines| >= 3 && lines[1] != [] && lines[2] != []
  {
    if lines[1][0] == 'T' then 1 else if lines[2][0] == 'T' then 2 else 3
  }

  lemma OpsAreShown(op: string, digest: string, withSpec: bool, thread: int, rest: seq<string>)
    ensures var lines := LinesOf(Front(op, digest, withSpec, thread)) + rest;
      && |lines| >= 3 && lines[1] != [] && lines[2] != []
      && OpsShown(lines) == |OpHeaders(op, digest, withSpec)|
  {
    var front := Front(op, digest, withSpec, thread);
    var lines := LinesOf(front) + rest;
    assert lines[1] == LineOf(front[1]) && lines[2] == LineOf(front[2]);
    assert front[1].key[0] == if digest == "" then 'T' else 'O';
    assert front[2].key[0] == if digest == "" then 'P' else if withSpec then 'O' else 'T';
  }

  lemma FrontInjective(a: seq<Header>, b: seq<Header>, x: seq<string>, y: seq<string>)
    requires |a| == |b| && LinesOf(a) + x == LinesOf(b) + y
    requires (forall h :: h in a ==> IsLine(h)) && forall h :: h in b ==> IsLine(h)
    ensures a == b && x == y
  {
    forall i | 0 <= i < |a| ensures a[i] == b[i] {
      assert (LinesOf(a) + x)[i] == LineOf(a[i]) && (LinesOf(b) + y)[i] == LineOf(b[i]);
      assert a[i] in a && b[i] in b && IsLine(a[i]) && IsLine(b[i]);
      LineInjective(a[i], b[i]);
    }
    assert x == (LinesOf(a) + x)[|a|..] && y == (LinesOf(b) + y)[|b|..];
  }

  lemma LastInjective(x: seq<string>, l: string, y: seq<string>, m: string)
    requires x + [l] == y + [m]
    ensures x == y && l == m
  {
    var a, b := x + [l], y + [m];
    assert a[|a| - 1] == l && b[|b| - 1] == m;
    assert a[..|a| - 1] == x && b[..|b| - 1] == y;
  }

  lemma {:induction false} SplitInjective(x: string, y: string, sep: char)
    requires Split(x, sep) == Split(y, sep)
    ensures x == y
  {
    JoinInvertsSplit(x, sep);
    JoinInvertsSplit(y, sep);
  }

  /**
   Different requests never sign the same text, whatever the user names: it tells operation,
   digest, user, time and thread, and with a digest also whether the spec was sent.
   */
  lemma SignedTextInjective(op1: string, digest1: string, spec1: bool, user1: string, time1: int, thread1: int,
                            op2: string, digest2: string, spec2: bool, user2: string, time2: int, thread2: int)
    requires '\n' !in op1 && '\n' !in digest1 && '\n' !in op2 && '\n' !in digest2
    requires IsInt(time1) && IsInt(thread1) && IsInt(time2) && IsInt(thread2)
    requires SignedText(op1, digest1, spec1, user1, time1, thread1)
          == SignedText(op2, digest2, spec2, user2, time2, thread2)
    ensures op1 == op2 && digest1 == digest2 && user1 == user2 && time1 == time2 && thread1 == thread2
    ensures digest1 != "" ==> spec1 == spec2
  {
    SignedTextFalls(op1, digest1, spec1, user1, time1, thread1);
    SignedTextFalls(op2, digest2, spec2, user2, time2, thread2);
    var f1, f2 := Front(op1, digest1, spec1, thread1), Front(op2, digest2, spec2, thread2);
    var u1, u2 := Split(LineOf(Header("User", user1)), '\n'), Split(LineOf(Header("User", user2)), '\n');
    var t1, t2 := Header("Time", Itoa(time1)), Header("Time", Itoa(time2));
    LastInjective(LinesOf(f1) + u1, LineOf(t1), LinesOf(f2) + u2, LineOf(t2));
    OpsAreShown(op1, digest1, spec1, thread1, u1);
    OpsAreShown(op2, digest2, spec2, thread2, u2);
    FrontIsOneLine(op1, digest1, spec1, thread1);
    FrontIsOneLine(op2, digest2, spec2, thread2);
    FrontInjective(f1, f2, u1, u2);
    FrontTells(op1, digest1, spec1, thread1, op2, digest2, spec2, thread2);
    SplitInjective(LineOf(Header("User", user1)), LineOf(Header("User", user2)), '\n');
    LineInjective(Header("User", user1), Header("User", user2));
    LineInjective(t1, t2);
    ItoaInjective(time1, time2);
  }

  lemma FrontTells(op1: string, digest1: string, spec1: bool, thread1: int,
                   op2: string, digest2: string, spec2: bool, thread2: int)
    requires IsInt(thread1) && IsInt(thread2)
    requires Front(op1, digest1, spec1, thread1) == Front(op2, digest2, spec2, thread2)
    ensures op1 == op2 && digest1 == digest2 && thread1 == thread2
    ensures digest1 != "" ==> spec1 == spec2
  {
    var f1, f2 := Front(op1, digest1, spec1, thread1), Front(op2, digest2, spec2, thread2);
    var n1, n2 := |OpHeaders(op1, digest1, spec1)|, |OpHeaders(op2, digest2, spec2)|;
    assert |f1| == n1 + 2 && |f2| == n2 + 2;
    assert f1[0] == Header("Op", op1) && f2[0] == Header("Op", op2);
    assert f1[n1] == Header("Thread", Itoa(thread1)) && f2[n2] == Header("Thread", Itoa(thread2));
    assert n1 > 1 ==> f1[1] == Header("Op-Digest", digest1) && f2[1] == Header("Op-Digest", digest2);
    ItoaInjective(thread1, thread2);
  }
}
