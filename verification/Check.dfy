/** A whole check: from the packets that the servers send to the verdict. */
module Check {
  import opened Basics
  import opened Text
  import opened Message
  import opened Reply
  import opened Fanout
  import opened Verdict

  /** What came back to the query sent under `thread`; None when the transport failed. */
  datatype Exchange = Exchange(packet: Option<string>, thread: int)

  ghost predicate IsAccepted(x: Exchange) {
    x.packet.Some? && Acceptable(x.packet.value, "check", x.thread)
  }

  /** The result of one query, as queryAll stores it. */
  ghost function OutcomeOf(x: Exchange): Outcome {
    if IsAccepted(x) then ResultOf(FieldsOf(x.packet.value)) else Failed
  }

  ghost function OutcomesOf(xs: seq<Exchange>): (answers: Answers)
    ensures |answers| == |xs|
    ensures forall i :: 0 <= i < |xs| ==> answers[i] == OutcomeOf(xs[i])
  {
    if xs == [] then [] else [OutcomeOf(xs[0])] + OutcomesOf(xs[1..])
  }

  /** The number that the packet gives for this field. */
  ghost function NumberIn(x: Exchange, key: string): int {
    if x.packet.Some? then IntField(FieldsOf(x.packet.value), key) else 0
  }

  /** An accepted reply with code 200 that does not whitelist. */
  ghost predicate Clears(x: Exchange, w: int) {
    IsAccepted(x) && NumberIn(x, "Code") == 200 && NumberIn(x, "WL-Count") <= w
  }

  /** An accepted reply that counts more than r. */
  ghost predicate Reports(x: Exchange, r: int) {
    IsAccepted(x) && NumberIn(x, "Count") > r
  }

  lemma OutcomeTells(x: Exchange, r: int, w: int)
    ensures Clears(x, w) <==> Ok(OutcomeOf(x)) && OutcomeOf(x).wlCount <= w
    ensures Reports(x, r) <==> OutcomeOf(x).Replied? && OutcomeOf(x).count > r
  {
  }

  lemma SpamByIndex(answers: Answers, r: int, w: int)
    ensures IsSpam(answers, r, w) <==>
              && answers != []
              && (forall i :: 0 <= i < |answers| ==> Ok(answers[i]) && answers[i].wlCount <= w)
              && exists i :: 0 <= i < |answers| && answers[i].Replied? && answers[i].count > r
  {
  }

  /**
   For any packets, accepted or not, and however the queries were scheduled: the check says spam
   exactly when every server's reply was accepted with code 200 and a whitelist count of at most
   w, and some reply counts more than r.
   */
  lemma {:induction false} VerdictOfPackets(xs: seq<Exchange>, states: seq<State>, actions: seq<Action>, r: int, w: int)
    requires IsRun(states, actions, OutcomesOf(xs)) && states[|actions|].returned
    ensures IsSpam(Collected(states[|actions|].results), r, w) <==>
              && xs != []
              && (forall i :: 0 <= i < |xs| ==> Clears(xs[i], w))
              && exists i :: 0 <= i < |xs| && Reports(xs[i], r)
  {
    RunCollectsAnswers(states, actions, OutcomesOf(xs));
    SpamOfPackets(xs, r, w);
  }

  lemma {:induction false} SpamOfPackets(xs: seq<Exchange>, r: int, w: int)
    ensures IsSpam(OutcomesOf(xs), r, w) <==>
              && xs != []
              && (forall i :: 0 <= i < |xs| ==> Clears(xs[i], w))
              && exists i :: 0 <= i < |xs| && Reports(xs[i], r)
  {
    var answers := OutcomesOf(xs);
    SpamByIndex(answers, r, w);
    forall i | 0 <= i < |xs|
      ensures Clears(xs[i], w) <==> Ok(answers[i]) && answers[i].wlCount <= w
      ensures Reports(xs[i], r) <==> answers[i].Replied? && answers[i].count > r
    {
      OutcomeTells(xs[i], r, w);
    }
  }

  // ---------------------------------------------------------------- clean replies

  /** A reply that a server prints for the request with this thread. */
  datatype Printed = Printed(hs: seq<Header>, thread: int, diag: string, pv: string, count: int, wl: int)

  ghost predicate IsCheckReply(p: Printed) {
    && Printable(p.hs) && IsInt(p.thread) && IsInt(p.count) && IsInt(p.wl)
    && Says(p.hs, "Code", Itoa(200)) && Says(p.hs, "Diag", p.diag) && Says(p.hs, "PV", p.pv)
    && Says(p.hs, "Thread", Itoa(p.thread))
    && Says(p.hs, "Count", Itoa(p.count)) && Says(p.hs, "WL-Count", Itoa(p.wl))
  }

  ghost function Sent(p: Printed): Exchange {
    Exchange(Some(HeaderText(p.hs) + "\n\n"), p.thread)
  }

  ghost function AllSent(ps: seq<Printed>): (xs: seq<Exchange>)
    ensures |xs| == |ps|
    ensures forall i :: 0 <= i < |ps| ==> xs[i] == Sent(ps[i])
  {
    if ps == [] then [] else [Sent(ps[0])] + AllSent(ps[1..])
  }

  /** When all servers print clean replies, the verdict is read off the numbers that they print. */
  lemma {:induction false} VerdictOfReplies(ps: seq<Printed>, states: seq<State>, actions: seq<Action>, r: int, w: int)
    requires forall i :: 0 <= i < |ps| ==> IsCheckReply(ps[i])
    requires IsRun(states, actions, OutcomesOf(AllSent(ps))) && states[|actions|].returned
    ensures IsSpam(Collected(states[|actions|].results), r, w) <==>
              && ps != []
              && (forall i :: 0 <= i < |ps| ==> ps[i].wl <= w)
              && exists i :: 0 <= i < |ps| && ps[i].count > r
  {
    AllRead(ps, r, w);
    VerdictByNumbers(AllSent(ps), ps, states, actions, r, w);
  }

  lemma {:induction false} VerdictByNumbers(xs: seq<Exchange>, ps: seq<Printed>,
                                            states: seq<State>, actions: seq<Action>, r: int, w: int)
    requires |xs| == |ps|
    requires forall i :: 0 <= i < |ps| ==> (Clears(xs[i], w) <==> ps[i].wl <= w)
    requires forall i :: 0 <= i < |ps| ==> (Reports(xs[i], r) <==> ps[i].count > r)
    requires IsRun(states, actions, OutcomesOf(xs)) && states[|actions|].returned
    ensures IsSpam(Collected(states[|actions|].results), r, w) <==>
              && ps != []
              && (forall i :: 0 <= i < |ps| ==> ps[i].wl <= w)
              && exists i :: 0 <= i < |ps| && ps[i].count > r
  {
    VerdictOfPackets(xs, states, actions, r, w);
  }

  lemma {:induction false} AllRead(ps: seq<Printed>, r: int, w: int)
    requires forall i :: 0 <= i < |ps| ==> IsCheckReply(ps[i])
    ensures forall i :: 0 <= i < |ps| ==> (Clears(AllSent(ps)[i], w) <==> ps[i].wl <= w)
    ensures forall i :: 0 <= i < |ps| ==> (Reports(AllSent(ps)[i], r) <==> ps[i].count > r)
  {
    forall i | 0 <= i < |ps|
      ensures Clears(AllSent(ps)[i], w) <==> ps[i].wl <= w
      ensures Reports(AllSent(ps)[i], r) <==> ps[i].count > r
    {
      SentIsRead(ps[i]);
    }
  }

  lemma SentIsRead(p: Printed)
    requires IsCheckReply(p)
    ensures IsAccepted(Sent(p)) && NumberIn(Sent(p), "Code") == 200
    ensures NumberIn(Sent(p), "Count") == p.count && NumberIn(Sent(p), "WL-Count") == p.wl
  {
    CheckReplyArrives(p.hs, p.thread, p.diag, p.pv, p.count, p.wl);
  }
}
