/**
 What a check makes of the servers' answers: the aggregates of CheckDigest, and the spam verdict
 that must hold of the whole list of servers.
 */
module Verdict {
  import opened Reply
  import opened Fanout

  predicate Ok(o: Outcome) {
    o.Replied? && o.code == 200
  }

  /** Every queried server replied OK, and there was one. */
  ghost predicate AllSucceeded(results: seq<Outcome>) {
    results != [] && forall o :: o in results ==> Ok(o)
  }

  /** The verdict: all servers OK, none whitelists beyond w, at least one counts more than r. */
  ghost predicate IsSpam(results: seq<Outcome>, r: int, w: int) {
    && AllSucceeded(results)
    && (forall o :: o in results ==> o.Replied? && o.wlCount <= w)
    && exists o :: o in results && o.Replied? && o.count > r
  }

  /** `count` and `whitelist` are the largest over the successful servers, and at least zero. */
  ghost predicate Aggregates(results: seq<Outcome>, count: int, whitelist: int) {
    && count >= 0 && whitelist >= 0
    && (forall o :: o in results && Ok(o) ==> o.count <= count && o.wlCount <= whitelist)
    && (count == 0 || exists o :: o in results && Ok(o) && o.count == count)
    && (whitelist == 0 || exists o :: o in results && Ok(o) && o.wlCount == whitelist)
  }

  // ---------------------------------------------------------------- the loops

  method CheckDigest(results: seq<Outcome>) returns (count: int, whitelist: int)
    ensures Aggregates(results, count, whitelist)
  {
    count, whitelist := 0, 0;
    for i := 0 to |results|
      invariant Aggregates(results[..i], count, whitelist)
    {
      var sr := results[i];
      assert results[..i + 1] == results[..i] + [sr];
      if sr.Failed? || sr.code != 200 {
        continue;
      }
      if sr.count > count {
        count := sr.count;
      }
      if sr.wlCount > whitelist {
        whitelist := sr.wlCount;
      }
    }
    assert results[..|results|] == results;
  }

  method Hit(results: seq<Outcome>, r: int, w: int) returns (hit: bool)
    ensures hit <==> IsSpam(results, r, w)
  {
    if |results| == 0 {
      return false;
    }
    hit := false;
    for i := 0 to |results|
      invariant forall j :: 0 <= j < i ==> Ok(results[j]) && results[j].wlCount <= w
      invariant hit <==> exists j :: 0 <= j < i && results[j].Replied? && results[j].count > r
    {
      var sr := results[i];
      if sr.Failed? || sr.code != 200 {
        return false;
      }
      if sr.wlCount > w {
        return false;
      }
      if sr.count > r {
        hit := true;
      }
    }
  }

  method AllOk(results: seq<Outcome>) returns (ok: bool)
    ensures ok <==> AllSucceeded(results)
  {
    if |results| == 0 {
      return false;
    }
    for i := 0 to |results|
      invariant forall j :: 0 <= j < i ==> Ok(results[j])
    {
      if results[i].Failed? || results[i].code != 200 {
        assert results[i] in results;
        return false;
      }
    }
    return true;
  }

  // ---------------------------------------------------------------- the verdict from the aggregates

  /** Deciding from the two aggregates alone, instead of server by server. */
  ghost predicate AggregatesSayHit(results: seq<Outcome>, count: int, whitelist: int, r: int, w: int) {
    AllSucceeded(results) && count > r && whitelist <= w
  }

  lemma VerdictFromAggregates(results: seq<Outcome>, count: int, whitelist: int, r: int, w: int)
    requires Aggregates(results, count, whitelist) && r >= 0 && w >= 0
    ensures IsSpam(results, r, w) <==> AggregatesSayHit(results, count, whitelist, r, w)
  {
  }

  /** The aggregates decide as Hit does at these thresholds, whatever the servers answer. */
  ghost predicate AggregatesSuffice(r: int, w: int) {
    forall results: seq<Outcome>, count: int, whitelist: int | Aggregates(results, count, whitelist) ::
      IsSpam(results, r, w) <==> AggregatesSayHit(results, count, whitelist, r, w)
  }

  /**
   The aggregates start at zero, but a server may print negative counts: the two ways of deciding
   agree on every list of answers exactly for the thresholds that are not negative.
   */
  lemma AggregatesSufficeIffNonNegative(r: int, w: int)
    ensures AggregatesSuffice(r, w) <==> r >= 0 && w >= 0
  {
    if r >= 0 && w >= 0 {
      forall results: seq<Outcome>, count: int, whitelist: int | Aggregates(results, count, whitelist)
        ensures IsSpam(results, r, w) <==> AggregatesSayHit(results, count, whitelist, r, w)
      {
        VerdictFromAggregates(results, count, whitelist, r, w);
      }
    } else if w >= 0 {
      // nothing exceeds r, but the aggregate does
      var results := [Replied(200, "", r, 0)];
      assert Aggregates(results, 0, 0) by { assert results[0] in results; }
      assert AggregatesSayHit(results, 0, 0, r, w) && !IsSpam(results, r, w);
    } else {
      // nothing exceeds w, but the aggregate does
      var reported := if r < 0 then 0 else r + 1;
      var results := [Replied(200, "", reported, w)];
      assert results[0] in results;
      assert Aggregates(results, reported, 0);
      assert IsSpam(results, r, w) && !AggregatesSayHit(results, reported, 0, r, w);
    }
  }

  // ---------------------------------------------------------------- how the verdict depends on its inputs

  /** Neither the verdict nor the aggregates depend on the order the servers are listed in. */
  lemma OrderDoesNotMatter(a: seq<Outcome>, b: seq<Outcome>, r: int, w: int, count: int, whitelist: int)
    requires multiset(a) == multiset(b)
    ensures IsSpam(a, r, w) <==> IsSpam(b, r, w)
    ensures Aggregates(a, count, whitelist) <==> Aggregates(b, count, whitelist)
  {
    assert a == [] <==> b == [] by { assert |multiset(a)| == |multiset(b)|; }
    assert forall o :: o in a <==> o in multiset(a);
    assert forall o :: o in b <==> o in multiset(b);
  }

  /** Aggregates are determined by the answers. */
  lemma AggregatesAreUnique(results: seq<Outcome>, c1: int, w1: int, c2: int, w2: int)
    requires Aggregates(results, c1, w1) && Aggregates(results, c2, w2)
    ensures c1 == c2 && w1 == w2
  {
  }

  function Max(x: int, y: int): int {
    if x < y then y else x
  }

  /** No server: zeros. */
  lemma NoServerNoCounts(count: int, whitelist: int)
    ensures Aggregates([], count, whitelist) <==> count == 0 && whitelist == 0
  {
  }

  /** One more server anywhere raises the maxima when it replied with 200, and has no say otherwise. */
  lemma OneMoreCounts(a: seq<Outcome>, o: Outcome, b: seq<Outcome>, count: int, whitelist: int)
    requires Aggregates(a + b, count, whitelist)
    ensures o.Replied? && o.code == 200 ==>
              Aggregates(a + [o] + b, Max(count, o.count), Max(whitelist, o.wlCount))
    ensures !(o.Replied? && o.code == 200) ==> Aggregates(a + [o] + b, count, whitelist)
  {
    var all := a + [o] + b;
    assert forall p :: p in all <==> p in a + b || p == o;
    assert o in all;
  }

  /** Raising the report threshold or lowering the whitelist threshold can only clear a hit. */
  lemma StricterThresholdsOnlyClear(results: seq<Outcome>, r: int, w: int, r2: int, w2: int)
    requires r <= r2 && w2 <= w && IsSpam(results, r2, w2)
    ensures IsSpam(results, r, w)
  {
    var o :| o in results && o.Replied? && o.count > r2;
    assert o.count > r;
  }

  /** All servers, o among them, are OK and do not whitelist, and somebody's count exceeds r. */
  ghost predicate JoinsHit(others: seq<Outcome>, o: Outcome, r: int, w: int) {
    && Ok(o) && o.wlCount <= w
    && (forall p :: p in others ==> Ok(p) && p.wlCount <= w)
    && (o.count > r || exists p :: p in others && p.Replied? && p.count > r)
  }

  /** One more server, anywhere in any list: it clears the hit if it failed or whitelists, and may make one. */
  lemma OneMoreServer(a: seq<Outcome>, o: Outcome, b: seq<Outcome>, r: int, w: int)
    ensures IsSpam(a + [o] + b, r, w) <==> JoinsHit(a + b, o, r, w)
    ensures !Ok(o) ==> !IsSpam(a + [o] + b, r, w)
  {
    var all := a + [o] + b;
    assert forall p :: p in all <==> p in a + b || p == o;
    assert o in all;
  }

  // ---------------------------------------------------------------- the verdict of a run

  /** What the caller reads from the slots; an unwritten one would hold Go's zero values. */
  function Collected(slots: seq<Slot>): (outcomes: seq<Outcome>)
    ensures |outcomes| == |slots|
  {
    seq(|slots|, i requires 0 <= i < |slots| =>
      if slots[i].Filled? then slots[i].outcome else Replied(0, "", 0, 0))
  }

  lemma RunCollectsAnswers(states: seq<State>, actions: seq<Action>, answers: Answers)
    requires IsRun(states, actions, answers) && states[|actions|].returned
    ensures Collected(states[|actions|].results) == answers
  {
    EveryRunReturnsAllAnswers(states, actions, answers);
    var got := Collected(states[|actions|].results);
    assert |got| == |answers|;
    forall i | 0 <= i < |answers| ensures got[i] == answers[i] {
      assert states[|actions|].results[i] == Filled(answers[i]);
    }
  }

  /**
   Two checks of the same servers, listed in any order and scheduled in any way, that get the same
   answers come to the same verdict.
   */
  lemma VerdictIsScheduleIndependent(
      states1: seq<State>, actions1: seq<Action>, answers1: Answers,
      states2: seq<State>, actions2: seq<Action>, answers2: Answers, r: int, w: int)
    requires IsRun(states1, actions1, answers1) && states1[|actions1|].returned
    requires IsRun(states2, actions2, answers2) && states2[|actions2|].returned
    requires multiset(answers1) == multiset(answers2)
    ensures IsSpam(Collected(states1[|actions1|].results), r, w) <==>
              IsSpam(Collected(states2[|actions2|].results), r, w)
  {
    RunCollectsAnswers(states1, actions1, answers1);
    RunCollectsAnswers(states2, actions2, answers2);
    OrderDoesNotMatter(answers1, answers2, r, w, 0, 0);
  }
}
