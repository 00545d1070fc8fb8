/**
 The cache of resolved addresses. Its lock is held for each lookup, store and removal, but not
 while the resolver runs, so concurrent callers interleave between those three.
 */
module Resolver {
  import opened Basics

  /** Thirty seconds, in nanoseconds. */
  const ADDR_TTL := 30_000_000_000

  type Key = string
  datatype Address = Address(ip: string, port: int)
  datatype Entry = Entry(addr: Address, exp: int)
  type Cache = map<Key, Entry>

  /** What a lookup at time `now` is served: an entry that has not expired. */
  function Found(cache: Cache, key: Key, now: int): Option<Address> {
    if key in cache && now < cache[key].exp then Some(cache[key].addr) else None
  }

  function Stored(cache: Cache, key: Key, addr: Address, read: int): Cache {
    cache[key := Entry(addr, read + ADDR_TTL)]
  }

  // ---------------------------------------------------------------- the client's methods

  class AddrCache {
    var entries: Cache

    constructor ()
      ensures entries == map[]
    {
      entries := map[];
    }

    /** First locked section of resolve. */
    method Lookup(key: Key, now: int) returns (hit: Option<Address>)
      ensures hit == Found(entries, key, now)
    {
      if key in entries {
        var e := entries[key];
        if now < e.exp {
          return Some(e.addr);
        }
      }
      return None;
    }

    /** Second locked section of resolve; `read` is when the whole call began. */
    method Store(key: Key, addr: Address, read: int)
      modifies this
      ensures entries == Stored(old(entries), key, addr, read)
    {
      entries := entries[key := Entry(addr, read + ADDR_TTL)];
    }

    /** invalidateAddr. */
    method Invalidate(key: Key)
      modifies this
      ensures entries == old(entries) - {key}
    {
      entries := map k | k in entries && k != key :: entries[k];
    }

    /** resolve with nobody else about: `answer` is what the resolver says, None for an error. */
    method Resolve(key: Key, now: int, answer: Option<Address>) returns (addr: Option<Address>)
      modifies this
      ensures var hit := Found(old(entries), key, now);
        && addr == (if hit.Some? then hit else answer)
        && entries == (if hit.None? && answer.Some? then Stored(old(entries), key, answer.value, now) else old(entries))
    {
      addr := Lookup(key, now);
      if addr.Some? {
        return;
      }
      if answer.None? {
        return None;
      }
      Store(key, answer.value, now);
      return answer;
    }
  }

  // ---------------------------------------------------------------- what a lookup sees

  /** What happened to the cache: a store by a call that began at `read`, or a removal. */
  datatype Event = Stores(key: Key, addr: Address, read: int) | Removes(key: Key)

  function Replay(events: seq<Event>): Cache {
    if events == [] then map[]
    else
      var before := Replay(events[..|events| - 1]);
      match events[|events| - 1]
      case Stores(key, addr, read) => Stored(before, key, addr, read)
      case Removes(key) => before - {key}
  }

  /** Event i is the last one about this key. */
  ghost predicate IsLast(events: seq<Event>, i: int, key: Key) {
    && 0 <= i < |events| && events[i].key == key
    && forall j :: i < j < |events| ==> events[j].key != key
  }

  /**
   A lookup at `now` is served an address exactly when the last event about its key was a store of
   that address by a call that began less than thirty seconds before; other keys have no say.
   */
  lemma {:induction false} LookupSeesLastEvent(events: seq<Event>, key: Key, now: int, addr: Address)
    ensures Found(Replay(events), key, now) == Some(addr) <==>
              exists i :: IsLast(events, i, key) && events[i].Stores? && events[i].addr == addr
                       && now - events[i].read < 30_000_000_000
  {
    if events != [] {
      var n := |events| - 1;
      var before := events[..n];
      LookupSeesLastEvent(before, key, now, addr);
      if events[n].key == key {
        assert IsLast(events, n, key);
      } else {
        forall i | 0 <= i < n ensures IsLast(events, i, key) <==> IsLast(before, i, key) {
          if IsLast(before, i, key) {
            assert forall j :: i < j < n ==> events[j] == before[j];
          }
          if IsLast(events, i, key) {
            assert forall j :: i < j < n ==> before[j] == events[j];
          }
        }
        assert forall i :: IsLast(events, i, key) ==> i != n && before[i] == events[i];
      }
    }
  }

  // ---------------------------------------------------------------- concurrent callers

  /** Where one call of resolve is; `read` is the clock it read first. At the end it has an address or an error. */
  datatype Phase =
    | Idle
    | Began(key: Key, read: int)
    | Missed(key: Key, read: int)
    | Calling(key: Key, read: int, called: int)
    | Holding(key: Key, read: int, addr: Address)
    | Ended(key: Key, read: int, result: Option<Address>)

  /** A successful resolver call: asked at `called`. */
  datatype Answer = Answer(key: Key, called: int, addr: Address)

  datatype State = State(clock: int, cache: Cache, callers: map<nat, Phase>, log: seq<Answer>)

  datatype Action =
    | Tick(to: int)
    | Begin(c: nat, k: Key)
    | Look(c: nat)
    | Call(c: nat)
    | Return(c: nat, answer: Option<Address>)
    | Put(c: nat)
    | Drop(k: Key)

  function At(s: State, c: nat): Phase {
    if c in s.callers then s.callers[c] else Idle
  }

  predicate Enabled(s: State, a: Action) {
    match a
    case Tick(to) => s.clock <= to
    case Begin(c, _) => At(s, c).Idle? || At(s, c).Ended?
    case Look(c) => At(s, c).Began?
    case Call(c) => At(s, c).Missed?
    case Return(c, _) => At(s, c).Calling?
    case Put(c) => At(s, c).Holding?
    case Drop(_) => true
  }

  function Step(s: State, a: Action): State
    requires Enabled(s, a)
  {
    match a
    case Tick(to) => s.(clock := to)
    case Begin(c, k) => Move(s, c, Began(k, s.clock))
    case Look(c) =>
      var p := At(s, c);
      var hit := Found(s.cache, p.key, p.read);
      Move(s, c, if hit.Some? then Ended(p.key, p.read, hit) else Missed(p.key, p.read))
    case Call(c) => Move(s, c, Calling(At(s, c).key, At(s, c).read, s.clock))
    case Return(c, None) => Move(s, c, Ended(At(s, c).key, At(s, c).read, None))
    case Return(c, Some(addr)) =>
      var p := At(s, c);
      Move(s, c, Holding(p.key, p.read, addr)).(log := s.log + [Answer(p.key, p.called, addr)])
    case Put(c) =>
      var p := At(s, c);
      Move(s, c, Ended(p.key, p.read, Some(p.addr))).(cache := Stored(s.cache, p.key, p.addr, p.read))
    case Drop(k) => s.(cache := s.cache - {k})
  }

  function Move(s: State, c: nat, p: Phase): State {
    s.(callers := s.callers[c := p])
  }

  ghost predicate Init(s: State) {
    s.cache == map[] && s.callers == map[] && s.log == []
  }

  ghost predicate IsStep(s: State, a: Action, t: State) {
    Enabled(s, a) && t == Step(s, a)
  }

  /** A run that starts anywhere: the states some interleaving of enabled actions goes through. */
  ghost predicate IsRunFrom(s: State, states: seq<State>, actions: seq<Action>) {
    && |states| == |actions| + 1
    && states[0] == s
    && forall i :: 0 <= i < |actions| ==> IsStep(states[i], actions[i], states[i + 1])
  }

  ghost predicate IsRun(states: seq<State>, actions: seq<Action>) {
    |states| > 0 && Init(states[0]) && IsRunFrom(states[0], states, actions)
  }

  // ---------------------------------------------------------------- freshness

  /** Some successful resolver call for `key`, made at `since` or later, answered `addr`. */
  ghost predicate Vouched(log: seq<Answer>, key: Key, addr: Address, since: int) {
    exists i :: 0 <= i < |log| && log[i].key == key && log[i].addr == addr && log[i].called >= since
  }

  lemma StillVouched(log: seq<Answer>, a: Answer, key: Key, addr: Address, since: int)
    requires Vouched(log, key, addr, since)
    ensures Vouched(log + [a], key, addr, since)
  {
    var i :| 0 <= i < |log| && log[i].key == key && log[i].addr == addr && log[i].called >= since;
    assert (log + [a])[i] == log[i];
  }

  lemma VouchedLonger(log: seq<Answer>, key: Key, addr: Address, since: int, earlier: int)
    requires Vouched(log, key, addr, since) && earlier <= since
    ensures Vouched(log, key, addr, earlier)
  {
  }

  ghost predicate CacheVouched(s: State) {
    forall k :: k in s.cache ==> Vouched(s.log, k, s.cache[k].addr, s.cache[k].exp - ADDR_TTL)
  }

  ghost predicate CallerSound(s: State, p: Phase) {
    match p
    case Idle => true
    case Began(_, read) => read <= s.clock
    case Missed(_, read) => read <= s.clock
    case Calling(_, read, called) => read <= called <= s.clock
    case Holding(key, read, addr) => Vouched(s.log, key, addr, read)
    case Ended(key, read, result) => result.Some? ==> Vouched(s.log, key, result.value, read - ADDR_TTL + 1)
  }

  ghost predicate Inv(s: State) {
    && CacheVouched(s)
    && forall c :: c in s.callers ==> CallerSound(s, s.callers[c])
  }

  lemma ReturnKeepsInv(s: State, c: nat, addr: Address)
    requires Inv(s) && At(s, c).Calling?
    ensures Inv(Step(s, Return(c, Some(addr))))
  {
    var p := At(s, c);
    var a := Answer(p.key, p.called, addr);
    var t := Step(s, Return(c, Some(addr)));
    forall k | k in t.cache ensures Vouched(t.log, k, t.cache[k].addr, t.cache[k].exp - ADDR_TTL) {
      StillVouched(s.log, a, k, s.cache[k].addr, s.cache[k].exp - ADDR_TTL);
    }
    forall d | d in t.callers ensures CallerSound(t, t.callers[d]) {
      if d == c {
        assert t.log[|s.log|] == a;
      } else if s.callers[d].Holding? {
        var q := s.callers[d];
        StillVouched(s.log, a, q.key, q.addr, q.read);
      } else if s.callers[d].Ended? && s.callers[d].result.Some? {
        var q := s.callers[d];
        StillVouched(s.log, a, q.key, q.result.value, q.read - ADDR_TTL + 1);
      }
    }
  }

  lemma LookKeepsInv(s: State, c: nat)
    requires Inv(s) && At(s, c).Began?
    ensures Inv(Step(s, Look(c)))
  {
    var p := At(s, c);
    if Found(s.cache, p.key, p.read).Some? {
      var e := s.cache[p.key];
      VouchedLonger(s.log, p.key, e.addr, e.exp - ADDR_TTL, p.read - ADDR_TTL + 1);
    }
  }

  lemma StepInv(s: State, a: Action)
    requires Inv(s) && Enabled(s, a)
    ensures Inv(Step(s, a))
  {
    if a.Return? && a.answer.Some? {
      ReturnKeepsInv(s, a.c, a.answer.value);
    } else if a.Put? {
      var p := At(s, a.c);
      VouchedLonger(s.log, p.key, p.addr, p.read, p.read - ADDR_TTL + 1);
    } else if a.Look? {
      LookKeepsInv(s, a.c);
    }
  }

  lemma {:induction false} RunInv(states: seq<State>, actions: seq<Action>, i: nat)
    requires IsRun(states, actions) && i < |states|
    ensures Inv(states[i])
  {
    if i > 0 {
      RunInv(states, actions, i - 1);
      assert IsStep(states[i - 1], actions[i - 1], states[i]);
      StepInv(states[i - 1], actions[i - 1]);
    }
  }

  /**
   Whatever the callers, the clock and the removals did: the address a call ends with, from the
   cache or not, was the answer of a successful resolver call for the same host and port, asked
   less than thirty seconds before that call began. A failed call is never served: it is not logged.
   */
  lemma ServedIsFresh(states: seq<State>, actions: seq<Action>, i: nat, c: nat, key: Key, read: int, addr: Address)
    requires IsRun(states, actions) && i < |states|
    requires At(states[i], c) == Ended(key, read, Some(addr))
    ensures var log := states[i].log;
      exists j :: 0 <= j < |log| && log[j].key == key && log[j].addr == addr
               && read - log[j].called < 30_000_000_000
  {
    RunInv(states, actions, i);
    var log := states[i].log;
    var j :| 0 <= j < |log| && log[j].key == key && log[j].addr == addr && log[j].called >= read - ADDR_TTL + 1;
    assert read - log[j].called < 30_000_000_000;
  }

  /** A call ends at its lookup, with the cached address, exactly when that has not expired; else it goes on to ask. */
  lemma LookEndsIffFresh(s: State, c: nat)
    requires At(s, c).Began?
    ensures var p, t := At(s, c), Step(s, Look(c));
      var live := p.key in s.cache && p.read < s.cache[p.key].exp;
      && (live <==> At(t, c).Ended?)
      && (live ==> At(t, c) == Ended(p.key, p.read, Some(s.cache[p.key].addr)) && !Enabled(t, Call(c)))
      && (!live ==> Enabled(t, Call(c)) && At(Step(t, Call(c)), c) == Calling(p.key, p.read, t.clock))
      && t.cache == s.cache && t.log == s.log
  {
  }

  // ---------------------------------------------------------------- what is cached when

  /** Step i stores an entry for this key. */
  ghost predicate StoresAt(states: seq<State>, actions: seq<Action>, i: nat, key: Key)
    requires i < |actions| < |states|
  {
    actions[i].Put? && At(states[i], actions[i].c).Holding? && At(states[i], actions[i].c).key == key
  }

  /** Step i is the last store for this key before step n, and no removal comes after it. */
  ghost predicate LastStore(states: seq<State>, actions: seq<Action>, i: nat, n: nat, key: Key)
    requires n <= |actions| < |states|
  {
    && i < n && StoresAt(states, actions, i, key)
    && forall l :: i < l < n ==> actions[l] != Drop(key)
  }

  /** An address is cached exactly when some caller stored it since the last removal, expired or not. */
  lemma {:induction false} CachedIffStoredSince(states: seq<State>, actions: seq<Action>, n: nat, key: Key)
    requires IsRun(states, actions) && n <= |actions|
    ensures key in states[n].cache <==> exists i :: LastStore(states, actions, i, n, key)
  {
    if n > 0 {
      var m := n - 1;
      CachedIffStoredSince(states, actions, m, key);
      assert IsStep(states[m], actions[m], states[n]);
      if StoresAt(states, actions, m, key) {
        assert LastStore(states, actions, m, n, key);
      } else if actions[m] != Drop(key) {
        if key in states[m].cache {
          var i :| LastStore(states, actions, i, m, key);
          assert LastStore(states, actions, i, n, key);
        }
        if i :| LastStore(states, actions, i, n, key) {
          assert LastStore(states, actions, i, m, key);
        }
      }
    }
  }

  // ---------------------------------------------------------------- what a removal achieves

  /** A call that will store an answer for this key without asking the resolver again. */
  predicate IsUnderWay(p: Phase, key: Key) {
    (p.Calling? || p.Holding?) && p.key == key
  }

  ghost predicate SomeUnderWay(s: State, key: Key) {
    exists c :: IsUnderWay(At(s, c), key)
  }

  /** Step i asks the resolver about this key. */
  ghost predicate AsksAt(states: seq<State>, actions: seq<Action>, i: nat, key: Key)
    requires i < |actions| < |states|
  {
    actions[i].Call? && At(states[i], actions[i].c).Missed? && At(states[i], actions[i].c).key == key
  }

  ghost predicate AsksAnew(states: seq<State>, actions: seq<Action>, key: Key)
    requires |actions| < |states|
  {
    exists i :: 0 <= i < |actions| && AsksAt(states, actions, i, key)
  }

  /** From this state on, the key is cached again only after the resolver has been asked anew. */
  ghost predicate CachedOnlyAnew(s: State, key: Key) {
    forall states: seq<State>, actions: seq<Action> | IsRunFrom(s, states, actions) ::
      key in states[|actions|].cache ==> AsksAnew(states, actions, key)
  }

  /** A key that is not cached and has no call under way stays so until the resolver is asked. */
  lemma {:induction false} QuietUntilAsked(s: State, states: seq<State>, actions: seq<Action>, key: Key, n: nat)
    requires IsRunFrom(s, states, actions) && n <= |actions|
    requires key !in s.cache && !SomeUnderWay(s, key) && !AsksAnew(states, actions, key)
    ensures key !in states[n].cache && !SomeUnderWay(states[n], key)
  {
    if n > 0 {
      var m := n - 1;
      QuietUntilAsked(s, states, actions, key, m);
      assert IsStep(states[m], actions[m], states[n]) && !AsksAt(states, actions, m, key);
      QuietStep(states[m], actions[m], key);
    }
  }

  lemma QuietStep(s: State, a: Action, key: Key)
    requires Enabled(s, a) && key !in s.cache && !SomeUnderWay(s, key)
    requires a.Call? ==> At(s, a.c).key != key
    ensures key !in Step(s, a).cache && !SomeUnderWay(Step(s, a), key)
  {
    var t := Step(s, a);
    forall c ensures !IsUnderWay(At(t, c), key) {
      assert !IsUnderWay(At(s, c), key);
    }
    if a.Put? {
      assert !IsUnderWay(At(s, a.c), key);
    }
  }

  /** A call under way can store its answer at once. */
  lemma UnderWayStores(s: State, c: nat, key: Key) returns (states: seq<State>, actions: seq<Action>)
    requires IsUnderWay(At(s, c), key)
    ensures IsRunFrom(s, states, actions)
    ensures key in states[|actions|].cache && !AsksAnew(states, actions, key)
  {
    if At(s, c).Holding? {
      actions := [Put(c)];
      states := [s, Step(s, actions[0])];
    } else {
      var addr := Address("", 0);
      actions := [Return(c, Some(addr)), Put(c)];
      var t := Step(s, actions[0]);
      states := [s, t, Step(t, actions[1])];
      forall i | 0 <= i < 2 ensures IsStep(states[i], actions[i], states[i + 1]) {
        if i == 0 {} else {}
      }
    }
  }

  /**
   What invalidateAddr achieves, for every state it is called in: the key is cached again only
   after a new resolver call, whatever the other callers do, if and only if no call for the key is
   under way at the moment of the removal.
   */
  lemma RemovalHoldsIffNoneUnderWay(s: State, key: Key)
    ensures CachedOnlyAnew(Step(s, Drop(key)), key) <==> !SomeUnderWay(s, key)
  {
    var t := Step(s, Drop(key));
    assert forall c :: At(t, c) == At(s, c);
    if SomeUnderWay(s, key) {
      var c :| IsUnderWay(At(s, c), key);
      var states, actions := UnderWayStores(t, c, key);
      assert !CachedOnlyAnew(t, key);
    } else {
      forall states: seq<State>, actions: seq<Action> | IsRunFrom(t, states, actions) && key in states[|actions|].cache
        ensures AsksAnew(states, actions, key)
      {
        if !AsksAnew(states, actions, key) {
          QuietUntilAsked(t, states, actions, key, |actions|);
        }
      }
    }
  }

  /** The other case does arise: an answer asked for before a removal is stored after it and served. */
  lemma RemovalIsUndoneByCallUnderWay(key: Key, addr: Address)
    returns (states: seq<State>, actions: seq<Action>)
    ensures IsRun(states, actions) && |actions| == 6
    ensures actions[3] == Drop(key) && key !in states[4].cache
    ensures states[6].log == [Answer(key, states[2].clock, addr)]
    ensures Found(states[6].cache, key, states[6].clock) == Some(addr)
  {
    actions := [Begin(0, key), Look(0), Call(0), Drop(key), Return(0, Some(addr)), Put(0)];
    var s0 := State(0, map[], map[], []);
    var s1 := Step(s0, actions[0]);
    var s2 := Step(s1, actions[1]);
    var s3 := Step(s2, actions[2]);
    var s4 := Step(s3, actions[3]);
    var s5 := Step(s4, actions[4]);
    states := [s0, s1, s2, s3, s4, s5, Step(s5, actions[5])];
    forall i | 0 <= i < 6 ensures IsStep(states[i], actions[i], states[i + 1]) {
      if i < 2 {} else if i < 4 {} else {}
    }
  }
}
