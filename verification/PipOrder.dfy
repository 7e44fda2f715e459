/**
 Whether the values that callers get can go back in time, and how old they can be.
 */
module PipOrder {
  import opened Wrappers
  import opened InsertionMaps
  import opened TtlLruCaches
  import opened PipClients
  import opened PipReads

  predicate Served(s: State, key: string, c: nat) {
    c < |s.calls| && s.calls[c].key == key && s.calls[c].answer.Got?
  }

  function ReadAt(s: State, c: nat): nat
    requires c < |s.calls| && s.calls[c].answer.Got?
  {
    s.calls[c].answer.value.readAt
  }

  /** Of two calls for the key answered at different times, the later got a value read no earlier. */
  ghost predicate InTimeOrder(s: State, key: string) {
    forall c: nat, d: nat :: Served(s, key, c) && Served(s, key, d) && s.calls[c].answer.at < s.calls[d].answer.at ==>
      ReadAt(s, c) <= ReadAt(s, d)
  }

  /** A call for the key begun when another had its answer got a value read no earlier. */
  ghost predicate InCallOrder(trace: seq<State>, key: string)
    requires |trace| > 0
  {
    var last := trace[|trace| - 1];
    forall i: nat, c: nat, d: nat :: i < |trace| && Served(trace[i], key, c) && |trace[i].calls| <= d && Served(last, key, d) ==>
      ReadAt(trace[i], c) <= ReadAt(last, d)
  }

  /** Every forced call is for one of these keys. */
  ghost predicate ForcesOnly(events: seq<Event>, keys: set<string>) {
    forall i :: 0 <= i < |events| && events[i].Resolve? && events[i].forceFresh ==> events[i].key in keys
  }

  // ----- Without forced calls -------------------------------------------------------------------

  /** The fetch is over with this value. */
  predicate SettledWith(s: State, key: string, g: nat, v: Stamped) {
    Fulfilled(s, key, g) && s.fetches[g].phase.outcome == Some(v)
  }

  /** From call n on, the calls for the key wait for, or got the value of, fetch g or a later one. */
  ghost predicate FromFetch(s: State, key: string, n: nat, g: nat) {
    forall d :: n <= d < |s.calls| && s.calls[d].key == key ==>
      match s.calls[d].answer
      case Waiting(f) => g <= f
      case Got(v, _) => g <= v.fetch
      case Failed => true
  }

  /** An unforced call hits the latest value or waits for the latest fetch. */
  lemma ResolveFromFetch(cfg: Config, h: seq<State>, s: State, key: string, k: string, forceFresh: bool, n: nat, g: nat)
    requires Inv(cfg, h, s) && Ordered(s, key) && !(k == key && forceFresh)
    requires Fulfilled(s, key, g) && FromFetch(s, key, n, g)
    ensures FromFetch(ResolveStep(s, k, forceFresh), key, n, g)
  {
    assert PendingOk(s, key);
    if key in s.inFlight {
      assert InTurn(s, key, s.inFlight[key], g);
    }
  }

  lemma ResumeFromFetch(cfg: Config, h: seq<State>, s: State, key: string, c: nat, n: nat, g: nat)
    requires Inv(cfg, h, s) && Due(s, c) && FromFetch(s, key, n, g)
    ensures FromFetch(ResumeStep(s, c), key, n, g)
  {
    assert FetchOk(cfg, h, s, s.calls[c].answer.fetch);
  }

  lemma StepFromFetch(cfg: Config, h: seq<State>, s: State, e: Event, key: string, n: nat, g: nat)
    requires |h| > 0 && h[|h| - 1] == s && Enabled(cfg, h, e) && Inv(cfg, h, s) && Ordered(s, key) && e != Resolve(key, true)
    requires Fulfilled(s, key, g) && FromFetch(s, key, n, g)
    ensures FromFetch(Next(cfg, h, e), key, n, g)
  {
    if e.Resolve? {
      ResolveFromFetch(cfg, h, s, key, e.key, e.forceFresh, n, g);
    } else if e.Resume? {
      ResumeFromFetch(cfg, h, s, key, e.call, n, g);
    } else {
      assert Next(cfg, h, e).calls == s.calls;
    }
  }

  lemma SettledStays(cfg: Config, h: seq<State>, e: Event, key: string, g: nat, v: Stamped)
    requires |h| > 0 && Enabled(cfg, h, e) && SettledWith(h[|h| - 1], key, g, v)
    ensures SettledWith(Next(cfg, h, e), key, g, v)
  {
  }

  lemma {:induction false} LaterCallsFromFetch(cfg: Config, trace: seq<State>, events: seq<Event>, key: string, i: nat, k: nat, g: nat, v: Stamped)
    requires IsRun(cfg, trace, events) && NeverForces(events, key) && i <= k < |trace| && SettledWith(trace[i], key, g, v)
    ensures SettledWith(trace[k], key, g, v) && FromFetch(trace[k], key, |trace[i].calls|, g)
    decreases k
  {
    if i < k {
      LaterCallsFromFetch(cfg, trace, events, key, i, k - 1, g, v);
      RunOrdered(cfg, trace, events, key, k - 1);
      RunKeeps(cfg, trace, events, k - 1);
      RunStep(cfg, trace, events, k - 1);
      SettledStays(cfg, trace[..k - 1 + 1], events[k - 1], key, g, v);
      StepFromFetch(cfg, trace[..k - 1 + 1], trace[k - 1], events[k - 1], key, |trace[i].calls|, g);
    }
  }

  /** In a run that never forces a key, a call begun when another had its answer got a value read no earlier. */
  lemma LaterCallsReadNoEarlier(cfg: Config, trace: seq<State>, events: seq<Event>, key: string, i: nat, k: nat, c: nat, d: nat)
    requires IsRun(cfg, trace, events) && NeverForces(events, key) && i <= k < |trace|
    requires Served(trace[i], key, c) && |trace[i].calls| <= d && Served(trace[k], key, d)
    ensures ReadAt(trace[i], c) <= ReadAt(trace[k], d)
  {
    var v := trace[i].calls[c].answer.value;
    RunOrdered(cfg, trace, events, key, i);
    assert AnsweredInTurn(trace[i], key, c);
    LaterCallsFromFetch(cfg, trace, events, key, i, k, v.fetch, v);
    RunOrdered(cfg, trace, events, key, k);
    assert AnsweredInTurn(trace[k], key, d) && InTurn(trace[k], key, v.fetch, trace[k].calls[d].answer.value.fetch);
  }

  // ----- Without a cache ------------------------------------------------------------------------

  ghost predicate Expired(s: State, key: string) {
    Get(s.cache, key).Some? ==> Get(s.cache, key).value.expiresAt <= s.now
  }

  /** With a TTL of zero a call gets the value of a cleaned-up fetch, and a fetch pending began after every such read. */
  ghost predicate Uncached(s: State, key: string) {
    && Expired(s, key)
    && (forall g: nat {:trigger BeforePending(s, key, g)} :: BeforePending(s, key, g))
    && (forall c: nat {:trigger Served(s, key, c)} :: Served(s, key, c) ==> FromCleaned(s, key, s.calls[c].answer.value))
  }

  predicate FromCleaned(s: State, key: string, v: Stamped) {
    OfKey(s, key, v.fetch) && s.fetches[v.fetch].phase.Cleaned? && s.fetches[v.fetch].phase.outcome == Some(v)
  }

  predicate BeforePending(s: State, key: string, g: nat) {
    OfKey(s, key, g) && s.fetches[g].phase.Cleaned? && s.fetches[g].phase.outcome.Some? && key in s.inFlight
    && s.inFlight[key] < |s.fetches| ==>
      s.fetches[g].phase.outcome.value.readAt <= s.fetches[s.inFlight[key]].startedAt
  }

  /** No call and no pending entry changes, and no fetch but in a phase before its clean-up. */
  ghost predicate SameFlight(s: State, s': State) {
    && s'.calls == s.calls && s'.inFlight == s.inFlight && |s'.fetches| == |s.fetches|
    && forall f :: 0 <= f < |s.fetches| ==>
         && s'.fetches[f].key == s.fetches[f].key && s'.fetches[f].startedAt == s.fetches[f].startedAt
         && (s.fetches[f].phase.Cleaned? || s'.fetches[f].phase.Cleaned? ==> s'.fetches[f].phase == s.fetches[f].phase)
  }

  lemma FrameUncached(s: State, s': State, key: string)
    requires Uncached(s, key) && SameFlight(s, s') && Expired(s', key)
    ensures Uncached(s', key)
  {
    forall g: nat
      ensures BeforePending(s', key, g)
    {
      assert BeforePending(s, key, g);
    }
    forall c: nat | Served(s', key, c)
      ensures FromCleaned(s', key, s'.calls[c].answer.value)
    {
      assert Served(s, key, c);
    }
  }

  lemma ResolveUncached(cfg: Config, h: seq<State>, s: State, key: string, k: string, forceFresh: bool)
    requires Inv(cfg, h, s) && s.moment == |h| - 1 && Uncached(s, key)
    ensures Uncached(ResolveStep(s, k, forceFresh), key)
  {
    var s' := ResolveStep(s, k, forceFresh);
    forall g: nat
      ensures BeforePending(s', key, g)
    {
      assert BeforePending(s, key, g) && PendingOk(s, key);
      assert g < |s.fetches| ==> FetchOk(cfg, h, s, g);
    }
    forall c: nat | Served(s', key, c)
      ensures FromCleaned(s', key, s'.calls[c].answer.value)
    {
      assert c < |s.calls| ==> Served(s, key, c);
    }
    GetAfterApply(s.cache, cfg.maxEntries, cfg.ttl, GetOp(k, s.now), key);
  }

  lemma ResumeUncached(cfg: Config, h: seq<State>, s: State, key: string, c: nat)
    requires Inv(cfg, h, s) && Enabled(cfg, h, Resume(c)) && |h| > 0 && h[|h| - 1] == s && Uncached(s, key)
    ensures Uncached(ResumeStep(s, c), key)
  {
    var s' := ResumeStep(s, c);
    assert CallOk(cfg, h, s, c) && FetchOk(cfg, h, s, s.calls[c].answer.fetch);
    forall g: nat
      ensures BeforePending(s', key, g)
    {
      assert BeforePending(s, key, g);
    }
    forall d: nat | Served(s', key, d)
      ensures FromCleaned(s', key, s'.calls[d].answer.value)
    {
      assert d != c ==> Served(s, key, d);
    }
  }

  lemma CacheStaysExpired(cfg: Config, h: seq<State>, e: Event, key: string)
    requires |h| > 0 && Enabled(cfg, h, e) && cfg.ttl == 0 && Expired(h[|h| - 1], key)
    ensures Expired(Next(cfg, h, e), key)
  {
    var s := h[|h| - 1];
    match e
    case Resolve(k, forceFresh) => GetAfterApply(s.cache, cfg.maxEntries, cfg.ttl, GetOp(k, s.now), key);
    case Complete(f) => GetAfterApply(s.cache, cfg.maxEntries, cfg.ttl, SetOp(s.fetches[f].key, s.fetches[f].phase.value, s.now), key);
    case Invalidate(k) => DeleteGet(s.cache, k, key);
    case _ =>
  }

  lemma StepUncached(cfg: Config, h: seq<State>, s: State, e: Event, key: string)
    requires |h| > 0 && h[|h| - 1] == s && s.moment == |h| - 1 && Enabled(cfg, h, e) && Inv(cfg, h, s)
    requires cfg.ttl == 0 && Uncached(s, key)
    ensures Uncached(Next(cfg, h, e), key)
  {
    CacheStaysExpired(cfg, h, e, key);
    if e.Resolve? {
      ResolveUncached(cfg, h, s, key, e.key, e.forceFresh);
      FrameUncached(Body(cfg, h, e), Next(cfg, h, e), key);
    } else if e.Resume? {
      ResumeUncached(cfg, h, s, key, e.call);
      FrameUncached(Body(cfg, h, e), Next(cfg, h, e), key);
    } else {
      FrameUncached(s, Next(cfg, h, e), key);
    }
  }

  /** From call n on, the calls for the key wait for fetches begun, or got values read, no earlier than r. */
  ghost predicate FromMoment(s: State, key: string, n: nat, r: nat) {
    forall d :: n <= d < |s.calls| && s.calls[d].key == key ==>
      match s.calls[d].answer
      case Waiting(f) => f < |s.fetches| && r <= s.fetches[f].startedAt
      case Got(v, _) => r <= v.readAt
      case Failed => true
  }

  lemma ResolveFromMoment(s: State, key: string, k: string, forceFresh: bool, n: nat, v: Stamped)
    requires Uncached(s, key) && PendingOk(s, key) && FromCleaned(s, key, v) && v.readAt <= s.moment
    requires FromMoment(s, key, n, v.readAt)
    ensures FromMoment(ResolveStep(s, k, forceFresh), key, n, v.readAt)
  {
    assert BeforePending(s, key, v.fetch);
  }

  lemma ResumeFromMoment(cfg: Config, h: seq<State>, s: State, key: string, c: nat, n: nat, r: nat)
    requires Inv(cfg, h, s) && Due(s, c) && FromMoment(s, key, n, r)
    ensures FromMoment(ResumeStep(s, c), key, n, r)
  {
    assert FetchOk(cfg, h, s, s.calls[c].answer.fetch);
  }

  lemma StepFromMoment(cfg: Config, h: seq<State>, s: State, e: Event, key: string, n: nat, v: Stamped)
    requires |h| > 0 && h[|h| - 1] == s && s.moment == |h| - 1 && Enabled(cfg, h, e) && Inv(cfg, h, s)
    requires Uncached(s, key) && FromCleaned(s, key, v) && FromMoment(s, key, n, v.readAt)
    ensures FromMoment(Next(cfg, h, e), key, n, v.readAt)
  {
    assert FetchOk(cfg, h, s, v.fetch) && PendingOk(s, key);
    if e.Resolve? {
      ResolveFromMoment(s, key, e.key, e.forceFresh, n, v);
      assert SameFlight(Body(cfg, h, e), Next(cfg, h, e));
    } else if e.Resume? {
      ResumeFromMoment(cfg, h, s, key, e.call, n, v.readAt);
      assert SameFlight(Body(cfg, h, e), Next(cfg, h, e));
    } else {
      assert SameFlight(s, Next(cfg, h, e));
    }
  }

  lemma CleanedStays(cfg: Config, h: seq<State>, e: Event, key: string, v: Stamped)
    requires |h| > 0 && Enabled(cfg, h, e) && FromCleaned(h[|h| - 1], key, v)
    ensures FromCleaned(Next(cfg, h, e), key, v)
  {
  }

  lemma {:induction false} RunUncached(cfg: Config, trace: seq<State>, events: seq<Event>, key: string, k: nat)
    requires IsRun(cfg, trace, events) && cfg.ttl == 0 && k < |trace|
    ensures Uncached(trace[k], key)
  {
    if k == 0 {
      KeysOfEmpty<string, Entry<Stamped>>();
    } else {
      RunUncached(cfg, trace, events, key, k - 1);
      RunKeeps(cfg, trace, events, k - 1);
      RunStep(cfg, trace, events, k - 1);
      assert trace[..k - 1 + 1][k - 1].moment == k - 1;
      StepUncached(cfg, trace[..k - 1 + 1], trace[k - 1], events[k - 1], key);
    }
  }

  lemma {:induction false} LaterCallsFromMoment(cfg: Config, trace: seq<State>, events: seq<Event>, key: string, i: nat, k: nat, v: Stamped)
    requires IsRun(cfg, trace, events) && cfg.ttl == 0 && i <= k < |trace| && FromCleaned(trace[i], key, v)
    ensures FromCleaned(trace[k], key, v) && FromMoment(trace[k], key, |trace[i].calls|, v.readAt)
    decreases k
  {
    if i < k {
      LaterCallsFromMoment(cfg, trace, events, key, i, k - 1, v);
      RunUncached(cfg, trace, events, key, k - 1);
      RunKeeps(cfg, trace, events, k - 1);
      RunStep(cfg, trace, events, k - 1);
      assert trace[..k - 1 + 1][k - 1].moment == k - 1;
      CleanedStays(cfg, trace[..k - 1 + 1], events[k - 1], key, v);
      StepFromMoment(cfg, trace[..k - 1 + 1], trace[k - 1], events[k - 1], key, |trace[i].calls|, v);
    }
  }

  // ----- Without delay --------------------------------------------------------------------------

  /** With no time to answer and at most a millisecond to serve, a value is read at the time it is returned. */
  lemma PromptReadsInOrder(cfg: Config, trace: seq<State>, events: seq<Event>, key: string, k: nat)
    requires IsRun(cfg, trace, events) && k < |trace| && cfg.timeout == 0 && cfg.ttl <= 1
    ensures InTimeOrder(trace[k], key)
  {
    var h, s := trace[..k + 1], trace[k];
    RunKeeps(cfg, trace, events, k);
    forall c: nat | Served(s, key, c)
      ensures ReadAt(s, c) < |h| && ClockAt(h, ReadAt(s, c)) == s.calls[c].answer.at
    {
      assert CallOk(cfg, h, s, c);
    }
    assert ClockOk(h);
  }

  // ----- Forced calls ---------------------------------------------------------------------------

  /** An unforced fetch has read, and then the owner changes. */
  lemma ReadThenChanged(cfg: Config, start: State, owner: string -> Principal, key: string) returns (trace: seq<State>, events: seq<Event>)
    requires Initial(start)
    ensures IsRun(cfg, trace, events) && trace[0] == start && |trace| == 4
    ensures events == [Resolve(key, false), OwnerReads(0), OwnerChanges(owner)]
    ensures trace[3].owner == owner && trace[3].now == start.now
    ensures trace[3].fetches == [Fetch(key, false, 0, 0, Answered(Stamped(start.owner(key), 0, 1)))]
    ensures trace[3].calls == [Call(key, false, 0, Waiting(0))]
  {
    KeysOfEmpty<string, Entry<Stamped>>();
    trace, events := Extend(cfg, [start], [], Resolve(key, false));
    trace, events := Extend(cfg, trace, events, OwnerReads(0));
    trace, events := Extend(cfg, trace, events, OwnerChanges(owner));
  }

  /**
   After that a forced fetch for the same key begins, reads the change, arrives and answers its call,
   while the unforced one is still on its way.
   */
  lemma ForcedOvertakes(cfg: Config, start: State, owner: string -> Principal, key: string) returns (trace: seq<State>, events: seq<Event>)
    requires Initial(start)
    ensures IsRun(cfg, trace, events) && trace[0] == start && |trace| == 8
    ensures events == [Resolve(key, false), OwnerReads(0), OwnerChanges(owner), Resolve(key, true), OwnerReads(1), Complete(1), Resume(1)]
    ensures Overtaken(trace[7], key, Stamped(start.owner(key), 0, 1), Stamped(owner(key), 1, 4)) && trace[7].now == start.now
  {
    trace, events := ReadThenChanged(cfg, start, owner, key);
    trace, events := ForcedAnswers(cfg, trace, events, start, owner, key);
  }

  ghost predicate Overtaken(s: State, key: string, v: Stamped, w: Stamped) {
    && |s.fetches| == 2 && s.fetches[0] == Fetch(key, false, 0, 0, Answered(v)) && s.fetches[1].phase.Cleaned?
    && s.calls == [Call(key, false, 0, Waiting(0)), Call(key, true, 3, Got(w, s.now))]
  }

  lemma ForcedAnswers(cfg: Config, trace0: seq<State>, events0: seq<Event>, start: State, owner: string -> Principal, key: string)
    returns (trace: seq<State>, events: seq<Event>)
    requires IsRun(cfg, trace0, events0) && |trace0| == 4 && trace0[0] == start && trace0[3].owner == owner && trace0[3].now == start.now
    requires trace0[3].fetches == [Fetch(key, false, 0, 0, Answered(Stamped(start.owner(key), 0, 1)))]
    requires trace0[3].calls == [Call(key, false, 0, Waiting(0))]
    ensures IsRun(cfg, trace, events) && trace[0] == start && |trace| == 8
    ensures events == events0 + [Resolve(key, true), OwnerReads(1), Complete(1), Resume(1)]
    ensures Overtaken(trace[7], key, Stamped(start.owner(key), 0, 1), Stamped(owner(key), 1, 4)) && trace[7].now == start.now
  {
    RunKeeps(cfg, trace0, events0, 3);
    assert trace0[..4][3].moment == 3;
    trace, events := Extend(cfg, trace0, events0, Resolve(key, true));
    assert trace[4].fetches[1] == Fetch(key, true, 1, 3, Requested);
    trace, events := Extend(cfg, trace, events, OwnerReads(1));
    assert trace[5].fetches[1] == Fetch(key, true, 1, 3, Answered(Stamped(owner(key), 1, 4)));
    assert ClockAt(trace, 3) == start.now;
    trace, events := Extend(cfg, trace, events, Complete(1));
    assert trace[6].fetches[1].phase == Settled(Some(Stamped(owner(key), 1, 4)), start.now);
    assert trace[6].calls == [Call(key, false, 0, Waiting(0)), Call(key, true, 3, Waiting(1))];
    trace, events := Extend(cfg, trace, events, Resume(1));
  }

  /**
   For every key, a forced call gets the owner's new value, and a call begun after that, however late
   within the TTL, gets the old one: the fetch that the forced one overtook has filled the cache last.
   */
  lemma ForcedReadsGoBack(cfg: Config, start: State, owner: string -> Principal, key: string, delay: nat)
    returns (trace: seq<State>, events: seq<Event>)
    requires Initial(start) && delay < cfg.ttl
    ensures IsRun(cfg, trace, events) && trace[0] == start && |trace| == 12
    ensures events == [Resolve(key, false), OwnerReads(0), OwnerChanges(owner), Resolve(key, true), OwnerReads(1), Complete(1),
                       Resume(1), Complete(0), Resume(0), Tick(delay), Resolve(key, false)]
    ensures |trace[7].calls| == 2 && Served(trace[7], key, 1) && trace[7].calls[1].forced
    ensures trace[7].calls[1].answer == Got(Stamped(owner(key), 1, 4), start.now)
    ensures |trace[11].calls| == 3 && Served(trace[11], key, 2) && trace[11].calls[1] == trace[7].calls[1]
    ensures trace[11].calls[2].answer == Got(Stamped(start.owner(key), 0, 1), start.now + delay)
  {
    var trace0, events0 := ForcedOvertakes(cfg, start, owner, key);
    assert ClockAt(trace0, 0) == start.now && Unjoined(trace0[7], key, 0);
    trace, events := RefillServes(cfg, trace0, events0, key, 0, delay);
    assert trace[7] == trace0[7];
  }

  /** Whatever the TTL, a call that the overtaken fetch has kept waiting gets the old value after the forced one got the new. */
  lemma ForcedLeavesWaiterBehind(cfg: Config, start: State, owner: string -> Principal, key: string)
    returns (trace: seq<State>, events: seq<Event>)
    requires Initial(start) && cfg.timeout >= 1
    ensures IsRun(cfg, trace, events) && trace[0] == start && |trace| == 11
    ensures events == [Resolve(key, false), OwnerReads(0), OwnerChanges(owner), Resolve(key, true), OwnerReads(1), Complete(1),
                       Resume(1), Tick(1), Complete(0), Resume(0)]
    ensures trace[10].calls == [Call(key, false, 0, Got(Stamped(start.owner(key), 0, 1), start.now + 1)),
                                Call(key, true, 3, Got(Stamped(owner(key), 1, 4), start.now))]
  {
    trace, events := ForcedOvertakes(cfg, start, owner, key);
    trace, events := Extend(cfg, trace, events, Tick(1));
    assert ClockAt(trace, 0) == start.now && trace[8].now == start.now + 1;
    trace, events := Extend(cfg, trace, events, Complete(0));
    assert trace[9].fetches[0].phase == Settled(Some(Stamped(start.owner(key), 0, 1)), start.now + 1);
    trace, events := Extend(cfg, trace, events, Resume(0));
  }

  // ----- Exactly when ---------------------------------------------------------------------------

  function Start(): State {
    State(0, 0, _ => Principal("", "", []), [], map[], [], [])
  }

  /**
   In all runs that force calls for `keys` alone, no call for `key` gets a value read before one that
   another call already had when it began, if and only if `key` is not among them or nothing is cached.
   */
  lemma CallOrderIff(cfg: Config, keys: set<string>, key: string)
    ensures (forall trace, events :: IsRun(cfg, trace, events) && ForcesOnly(events, keys) ==> InCallOrder(trace, key))
            <==> key !in keys || cfg.ttl == 0
  {
    if key !in keys || cfg.ttl == 0 {
      forall trace, events | IsRun(cfg, trace, events) && ForcesOnly(events, keys)
        ensures InCallOrder(trace, key)
      {
        RunInCallOrder(cfg, trace, events, keys, key);
      }
    } else {
      var trace, events := ForcedReadsGoBack(cfg, Start(), Start().owner, key, 0);
      assert ForcesOnly(events, keys);
      assert ReadAt(trace[11], 2) < ReadAt(trace[7], 1);
      assert !InCallOrder(trace, key);
    }
  }

  lemma RunInCallOrder(cfg: Config, trace: seq<State>, events: seq<Event>, keys: set<string>, key: string)
    requires IsRun(cfg, trace, events) && ForcesOnly(events, keys) && (key !in keys || cfg.ttl == 0)
    ensures InCallOrder(trace, key)
  {
    var n := |trace| - 1;
    forall i: nat, c: nat, d: nat | i < |trace| && Served(trace[i], key, c) && |trace[i].calls| <= d && Served(trace[n], key, d)
      ensures ReadAt(trace[i], c) <= ReadAt(trace[n], d)
    {
      if key !in keys {
        LaterCallsReadNoEarlier(cfg, trace, events, key, i, n, c, d);
      } else {
        RunUncached(cfg, trace, events, key, i);
        LaterCallsFromMoment(cfg, trace, events, key, i, n, trace[i].calls[c].answer.value);
      }
    }
  }

  /**
   In the same runs, of two calls for `key` answered at different times the later never gets a value read
   earlier, if and only if `key` is not among `keys`, or every value is returned at the time it is read.
   */
  lemma TimeOrderIff(cfg: Config, keys: set<string>, key: string)
    ensures (forall trace, events :: IsRun(cfg, trace, events) && ForcesOnly(events, keys) ==> InTimeOrder(trace[|trace| - 1], key))
            <==> key !in keys || (cfg.timeout == 0 && cfg.ttl <= 1)
  {
    if key !in keys || (cfg.timeout == 0 && cfg.ttl <= 1) {
      forall trace, events | IsRun(cfg, trace, events) && ForcesOnly(events, keys)
        ensures InTimeOrder(trace[|trace| - 1], key)
      {
        RunInTimeOrder(cfg, trace, events, keys, key);
      }
    } else if cfg.timeout >= 1 {
      var trace, events := ForcedLeavesWaiterBehind(cfg, Start(), Start().owner, key);
      assert ForcesOnly(events, keys);
      assert Served(trace[10], key, 0) && Served(trace[10], key, 1) && ReadAt(trace[10], 0) < ReadAt(trace[10], 1);
      assert !InTimeOrder(trace[10], key);
    } else {
      var trace, events := ForcedReadsGoBack(cfg, Start(), Start().owner, key, 1);
      assert ForcesOnly(events, keys);
      assert Served(trace[11], key, 1) && Served(trace[11], key, 2) && ReadAt(trace[11], 2) < ReadAt(trace[11], 1);
      assert !InTimeOrder(trace[11], key);
    }
  }

  lemma RunInTimeOrder(cfg: Config, trace: seq<State>, events: seq<Event>, keys: set<string>, key: string)
    requires IsRun(cfg, trace, events) && ForcesOnly(events, keys) && (key !in keys || (cfg.timeout == 0 && cfg.ttl <= 1))
    ensures InTimeOrder(trace[|trace| - 1], key)
  {
    var n := |trace| - 1;
    if key !in keys {
      forall c: nat, d: nat | Served(trace[n], key, c) && Served(trace[n], key, d) && trace[n].calls[c].answer.at < trace[n].calls[d].answer.at
        ensures ReadAt(trace[n], c) <= ReadAt(trace[n], d)
      {
        ReadsNeverGoBack(cfg, trace, events, key, n, c, d);
      }
    } else {
      PromptReadsInOrder(cfg, trace, events, key, n);
    }
  }

  // ----- How old a value can be -----------------------------------------------------------------

  /** The time to answer, and the time to serve but for its last millisecond. */
  function MaxAge(cfg: Config): nat {
    cfg.timeout + if cfg.ttl >= 1 then cfg.ttl - 1 else 0
  }

  /** No call got a value read more than `bound` milliseconds before. */
  ghost predicate NoneOlder(trace: seq<State>, bound: int)
    requires |trace| > 0
  {
    var last := trace[|trace| - 1];
    forall c: nat, key: string :: Served(last, key, c) ==>
      ReadAt(last, c) < |trace| && last.calls[c].answer.at - trace[ReadAt(last, c)].now <= bound
  }

  /**
   For every key, a call that gets a value as old as can be. The owner changed right after the value was
   read, so the owner has not held it for just as long.
   */
  lemma OldestServed(cfg: Config, start: State, owner: string -> Principal, key: string)
    returns (trace: seq<State>, events: seq<Event>, c: nat)
    requires Initial(start)
    ensures IsRun(cfg, trace, events) && trace[0] == start && |trace| >= 4
    ensures trace[1].now == start.now && trace[3].now == start.now && events[2] == OwnerChanges(owner)
    ensures forall i :: 3 <= i < |events| ==> !events[i].OwnerChanges?
    ensures Served(trace[|trace| - 1], key, c)
    ensures trace[|trace| - 1].calls[c].answer == Got(Stamped(start.owner(key), 0, 1), start.now + MaxAge(cfg))
  {
    var trace0, events0 := ReadThenChanged(cfg, start, owner, key);
    ClockGrows(cfg, trace0, events0, 0, 1);
    ClockGrows(cfg, trace0, events0, 1, 3);
    var trace1, events1 := Extend(cfg, trace0, events0, Tick(cfg.timeout));
    assert ClockAt(trace1, 0) == start.now && trace1[1] == trace0[1] && trace1[3] == trace0[3];
    if cfg.ttl >= 1 {
      assert Unjoined(trace1[4], key, 0);
      trace, events := RefillServes(cfg, trace1, events1, key, 0, cfg.ttl - 1);
      c := 1;
    } else {
      trace, events := Extend(cfg, trace1, events1, Complete(0));
      trace, events := Extend(cfg, trace, events, Resume(0));
      c := 0;
    }
  }

  /** The bound on staleness, exactly: the values of all runs are no older than `bound` if and only if it is at least `MaxAge`. */
  lemma MaxAgeIff(cfg: Config, bound: int)
    ensures (forall trace, events :: IsRun(cfg, trace, events) ==> NoneOlder(trace, bound)) <==> MaxAge(cfg) <= bound
  {
    if MaxAge(cfg) <= bound {
      forall trace, events | IsRun(cfg, trace, events)
        ensures NoneOlder(trace, bound)
      {
        AgeBounded(cfg, trace, events);
      }
    } else {
      var trace, events, c := OldestServed(cfg, Start(), Start().owner, "");
      assert Served(trace[|trace| - 1], "", c);
      assert !NoneOlder(trace, bound);
    }
  }

  lemma AgeBounded(cfg: Config, trace: seq<State>, events: seq<Event>)
    requires IsRun(cfg, trace, events)
    ensures NoneOlder(trace, MaxAge(cfg))
  {
    var n := |trace| - 1;
    RunKeeps(cfg, trace, events, n);
    forall c: nat, key: string | Served(trace[n], key, c)
      ensures ReadAt(trace[n], c) < |trace| && trace[n].calls[c].answer.at - trace[ReadAt(trace[n], c)].now <= MaxAge(cfg)
    {
      assert CallOk(cfg, trace[..n + 1], trace[n], c);
      assert ClockAt(trace[..n + 1], ReadAt(trace[n], c)) == trace[ReadAt(trace[n], c)].now;
    }
  }
}
