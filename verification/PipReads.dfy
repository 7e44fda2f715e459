/**
 What a caller of the principal client sees from one call to the next: how long a value that has
 arrived keeps serving a key, and that values for a key do not go back in time unless it is forced.
 */
module PipReads {
  import opened Wrappers
  import opened InsertionMaps
  import opened TtlLruCaches
  import opened PipClients

  // ----- A run of the client is a run of its cache ------------------------------------------------

  /** What the event does to the cache. */
  function CacheOps(s: State, e: Event): seq<Op<Stamped>> {
    match e
    case Resolve(key, forceFresh) => if forceFresh then [] else [GetOp(key, s.now)]
    case Complete(f) =>
      if f < |s.fetches| && s.fetches[f].phase.Answered? then [SetOp(s.fetches[f].key, s.fetches[f].phase.value, s.now)] else []
    case Invalidate(key) => [DeleteOp(key)]
    case _ => []
  }

  lemma OneOp(s: Store<Stamped>, maxEntries: nat, ttl: int, op: Op<Stamped>)
    ensures Run(s, maxEntries, ttl, [op]) == Apply(s, maxEntries, ttl, op).0
  {
    assert [op][..0] == [];
  }

  lemma CacheStep(cfg: Config, h: seq<State>, e: Event)
    requires |h| > 0 && Enabled(cfg, h, e)
    ensures Next(cfg, h, e).cache == Run(h[|h| - 1].cache, cfg.maxEntries, cfg.ttl, CacheOps(h[|h| - 1], e))
  {
    var s := h[|h| - 1];
    var ops := CacheOps(s, e);
    if |ops| == 1 {
      OneOp(s.cache, cfg.maxEntries, cfg.ttl, ops[0]);
    }
  }

  /** What the events from position j up to position k do to the cache. */
  function OpsBetween(trace: seq<State>, events: seq<Event>, j: nat, k: nat): seq<Op<Stamped>>
    requires j <= k <= |events| < |trace|
    decreases k
  {
    if j == k then [] else OpsBetween(trace, events, j, k - 1) + CacheOps(trace[k - 1], events[k - 1])
  }

  lemma {:induction false} CacheOfRun(cfg: Config, trace: seq<State>, events: seq<Event>, j: nat, k: nat)
    requires IsRun(cfg, trace, events) && j <= k < |trace|
    ensures trace[k].cache == Run(trace[j].cache, cfg.maxEntries, cfg.ttl, OpsBetween(trace, events, j, k))
    decreases k
  {
    if j < k {
      CacheOfRun(cfg, trace, events, j, k - 1);
      RunStep(cfg, trace, events, k - 1);
      CacheStep(cfg, trace[..k - 1 + 1], events[k - 1]);
      RunConcat(trace[j].cache, cfg.maxEntries, cfg.ttl, OpsBetween(trace, events, j, k - 1), CacheOps(trace[k - 1], events[k - 1]));
    }
  }

  lemma CacheBounded(cfg: Config, trace: seq<State>, events: seq<Event>, k: nat)
    requires IsRun(cfg, trace, events) && k < |trace| && cfg.maxEntries >= 1
    ensures Bounded(trace[k].cache, cfg.maxEntries)
  {
    CacheOfRun(cfg, trace, events, 0, k);
    RunBounded(cfg.maxEntries, cfg.ttl, OpsBetween(trace, events, 0, k));
  }

  lemma ClockGrows(cfg: Config, trace: seq<State>, events: seq<Event>, j: nat, k: nat)
    requires IsRun(cfg, trace, events) && j <= k < |trace|
    ensures trace[j].now <= trace[k].now
  {
    RunKeeps(cfg, trace, events, k);
    assert ClockAt(trace[..k + 1], j) <= ClockAt(trace[..k + 1], k);
  }

  // ----- How long a value serves ------------------------------------------------------------------

  /** The event neither invalidates the key nor completes a fetch for it. */
  predicate LeavesKey(s: State, e: Event, key: string) {
    && e != Invalidate(key)
    && !(e.Complete? && e.fetch < |s.fetches| && s.fetches[e.fetch].key == key)
  }

  lemma {:induction false} BetweenSpares(cfg: Config, trace: seq<State>, events: seq<Event>, j: nat, k: nat, key: string, expiresAt: int)
    requires IsRun(cfg, trace, events) && j <= k < |trace| && trace[k].now < expiresAt
    requires forall i :: j <= i < k ==> LeavesKey(trace[i], events[i], key)
    ensures Spares(OpsBetween(trace, events, j, k), key, expiresAt)
    decreases k
  {
    if j < k {
      ClockGrows(cfg, trace, events, k - 1, k);
      BetweenSpares(cfg, trace, events, j, k - 1, key, expiresAt);
      assert LeavesKey(trace[k - 1], events[k - 1], key);
    }
  }

  /** The step that fills the cache: the key stands last, with the value that arrived. */
  lemma FillStep(cfg: Config, trace: seq<State>, events: seq<Event>, j: nat, key: string)
    requires IsRun(cfg, trace, events) && j < |events| && cfg.maxEntries >= 1
    requires events[j].Complete? && events[j].fetch < |trace[j].fetches| && trace[j].fetches[events[j].fetch].key == key
    ensures trace[j].fetches[events[j].fetch].phase.Answered?
    ensures Bounded(trace[j + 1].cache, cfg.maxEntries) && key in Keys(trace[j + 1].cache) && KeysAfter(trace[j + 1].cache, key) == {}
    ensures Get(trace[j + 1].cache, key) == Some(Entry(trace[j].fetches[events[j].fetch].phase.value, trace[j].now + cfg.ttl))
  {
    RunStep(cfg, trace, events, j);
    CacheBounded(cfg, trace, events, j);
    CacheBounded(cfg, trace, events, j + 1);
    SetIsLast(trace[j].cache, cfg.maxEntries, cfg.ttl, key, trace[j].fetches[events[j].fetch].phase.value, trace[j].now);
  }

  lemma HitStep(cfg: Config, trace: seq<State>, events: seq<Event>, k: nat, key: string, entry: Entry<Stamped>)
    requires IsRun(cfg, trace, events) && k < |events| && events[k] == Resolve(key, false)
    requires Get(trace[k].cache, key) == Some(entry) && trace[k].now < entry.expiresAt
    ensures trace[k + 1].fetches == trace[k].fetches && trace[k + 1].inFlight == trace[k].inFlight
    ensures trace[k + 1].calls == trace[k].calls + [Call(key, false, k, Got(entry.value, trace[k].now))]
  {
    RunStep(cfg, trace, events, k);
    RunKeeps(cfg, trace, events, k);
    assert trace[..k + 1][k].moment == k;
  }

  /**
   Once a fetch for a key has completed, every unforced call for the key gets its value at once and
   starts no fetch, for the whole TTL, until the key is invalidated or another fetch for it completes,
   provided fewer other keys are touched meanwhile than the cache holds.
   */
  lemma FilledIsServed(cfg: Config, trace: seq<State>, events: seq<Event>, j: nat, k: nat, key: string)
    requires IsRun(cfg, trace, events) && j < k < |events| && cfg.maxEntries >= 1
    requires events[j].Complete? && events[j].fetch < |trace[j].fetches| && trace[j].fetches[events[j].fetch].key == key
    requires events[k] == Resolve(key, false) && trace[k].now < trace[j].now + cfg.ttl
    requires forall i :: j < i < k ==> LeavesKey(trace[i], events[i], key)
    requires |TouchedKeys(trace[j + 1].cache, cfg.maxEntries, cfg.ttl, OpsBetween(trace, events, j + 1, k)) - {key}| < cfg.maxEntries
    ensures trace[j].fetches[events[j].fetch].phase.Answered?
    ensures trace[k + 1].fetches == trace[k].fetches && trace[k + 1].inFlight == trace[k].inFlight
    ensures trace[k + 1].calls ==
            trace[k].calls + [Call(key, false, k, Got(trace[j].fetches[events[j].fetch].phase.value, trace[k].now))]
  {
    FillStep(cfg, trace, events, j, key);
    BetweenSpares(cfg, trace, events, j + 1, k, key, trace[j].now + cfg.ttl);
    Survives(trace[j + 1].cache, cfg.maxEntries, cfg.ttl, OpsBetween(trace, events, j + 1, k), key);
    CacheOfRun(cfg, trace, events, j + 1, k);
    HitStep(cfg, trace, events, k, key, Get(trace[k].cache, key).value);
  }

  predicate OfKey(s: State, key: string, f: nat) {
    f < |s.fetches| && s.fetches[f].key == key
  }

  /** Somebody has read for the fetch, only its starter waits for it, and nobody waits for a settled one. */
  ghost predicate Unjoined(s: State, key: string, f: nat) {
    && OfKey(s, key, f) && s.fetches[f].phase.Answered? && Drained(s)
    && forall c :: 0 <= c < |s.calls| && s.calls[c].answer == Waiting(f) ==> c == s.fetches[f].starter
  }

  ghost predicate OnlyStarterDue(s: State, c: nat) {
    && Due(s, c) && s.fetches[s.calls[c].answer.fetch].starter == c
    && forall d: nat :: Due(s, d) ==> d == c
  }

  lemma CompleteMakesDue(s: State, s': State, key: string, f: nat, phase: Phase)
    requires Unjoined(s, key, f) && phase.Settled? && s'.calls == s.calls && s'.fetches == WithPhase(s, f, phase).fetches
    requires s.fetches[f].starter < |s.calls| && s.calls[s.fetches[f].starter].answer == Waiting(f)
    ensures OnlyStarterDue(s', s.fetches[f].starter)
  {
    forall d: nat | Due(s', d)
      ensures d == s.fetches[f].starter
    {
      assert !Due(s, d);
    }
  }

  lemma ResumeDrains(s: State, s': State, c: nat)
    requires OnlyStarterDue(s, c) && s'.fetches == ResumeStep(s, c).fetches && s'.calls == ResumeStep(s, c).calls
    ensures Drained(s') && |s'.calls| == |s.calls|
  {
    forall d: nat
      ensures !Due(s', d)
    {
      assert Due(s, d) ==> d == c;
    }
  }

  /** A fetch nobody has joined completes: it fills the cache, and its starter is due. */
  lemma FillUnjoined(cfg: Config, trace0: seq<State>, events0: seq<Event>, key: string, f: nat)
    returns (trace: seq<State>, events: seq<Event>)
    requires IsRun(cfg, trace0, events0) && Enabled(cfg, trace0, Complete(f)) && Unjoined(trace0[|trace0| - 1], key, f)
    ensures IsRun(cfg, trace, events) && |trace| == |trace0| + 1 && trace0 <= trace && events == events0 + [Complete(f)]
    ensures var s, s' := trace0[|trace0| - 1], trace[|trace0|];
            && OnlyStarterDue(s', s.fetches[f].starter) && s'.calls == s.calls && s'.now == s.now
            && Get(s'.cache, key) == Some(Entry(s.fetches[f].phase.value, s.now + cfg.ttl))
  {
    var s := trace0[|events0|];
    RunKeeps(cfg, trace0, events0, |events0|);
    assert FetchOk(cfg, trace0[..|events0| + 1], s, f);
    var v := s.fetches[f].phase.value;
    trace, events := Extend(cfg, trace0, events0, Complete(f));
    SetGet(Room(s.cache, cfg.maxEntries, key), key, Entry(v, s.now + cfg.ttl), key);
    CompleteMakesDue(s, trace[|trace0|], key, f, Settled(Some(v), s.now));
  }

  lemma ResumeStarter(cfg: Config, trace0: seq<State>, events0: seq<Event>, c: nat)
    returns (trace: seq<State>, events: seq<Event>)
    requires IsRun(cfg, trace0, events0) && OnlyStarterDue(trace0[|trace0| - 1], c)
    ensures IsRun(cfg, trace, events) && |trace| == |trace0| + 1 && trace0 <= trace && events == events0 + [Resume(c)]
    ensures var s, s' := trace0[|trace0| - 1], trace[|trace0|];
            && Drained(s') && s'.now == s.now && s'.cache == s.cache
            && |s'.calls| == |s.calls| && forall d :: 0 <= d < |s.calls| && d != c ==> s'.calls[d] == s.calls[d]
  {
    trace, events := Extend(cfg, trace0, events0, Resume(c));
    ResumeDrains(trace0[|trace0| - 1], trace[|trace0|], c);
  }

  /** However late within the TTL an unforced call comes, it gets the value of a fetch so ended. */
  lemma RefillServes(cfg: Config, trace0: seq<State>, events0: seq<Event>, key: string, f: nat, delay: nat)
    returns (trace: seq<State>, events: seq<Event>)
    requires IsRun(cfg, trace0, events0) && Enabled(cfg, trace0, Complete(f)) && Unjoined(trace0[|trace0| - 1], key, f)
    requires delay < cfg.ttl
    ensures var s := trace0[|trace0| - 1];
            && IsRun(cfg, trace, events) && trace0 <= trace && |trace| == |trace0| + 4
            && events == events0 + [Complete(f), Resume(s.fetches[f].starter), Tick(delay), Resolve(key, false)]
    ensures var s, s' := trace0[|trace0| - 1], trace[|trace| - 1];
            && |s'.calls| == |s.calls| + 1 && s'.calls[|s.calls|].key == key
            && (forall d :: 0 <= d < |s.calls| && d != s.fetches[f].starter ==> s'.calls[d] == s.calls[d])
            && s'.calls[|s.calls|].answer == Got(s.fetches[f].phase.value, s.now + delay)
  {
    trace, events := FillUnjoined(cfg, trace0, events0, key, f);
    trace, events := ResumeStarter(cfg, trace, events, trace0[|trace0| - 1].fetches[f].starter);
    trace, events := Extend(cfg, trace, events, Tick(delay));
    trace, events := Extend(cfg, trace, events, Resolve(key, false));
  }

  // ----- Values do not go back --------------------------------------------------------------------

  ghost predicate NeverForces(events: seq<Event>, key: string) {
    forall i :: 0 <= i < |events| ==> events[i] != Resolve(key, true)
  }

  /** The value a fetch has read, if it has. */
  function ValueOf(p: Phase): Option<Stamped> {
    match p
    case Requested => None
    case Answered(v) => Some(v)
    case Settled(outcome, _) => outcome
    case Cleaned(outcome, _) => outcome
  }

  predicate Fulfilled(s: State, key: string, f: nat) {
    OfKey(s, key, f) && s.fetches[f].phase.IsSettled() && s.fetches[f].phase.outcome.Some?
  }

  /** Of two fetches for a key the earlier is over, has read no later and was done no later. */
  predicate InTurn(s: State, key: string, f: nat, g: nat) {
    OfKey(s, key, f) && OfKey(s, key, g) && f < g ==>
      && s.fetches[f].phase.Cleaned?
      && (ValueOf(s.fetches[f].phase).Some? && ValueOf(s.fetches[g].phase).Some? ==>
            ValueOf(s.fetches[f].phase).value.readAt <= ValueOf(s.fetches[g].phase).value.readAt)
      && (Fulfilled(s, key, f) && Fulfilled(s, key, g) ==> s.fetches[f].phase.at <= s.fetches[g].phase.at)
  }

  predicate NotAhead(s: State, key: string, f: nat) {
    OfKey(s, key, f) ==>
      && !s.fetches[f].forced
      && (ValueOf(s.fetches[f].phase).Some? ==> ValueOf(s.fetches[f].phase).value.readAt <= s.moment)
      && (s.fetches[f].phase.IsSettled() ==> s.fetches[f].phase.at <= s.now)
  }

  /** The cache holds the key's latest value. */
  ghost predicate CachesLatest(s: State, key: string) {
    Get(s.cache, key).Some? ==>
      && OfKey(s, key, Get(s.cache, key).value.value.fetch)
      && forall f: nat :: Fulfilled(s, key, f) ==> f <= Get(s.cache, key).value.value.fetch
  }

  /** A call for the key was answered from a fulfilled fetch, before any later one was done. */
  ghost predicate AnsweredInTurn(s: State, key: string, c: nat)
    requires c < |s.calls|
  {
    s.calls[c].key == key && s.calls[c].answer.Got? ==>
      var v, at := s.calls[c].answer.value, s.calls[c].answer.at;
      && Fulfilled(s, key, v.fetch) && s.fetches[v.fetch].phase.outcome == Some(v) && s.fetches[v.fetch].phase.at <= at <= s.now
      && forall g: nat :: Fulfilled(s, key, g) && g > v.fetch ==> at <= s.fetches[g].phase.at
  }

  ghost predicate Ordered(s: State, key: string) {
    && (forall f: nat, g: nat {:trigger InTurn(s, key, f, g)} :: InTurn(s, key, f, g))
    && (forall f: nat {:trigger NotAhead(s, key, f)} :: NotAhead(s, key, f))
    && CachesLatest(s, key)
    && forall c {:trigger AnsweredInTurn(s, key, c)} :: 0 <= c < |s.calls| ==> AnsweredInTurn(s, key, c)
  }

  /** Of two calls answered at different times, the later got a value read no earlier. */
  lemma OrderedReads(s: State, key: string, c: nat, d: nat)
    requires Ordered(s, key) && c < |s.calls| && d < |s.calls|
    requires s.calls[c].key == key && s.calls[d].key == key && s.calls[c].answer.Got? && s.calls[d].answer.Got?
    requires s.calls[c].answer.at < s.calls[d].answer.at
    ensures s.calls[c].answer.value.readAt <= s.calls[d].answer.value.readAt
  {
    assert AnsweredInTurn(s, key, c) && AnsweredInTurn(s, key, d);
    assert InTurn(s, key, s.calls[c].answer.value.fetch, s.calls[d].answer.value.fetch);
  }

  // Each lemma below takes one event apart.

  /** Nothing happens to the fetches and the calls; the key's cache entry may go. */
  lemma FrameOrdered(s: State, s': State, key: string)
    requires Ordered(s, key) && s'.fetches == s.fetches && s'.calls == s.calls && s'.now >= s.now && s'.moment >= s.moment
    requires Get(s'.cache, key).Some? ==> Get(s'.cache, key) == Get(s.cache, key)
    ensures Ordered(s', key)
  {
    forall f: nat, g: nat
      ensures InTurn(s', key, f, g)
    {
      assert InTurn(s, key, f, g);
    }
    forall f: nat
      ensures NotAhead(s', key, f)
    {
      assert NotAhead(s, key, f);
    }
    forall c | 0 <= c < |s'.calls|
      ensures AnsweredInTurn(s', key, c)
    {
      assert AnsweredInTurn(s, key, c);
      assert forall g: nat :: Fulfilled(s', key, g) <==> Fulfilled(s, key, g);
    }
    assert forall g: nat :: Fulfilled(s', key, g) <==> Fulfilled(s, key, g);
  }

  /** A fetch gets a new phase without being fulfilled by it. */
  lemma PhaseOrdered(s: State, key: string, f: nat, phase: Phase)
    requires Ordered(s, key) && f < |s.fetches| && !s.fetches[f].phase.IsSettled() && !phase.Cleaned?
    requires phase.Answered? ==> phase.value.readAt == s.moment
    requires phase.Settled? ==> phase.outcome.None? && phase.at == s.now
    requires phase.Answered? || phase.Settled?
    ensures Ordered(WithPhase(s, f, phase), key)
  {
    var s' := WithPhase(s, f, phase);
    forall g: nat
      ensures Fulfilled(s', key, g) <==> Fulfilled(s, key, g)
      ensures Fulfilled(s, key, g) ==> s'.fetches[g] == s.fetches[g]
    {
    }
    forall g: nat, i: nat
      ensures InTurn(s', key, g, i)
    {
      assert InTurn(s, key, g, i) && NotAhead(s, key, g);
    }
    forall g: nat
      ensures NotAhead(s', key, g)
    {
      assert NotAhead(s, key, g);
    }
    forall c | 0 <= c < |s'.calls|
      ensures AnsweredInTurn(s', key, c)
    {
      assert AnsweredInTurn(s, key, c);
    }
  }

  /** A fetch is fulfilled and fills the cache. */
  lemma CompleteOrdered(cfg: Config, s: State, key: string, f: nat)
    requires Ordered(s, key) && f < |s.fetches| && s.fetches[f].phase.Answered? && s.fetches[f].phase.value.fetch == f
    ensures Ordered(WithPhase(s, f, Settled(Some(s.fetches[f].phase.value), s.now))
                      .(cache := CacheSet(s.cache, cfg.maxEntries, cfg.ttl, s.fetches[f].key, s.fetches[f].phase.value, s.now)), key)
  {
    var v := s.fetches[f].phase.value;
    var s' := WithPhase(s, f, Settled(Some(v), s.now)).(cache := CacheSet(s.cache, cfg.maxEntries, cfg.ttl, s.fetches[f].key, v, s.now));
    forall g: nat
      ensures Fulfilled(s', key, g) <==> Fulfilled(s, key, g) || (g == f && OfKey(s, key, f))
      ensures OfKey(s, key, f) && OfKey(s, key, g) ==> g <= f
      ensures g < |s.fetches| && g != f ==> s'.fetches[g] == s.fetches[g]
    {
      assert InTurn(s, key, f, g);
    }
    forall g: nat, i: nat
      ensures InTurn(s', key, g, i)
    {
      assert InTurn(s, key, g, i) && NotAhead(s, key, g);
    }
    forall g: nat
      ensures NotAhead(s', key, g)
    {
      assert NotAhead(s, key, g);
    }
    forall c | 0 <= c < |s'.calls|
      ensures AnsweredInTurn(s', key, c)
    {
      assert AnsweredInTurn(s, key, c);
    }
    GetAfterApply(s.cache, cfg.maxEntries, cfg.ttl, SetOp(s.fetches[f].key, v, s.now), key);
  }

  /** A call waiting for a settled fetch continues; its starter cleans up. */
  lemma ResumeOrdered(cfg: Config, h: seq<State>, s: State, key: string, c: nat)
    requires Inv(cfg, h, s) && Ordered(s, key)
    requires Due(s, c)
    ensures Ordered(ResumeStep(s, c), key)
  {
    var s', f := ResumeStep(s, c), s.calls[c].answer.fetch;
    assert CallOk(cfg, h, s, c) && FetchOk(cfg, h, s, f);
    forall g: nat
      ensures OfKey(s', key, g) <==> OfKey(s, key, g)
      ensures g < |s.fetches| ==> ValueOf(s'.fetches[g].phase) == ValueOf(s.fetches[g].phase)
      ensures Fulfilled(s', key, g) <==> Fulfilled(s, key, g)
      ensures g < |s.fetches| && s.fetches[g].phase.IsSettled() ==>
                s'.fetches[g].phase.IsSettled() && s'.fetches[g].phase.at == s.fetches[g].phase.at
                && s'.fetches[g].phase.outcome == s.fetches[g].phase.outcome
    {
    }
    forall g: nat, i: nat
      ensures InTurn(s', key, g, i)
    {
      assert InTurn(s, key, g, i);
    }
    forall g: nat
      ensures NotAhead(s', key, g)
    {
      assert NotAhead(s, key, g);
    }
    forall d | 0 <= d < |s'.calls|
      ensures AnsweredInTurn(s', key, d)
    {
      if d == c {
        assert NotAhead(s, key, f);
        forall g: nat | Fulfilled(s, key, g) && Fulfilled(s, key, f) && g > f
          ensures s.now <= s.fetches[g].phase.at
        {
          assert InTurn(s, key, f, g);
        }
      } else {
        assert AnsweredInTurn(s, key, d);
      }
    }
  }

  /** What a resolve leaves of the fetches: all earlier ones, which for its own key are over if it starts one. */
  lemma ResolveKeepsFetches(s: State, key: string, k: string, forceFresh: bool, g: nat)
    requires Ordered(s, key) && SingleFlight(s, key) && !(k == key && forceFresh)
    ensures var s', n := ResolveStep(s, k, forceFresh), |s.fetches|;
            && (g < n ==> s'.fetches[g] == s.fetches[g]) && (g >= n ==> !Fulfilled(s', key, g))
            && (OfKey(s, key, g) && OfKey(s', key, n) ==> s.fetches[g].phase.Cleaned?)
            && (OfKey(s', key, n) ==> !s'.fetches[n].forced && s'.fetches[n].phase.Requested?)
  {
    assert NotAhead(s, key, g);
    assert Outstanding(s, key, g) <==> key in s.inFlight && s.inFlight[key] == g;
  }

  lemma ResolveFetchesOrdered(s: State, key: string, k: string, forceFresh: bool)
    requires Ordered(s, key) && SingleFlight(s, key) && !(k == key && forceFresh)
    ensures forall f: nat, g: nat {:trigger InTurn(ResolveStep(s, k, forceFresh), key, f, g)} :: InTurn(ResolveStep(s, k, forceFresh), key, f, g)
    ensures forall f: nat {:trigger NotAhead(ResolveStep(s, k, forceFresh), key, f)} :: NotAhead(ResolveStep(s, k, forceFresh), key, f)
  {
    var s' := ResolveStep(s, k, forceFresh);
    forall f: nat
      ensures NotAhead(s', key, f)
    {
      ResolveKeepsFetches(s, key, k, forceFresh, f);
      assert NotAhead(s, key, f);
    }
    forall f: nat, g: nat
      ensures InTurn(s', key, f, g)
    {
      ResolveKeepsFetches(s, key, k, forceFresh, f);
      ResolveKeepsFetches(s, key, k, forceFresh, g);
      assert InTurn(s, key, f, g);
    }
  }

  /** A call is answered from the cache, joins the fetch pending, or starts one when none is. */
  lemma ResolveOrdered(cfg: Config, h: seq<State>, s: State, key: string, k: string, forceFresh: bool)
    requires Inv(cfg, h, s) && Ordered(s, key) && SingleFlight(s, key) && !(k == key && forceFresh)
    ensures Ordered(ResolveStep(s, k, forceFresh), key)
  {
    var s' := ResolveStep(s, k, forceFresh);
    ResolveFetchesOrdered(s, key, k, forceFresh);
    assert CacheOk(cfg, h, s, key);
    GetAfterApply(s.cache, cfg.maxEntries, cfg.ttl, GetOp(k, s.now), key);
    forall g: nat
      ensures Fulfilled(s', key, g) <==> Fulfilled(s, key, g)
      ensures Fulfilled(s, key, g) ==> s'.fetches[g] == s.fetches[g]
    {
      ResolveKeepsFetches(s, key, k, forceFresh, g);
    }
    forall c | 0 <= c < |s'.calls|
      ensures AnsweredInTurn(s', key, c)
    {
      if c < |s.calls| {
        assert AnsweredInTurn(s, key, c);
      } else if Get(s.cache, key).Some? {
        assert NotAhead(s, key, Get(s.cache, key).value.value.fetch);
      }
    }
  }

  lemma BodyOrdered(cfg: Config, h: seq<State>, s: State, e: Event, key: string)
    requires |h| > 0 && h[|h| - 1] == s && Enabled(cfg, h, e) && Inv(cfg, h, s)
    requires Ordered(s, key) && SingleFlight(s, key) && e != Resolve(key, true)
    ensures Ordered(Body(cfg, h, e), key)
  {
    match e
    case Resolve(k, forceFresh) => ResolveOrdered(cfg, h, s, key, k, forceFresh);
    case OwnerReads(f) => PhaseOrdered(s, key, f, Answered(Stamped(s.owner(s.fetches[f].key), f, s.moment)));
    case Complete(f) =>
      assert FetchOk(cfg, h, s, f);
      CompleteOrdered(cfg, s, key, f);
    case Fail(f) => PhaseOrdered(s, key, f, Settled(None, s.now));
    case Resume(c) => ResumeOrdered(cfg, h, s, key, c);
    case Invalidate(k) =>
      DeleteGet(s.cache, k, key);
      FrameOrdered(s, Body(cfg, h, e), key);
    case OwnerChanges(_) => FrameOrdered(s, Body(cfg, h, e), key);
    case Tick(_) => FrameOrdered(s, Body(cfg, h, e), key);
  }

  lemma {:induction false} RunOrdered(cfg: Config, trace: seq<State>, events: seq<Event>, key: string, k: nat)
    requires IsRun(cfg, trace, events) && NeverForces(events, key) && k < |trace|
    ensures Ordered(trace[k], key)
  {
    if k == 0 {
      KeysOfEmpty<string, Entry<Stamped>>();
    } else {
      var h, s, e := trace[..k - 1 + 1], trace[k - 1], events[k - 1];
      RunOrdered(cfg, trace, events, key, k - 1);
      RunStep(cfg, trace, events, k - 1);
      RunKeeps(cfg, trace, events, k - 1);
      UnforcedRunKeepsSingleFlight(cfg, trace, events, key, k - 1);
      BodyOrdered(cfg, h, s, e, key);
      assert s.moment <= |h|;
      FrameOrdered(Body(cfg, h, e), trace[k], key);
    }
  }

  /**
   In a run that never forces a key, of two calls for it answered at different times the later one
   got what the owner held at the same or a later moment: values never go back.
   */
  lemma ReadsNeverGoBack(cfg: Config, trace: seq<State>, events: seq<Event>, key: string, k: nat, c: nat, d: nat)
    requires IsRun(cfg, trace, events) && NeverForces(events, key) && k < |trace|
    requires c < |trace[k].calls| && d < |trace[k].calls| && trace[k].calls[c].key == key && trace[k].calls[d].key == key
    requires trace[k].calls[c].answer.Got? && trace[k].calls[d].answer.Got?
    requires trace[k].calls[c].answer.at < trace[k].calls[d].answer.at
    ensures trace[k].calls[c].answer.value.readAt <= trace[k].calls[d].answer.value.readAt
  {
    RunOrdered(cfg, trace, events, key, k);
    OrderedReads(trace[k], key, c, d);
  }
}
