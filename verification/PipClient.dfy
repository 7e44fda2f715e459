/**
 The read-through principal client as a state machine. `resolve` runs synchronously up to its
 first await and again after it, so its atomic pieces are: begin (cache look-up, join or start),
 fill (response arrived, cache set), and resume (the awaiting call continues; the call that
 started the fetch also runs its `finally`). Everything else interleaves between them: other
 calls, invalidations, the owner of the data reading or changing it, failures, time.
 */
module PipClients {
  import opened Wrappers
  import opened InsertionMaps
  import opened TtlLruCaches

  datatype Principal = Principal(id: string, tenantId: string, roles: seq<string>)

  /** A principal as read by fetch `fetch` at position `readAt` of the run. */
  datatype Stamped = Stamped(principal: Principal, fetch: nat, readAt: nat)

  // ----- The synchronous pieces ---------------------------------------------------------------

  datatype Begun = Hit(value: Stamped) | Joined(fetch: nat) | Started

  /** `resolve` up to its await: what the caller now waits for, and the two maps after it. */
  function Begin(cache: Store<Stamped>, inFlight: map<string, nat>, key: string, forceFresh: bool, now: int, newFetch: nat)
    : (Store<Stamped>, map<string, nat>, Begun)
  {
    if forceFresh then (cache, inFlight, Started)
    else
      var (cache', cached) := CacheGet(cache, key, now);
      if cached.Some? then (cache', inFlight, Hit(cached.value))
      else if key in inFlight then (cache', inFlight, Joined(inFlight[key]))
      else (cache', inFlight[key := newFetch], Started)
  }

  /**
   After an invalidation the next unforced call is not served from the cache: it joins a fetch
   already pending, even one begun before the invalidation, and starts one if there is none.
   */
  lemma InvalidatedIsNotServed(cache: Store<Stamped>, inFlight: map<string, nat>, key: string, now: int, newFetch: nat)
    ensures Begin(Delete(cache, key), inFlight, key, false, now, newFetch).2
            == if key in inFlight then Joined(inFlight[key]) else Started
  {
    DeleteGet(cache, key, key);
  }

  class HttpPipClient {
    const cache: TtlLruCache<Stamped>
    var inFlight: map<string, nat>

    constructor (maxEntries: nat, ttlMs: int)
      ensures fresh(cache) && cache.store == [] && inFlight == map[]
      ensures cache.maxEntries == maxEntries && cache.ttlMs == ttlMs
    {
      cache := new TtlLruCache(maxEntries, ttlMs);
      inFlight := map[];
    }

    method ResolveUntilAwait(key: string, forceFresh: bool, now: int, freshFetch: nat) returns (b: Begun)
      modifies this`inFlight, cache`store
      ensures (cache.store, inFlight, b) == Begin(old(cache.store), old(inFlight), key, forceFresh, now, freshFetch)
    {
      if !forceFresh {
        var cached := cache.Lookup(key, now);
        if cached.Some? {
          return Hit(cached.value);
        }
        if key in inFlight {
          return Joined(inFlight[key]);
        }
      }
      if !forceFresh {
        inFlight := inFlight[key := freshFetch];
      }
      b := Started;
    }

    /** The response has arrived: the tail of the fetch. */
    method FillCache(key: string, value: Stamped, now: int)
      modifies cache`store
      ensures cache.store == CacheSet(old(cache.store), cache.maxEntries, cache.ttlMs, key, value, now)
    {
      cache.Put(key, value, now);
    }

    /** The `finally` of the call that started a fetch: whatever is pending under the key goes. */
    method ResolveFinally(key: string)
      modifies this`inFlight
      ensures inFlight == old(inFlight) - {key}
    {
      inFlight := inFlight - {key};
    }

    method Invalidate(key: string)
      modifies cache`store
      ensures cache.store == Delete(old(cache.store), key)
    {
      cache.Remove(key);
    }
  }

  // ----- The machine --------------------------------------------------------------------------

  /**
   `Requested`: sent. `Answered`: the owner has read its data, the response is on its way.
   `Settled`: the promise is fulfilled or rejected. `Cleaned`: the starter's `finally` has run.
   */
  datatype Phase =
    | Requested
    | Answered(value: Stamped)
    | Settled(outcome: Option<Stamped>, at: int)
    | Cleaned(outcome: Option<Stamped>, at: int)
  {
    predicate IsSettled() { Settled? || Cleaned? }
  }

  datatype Fetch = Fetch(key: string, forced: bool, starter: nat, startedAt: nat, phase: Phase)

  datatype Answer = Waiting(fetch: nat) | Got(value: Stamped, at: int) | Failed

  /** `calledAt` and `startedAt` are positions in the run, `at` is clock time. */
  datatype Call = Call(key: string, forced: bool, calledAt: nat, answer: Answer)

  datatype Config = Config(maxEntries: nat, ttl: nat, timeout: nat)

  datatype State = State(
    now: int,
    moment: nat,
    owner: string -> Principal,
    cache: Store<Stamped>,
    inFlight: map<string, nat>,
    fetches: seq<Fetch>,
    calls: seq<Call>)

  datatype Event =
    | Resolve(key: string, forceFresh: bool)
    | OwnerReads(fetch: nat)
    | Complete(fetch: nat)
    | Fail(fetch: nat)
    | Resume(call: nat)
    | Invalidate(key: string)
    | OwnerChanges(owner: string -> Principal)
    | Tick(ms: nat)

  /** The promise the call waits for has settled. */
  predicate Due(s: State, c: nat) {
    && c < |s.calls| && s.calls[c].answer.Waiting? && s.calls[c].answer.fetch < |s.fetches|
    && s.fetches[s.calls[c].answer.fetch].phase.IsSettled()
  }

  /** A call whose promise has settled continues before the clock moves. */
  ghost predicate Drained(s: State) {
    forall c: nat :: !Due(s, c)
  }

  function ClockAt(trace: seq<State>, i: nat): int
    requires i < |trace|
  {
    trace[i].now
  }

  /** The call that started a fetch was the first to await it, so it continues before those that joined. */
  ghost predicate Enabled(cfg: Config, trace: seq<State>, e: Event)
    requires |trace| > 0
  {
    var s := trace[|trace| - 1];
    match e
    case Resolve(_, _) => true
    case OwnerReads(f) => f < |s.fetches| && s.fetches[f].phase.Requested?
    case Complete(f) =>
      && f < |s.fetches| && s.fetches[f].phase.Answered?
      && s.fetches[f].startedAt < |trace| && s.now <= ClockAt(trace, s.fetches[f].startedAt) + cfg.timeout
    case Fail(f) => f < |s.fetches| && !s.fetches[f].phase.IsSettled()
    case Resume(c) =>
      Due(s, c) && (s.fetches[s.calls[c].answer.fetch].starter == c || s.fetches[s.calls[c].answer.fetch].phase.Cleaned?)
    case Invalidate(_) => true
    case OwnerChanges(_) => true
    case Tick(_) => Drained(s)
  }

  function ResolveStep(s: State, key: string, forceFresh: bool): State {
    var newFetch := |s.fetches|;
    var (cache', inFlight', b) := Begin(s.cache, s.inFlight, key, forceFresh, s.now, newFetch);
    var answer := match b case Hit(v) => Got(v, s.now) case Joined(f) => Waiting(f) case Started => Waiting(newFetch);
    var fetches' := if b.Started? then s.fetches + [Fetch(key, forceFresh, |s.calls|, s.moment, Requested)] else s.fetches;
    s.(cache := cache', inFlight := inFlight', fetches := fetches',
       calls := s.calls + [Call(key, forceFresh, s.moment, answer)])
  }

  function WithPhase(s: State, f: nat, phase: Phase): State
    requires f < |s.fetches|
  {
    s.(fetches := s.fetches[f := s.fetches[f].(phase := phase)])
  }

  /** The starter's `finally`: `inFlight.delete(key)`, whoever is pending there. */
  function CleanUp(s: State, f: nat): State
    requires f < |s.fetches| && s.fetches[f].phase.IsSettled()
  {
    WithPhase(s, f, Cleaned(s.fetches[f].phase.outcome, s.fetches[f].phase.at))
      .(inFlight := s.inFlight - {s.fetches[f].key})
  }

  function AnswerCall(s: State, c: nat, outcome: Option<Stamped>): State
    requires c < |s.calls|
  {
    var answer := if outcome.Some? then Got(outcome.value, s.now) else Failed;
    s.(calls := s.calls[c := s.calls[c].(answer := answer)])
  }

  function ResumeStep(s: State, c: nat): State
    requires Due(s, c)
  {
    var f := s.calls[c].answer.fetch;
    AnswerCall(if s.fetches[f].starter == c then CleanUp(s, f) else s, c, s.fetches[f].phase.outcome)
  }

  ghost function Body(cfg: Config, trace: seq<State>, e: Event): State
    requires |trace| > 0 && Enabled(cfg, trace, e)
  {
    var s := trace[|trace| - 1];
    match e
    case Resolve(key, forceFresh) => ResolveStep(s, key, forceFresh)
    case OwnerReads(f) => WithPhase(s, f, Answered(Stamped(s.owner(s.fetches[f].key), f, s.moment)))
    case Complete(f) =>
      var v := s.fetches[f].phase.value;
      WithPhase(s, f, Settled(Some(v), s.now))
        .(cache := CacheSet(s.cache, cfg.maxEntries, cfg.ttl, s.fetches[f].key, v, s.now))
    case Fail(f) => WithPhase(s, f, Settled(None, s.now))
    case Resume(c) => ResumeStep(s, c)
    case Invalidate(key) => s.(cache := Delete(s.cache, key))
    case OwnerChanges(owner) => s.(owner := owner)
    case Tick(ms) => s.(now := s.now + ms)
  }

  ghost function Next(cfg: Config, trace: seq<State>, e: Event): State
    requires |trace| > 0 && Enabled(cfg, trace, e)
  {
    Body(cfg, trace, e).(moment := |trace|)
  }

  ghost predicate Initial(s: State) {
    s.moment == 0 && s.cache == [] && s.inFlight == map[] && s.fetches == [] && s.calls == []
  }

  /** A run: the states, each but the first produced by an enabled event from those before it. */
  ghost predicate IsRun(cfg: Config, trace: seq<State>, events: seq<Event>) {
    && |trace| == |events| + 1
    && Initial(trace[0])
    && forall k {:trigger StepAt(cfg, trace, events, k)} :: 0 <= k < |events| ==> StepAt(cfg, trace, events, k)
  }

  ghost predicate StepAt(cfg: Config, trace: seq<State>, events: seq<Event>, k: nat)
    requires |trace| == |events| + 1 && k < |events|
  {
    Enabled(cfg, trace[..k + 1], events[k]) && trace[k + 1] == Next(cfg, trace[..k + 1], events[k])
  }

  // ----- The invariant ------------------------------------------------------------------------
  // `h` is the run so far; `s` is a state whose stamps and times refer to positions in `h`.

  /** The stamp tells the truth: the owner held this principal for this key at that position. */
  ghost predicate Genuine(h: seq<State>, key: string, v: Stamped) {
    v.readAt < |h| && h[v.readAt].owner(key) == v.principal
  }

  ghost predicate ClockOk(h: seq<State>) {
    && (forall i, j :: 0 <= i <= j < |h| ==> ClockAt(h, i) <= ClockAt(h, j))
    && (forall i :: 0 <= i < |h| ==> h[i].moment == i)
  }

  /** A fulfilled fetch carries its own stamp, read after the fetch began, and met the timeout. */
  ghost predicate OutcomeOk(cfg: Config, h: seq<State>, fetch: Fetch, f: nat, outcome: Option<Stamped>, at: int)
    requires fetch.startedAt < |h|
  {
    outcome.Some? ==>
      && Genuine(h, fetch.key, outcome.value) && outcome.value.fetch == f
      && fetch.startedAt <= outcome.value.readAt
      && at <= ClockAt(h, fetch.startedAt) + cfg.timeout
      && ClockAt(h, outcome.value.readAt) <= at
  }

  ghost predicate FetchOk(cfg: Config, h: seq<State>, s: State, f: nat)
    requires f < |s.fetches|
  {
    var fetch := s.fetches[f];
    && fetch.startedAt <= s.moment < |h|
    && fetch.starter < |s.calls| && s.calls[fetch.starter].key == fetch.key
    && (!fetch.phase.Cleaned? ==> s.calls[fetch.starter].answer == Waiting(f))
    && match fetch.phase
       case Requested => true
       case Answered(v) =>
         Genuine(h, fetch.key, v) && v.fetch == f && fetch.startedAt <= v.readAt && ClockAt(h, v.readAt) <= s.now
       case Settled(outcome, at) => at == s.now && OutcomeOk(cfg, h, fetch, f, outcome, at)
       case Cleaned(outcome, at) => OutcomeOk(cfg, h, fetch, f, outcome, at)
  }

  /** A cached entry came from a fulfilled fetch and expires at most ttl + timeout after it was read. */
  ghost predicate EntryOk(cfg: Config, h: seq<State>, s: State, key: string, e: Entry<Stamped>) {
    && Genuine(h, key, e.value)
    && ClockAt(h, e.value.readAt) <= s.now
    && e.expiresAt <= ClockAt(h, e.value.readAt) + cfg.timeout + cfg.ttl
    && e.value.fetch < |s.fetches|
    && s.fetches[e.value.fetch].phase.IsSettled()
    && s.fetches[e.value.fetch].phase.outcome == Some(e.value)
  }

  ghost predicate CacheOk(cfg: Config, h: seq<State>, s: State, key: string) {
    Get(s.cache, key).Some? ==> EntryOk(cfg, h, s, key, Get(s.cache, key).value)
  }

  /** What every returned value satisfies. */
  ghost predicate ReturnOk(cfg: Config, h: seq<State>, call: Call, v: Stamped, at: int) {
    && Genuine(h, call.key, v)
    && ClockAt(h, v.readAt) <= at <= ClockAt(h, v.readAt) + cfg.ttl + cfg.timeout
    && (cfg.ttl >= 1 ==> at < ClockAt(h, v.readAt) + cfg.ttl + cfg.timeout)
    && (call.forced ==> call.calledAt <= v.readAt)
  }

  ghost predicate CallOk(cfg: Config, h: seq<State>, s: State, c: nat)
    requires c < |s.calls|
  {
    var call := s.calls[c];
    match call.answer
    case Waiting(f) =>
      && f < |s.fetches| && s.fetches[f].key == call.key
      && (call.forced ==> call.calledAt <= s.fetches[f].startedAt)
      && (s.fetches[f].phase.IsSettled() ==> s.fetches[f].phase.at == s.now)
    case Got(v, at) => ReturnOk(cfg, h, call, v, at)
    case Failed => true
  }

  /** A pending entry names an unforced fetch of that key whose clean-up is still to come. */
  ghost predicate PendingOk(s: State, key: string) {
    key in s.inFlight ==>
      var f := s.inFlight[key];
      f < |s.fetches| && s.fetches[f].key == key && !s.fetches[f].forced && !s.fetches[f].phase.Cleaned?
  }

  ghost predicate Inv(cfg: Config, h: seq<State>, s: State) {
    && ClockOk(h)
    && s.moment < |h| && ClockAt(h, s.moment) == s.now
    && (forall f {:trigger FetchOk(cfg, h, s, f)} :: 0 <= f < |s.fetches| ==> FetchOk(cfg, h, s, f))
    && (forall key {:trigger CacheOk(cfg, h, s, key)} :: CacheOk(cfg, h, s, key))
    && (forall c {:trigger CallOk(cfg, h, s, c)} :: 0 <= c < |s.calls| ==> CallOk(cfg, h, s, c))
    && (forall key {:trigger PendingOk(s, key)} :: PendingOk(s, key))
  }

  /** Growing the history takes nothing back. */
  lemma GrowHistory(cfg: Config, h: seq<State>, s: State, x: State)
    requires Inv(cfg, h, s) && ClockOk(h + [x])
    ensures Inv(cfg, h + [x], s)
  {
    var h' := h + [x];
    assert forall i :: 0 <= i < |h| ==> h'[i] == h[i] && ClockAt(h', i) == ClockAt(h, i);
    forall f | 0 <= f < |s.fetches|
      ensures FetchOk(cfg, h', s, f)
    {
      assert FetchOk(cfg, h, s, f);
    }
    forall key
      ensures CacheOk(cfg, h', s, key)
    {
      assert CacheOk(cfg, h, s, key);
    }
    forall c | 0 <= c < |s.calls|
      ensures CallOk(cfg, h', s, c)
    {
      assert CallOk(cfg, h, s, c);
    }
  }

  lemma ClockStep(cfg: Config, h: seq<State>, e: Event)
    requires |h| > 0 && ClockOk(h) && Enabled(cfg, h, e)
    ensures ClockOk(h + [Next(cfg, h, e)])
  {
    var h' := h + [Next(cfg, h, e)];
    assert forall i :: 0 <= i < |h| ==> ClockAt(h', i) == ClockAt(h, i) && h'[i].moment == h[i].moment;
    assert ClockAt(h, |h| - 1) <= ClockAt(h', |h|);
    forall i, j | 0 <= i <= j < |h'|
      ensures ClockAt(h', i) <= ClockAt(h', j)
    {
      if j == |h| && i < j {
        assert ClockAt(h, i) <= ClockAt(h, |h| - 1);
      }
    }
  }

  // Each lemma below takes one event apart against a fixed history.

  lemma ResolveKeeps(cfg: Config, h: seq<State>, s: State, key: string, forceFresh: bool)
    requires Inv(cfg, h, s)
    ensures Inv(cfg, h, ResolveStep(s, key, forceFresh))
  {
    var s' := ResolveStep(s, key, forceFresh);
    forall f | 0 <= f < |s'.fetches|
      ensures FetchOk(cfg, h, s', f)
    {
      if f < |s.fetches| {
        assert FetchOk(cfg, h, s, f);
      }
    }
    forall k
      ensures CacheOk(cfg, h, s', k)
    {
      assert CacheOk(cfg, h, s, k);
      GetAfterApply(s.cache, cfg.maxEntries, cfg.ttl, GetOp(key, s.now), k);
    }
    forall c | 0 <= c < |s'.calls|
      ensures CallOk(cfg, h, s', c)
    {
      if c < |s.calls| {
        assert CallOk(cfg, h, s, c);
      } else {
        assert CacheOk(cfg, h, s, key) && PendingOk(s, key);
        if key in s.inFlight {
          assert FetchOk(cfg, h, s, s.inFlight[key]);
        }
      }
    }
    forall k
      ensures PendingOk(s', k)
    {
      assert PendingOk(s, k);
    }
  }

  /** Changing one unsettled fetch's phase, when the new phase is in order. */
  lemma PhaseKeeps(cfg: Config, h: seq<State>, s: State, f: nat, phase: Phase)
    requires Inv(cfg, h, s) && f < |s.fetches| && !s.fetches[f].phase.IsSettled() && !phase.Cleaned?
    requires phase.Settled? ==> phase.at == s.now
    requires FetchOk(cfg, h, WithPhase(s, f, phase), f)
    ensures Inv(cfg, h, WithPhase(s, f, phase))
  {
    var s' := WithPhase(s, f, phase);
    forall g | 0 <= g < |s'.fetches|
      ensures FetchOk(cfg, h, s', g)
    {
      assert FetchOk(cfg, h, s, g);
    }
    forall k
      ensures CacheOk(cfg, h, s', k)
    {
      assert CacheOk(cfg, h, s, k);
    }
    forall c | 0 <= c < |s'.calls|
      ensures CallOk(cfg, h, s', c)
    {
      assert CallOk(cfg, h, s, c);
    }
    forall k
      ensures PendingOk(s', k)
    {
      assert PendingOk(s, k);
    }
  }

  lemma FillKeeps(cfg: Config, h: seq<State>, s: State, key: string, v: Stamped)
    requires Inv(cfg, h, s) && EntryOk(cfg, h, s, key, Entry(v, s.now + cfg.ttl))
    ensures Inv(cfg, h, s.(cache := CacheSet(s.cache, cfg.maxEntries, cfg.ttl, key, v, s.now)))
  {
    var s' := s.(cache := CacheSet(s.cache, cfg.maxEntries, cfg.ttl, key, v, s.now));
    forall k
      ensures CacheOk(cfg, h, s', k)
    {
      assert CacheOk(cfg, h, s, k);
      GetAfterApply(s.cache, cfg.maxEntries, cfg.ttl, SetOp(key, v, s.now), k);
    }
    SameButCache(cfg, h, s, s');
  }

  lemma SameButCache(cfg: Config, h: seq<State>, s: State, s': State)
    requires Inv(cfg, h, s) && s' == s.(cache := s'.cache, owner := s'.owner)
    requires forall k :: CacheOk(cfg, h, s', k)
    ensures Inv(cfg, h, s')
  {
    forall f | 0 <= f < |s'.fetches|
      ensures FetchOk(cfg, h, s', f)
    {
      assert FetchOk(cfg, h, s, f);
    }
    forall c | 0 <= c < |s'.calls|
      ensures CallOk(cfg, h, s', c)
    {
      assert CallOk(cfg, h, s, c);
    }
    forall k
      ensures PendingOk(s', k)
    {
      assert PendingOk(s, k);
    }
  }

  lemma InvalidateKeeps(cfg: Config, h: seq<State>, s: State, key: string)
    requires Inv(cfg, h, s)
    ensures Inv(cfg, h, s.(cache := Delete(s.cache, key)))
  {
    var s' := s.(cache := Delete(s.cache, key));
    forall k
      ensures CacheOk(cfg, h, s', k)
    {
      assert CacheOk(cfg, h, s, k);
      DeleteGet(s.cache, key, k);
    }
    SameButCache(cfg, h, s, s');
  }

  lemma OwnerChangeKeeps(cfg: Config, h: seq<State>, s: State, owner: string -> Principal)
    requires Inv(cfg, h, s)
    ensures Inv(cfg, h, s.(owner := owner))
  {
    var s' := s.(owner := owner);
    forall k
      ensures CacheOk(cfg, h, s', k)
    {
      assert CacheOk(cfg, h, s, k);
    }
    SameButCache(cfg, h, s, s');
  }

  lemma CleanUpKeeps(cfg: Config, h: seq<State>, s: State, f: nat)
    requires Inv(cfg, h, s) && f < |s.fetches| && s.fetches[f].phase.IsSettled()
    ensures Inv(cfg, h, CleanUp(s, f))
  {
    var s' := CleanUp(s, f);
    assert FetchOk(cfg, h, s, f);
    forall g | 0 <= g < |s'.fetches|
      ensures FetchOk(cfg, h, s', g)
    {
      assert FetchOk(cfg, h, s, g);
    }
    forall k
      ensures CacheOk(cfg, h, s', k)
    {
      assert CacheOk(cfg, h, s, k);
    }
    forall d | 0 <= d < |s'.calls|
      ensures CallOk(cfg, h, s', d)
    {
      assert CallOk(cfg, h, s, d);
    }
    forall k
      ensures PendingOk(s', k)
    {
      assert PendingOk(s, k);
    }
  }

  lemma AnswerKeeps(cfg: Config, h: seq<State>, s: State, c: nat, f: nat)
    requires Inv(cfg, h, s) && c < |s.calls| && f < |s.fetches| && s.calls[c].answer == Waiting(f)
    requires s.fetches[f].phase.IsSettled() && (s.fetches[f].starter == c ==> s.fetches[f].phase.Cleaned?)
    ensures Inv(cfg, h, AnswerCall(s, c, s.fetches[f].phase.outcome))
  {
    var s' := AnswerCall(s, c, s.fetches[f].phase.outcome);
    assert CallOk(cfg, h, s, c) && FetchOk(cfg, h, s, f);
    forall g | 0 <= g < |s'.fetches|
      ensures FetchOk(cfg, h, s', g)
    {
      assert FetchOk(cfg, h, s, g);
    }
    forall k
      ensures CacheOk(cfg, h, s', k)
    {
      assert CacheOk(cfg, h, s, k);
    }
    forall d | 0 <= d < |s'.calls|
      ensures CallOk(cfg, h, s', d)
    {
      assert CallOk(cfg, h, s, d);
    }
    forall k
      ensures PendingOk(s', k)
    {
      assert PendingOk(s, k);
    }
  }

  lemma ResumeKeeps(cfg: Config, h: seq<State>, s: State, c: nat)
    requires Inv(cfg, h, s)
    requires Due(s, c)
    ensures Inv(cfg, h, ResumeStep(s, c))
  {
    var f := s.calls[c].answer.fetch;
    if s.fetches[f].starter == c {
      CleanUpKeeps(cfg, h, s, f);
      AnswerKeeps(cfg, h, CleanUp(s, f), c, f);
    } else {
      AnswerKeeps(cfg, h, s, c, f);
    }
  }

  lemma TickKeeps(cfg: Config, h: seq<State>, s: State, s': State)
    requires Inv(cfg, h, s) && Drained(s) && s.now <= s'.now
    requires s' == s.(now := s'.now, moment := s'.moment) && s.moment <= s'.moment < |h| && ClockAt(h, s'.moment) == s'.now
    ensures Inv(cfg, h, s')
  {
    forall f | 0 <= f < |s'.fetches|
      ensures FetchOk(cfg, h, s', f)
    {
      assert FetchOk(cfg, h, s, f);
      assert s.fetches[f].phase.Cleaned? || s.calls[s.fetches[f].starter].answer == Waiting(f);
      assert !Due(s, s.fetches[f].starter);
    }
    forall k
      ensures CacheOk(cfg, h, s', k)
    {
      assert CacheOk(cfg, h, s, k);
    }
    forall c | 0 <= c < |s'.calls|
      ensures CallOk(cfg, h, s', c)
    {
      assert CallOk(cfg, h, s, c) && !Due(s, c);
    }
    forall k
      ensures PendingOk(s', k)
    {
      assert PendingOk(s, k);
    }
  }

  /** Renaming the state's own position changes nothing the invariant reads. */
  lemma MomentKeeps(cfg: Config, h: seq<State>, s: State, moment: nat)
    requires Inv(cfg, h, s) && s.moment <= moment < |h| && ClockAt(h, moment) == s.now
    ensures Inv(cfg, h, s.(moment := moment))
  {
    var s' := s.(moment := moment);
    forall f | 0 <= f < |s'.fetches|
      ensures FetchOk(cfg, h, s', f)
    {
      assert FetchOk(cfg, h, s, f);
    }
    forall k
      ensures CacheOk(cfg, h, s', k) && PendingOk(s', k)
    {
      assert CacheOk(cfg, h, s, k) && PendingOk(s, k);
    }
    forall c | 0 <= c < |s'.calls|
      ensures CallOk(cfg, h, s', c)
    {
      assert CallOk(cfg, h, s, c);
    }
  }

  lemma BodyKeeps(cfg: Config, h: seq<State>, e: Event, h': seq<State>)
    requires |h| > 0 && Enabled(cfg, h, e) && !e.Tick?
    requires h <= h' && Inv(cfg, h', h[|h| - 1]) && h[|h| - 1].moment == |h| - 1
    ensures Inv(cfg, h', Body(cfg, h, e))
  {
    var s := h[|h| - 1];
    match e
    case Resolve(key, forceFresh) => ResolveKeeps(cfg, h', s, key, forceFresh);
    case OwnerReads(f) =>
      assert FetchOk(cfg, h', s, f) && h'[|h| - 1] == s;
      assert ClockAt(h', s.fetches[f].startedAt) <= s.now;
      var v := Stamped(s.owner(s.fetches[f].key), f, s.moment);
      PhaseKeeps(cfg, h', s, f, Answered(v));
    case Complete(f) =>
      var v := s.fetches[f].phase.value;
      assert FetchOk(cfg, h', s, f);
      assert ClockAt(h', s.fetches[f].startedAt) == ClockAt(h, s.fetches[f].startedAt);
      PhaseKeeps(cfg, h', s, f, Settled(Some(v), s.now));
      FillKeeps(cfg, h', WithPhase(s, f, Settled(Some(v), s.now)), s.fetches[f].key, v);
    case Fail(f) =>
      assert FetchOk(cfg, h', s, f);
      PhaseKeeps(cfg, h', s, f, Settled(None, s.now));
    case Resume(c) => ResumeKeeps(cfg, h', s, c);
    case Invalidate(key) => InvalidateKeeps(cfg, h', s, key);
    case OwnerChanges(owner) => OwnerChangeKeeps(cfg, h', s, owner);
  }

  lemma NextKeeps(cfg: Config, h: seq<State>, e: Event)
    requires |h| > 0 && Enabled(cfg, h, e) && Inv(cfg, h, h[|h| - 1])
    ensures Inv(cfg, h + [Next(cfg, h, e)], Next(cfg, h, e))
  {
    var s, s' := h[|h| - 1], Next(cfg, h, e);
    var h' := h + [s'];
    ClockStep(cfg, h, e);
    GrowHistory(cfg, h, s, s');
    assert h'[|h|] == s' && ClockAt(h', |h|) == s'.now;
    if e.Tick? {
      TickKeeps(cfg, h', s, s');
    } else {
      BodyKeeps(cfg, h, e, h');
      MomentKeeps(cfg, h', Body(cfg, h, e), |h|);
    }
  }

  /** The invariant holds at every position of every run, against the run up to there. */
  lemma {:induction false} RunKeeps(cfg: Config, trace: seq<State>, events: seq<Event>, k: nat)
    requires IsRun(cfg, trace, events) && k < |trace|
    ensures Inv(cfg, trace[..k + 1], trace[k])
  {
    if k == 0 {
      assert trace[..1] == [trace[0]];
      KeysOfEmpty<string, Entry<Stamped>>();
    } else {
      RunKeeps(cfg, trace, events, k - 1);
      var h := trace[..k];
      assert h[|h| - 1] == trace[k - 1];
      assert StepAt(cfg, trace, events, k - 1);
      NextKeeps(cfg, h, events[k - 1]);
      assert trace[..k + 1] == h + [trace[k]];
    }
  }

  // ----- What callers can rely on ---------------------------------------------------------------

  /**
   Bounded staleness, over every interleaving. A value returned at time t was the owner's value
   for that key at some position of the run no earlier than t - ttl - timeout, later than that unless
   the TTL is zero, and no later than t; and a forced call's value was read at or after the call began.
   */
  lemma ReturnedValueIsFresh(cfg: Config, trace: seq<State>, events: seq<Event>, k: nat, c: nat)
    requires IsRun(cfg, trace, events) && k < |trace| && c < |trace[k].calls| && trace[k].calls[c].answer.Got?
    ensures var call := trace[k].calls[c];
            exists r: nat :: r <= k && trace[r].owner(call.key) == call.answer.value.principal
                             && call.answer.at - cfg.ttl - cfg.timeout <= trace[r].now <= call.answer.at
                             && (cfg.ttl >= 1 ==> call.answer.at - cfg.ttl - cfg.timeout < trace[r].now)
                             && (call.forced ==> call.calledAt <= r)
  {
    RunKeeps(cfg, trace, events, k);
    assert CallOk(cfg, trace[..k + 1], trace[k], c);
    var r := trace[k].calls[c].answer.value.readAt;
    assert trace[..k + 1][r] == trace[r] && ClockAt(trace[..k + 1], r) == trace[r].now;
  }

  /** A cache hit is strictly fresher: its value was read after t - ttl - timeout. */
  lemma HitIsStrictlyFresher(cfg: Config, trace: seq<State>, events: seq<Event>, k: nat, key: string)
    requires IsRun(cfg, trace, events) && k < |trace|
    ensures var hit := CacheGet(trace[k].cache, key, trace[k].now).1;
            hit.Some? ==>
              exists r: nat :: r <= k && trace[r].owner(key) == hit.value.principal
                               && trace[k].now - cfg.ttl - cfg.timeout < trace[r].now <= trace[k].now
  {
    RunKeeps(cfg, trace, events, k);
    assert CacheOk(cfg, trace[..k + 1], trace[k], key);
    var found := Get(trace[k].cache, key);
    if found.Some? {
      var r := found.value.value.readAt;
      assert trace[..k + 1][r] == trace[r] && ClockAt(trace[..k + 1], r) == trace[r].now;
    }
  }

  /** Once its clean-up has run, a fetch is pending nowhere; a failed one is cached nowhere, ever. */
  lemma FailedFetchLeavesNothing(cfg: Config, trace: seq<State>, events: seq<Event>, k: nat, f: nat, key: string)
    requires IsRun(cfg, trace, events) && k < |trace| && f < |trace[k].fetches|
    ensures trace[k].fetches[f].phase.Cleaned? && key in trace[k].inFlight ==> trace[k].inFlight[key] != f
    ensures trace[k].fetches[f].phase.IsSettled() && trace[k].fetches[f].phase.outcome.None? && Get(trace[k].cache, key).Some? ==>
              Get(trace[k].cache, key).value.value.fetch != f
  {
    RunKeeps(cfg, trace, events, k);
    assert CacheOk(cfg, trace[..k + 1], trace[k], key) && PendingOk(trace[k], key);
  }

  // ----- Single flight --------------------------------------------------------------------------

  ghost predicate Outstanding(s: State, key: string, f: nat) {
    f < |s.fetches| && s.fetches[f].key == key && !s.fetches[f].forced && !s.fetches[f].phase.Cleaned?
  }

  /** The unforced fetches under way for a key are exactly the one the map has pending, if any. */
  ghost predicate SingleFlight(s: State, key: string) {
    forall f :: Outstanding(s, key, f) <==> key in s.inFlight && s.inFlight[key] == f
  }

  /** The event is the clean-up of a forced fetch for this key. */
  ghost predicate ForcedCleanUp(s: State, e: Event, key: string) {
    && e.Resume? && e.call < |s.calls| && s.calls[e.call].answer.Waiting? && s.calls[e.call].answer.fetch < |s.fetches|
    && var fetch := s.fetches[s.calls[e.call].answer.fetch];
       fetch.forced && fetch.key == key && fetch.starter == e.call
  }

  /** The call that started a cleaned-up fetch no longer waits for it. */
  ghost predicate StartersDone(s: State) {
    forall f :: 0 <= f < |s.fetches| && s.fetches[f].phase.Cleaned? && s.fetches[f].starter < |s.calls| ==>
      s.calls[s.fetches[f].starter].answer != Waiting(f)
  }

  lemma StartersDoneKept(cfg: Config, h: seq<State>, e: Event)
    requires |h| > 0 && Enabled(cfg, h, e) && Inv(cfg, h, h[|h| - 1]) && StartersDone(h[|h| - 1])
    ensures StartersDone(Next(cfg, h, e))
  {
    var s, s' := h[|h| - 1], Next(cfg, h, e);
    forall f | 0 <= f < |s'.fetches| && s'.fetches[f].phase.Cleaned? && s'.fetches[f].starter < |s'.calls|
      ensures s'.calls[s'.fetches[f].starter].answer != Waiting(f)
    {
      assert FetchOk(cfg, h, s, f);
    }
  }

  /**
   The unconditional delete: a step keeps single flight for a key exactly when it is not a forced
   fetch cleaning up while an unforced one is pending.
   */
  lemma SingleFlightKeptIff(cfg: Config, h: seq<State>, e: Event, key: string)
    requires |h| > 0 && Enabled(cfg, h, e) && Inv(cfg, h, h[|h| - 1])
    requires StartersDone(h[|h| - 1]) && SingleFlight(h[|h| - 1], key)
    ensures SingleFlight(Next(cfg, h, e), key) <==>
              !(ForcedCleanUp(h[|h| - 1], e, key) && key in h[|h| - 1].inFlight)
  {
    var s, s' := h[|h| - 1], Next(cfg, h, e);
    if e.Resolve? {
      ResolveSingleFlight(s, e.key, e.forceFresh, key);
      SameFetchesSameFlight(ResolveStep(s, e.key, e.forceFresh), s', key);
    } else if e.Resume? {
      ResumeSingleFlight(cfg, h, s, e.call, key);
      SameFetchesSameFlight(ResumeStep(s, e.call), s', key);
    } else {
      SameFetchesSameFlight(s, s', key);
    }
  }

  /** No event but resolve and resume touches the pending map or cleans a fetch up. */
  lemma SameFetchesSameFlight(s: State, s': State, key: string)
    requires |s.fetches| == |s'.fetches| && s.inFlight == s'.inFlight
    requires forall f :: 0 <= f < |s.fetches| ==>
               && s.fetches[f].key == s'.fetches[f].key && s.fetches[f].forced == s'.fetches[f].forced
               && (s.fetches[f].phase.Cleaned? <==> s'.fetches[f].phase.Cleaned?)
    ensures SingleFlight(s, key) <==> SingleFlight(s', key)
  {
    assert forall f: nat :: Outstanding(s, key, f) <==> Outstanding(s', key, f);
  }

  lemma ResolveSingleFlight(s: State, k: string, forceFresh: bool, key: string)
    requires PendingOk(s, key) && SingleFlight(s, key)
    ensures SingleFlight(ResolveStep(s, k, forceFresh), key)
  {
    var s' := ResolveStep(s, k, forceFresh);
    forall f: nat
      ensures Outstanding(s', key, f) <==> key in s'.inFlight && s'.inFlight[key] == f
    {
      assert Outstanding(s, key, f) <==> key in s.inFlight && s.inFlight[key] == f;
    }
  }

  lemma ResumeSingleFlight(cfg: Config, h: seq<State>, s: State, c: nat, key: string)
    requires Inv(cfg, h, s) && StartersDone(s) && SingleFlight(s, key)
    requires Due(s, c)
    ensures SingleFlight(ResumeStep(s, c), key) <==> !(ForcedCleanUp(s, Resume(c), key) && key in s.inFlight)
  {
    var s' := ResumeStep(s, c);
    var f := s.calls[c].answer.fetch;
    assert CallOk(cfg, h, s, c) && FetchOk(cfg, h, s, f) && PendingOk(s, key);
    forall g: nat
      ensures Outstanding(s', key, g) <==> Outstanding(s, key, g) && !(s.fetches[f].starter == c && g == f)
    {
    }
    if s.fetches[f].starter == c && s.fetches[f].key == key {
      if !s.fetches[f].forced {
        assert Outstanding(s, key, f);
        assert forall g: nat :: !Outstanding(s', key, g);
      } else if key in s.inFlight {
        assert Outstanding(s, key, s.inFlight[key]) && Outstanding(s', key, s.inFlight[key]);
      } else {
        assert forall g: nat :: !Outstanding(s, key, g);
      }
    } else {
      assert key in s'.inFlight <==> key in s.inFlight;
      assert key in s.inFlight ==> s'.inFlight[key] == s.inFlight[key];
      if s.fetches[f].starter == c && Outstanding(s, key, f) {
        assert false;
      }
      assert forall g: nat :: Outstanding(s', key, g) <==> Outstanding(s, key, g);
    }
  }

  /** The run has no forced fetch cleaning up over a pending one for this key. */
  ghost predicate NoOrphaning(trace: seq<State>, events: seq<Event>, key: string)
    requires |trace| == |events| + 1
  {
    forall k {:trigger Orphans(trace, events, key, k)} :: 0 <= k < |events| ==> !Orphans(trace, events, key, k)
  }

  ghost predicate Orphans(trace: seq<State>, events: seq<Event>, key: string, k: nat)
    requires k < |events| && |trace| == |events| + 1
  {
    ForcedCleanUp(trace[k], events[k], key) && key in trace[k].inFlight
  }

  /** In such a run at most one unforced fetch per key is ever outstanding. */
  lemma AtMostOneFetch(cfg: Config, trace: seq<State>, events: seq<Event>, key: string, k: nat)
    requires IsRun(cfg, trace, events) && k < |trace| && NoOrphaning(trace, events, key)
    ensures forall f, g :: Outstanding(trace[k], key, f) && Outstanding(trace[k], key, g) ==> f == g
  {
    RunKeepsSingleFlight(cfg, trace, events, key, k);
    OneAtMost(trace[k], key);
  }

  lemma OneAtMost(s: State, key: string)
    requires SingleFlight(s, key)
    ensures forall f, g :: Outstanding(s, key, f) && Outstanding(s, key, g) ==> f == g
  {
  }

  lemma {:induction false} RunKeepsSingleFlight(cfg: Config, trace: seq<State>, events: seq<Event>, key: string, k: nat)
    requires IsRun(cfg, trace, events) && k < |trace| && NoOrphaning(trace, events, key)
    ensures StartersDone(trace[k]) && SingleFlight(trace[k], key)
  {
    if k == 0 {
      InitialSingleFlight(trace[0], key);
    } else {
      RunKeepsSingleFlight(cfg, trace, events, key, k - 1);
      assert !Orphans(trace, events, key, k - 1);
      RunStepKeepsSingleFlight(cfg, trace, events, key, k - 1);
    }
  }

  lemma RunStepKeepsSingleFlight(cfg: Config, trace: seq<State>, events: seq<Event>, key: string, k: nat)
    requires IsRun(cfg, trace, events) && k < |events|
    requires StartersDone(trace[k]) && SingleFlight(trace[k], key) && !(ForcedCleanUp(trace[k], events[k], key) && key in trace[k].inFlight)
    ensures StartersDone(trace[k + 1]) && SingleFlight(trace[k + 1], key)
  {
    var h, s := trace[..k + 1], trace[k];
    RunStep(cfg, trace, events, k);
    RunKeeps(cfg, trace, events, k);
    assert Inv(cfg, h, s);
    StepKeepsSingleFlight(cfg, h, s, events[k], key, trace[k + 1]);
  }

  lemma InitialSingleFlight(s: State, key: string)
    requires Initial(s)
    ensures StartersDone(s) && SingleFlight(s, key)
  {
    assert forall f: nat :: !Outstanding(s, key, f);
  }

  lemma RunStep(cfg: Config, trace: seq<State>, events: seq<Event>, k: nat)
    requires IsRun(cfg, trace, events) && k < |events|
    ensures trace[..k + 1][|trace[..k + 1]| - 1] == trace[k]
    ensures Enabled(cfg, trace[..k + 1], events[k]) && trace[k + 1] == Next(cfg, trace[..k + 1], events[k])
  {
    assert StepAt(cfg, trace, events, k);
  }

  lemma StepKeepsSingleFlight(cfg: Config, h: seq<State>, s: State, e: Event, key: string, s': State)
    requires |h| > 0 && h[|h| - 1] == s && Enabled(cfg, h, e) && Inv(cfg, h, s) && s' == Next(cfg, h, e)
    requires StartersDone(s) && SingleFlight(s, key) && !(ForcedCleanUp(s, e, key) && key in s.inFlight)
    ensures StartersDone(s') && SingleFlight(s', key)
  {
    StartersDoneKept(cfg, h, e);
    SingleFlightKeptIff(cfg, h, e, key);
  }

  lemma {:induction false} RunKeepsStartersDone(cfg: Config, trace: seq<State>, events: seq<Event>, k: nat)
    requires IsRun(cfg, trace, events) && k < |trace|
    ensures StartersDone(trace[k])
  {
    if k > 0 {
      RunKeepsStartersDone(cfg, trace, events, k - 1);
      RunStep(cfg, trace, events, k - 1);
      RunKeeps(cfg, trace, events, k - 1);
      StartersDoneKept(cfg, trace[..k - 1 + 1], events[k - 1]);
    }
  }

  ghost predicate AlwaysSingleFlight(trace: seq<State>, key: string) {
    forall k :: 0 <= k < |trace| ==> SingleFlight(trace[k], key)
  }

  /**
   Over a whole run: the pending map names exactly the unforced fetches under way for a key, at
   every moment, if and only if no forced fetch ever cleans up over a pending one.
   */
  lemma SingleFlightIffNoOrphaning(cfg: Config, trace: seq<State>, events: seq<Event>, key: string)
    requires IsRun(cfg, trace, events)
    ensures AlwaysSingleFlight(trace, key) <==> NoOrphaning(trace, events, key)
  {
    if NoOrphaning(trace, events, key) {
      forall k | 0 <= k < |trace|
        ensures SingleFlight(trace[k], key)
      {
        RunKeepsSingleFlight(cfg, trace, events, key, k);
      }
    }
    if AlwaysSingleFlight(trace, key) {
      forall k | 0 <= k < |events|
        ensures !Orphans(trace, events, key, k)
      {
        RunKeepsStartersDone(cfg, trace, events, k);
        RunStep(cfg, trace, events, k);
        RunKeeps(cfg, trace, events, k);
        assert SingleFlight(trace[k], key) && SingleFlight(trace[k + 1], key);
        SingleFlightKeptIff(cfg, trace[..k + 1], events[k], key);
      }
    }
  }

  /**
   What an orphan leads to: the next unforced miss, finding nothing pending, leaves two fetches
   outstanding if and only if one was outstanding already.
   */
  lemma MissBesideOrphanIff(s: State, key: string)
    requires key !in s.inFlight && CacheGet(s.cache, key, s.now).1.None?
    ensures (exists f, g :: f < g && Outstanding(ResolveStep(s, key, false), key, f) && Outstanding(ResolveStep(s, key, false), key, g))
            <==> exists f :: Outstanding(s, key, f)
  {
    var s', n := ResolveStep(s, key, false), |s.fetches|;
    assert Outstanding(s', key, n);
    forall f: nat | f != n
      ensures Outstanding(s', key, f) <==> Outstanding(s, key, f)
    {
    }
    if exists f: nat :: Outstanding(s, key, f) {
      var f: nat :| Outstanding(s, key, f);
      assert f < n && Outstanding(s', key, f);
    }
  }

  /** A run that never forces a key has nothing to orphan, so it keeps single flight for it. */
  lemma {:induction false} UnforcedRunKeepsSingleFlight(cfg: Config, trace: seq<State>, events: seq<Event>, key: string, k: nat)
    requires IsRun(cfg, trace, events) && k < |trace|
    requires forall i :: 0 <= i < |events| && events[i].Resolve? && events[i].key == key ==> !events[i].forceFresh
    ensures SingleFlight(trace[k], key)
    ensures forall f :: 0 <= f < |trace[k].fetches| && trace[k].fetches[f].key == key ==> !trace[k].fetches[f].forced
  {
    forall i | 0 <= i < |events|
      ensures !ForcedCleanUp(trace[i], events[i], key)
    {
      NeverForced(cfg, trace, events, key, i);
    }
    NeverForced(cfg, trace, events, key, k);
    RunKeepsSingleFlight(cfg, trace, events, key, k);
  }

  lemma {:induction false} NeverForced(cfg: Config, trace: seq<State>, events: seq<Event>, key: string, k: nat)
    requires IsRun(cfg, trace, events) && k < |trace|
    requires forall i :: 0 <= i < |events| && events[i].Resolve? && events[i].key == key ==> !events[i].forceFresh
    ensures forall f :: 0 <= f < |trace[k].fetches| && trace[k].fetches[f].key == key ==> !trace[k].fetches[f].forced
  {
    if k > 0 {
      NeverForced(cfg, trace, events, key, k - 1);
      var h := trace[..k - 1 + 1];
      assert h[|h| - 1] == trace[k - 1];
      assert StepAt(cfg, trace, events, k - 1);
    }
  }

  /** One more enabled event makes a longer run. */
  lemma Extend(cfg: Config, trace: seq<State>, events: seq<Event>, e: Event) returns (trace': seq<State>, events': seq<Event>)
    requires IsRun(cfg, trace, events) && Enabled(cfg, trace, e)
    ensures IsRun(cfg, trace', events') && trace' == trace + [Next(cfg, trace, e)] && events' == events + [e]
  {
    trace', events' := trace + [Next(cfg, trace, e)], events + [e];
    forall k | 0 <= k < |events'|
      ensures StepAt(cfg, trace', events', k)
    {
      if k < |events| {
        assert StepAt(cfg, trace, events, k);
        assert trace'[..k + 1] == trace[..k + 1];
      } else {
        assert trace'[..k + 1] == trace;
      }
    }
  }

  /**
   The failing run, for every key: an unforced fetch is pending, a forced one fails and cleans up
   under the same key, and the next unforced call starts a second fetch beside the first.
   */
  lemma ForcedCleanUpOrphans(cfg: Config, start: State, key: string) returns (trace: seq<State>, events: seq<Event>)
    requires Initial(start)
    ensures IsRun(cfg, trace, events) && trace[0] == start
    ensures Outstanding(trace[|trace| - 1], key, 0) && Outstanding(trace[|trace| - 1], key, 2)
  {
    trace, events := [start], [];
    KeysOfEmpty<string, Entry<Stamped>>();
    trace, events := Extend(cfg, trace, events, Resolve(key, false));
    assert trace[1].cache == [] && trace[1].inFlight == map[key := 0] && |trace[1].fetches| == 1 && |trace[1].calls| == 1;
    trace, events := Extend(cfg, trace, events, Resolve(key, true));
    assert trace[2].cache == [] && trace[2].inFlight == map[key := 0] && |trace[2].fetches| == 2;
    assert trace[2].calls[1].answer == Waiting(1) && trace[2].fetches[1].starter == 1;
    trace, events := Extend(cfg, trace, events, Fail(1));
    trace, events := Extend(cfg, trace, events, Resume(1));
    assert key !in trace[4].inFlight && trace[4].cache == [] && |trace[4].fetches| == 2;
    trace, events := Extend(cfg, trace, events, Resolve(key, false));
  }
}
