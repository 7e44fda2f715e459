/**
 What an invalidation is good for: whether a call begun after it can still get a value read before it.
 */
module PipInvalidation {
  import opened Wrappers
  import opened InsertionMaps
  import opened TtlLruCaches
  import opened PipClients
  import opened PipReads
  import opened PipOrder

  predicate PendingIs(s: State, key: string, f: nat) {
    key in s.inFlight && s.inFlight[key] == f
  }

  predicate InTime(cfg: Config, h: seq<State>, f: nat)
    requires |h| > 0
  {
    var s := h[|h| - 1];
    f < |s.fetches| && s.fetches[f].startedAt < |h| && s.now <= ClockAt(h, s.fetches[f].startedAt) + cfg.timeout
  }

  /**
   A fetch for the key has read and can still hand its value on: it has arrived and is still pending, or
   it may yet arrive in time and is either pending or going to be cached for a while.
   */
  predicate CarriesOver(cfg: Config, h: seq<State>, key: string, f: nat)
    requires |h| > 0
  {
    var s := h[|h| - 1];
    && OfKey(s, key, f)
    && match s.fetches[f].phase
       case Answered(_) => InTime(cfg, h, f) && (cfg.ttl >= 1 || PendingIs(s, key, f))
       case Settled(outcome, _) => outcome.Some? && PendingIs(s, key, f)
       case _ => false
  }

  ghost predicate NothingCarriesOver(cfg: Config, h: seq<State>, key: string)
    requires |h| > 0
  {
    forall f: nat :: !CarriesOver(cfg, h, key, f)
  }

  /** The calls for the key begun from position j on got values read after position j, as far as they have any. */
  ghost predicate ReadsAfter(trace: seq<State>, key: string, j: nat)
    requires j < |trace|
  {
    var last := trace[|trace| - 1];
    forall d: nat :: |trace[j].calls| <= d && Served(last, key, d) ==> j < ReadAt(last, d)
  }

  // ----- Nothing carried over -------------------------------------------------------------------

  /** The fetch has read no later than at position j. */
  predicate Old(s: State, key: string, f: nat, j: nat) {
    OfKey(s, key, f) && ValueOf(s.fetches[f].phase).Some? && ValueOf(s.fetches[f].phase).value.readAt <= j
  }

  /** If old, the fetch is still on its way and too late to arrive. */
  predicate Harmless(cfg: Config, h: seq<State>, s: State, key: string, f: nat, j: nat) {
    Old(s, key, f, j) ==>
      && s.fetches[f].phase.Answered?
      && s.fetches[f].startedAt < |h| && s.now > ClockAt(h, s.fetches[f].startedAt) + cfg.timeout
  }

  predicate Unserved(cfg: Config, h: seq<State>, s: State, key: string, f: nat, j: nat) {
    Old(s, key, f, j) && s.fetches[f].phase.Answered? ==> cfg.ttl == 0 || Harmless(cfg, h, s, key, f, j)
  }

  predicate CallClean(cfg: Config, h: seq<State>, s: State, key: string, d: nat, j: nat) {
    d < |s.calls| && s.calls[d].key == key ==>
      match s.calls[d].answer
      case Waiting(f) => Harmless(cfg, h, s, key, f, j)
      case Got(v, _) => j < v.readAt
      case Failed => true
  }

  ghost predicate CacheClean(s: State, key: string, j: nat) {
    Get(s.cache, key).Some? ==> j < Get(s.cache, key).value.value.readAt || Get(s.cache, key).value.expiresAt <= s.now
  }

  /** Nothing read up to position j can reach a call for the key from call n on. */
  ghost predicate Clean(cfg: Config, h: seq<State>, s: State, key: string, n: nat, j: nat) {
    && CacheClean(s, key, j)
    && (key in s.inFlight ==> Harmless(cfg, h, s, key, s.inFlight[key], j))
    && (forall f: nat {:trigger Unserved(cfg, h, s, key, f, j)} :: Unserved(cfg, h, s, key, f, j))
    && (forall d: nat {:trigger CallClean(cfg, h, s, key, d, j)} :: n <= d ==> CallClean(cfg, h, s, key, d, j))
  }

  lemma FrameClean(cfg: Config, h: seq<State>, s: State, s': State, key: string, n: nat, j: nat)
    requires Clean(cfg, h, s, key, n, j) && CacheClean(s', key, j)
    requires s'.fetches == s.fetches && s'.calls == s.calls && s'.inFlight == s.inFlight && s'.now >= s.now
    ensures Clean(cfg, h, s', key, n, j)
  {
    forall f: nat
      ensures Unserved(cfg, h, s', key, f, j)
    {
      assert Unserved(cfg, h, s, key, f, j);
    }
    forall d: nat | n <= d
      ensures CallClean(cfg, h, s', key, d, j)
    {
      assert CallClean(cfg, h, s, key, d, j);
    }
  }

  /** A fetch has read just now, or has failed. */
  lemma PhaseClean(cfg: Config, h: seq<State>, s: State, key: string, f: nat, phase: Phase, n: nat, j: nat)
    requires Clean(cfg, h, s, key, n, j) && f < |s.fetches|
    requires ValueOf(phase).Some? ==> j < ValueOf(phase).value.readAt
    ensures Clean(cfg, h, WithPhase(s, f, phase), key, n, j)
  {
    var s' := WithPhase(s, f, phase);
    forall g: nat
      ensures Unserved(cfg, h, s', key, g, j)
    {
      assert Unserved(cfg, h, s, key, g, j);
    }
    forall d: nat | n <= d
      ensures CallClean(cfg, h, s', key, d, j)
    {
      assert CallClean(cfg, h, s, key, d, j);
    }
  }

  /** A fetch arrives in time: if it is old it is not cached for any time, and nobody is to get it. */
  lemma CompleteClean(cfg: Config, h: seq<State>, s: State, key: string, f: nat, n: nat, j: nat)
    requires Clean(cfg, h, s, key, n, j) && f < |s.fetches| && s.fetches[f].phase.Answered?
    requires s.fetches[f].startedAt < |h| && s.now <= ClockAt(h, s.fetches[f].startedAt) + cfg.timeout
    ensures var v := s.fetches[f].phase.value;
            Clean(cfg, h, WithPhase(s, f, Settled(Some(v), s.now))
                            .(cache := CacheSet(s.cache, cfg.maxEntries, cfg.ttl, s.fetches[f].key, v, s.now)), key, n, j)
  {
    var v := s.fetches[f].phase.value;
    var s' := WithPhase(s, f, Settled(Some(v), s.now)).(cache := CacheSet(s.cache, cfg.maxEntries, cfg.ttl, s.fetches[f].key, v, s.now));
    assert Unserved(cfg, h, s, key, f, j);
    GetAfterApply(s.cache, cfg.maxEntries, cfg.ttl, SetOp(s.fetches[f].key, v, s.now), key);
    forall g: nat
      ensures Unserved(cfg, h, s', key, g, j)
    {
      assert Unserved(cfg, h, s, key, g, j);
    }
    forall d: nat | n <= d
      ensures CallClean(cfg, h, s', key, d, j)
    {
      assert CallClean(cfg, h, s, key, d, j);
    }
  }

  lemma ResolveClean(cfg: Config, h: seq<State>, s: State, key: string, k: string, forceFresh: bool, n: nat, j: nat)
    requires Clean(cfg, h, s, key, n, j)
    ensures Clean(cfg, h, ResolveStep(s, k, forceFresh), key, n, j)
  {
    var s' := ResolveStep(s, k, forceFresh);
    GetAfterApply(s.cache, cfg.maxEntries, cfg.ttl, GetOp(k, s.now), key);
    forall g: nat
      ensures Unserved(cfg, h, s', key, g, j)
    {
      assert Unserved(cfg, h, s, key, g, j);
    }
    forall d: nat | n <= d
      ensures CallClean(cfg, h, s', key, d, j)
    {
      assert CallClean(cfg, h, s, key, d, j);
    }
  }

  lemma ResumeClean(cfg: Config, h: seq<State>, s: State, key: string, c: nat, n: nat, j: nat)
    requires Clean(cfg, h, s, key, n, j) && Due(s, c)
    requires s.fetches[s.calls[c].answer.fetch].key == s.calls[c].key
    ensures Clean(cfg, h, ResumeStep(s, c), key, n, j)
  {
    var s' := ResumeStep(s, c);
    forall g: nat
      ensures Unserved(cfg, h, s', key, g, j)
      ensures Harmless(cfg, h, s, key, g, j) ==> Harmless(cfg, h, s', key, g, j)
    {
      assert Unserved(cfg, h, s, key, g, j);
    }
    forall d: nat | n <= d
      ensures CallClean(cfg, h, s', key, d, j)
    {
      assert CallClean(cfg, h, s, key, d, j);
    }
  }

  lemma StepClean(cfg: Config, trace: seq<State>, events: seq<Event>, key: string, n: nat, j: nat, k: nat)
    requires IsRun(cfg, trace, events) && j < k < |events| && Clean(cfg, trace, trace[k], key, n, j)
    ensures Clean(cfg, trace, trace[k + 1], key, n, j)
  {
    var s, s', h := trace[k], trace[k + 1], trace[..k + 1];
    RunStep(cfg, trace, events, k);
    RunKeeps(cfg, trace, events, k);
    assert h[k].moment == k;
    match events[k]
    case Resolve(x, forceFresh) =>
      ResolveClean(cfg, trace, s, key, x, forceFresh, n, j);
      FrameClean(cfg, trace, ResolveStep(s, x, forceFresh), s', key, n, j);
    case OwnerReads(f) => PhaseThenFrame(cfg, trace, s, s', key, f, Answered(Stamped(s.owner(s.fetches[f].key), f, k)), n, j);
    case Complete(f) =>
      CompleteClean(cfg, trace, s, key, f, n, j);
      FrameClean(cfg, trace, Body(cfg, h, events[k]), s', key, n, j);
    case Fail(f) => PhaseThenFrame(cfg, trace, s, s', key, f, Settled(None, s.now), n, j);
    case Resume(c) =>
      assert CallOk(cfg, h, s, c);
      ResumeClean(cfg, trace, s, key, c, n, j);
      FrameClean(cfg, trace, ResumeStep(s, c), s', key, n, j);
    case Invalidate(x) =>
      DeleteGet(s.cache, x, key);
      FrameClean(cfg, trace, s, s', key, n, j);
    case OwnerChanges(_) => FrameClean(cfg, trace, s, s', key, n, j);
    case Tick(_) => FrameClean(cfg, trace, s, s', key, n, j);
  }

  lemma PhaseThenFrame(cfg: Config, h: seq<State>, s: State, s': State, key: string, f: nat, phase: Phase, n: nat, j: nat)
    requires Clean(cfg, h, s, key, n, j) && f < |s.fetches| && s' == WithPhase(s, f, phase).(moment := s'.moment)
    requires ValueOf(phase).Some? ==> j < ValueOf(phase).value.readAt
    ensures Clean(cfg, h, s', key, n, j)
  {
    PhaseClean(cfg, h, s, key, f, phase, n, j);
    FrameClean(cfg, h, WithPhase(s, f, phase), s', key, n, j);
  }

  /** Right after the invalidation everything is clean, unless some fetch carries a value over. */
  lemma InvalidateCleans(cfg: Config, trace: seq<State>, events: seq<Event>, key: string, j: nat)
    requires IsRun(cfg, trace, events) && j < |events| && events[j] == Invalidate(key)
    requires NothingCarriesOver(cfg, trace[..j + 1], key)
    ensures Clean(cfg, trace, trace[j + 1], key, |trace[j].calls|, j)
  {
    var h, s, s' := trace[..j + 1], trace[j], trace[j + 1];
    RunStep(cfg, trace, events, j);
    RunKeeps(cfg, trace, events, j);
    DeleteGet(s.cache, key, key);
    forall f: nat
      ensures Unserved(cfg, trace, s', key, f, j)
      ensures PendingIs(s', key, f) ==> Harmless(cfg, trace, s', key, f, j)
    {
      assert !CarriesOver(cfg, h, key, f) && PendingOk(s, key);
      assert f < |s.fetches| ==> FetchOk(cfg, h, s, f);
    }
  }

  lemma {:induction false} StaysClean(cfg: Config, trace: seq<State>, events: seq<Event>, key: string, j: nat, k: nat)
    requires IsRun(cfg, trace, events) && j < k < |trace| && events[j] == Invalidate(key)
    requires NothingCarriesOver(cfg, trace[..j + 1], key)
    ensures Clean(cfg, trace, trace[k], key, |trace[j].calls|, j)
    decreases k
  {
    if k == j + 1 {
      InvalidateCleans(cfg, trace, events, key, j);
    } else {
      StaysClean(cfg, trace, events, key, j, k - 1);
      StepClean(cfg, trace, events, key, |trace[j].calls|, j, k - 1);
    }
  }

  // ----- A value carried over -------------------------------------------------------------------

  /** Call d waits for a settled fetch that its starter has not cleaned up: both continue, and d gets its value. */
  lemma BothContinue(cfg: Config, trace0: seq<State>, events0: seq<Event>, f: nat, v: Stamped, d: nat)
    returns (trace: seq<State>, events: seq<Event>)
    requires IsRun(cfg, trace0, events0)
    requires var s := trace0[|events0|];
             && f < |s.fetches| && s.fetches[f].phase.Settled? && s.fetches[f].phase.outcome == Some(v)
             && s.fetches[f].starter < d < |s.calls| && s.calls[s.fetches[f].starter].answer == Waiting(f) && s.calls[d].answer == Waiting(f)
    ensures IsRun(cfg, trace, events) && trace0 <= trace && events0 <= events
    ensures var s, s' := trace0[|events0|], trace[|trace| - 1];
            |s'.calls| == |s.calls| && s'.calls[d] == s.calls[d].(answer := Got(v, s.now))
  {
    trace, events := Extend(cfg, trace0, events0, Resume(trace0[|events0|].fetches[f].starter));
    assert trace[|trace0|].fetches[f].phase.Cleaned? && trace[|trace0|].calls[d].answer == Waiting(f);
    trace, events := Extend(cfg, trace, events, Resume(d));
  }

  /** The value carried over has been read, and the call that started its fetch still waits for it. */
  lemma StarterWaits(cfg: Config, trace: seq<State>, events: seq<Event>, key: string, f: nat)
    requires IsRun(cfg, trace, events) && CarriesOver(cfg, trace, key, f)
    ensures var s := trace[|events|];
            && ValueOf(s.fetches[f].phase).Some? && ValueOf(s.fetches[f].phase).value.readAt <= |events|
            && s.fetches[f].starter < |s.calls| && s.calls[s.fetches[f].starter].answer == Waiting(f)
  {
    RunKeeps(cfg, trace, events, |events|);
    assert trace[..|events| + 1] == trace && FetchOk(cfg, trace, trace[|events|], f);
  }

  /** Invalidated, the key is not in the cache: the next call joins the pending fetch and gets its value. */
  lemma JoinedIsServed(cfg: Config, trace0: seq<State>, events0: seq<Event>, key: string, f: nat)
    returns (trace: seq<State>, events: seq<Event>)
    requires IsRun(cfg, trace0, events0) && CarriesOver(cfg, trace0, key, f) && PendingIs(trace0[|events0|], key, f)
    ensures IsRun(cfg, trace, events) && trace0 <= trace && events0 + [Invalidate(key)] <= events
    ensures !ReadsAfter(trace, key, |events0|)
  {
    var s := trace0[|events0|];
    StarterWaits(cfg, trace0, events0, key, f);
    var v := ValueOf(s.fetches[f].phase).value;
    InvalidatedIsNotServed(s.cache, s.inFlight, key, s.now, |s.fetches|);
    trace, events := Extend(cfg, trace0, events0, Invalidate(key));
    trace, events := Extend(cfg, trace, events, Resolve(key, false));
    assert trace[|trace0| + 1].calls == s.calls + [Call(key, false, |trace0|, Waiting(f))];
    if s.fetches[f].phase.Answered? {
      assert ClockAt(trace, s.fetches[f].startedAt) == ClockAt(trace0, s.fetches[f].startedAt);
      trace, events := Extend(cfg, trace, events, Complete(f));
    }
    trace, events := BothContinue(cfg, trace, events, f, v, |s.calls|);
    assert Served(trace[|trace| - 1], key, |s.calls|);
  }

  lemma FillThenHit(cfg: Config, trace0: seq<State>, events0: seq<Event>, key: string, f: nat)
    returns (trace: seq<State>, events: seq<Event>)
    requires IsRun(cfg, trace0, events0) && cfg.ttl >= 1
    requires OfKey(trace0[|events0|], key, f) && trace0[|events0|].fetches[f].phase.Answered? && InTime(cfg, trace0, f)
    ensures IsRun(cfg, trace, events) && trace0 <= trace && events0 <= events
    ensures var s, s' := trace0[|events0|], trace[|trace| - 1];
            && |s'.calls| == |s.calls| + 1
            && s'.calls[|s.calls|].key == key && s'.calls[|s.calls|].answer == Got(s.fetches[f].phase.value, s.now)
  {
    var s := trace0[|events0|];
    trace, events := Extend(cfg, trace0, events0, Complete(f));
    SetGet(Room(s.cache, cfg.maxEntries, key), key, Entry(s.fetches[f].phase.value, s.now + cfg.ttl), key);
    trace, events := Extend(cfg, trace, events, Resolve(key, false));
  }

  /** A value that arrives after the invalidation is in the cache for the next call. */
  lemma FilledIsHit(cfg: Config, trace0: seq<State>, events0: seq<Event>, key: string, f: nat)
    returns (trace: seq<State>, events: seq<Event>)
    requires IsRun(cfg, trace0, events0) && CarriesOver(cfg, trace0, key, f) && !PendingIs(trace0[|events0|], key, f)
    ensures IsRun(cfg, trace, events) && trace0 <= trace && events0 + [Invalidate(key)] <= events
    ensures !ReadsAfter(trace, key, |events0|)
  {
    var s := trace0[|events0|];
    StarterWaits(cfg, trace0, events0, key, f);
    trace, events := Extend(cfg, trace0, events0, Invalidate(key));
    assert ClockAt(trace, s.fetches[f].startedAt) == ClockAt(trace0, s.fetches[f].startedAt);
    trace, events := FillThenHit(cfg, trace, events, key, f);
    assert Served(trace[|trace| - 1], key, |s.calls|);
  }

  // ----- Exactly when ---------------------------------------------------------------------------

  /**
   However the run goes on from an invalidation, every call for the key begun after it gets a value read
   after it, if and only if no fetch for the key carries an earlier value over.
   */
  lemma InvalidationHoldsIff(cfg: Config, trace0: seq<State>, events0: seq<Event>, key: string)
    requires IsRun(cfg, trace0, events0)
    ensures (forall trace, events :: IsRun(cfg, trace, events) && trace0 <= trace && events0 + [Invalidate(key)] <= events ==>
               ReadsAfter(trace, key, |events0|))
            <==> NothingCarriesOver(cfg, trace0, key)
  {
    var j := |events0|;
    if !NothingCarriesOver(cfg, trace0, key) {
      var f: nat :| CarriesOver(cfg, trace0, key, f);
      if PendingIs(trace0[j], key, f) {
        var trace, events := JoinedIsServed(cfg, trace0, events0, key, f);
      } else {
        var trace, events := FilledIsHit(cfg, trace0, events0, key, f);
      }
    } else {
      forall trace, events | IsRun(cfg, trace, events) && trace0 <= trace && events0 + [Invalidate(key)] <= events
        ensures ReadsAfter(trace, key, j)
      {
        CleanReadsAfter(cfg, trace, events, key, j, trace0);
      }
    }
  }

  lemma CleanReadsAfter(cfg: Config, trace: seq<State>, events: seq<Event>, key: string, j: nat, trace0: seq<State>)
    requires IsRun(cfg, trace, events) && j < |events| && events[j] == Invalidate(key) && trace0 == trace[..j + 1]
    requires NothingCarriesOver(cfg, trace0, key)
    ensures ReadsAfter(trace, key, j)
  {
    var last := |trace| - 1;
    StaysClean(cfg, trace, events, key, j, last);
    forall d: nat | |trace[j].calls| <= d && Served(trace[last], key, d)
      ensures j < ReadAt(trace[last], d)
    {
      assert CallClean(cfg, trace, trace[last], key, d, j);
    }
  }

  /**
   The failing run, for every key: a fetch reads, the owner changes and the key is invalidated; the fetch
   arrives and fills the cache, and a call however late within the TTL gets the value from before the change.
   */
  lemma InvalidatedComesBack(cfg: Config, start: State, owner: string -> Principal, key: string, delay: nat)
    returns (trace: seq<State>, events: seq<Event>)
    requires Initial(start) && delay < cfg.ttl
    ensures IsRun(cfg, trace, events) && trace[0] == start && |trace| == 9
    ensures events == [Resolve(key, false), OwnerReads(0), OwnerChanges(owner), Invalidate(key),
                       Complete(0), Resume(0), Tick(delay), Resolve(key, false)]
    ensures |trace[3].calls| == 1 && |trace[8].calls| == 2 && Served(trace[8], key, 1)
    ensures trace[8].calls[1].answer == Got(Stamped(start.owner(key), 0, 1), start.now + delay)
  {
    var trace0, events0 := ReadThenChanged(cfg, start, owner, key);
    trace0, events0 := Extend(cfg, trace0, events0, Invalidate(key));
    assert ClockAt(trace0, 0) == start.now && Unjoined(trace0[4], key, 0);
    trace, events := RefillServes(cfg, trace0, events0, key, 0, delay);
    assert trace[3] == trace0[3];
  }
}
