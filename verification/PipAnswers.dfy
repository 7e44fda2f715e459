/**
 Nobody is left waiting: what a call gets when the fetch it waits for has ended, and that from every
 reachable state all calls can be answered.
 */
module PipAnswers {
  import opened Wrappers
  import opened PipClients

  /** What a promise settled with this outcome answers. */
  function Reply(outcome: Option<Stamped>, now: int): Answer {
    if outcome.Some? then Got(outcome.value, now) else Failed
  }

  function OutcomeFor(s: State, c: nat): Option<Stamped>
    requires Due(s, c)
  {
    s.fetches[s.calls[c].answer.fetch].phase.outcome
  }

  /**
   A call that continues gets the value its fetch was fulfilled with, or fails if it was rejected, whether
   it started the fetch or joined it; no other call changes.
   */
  lemma ResumeAnswers(cfg: Config, trace: seq<State>, events: seq<Event>, k: nat, c: nat)
    requires IsRun(cfg, trace, events) && k < |events| && events[k] == Resume(c)
    ensures var s, s' := trace[k], trace[k + 1];
            && Due(s, c) && s'.calls == s.calls[c := s.calls[c].(answer := Reply(OutcomeFor(s, c), s.now))]
  {
    RunStep(cfg, trace, events, k);
  }

  // ----- Whoever is due can continue ------------------------------------------------------------

  function DueCalls(s: State): set<nat> {
    set c: nat | c < |s.calls| && Due(s, c)
  }

  /** Of the calls due for a fetch, one can continue now: the one that started it, or once it has, any. */
  lemma SomeCanResume(cfg: Config, trace: seq<State>, events: seq<Event>, c: nat) returns (d: nat)
    requires IsRun(cfg, trace, events) && Due(trace[|events|], c)
    ensures Enabled(cfg, trace, Resume(d))
  {
    var s := trace[|events|];
    var f := s.calls[c].answer.fetch;
    RunKeeps(cfg, trace, events, |events|);
    assert FetchOk(cfg, trace[..|events| + 1], s, f);
    d := if s.fetches[f].phase.Cleaned? then c else s.fetches[f].starter;
  }

  lemma ResumeLeavesOthersDue(s: State, s': State, c: nat)
    requires Due(s, c) && s'.fetches == ResumeStep(s, c).fetches && s'.calls == ResumeStep(s, c).calls
    ensures forall d: nat :: Due(s', d) <==> Due(s, d) && d != c
    ensures forall d: nat :: Due(s', d) ==> OutcomeFor(s', d) == OutcomeFor(s, d)
    ensures DueCalls(s') == DueCalls(s) - {c}
  {
  }

  /** Each call that was due has the outcome of its fetch, and the others are as they were. */
  ghost predicate AllDueAnswered(s: State, s': State) {
    && |s'.calls| == |s.calls|
    && forall c: nat {:trigger Due(s, c)} :: c < |s.calls| ==>
         s'.calls[c] == if Due(s, c) then s.calls[c].(answer := Reply(OutcomeFor(s, c), s.now)) else s.calls[c]
  }

  /** The longer run goes on from the shorter by resuming calls alone, which touches neither clock nor cache. */
  ghost predicate ResumesOn(trace0: seq<State>, events0: seq<Event>, trace: seq<State>, events: seq<Event>)
    requires |trace0| == |events0| + 1 && |trace| == |events| + 1
  {
    && trace0 <= trace && events0 <= events && (forall i :: |events0| <= i < |events| ==> events[i].Resume?)
    && trace[|events|].now == trace0[|events0|].now && trace[|events|].cache == trace0[|events0|].cache
  }

  /** From every reachable state, resuming alone leads to one where nobody is due and all who were are answered. */
  lemma {:induction false} Drain(cfg: Config, trace0: seq<State>, events0: seq<Event>) returns (trace: seq<State>, events: seq<Event>)
    requires IsRun(cfg, trace0, events0)
    ensures IsRun(cfg, trace, events) && ResumesOn(trace0, events0, trace, events)
    ensures Drained(trace[|events|]) && AllDueAnswered(trace0[|events0|], trace[|events|])
    decreases |DueCalls(trace0[|events0|])|
  {
    if Drained(trace0[|events0|]) {
      trace, events := trace0, events0;
    } else {
      var trace1, events1, d := ResumeSome(cfg, trace0, events0);
      trace, events := Drain(cfg, trace1, events1);
      DueInTwoSteps(trace0[|events0|], trace1[|events1|], trace[|events|], d);
    }
  }

  lemma ResumeSome(cfg: Config, trace0: seq<State>, events0: seq<Event>) returns (trace: seq<State>, events: seq<Event>, d: nat)
    requires IsRun(cfg, trace0, events0) && !Drained(trace0[|events0|])
    ensures IsRun(cfg, trace, events) && ResumesOn(trace0, events0, trace, events) && Due(trace0[|events0|], d)
    ensures var s, s' := trace0[|events0|], trace[|events|];
            && s'.fetches == ResumeStep(s, d).fetches && s'.calls == ResumeStep(s, d).calls
            && |DueCalls(s')| < |DueCalls(s)|
  {
    var s := trace0[|events0|];
    var c: nat :| Due(s, c);
    d := SomeCanResume(cfg, trace0, events0, c);
    trace, events := ResumeOnce(cfg, trace0, events0, d);
    ResumeLeavesOthersDue(s, trace[|events|], d);
  }

  lemma ResumeOnce(cfg: Config, trace0: seq<State>, events0: seq<Event>, c: nat) returns (trace: seq<State>, events: seq<Event>)
    requires IsRun(cfg, trace0, events0) && Enabled(cfg, trace0, Resume(c))
    ensures IsRun(cfg, trace, events) && trace0 <= trace && |trace| == |trace0| + 1 && events == events0 + [Resume(c)]
    ensures var s, s' := trace0[|events0|], trace[|events|];
            && s'.fetches == ResumeStep(s, c).fetches && s'.calls == ResumeStep(s, c).calls
            && s'.now == s.now && s'.cache == s.cache
  {
    trace, events := Extend(cfg, trace0, events0, Resume(c));
  }

  lemma DueInTwoSteps(s: State, s1: State, s2: State, d: nat)
    requires Due(s, d) && s1.fetches == ResumeStep(s, d).fetches && s1.calls == ResumeStep(s, d).calls && s1.now == s.now
    requires AllDueAnswered(s1, s2)
    ensures AllDueAnswered(s, s2)
  {
    ResumeLeavesOthersDue(s, s1, d);
    forall c: nat | c < |s.calls|
      ensures s2.calls[c] == if Due(s, c) then s.calls[c].(answer := Reply(OutcomeFor(s, c), s.now)) else s.calls[c]
    {
      assert Due(s1, c) <==> Due(s, c) && c != d;
    }
  }

  // ----- Every call can be answered -------------------------------------------------------------

  function UnderWay(s: State): set<nat> {
    set f: nat | f < |s.fetches| && !s.fetches[f].phase.IsSettled()
  }

  /** Failures alone settle every fetch. */
  lemma {:induction false} FailAll(cfg: Config, trace0: seq<State>, events0: seq<Event>) returns (trace: seq<State>, events: seq<Event>)
    requires IsRun(cfg, trace0, events0)
    ensures IsRun(cfg, trace, events) && trace0 <= trace && events0 <= events
    ensures UnderWay(trace[|events|]) == {} && trace[|events|].calls == trace0[|events0|].calls
    decreases |UnderWay(trace0[|events0|])|
  {
    var s := trace0[|events0|];
    if UnderWay(s) == {} {
      trace, events := trace0, events0;
    } else {
      var f :| f in UnderWay(s);
      trace, events := Extend(cfg, trace0, events0, Fail(f));
      assert UnderWay(trace[|events|]) == UnderWay(s) - {f};
      trace, events := FailAll(cfg, trace, events);
    }
  }

  /** No call hangs: every reachable state leads to one in which none waits, and the answered ones kept their answers. */
  lemma NobodyHangs(cfg: Config, trace0: seq<State>, events0: seq<Event>) returns (trace: seq<State>, events: seq<Event>)
    requires IsRun(cfg, trace0, events0)
    ensures IsRun(cfg, trace, events) && trace0 <= trace && events0 <= events
    ensures var s, s' := trace0[|events0|], trace[|events|];
            && |s'.calls| == |s.calls|
            && forall c: nat :: c < |s.calls| ==> !s'.calls[c].answer.Waiting? && (!s.calls[c].answer.Waiting? ==> s'.calls[c] == s.calls[c])
  {
    var trace1, events1 := FailAll(cfg, trace0, events0);
    trace, events := Drain(cfg, trace1, events1);
    var s1 := trace1[|events1|];
    RunKeeps(cfg, trace1, events1, |events1|);
    forall c: nat | c < |s1.calls| && s1.calls[c].answer.Waiting?
      ensures Due(s1, c)
    {
      assert CallOk(cfg, trace1[..|events1| + 1], s1, c);
      assert s1.calls[c].answer.fetch !in UnderWay(s1);
    }
    forall c: nat | c < |s1.calls|
      ensures !trace[|events|].calls[c].answer.Waiting?
      ensures !s1.calls[c].answer.Waiting? ==> trace[|events|].calls[c] == s1.calls[c]
    {
      assert s1.calls[c].answer.Waiting? <==> Due(s1, c);
    }
  }
}
