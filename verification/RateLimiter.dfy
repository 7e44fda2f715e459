/**
 The gateway's fixed-window rate limiter: how much it admits over any stretch of time, that
 pruning is invisible, and what its retry advice is worth. The clock is the callers' `now`.
 */
module RateLimiters {
  import opened Wrappers

  datatype Window = Window(count: int, start: int)

  /** Both are positive in every configuration the gateway accepts. */
  datatype Options = Options(windowMs: int, max: int)

  predicate Configured(o: Options) {
    o.windowMs >= 1 && o.max >= 1
  }

  datatype Decision = Decision(allowed: bool, remaining: int, limit: int, resetAt: int, retryAfterSeconds: int)

  type Windows = map<string, Window>

  function CeilDiv(n: int, d: int): int
    requires d >= 1
  {
    -((-n) / d)
  }

  // ----- One call ---------------------------------------------------------------------------

  predicate Elapsed(o: Options, w: Window, now: int) {
    now - w.start >= o.windowMs
  }

  function Current(o: Options, ws: Windows, key: string, now: int): Window {
    if key !in ws || Elapsed(o, ws[key], now) then Window(0, now) else ws[key]
  }

  function Decide(o: Options, w: Window, now: int): Decision {
    var resetAt := w.start + o.windowMs;
    if w.count >= o.max then
      var wait := CeilDiv(resetAt - now, 1000);
      Decision(false, 0, o.max, resetAt, if wait > 1 then wait else 1)
    else
      var left := o.max - (w.count + 1);
      Decision(true, if left > 0 then left else 0, o.max, resetAt, 0)
  }

  function AfterConsume(o: Options, ws: Windows, key: string, now: int): Windows {
    var w := Current(o, ws, key, now);
    ws[key := if w.count >= o.max then w else w.(count := w.count + 1)]
  }

  function AfterPrune(o: Options, ws: Windows, now: int): Windows {
    map k | k in ws && !Elapsed(o, ws[k], now) :: ws[k]
  }

  class FixedWindowRateLimiter {
    const options: Options
    var windows: Windows

    constructor (options: Options)
      ensures this.options == options && windows == map[]
    {
      this.options := options;
      windows := map[];
    }

    method Consume(key: string, now: int) returns (d: Decision)
      modifies this`windows
      ensures d == Decide(options, Current(options, old(windows), key, now), now)
      ensures windows == AfterConsume(options, old(windows), key, now)
      ensures d.limit == options.max && (d.allowed ==> d.retryAfterSeconds == 0)
    {
      var isNewWindow := key !in windows || now - windows[key].start >= options.windowMs;
      var state := if isNewWindow then Window(0, now) else windows[key];
      var resetAt := state.start + options.windowMs;
      if state.count >= options.max {
        windows := windows[key := state];
        var wait := CeilDiv(resetAt - now, 1000);
        return Decision(false, 0, options.max, resetAt, if wait > 1 then wait else 1);
      }
      state := state.(count := state.count + 1);
      windows := windows[key := state];
      var left := options.max - state.count;
      d := Decision(true, if left > 0 then left else 0, options.max, resetAt, 0);
    }

    method Prune(now: int)
      modifies this`windows
      ensures windows == AfterPrune(options, old(windows), now)
      ensures forall k :: k in windows <==> Live(options, old(windows), k, now)
    {
      var todo := windows.Keys;
      while todo != {}
        invariant todo <= windows.Keys <= old(windows).Keys
        invariant forall k :: k in windows ==> windows[k] == old(windows)[k]
        invariant forall k :: k in old(windows) && k !in todo ==> (k in windows <==> !Elapsed(options, old(windows)[k], now))
        decreases |todo|
      {
        var key :| key in todo;
        if now - windows[key].start >= options.windowMs {
          windows := windows - {key};
        }
        todo := todo - {key};
      }
    }
  }

  // ----- Runs -------------------------------------------------------------------------------

  datatype Event = Request(key: string, at: int) | PruneAt(at: int)

  function After(o: Options, ws: Windows, e: Event): Windows {
    match e
    case Request(key, at) => AfterConsume(o, ws, key, at)
    case PruneAt(at) => AfterPrune(o, ws, at)
  }

  predicate Admits(o: Options, ws: Windows, e: Event) {
    e.Request? && Decide(o, Current(o, ws, e.key, e.at), e.at).allowed
  }

  /** Times do not go back, and none is before `now`. */
  predicate InOrder(events: seq<Event>, now: int) {
    events != [] ==> events[0].at >= now && InOrder(events[1..], events[0].at)
  }

  /** How many requests of `key` at times in [a, b) the limiter admits. */
  function Admitted(o: Options, ws: Windows, events: seq<Event>, key: string, a: int, b: int): nat
    decreases |events|
  {
    if events == [] then 0
    else
      var e := events[0];
      (if Admits(o, ws, e) && e.key == key && a <= e.at < b then 1 else 0)
      + Admitted(o, After(o, ws, e), events[1..], key, a, b)
  }

  /** A window is opened by a request that it admits and counts. */
  ghost predicate Sane(o: Options, ws: Windows) {
    forall k :: k in ws ==> 1 <= ws[k].count <= o.max
  }

  lemma AfterKeepsSane(o: Options, ws: Windows, e: Event)
    requires Configured(o) && Sane(o, ws)
    ensures Sane(o, After(o, ws, e))
  {
  }

  // ----- At most so many --------------------------------------------------------------------

  /** How many windows can open in a stretch of the given length: they open `windowMs` apart. */
  function Openings(o: Options, length: int): nat
    requires Configured(o)
    decreases if length > 0 then length else 0
  {
    if length <= 0 then 0 else 1 + Openings(o, length - o.windowMs)
  }

  lemma DivideOneMore(n: int, d: int)
    requires d >= 1
    ensures (n + d) / d == n / d + 1
  {
    var q, r := n / d, n % d;
    assert n + d == d * (q + 1) + r;
    DivisionUnique(n + d, d, q + 1, r);
  }

  lemma DivisionUnique(n: int, d: int, q: int, r: int)
    requires d >= 1 && 0 <= r < d && n == d * q + r
    ensures n / d == q
  {
    var p := n / d;
    assert n == d * p + n % d;
    if p < q {
      MulMonotone(d, p + 1, q);
    } else if p > q {
      MulMonotone(d, q + 1, p);
    }
  }

  /** That is the length divided by the window, rounded up. */
  lemma {:induction false} OpeningsIsCeil(o: Options, length: int)
    requires Configured(o) && length >= 0
    ensures Openings(o, length) == CeilDiv(length, o.windowMs)
    decreases length
  {
    if length > o.windowMs {
      OpeningsIsCeil(o, length - o.windowMs);
      DivideOneMore(-length, o.windowMs);
    } else if length > 0 {
      DivisionUnique(-length, o.windowMs, -1, o.windowMs - length);
    }
  }

  lemma {:induction false} OpeningsMonotone(o: Options, shorter: int, longer: int)
    requires Configured(o) && shorter <= longer
    ensures Openings(o, shorter) <= Openings(o, longer)
    decreases if shorter > 0 then shorter else 0
  {
    if shorter > 0 {
      OpeningsMonotone(o, shorter - o.windowMs, longer - o.windowMs);
    }
  }

  predicate Live(o: Options, ws: Windows, key: string, now: int) {
    key in ws && !Elapsed(o, ws[key], now)
  }

  /** What `key` can still be admitted from `now` up to `b`: the rest of its window, then whole ones. */
  function Potential(o: Options, ws: Windows, key: string, now: int, b: int): int
    requires Configured(o)
  {
    if Live(o, ws, key, now) then o.max - ws[key].count + o.max * Openings(o, b - (ws[key].start + o.windowMs))
    else o.max * Openings(o, b - now)
  }

  lemma MulMonotone(m: int, x: int, y: int)
    requires m >= 0 && x <= y
    ensures m * x <= m * y
  {
  }

  lemma PotentialFalls(o: Options, ws: Windows, key: string, now: int, later: int, b: int)
    requires Configured(o) && Sane(o, ws) && now <= later
    ensures 0 <= Potential(o, ws, key, later, b) <= Potential(o, ws, key, now, b)
  {
    if Live(o, ws, key, now) && !Live(o, ws, key, later) {
      OpeningsMonotone(o, b - later, b - (ws[key].start + o.windowMs));
      MulMonotone(o.max, Openings(o, b - later), Openings(o, b - (ws[key].start + o.windowMs)));
    } else if !Live(o, ws, key, now) {
      OpeningsMonotone(o, b - later, b - now);
      MulMonotone(o.max, Openings(o, b - later), Openings(o, b - now));
    }
  }

  /** An admitted request before `b` uses up one; a request of another key, or a prune, none. */
  lemma PotentialPays(o: Options, ws: Windows, e: Event, key: string, b: int)
    requires Configured(o) && Sane(o, ws) && e.at < b
    ensures Potential(o, After(o, ws, e), key, e.at, b) + (if Admits(o, ws, e) && e.key == key then 1 else 0)
            <= Potential(o, ws, key, e.at, b)
  {
    if e.Request? && e.key == key && !Live(o, ws, key, e.at) {
      var length := b - e.at;
      assert Openings(o, length) == 1 + Openings(o, length - o.windowMs);
      assert o.max * (1 + Openings(o, length - o.windowMs)) == o.max + o.max * Openings(o, length - o.windowMs);
      assert b - (e.at + o.windowMs) == length - o.windowMs;
    }
  }

  lemma {:induction false} NoneAfterwards(o: Options, ws: Windows, events: seq<Event>, key: string, a: int, b: int)
    requires InOrder(events, b)
    ensures Admitted(o, ws, events, key, a, b) == 0
    decreases |events|
  {
    if events != [] {
      InOrderEarlier(events[1..], events[0].at, b);
      NoneAfterwards(o, After(o, ws, events[0]), events[1..], key, a, b);
    }
  }

  lemma InOrderEarlier(events: seq<Event>, now: int, earlier: int)
    requires InOrder(events, now) && earlier <= now
    ensures InOrder(events, earlier)
  {
  }

  lemma {:induction false} AdmittedWithinPotential(o: Options, ws: Windows, events: seq<Event>, key: string, now: int, a: int, b: int)
    requires Configured(o) && Sane(o, ws) && InOrder(events, now)
    ensures Admitted(o, ws, events, key, a, b) <= Potential(o, ws, key, now, b)
    decreases |events|
  {
    if events == [] {
      PotentialFalls(o, ws, key, now, now, b);
    } else {
      var e := events[0];
      PotentialFalls(o, ws, key, now, e.at, b);
      if e.at < b {
        PotentialPays(o, ws, e, key, b);
        AfterKeepsSane(o, ws, e);
        AdmittedWithinPotential(o, After(o, ws, e), events[1..], key, e.at, a, b);
      } else {
        InOrderEarlier(events, e.at, b);
        NoneAfterwards(o, ws, events, key, a, b);
      }
    }
  }

  /** From `a` on: less than a whole window's rest, and then whole windows. */
  lemma PotentialAtStart(o: Options, ws: Windows, key: string, a: int, b: int)
    requires Configured(o) && Sane(o, ws)
    ensures Potential(o, ws, key, a, b) <= o.max - 1 + o.max * Openings(o, b - a)
  {
    if Live(o, ws, key, a) {
      var rest := b - (ws[key].start + o.windowMs);
      OpeningsMonotone(o, rest, b - a);
      MulMonotone(o.max, Openings(o, rest), Openings(o, b - a));
    }
  }

  /**
   In any run, any half-open stretch of time of length T sees fewer than max * (ceil(T / window) + 1)
   requests of one key admitted.
   */
  lemma {:induction false} AdmissionBound(o: Options, ws: Windows, events: seq<Event>, key: string, now: int, a: int, length: nat)
    requires Configured(o) && Sane(o, ws) && InOrder(events, now)
    ensures Admitted(o, ws, events, key, a, a + length) < o.max * (CeilDiv(length, o.windowMs) + 1)
    decreases |events|
  {
    OpeningsIsCeil(o, length);
    var n := Openings(o, length);
    assert o.max * (n + 1) == o.max + o.max * n;
    if events == [] || events[0].at >= a {
      if events != [] {
        InOrderEarlier(events, events[0].at, a);
      }
      AdmittedWithinPotential(o, ws, events, key, a, a, a + length);
      PotentialAtStart(o, ws, key, a, a + length);
    } else {
      AfterKeepsSane(o, ws, events[0]);
      AdmissionBound(o, After(o, ws, events[0]), events[1..], key, events[0].at, a, length);
    }
  }

  /** In particular, a stretch of one window's length sees fewer than twice the quota. */
  lemma OneWindowBound(o: Options, events: seq<Event>, key: string, now: int, a: int)
    requires Configured(o) && InOrder(events, now)
    ensures Admitted(o, map[], events, key, a, a + o.windowMs) < 2 * o.max
  {
    CeilOfOne(o.windowMs);
    AdmissionBound(o, map[], events, key, now, a, o.windowMs);
  }

  lemma CeilOfOne(d: int)
    requires d >= 1
    ensures CeilDiv(d, d) == 1
  {
    DivisionUnique(-d, d, -1, 0);
  }

  // ----- Until the window ends ----------------------------------------------------------------

  function Burst(key: string, at: int, n: nat): seq<Event> {
    seq(n, i => Request(key, at))
  }

  function Least(n: int, m: int): int {
    if n < m then n else m
  }

  function Counting(ws: Windows, key: string, more: int): Windows
    requires key in ws
  {
    ws[key := Window(ws[key].count + more, ws[key].start)]
  }

  lemma CountingTwice(ws: Windows, key: string, x: int, y: int)
    requires key in ws
    ensures Counting(Counting(ws, key, x), key, y) == Counting(ws, key, x + y)
    ensures Counting(ws, key, 0) == ws
  {
  }

  lemma LiveRequest(o: Options, ws: Windows, key: string, at: int)
    requires Live(o, ws, key, at)
    ensures Admits(o, ws, Request(key, at)) <==> ws[key].count < o.max
    ensures AfterConsume(o, ws, key, at) == Counting(ws, key, if ws[key].count < o.max then 1 else 0)
  {
  }

  /** Of n more requests in a window that has counted c, exactly the first max - c are admitted. */
  lemma {:induction false} BurstAdmits(o: Options, ws: Windows, key: string, at: int, n: nat, rest: seq<Event>, a: int, b: int)
    requires Live(o, ws, key, at) && ws[key].count <= o.max && a <= at < b
    ensures Admitted(o, ws, Burst(key, at, n) + rest, key, a, b)
            == Least(n, o.max - ws[key].count) + Admitted(o, Counting(ws, key, Least(n, o.max - ws[key].count)), rest, key, a, b)
    decreases n
  {
    var events := Burst(key, at, n) + rest;
    if n == 0 {
      assert events == rest;
      CountingTwice(ws, key, 0, 0);
    } else {
      assert events[0] == Request(key, at) && events[1..] == Burst(key, at, n - 1) + rest;
      var step := if ws[key].count < o.max then 1 else 0;
      LiveRequest(o, ws, key, at);
      BurstAdmits(o, Counting(ws, key, step), key, at, n - 1, rest, a, b);
      CountingTwice(ws, key, step, Least(n - 1, o.max - ws[key].count - step));
    }
  }

  /** `remaining` is how many more requests will be admitted before `resetAt`, and not one more. */
  lemma RemainingIsExact(o: Options, ws: Windows, key: string, now: int, later: int, n: nat)
    requires Configured(o) && Sane(o, ws)
    requires now <= later < Decide(o, Current(o, ws, key, now), now).resetAt
    ensures Admitted(o, AfterConsume(o, ws, key, now), Burst(key, later, n) + [], key, later, later + 1)
            == Least(n, Decide(o, Current(o, ws, key, now), now).remaining)
  {
    AfterKeepsSane(o, ws, Request(key, now));
    BurstAdmits(o, AfterConsume(o, ws, key, now), key, later, n, [], later, later + 1);
  }

  /** One request, the rest of the quota at the window's end, and a full quota right after. */
  function Edge(o: Options, key: string): seq<Event>
    requires Configured(o)
  {
    [Request(key, 0)] + (Burst(key, o.windowMs - 1, o.max - 1) + SecondWindow(o, key))
  }

  function SecondWindow(o: Options, key: string): seq<Event>
    requires Configured(o)
  {
    [Request(key, o.windowMs)] + (Burst(key, o.windowMs, o.max - 1) + [])
  }

  lemma SecondWindowAdmits(o: Options, ws: Windows, key: string, a: int, b: int)
    requires Configured(o) && key in ws && ws[key].start == 0 && a <= o.windowMs < b
    ensures Admitted(o, ws, SecondWindow(o, key), key, a, b) == o.max
  {
    BurstAdmits(o, ws[key := Window(1, o.windowMs)], key, o.windowMs, o.max - 1, [], a, b);
  }

  /** The bound is reached. */
  lemma OneWindowBoundReached(o: Options, key: string)
    requires Configured(o) && o.windowMs >= 2
    ensures Admitted(o, map[], Edge(o, key), key, o.windowMs - 1, o.windowMs - 1 + o.windowMs) == 2 * o.max - 1
  {
    var w := o.windowMs;
    var a, b := w - 1, w - 1 + w;
    var first := map[][key := Window(1, 0)];
    BurstAdmits(o, first, key, w - 1, o.max - 1, SecondWindow(o, key), a, b);
    SecondWindowAdmits(o, Counting(first, key, o.max - 1), key, a, b);
  }

  // ----- Pruning is invisible -----------------------------------------------------------------

  function Decisions(o: Options, ws: Windows, events: seq<Event>): seq<Decision>
    decreases |events|
  {
    if events == [] then []
    else
      (match events[0]
       case Request(key, at) => [Decide(o, Current(o, ws, key, at), at)]
       case PruneAt(_) => [])
      + Decisions(o, After(o, ws, events[0]), events[1..])
  }

  function WithoutPrunes(events: seq<Event>): seq<Event> {
    if events == [] then []
    else (if events[0].PruneAt? then [] else [events[0]]) + WithoutPrunes(events[1..])
  }

  /** The two maps hold the same windows, leaving aside those elapsed by `now`. */
  ghost predicate SameLive(o: Options, ws: Windows, vs: Windows, now: int) {
    forall k :: (Live(o, ws, k, now) <==> Live(o, vs, k, now)) && (Live(o, ws, k, now) ==> ws[k] == vs[k])
  }

  /** Whenever and however often the limiter is pruned, every request is decided as if it never was. */
  lemma {:induction false} PruningIsInvisible(o: Options, ws: Windows, vs: Windows, events: seq<Event>, now: int)
    requires SameLive(o, ws, vs, now) && InOrder(events, now)
    ensures Decisions(o, ws, events) == Decisions(o, vs, WithoutPrunes(events))
    decreases |events|
  {
    if events != [] {
      var e, rest := events[0], events[1..];
      match e
      case PruneAt(at) =>
        PruningIsInvisible(o, After(o, ws, e), vs, rest, at);
        assert WithoutPrunes(events) == [] + WithoutPrunes(rest) == WithoutPrunes(rest);
        assert Decisions(o, ws, events) == [] + Decisions(o, After(o, ws, e), rest) == Decisions(o, After(o, ws, e), rest);
      case Request(key, at) =>
        PruningIsInvisible(o, After(o, ws, e), After(o, vs, e), rest, at);
        assert WithoutPrunes(events) == [e] + WithoutPrunes(rest);
        assert ([e] + WithoutPrunes(rest))[1..] == WithoutPrunes(rest);
    }
  }

  // ----- The retry advice -----------------------------------------------------------------------

  function Replay(o: Options, ws: Windows, events: seq<Event>): Windows
    decreases |events|
  {
    if events == [] then ws else Replay(o, After(o, ws, events[0]), events[1..])
  }

  predicate NoneOf(events: seq<Event>, key: string) {
    forall i :: 0 <= i < |events| ==> !(events[i].Request? && events[i].key == key)
  }

  predicate AllBefore(events: seq<Event>, until: int) {
    forall i :: 0 <= i < |events| ==> events[i].at <= until
  }

  /** What others do leaves a key's window alone, or takes it away once it has elapsed. */
  lemma {:induction false} QuietKeyKept(o: Options, ws: Windows, events: seq<Event>, key: string, until: int)
    requires NoneOf(events, key) && AllBefore(events, until) && key in ws
    ensures key in Replay(o, ws, events) ==> Replay(o, ws, events)[key] == ws[key]
    ensures key !in Replay(o, ws, events) ==> Elapsed(o, ws[key], until)
    decreases |events|
  {
    if events != [] {
      var ws' := After(o, ws, events[0]);
      if key in ws' {
        assert ws'[key] == ws[key];
        QuietKeyKept(o, ws', events[1..], key, until);
      } else {
        AbsentStaysAbsent(o, ws', events[1..], key);
      }
    }
  }

  lemma {:induction false} AbsentStaysAbsent(o: Options, ws: Windows, events: seq<Event>, key: string)
    requires NoneOf(events, key) && key !in ws
    ensures key !in Replay(o, ws, events)
    decreases |events|
  {
    if events != [] {
      AbsentStaysAbsent(o, After(o, ws, events[0]), events[1..], key);
    }
  }

  /**
   A denied client that makes no further request until `later`, whatever the others do, is admitted
   then if and only if the announced reset time has come.
   */
  lemma DeniedUntilReset(o: Options, ws: Windows, key: string, now: int, others: seq<Event>, later: int)
    requires Configured(o) && now <= later && NoneOf(others, key) && AllBefore(others, later)
    requires !Admits(o, ws, Request(key, now))
    ensures var d := Decide(o, Current(o, ws, key, now), now);
            Admits(o, Replay(o, AfterConsume(o, ws, key, now), others), Request(key, later)) <==> later >= d.resetAt
  {
    var ws' := AfterConsume(o, ws, key, now);
    QuietKeyKept(o, ws', others, key, later);
  }

  /** Waiting `retryAfterSeconds` is enough, and a whole second less is not unless the advice was one second. */
  lemma RetryAfterSuffices(o: Options, ws: Windows, key: string, now: int, others: seq<Event>)
    requires Configured(o) && NoneOf(others, key) && !Admits(o, ws, Request(key, now))
    ensures var d := Decide(o, Current(o, ws, key, now), now);
            var later := now + 1000 * d.retryAfterSeconds;
            && (AllBefore(others, later) ==> Admits(o, Replay(o, AfterConsume(o, ws, key, now), others), Request(key, later)))
            && (d.retryAfterSeconds > 1 ==> later - 1000 < d.resetAt)
  {
    var d := Decide(o, Current(o, ws, key, now), now);
    var wait := CeilDiv(d.resetAt - now, 1000);
    assert 1000 * wait >= d.resetAt - now > 1000 * (wait - 1);
    var later := now + 1000 * d.retryAfterSeconds;
    if AllBefore(others, later) {
      DeniedUntilReset(o, ws, key, now, others, later);
    }
  }
}
