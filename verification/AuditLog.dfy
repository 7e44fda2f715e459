/**
 Appending to the audit log: the in-memory reference log, the database append as interleaved
 serializable transactions with bounded retry, and that retry loop itself.
 */
module AuditLogs {
  import opened Wrappers
  import opened JsText
  import opened HashChains

  const MAX_APPEND_RETRIES := 5

  // ----- What a good log is -----------------------------------------------------------------

  predicate HasId(log: seq<AuditEvent>, id: Text) {
    exists i :: 0 <= i < |log| && log[i].content.id == id
  }

  ghost predicate UniqueIds(log: seq<AuditEvent>) {
    forall i, j :: 0 <= i < j < |log| ==> log[i].content.id != log[j].content.id
  }

  ghost predicate Increasing(log: seq<AuditEvent>) {
    forall i, j :: 0 <= i < j < |log| ==> log[i].seqNo < log[j].seqNo
  }

  ghost predicate NumbersBelow(log: seq<AuditEvent>, n: int) {
    forall i :: 0 <= i < |log| ==> 1 <= log[i].seqNo < n
  }

  ghost predicate GoodLog(hash: Hasher, log: seq<AuditEvent>, nextSeq: int) {
    && Replays(hash, log) && UniqueIds(log) && Increasing(log) && NumbersBelow(log, nextSeq) && nextSeq >= 1
  }

  /** The record as stored: re-linked to the head of `log`, whatever head the caller had seen. */
  function Linked(hash: Hasher, log: seq<AuditEvent>, event: AuditEvent, seqNo: int): AuditEvent {
    event.(seqNo := seqNo, prevHash := HeadHash(log), recordHash := event.RecomputeHash(hash, HeadHash(log)))
  }

  /** The stored record says what the event said, at the time it said. */
  predicate Keeps(event: AuditEvent, row: AuditEvent) {
    row.content == event.content && row.recordedAt == event.recordedAt
  }

  lemma AppendKeepsGoodLog(hash: Hasher, log: seq<AuditEvent>, event: AuditEvent, seqNo: int, nextSeq: int)
    requires GoodLog(hash, log, seqNo) && seqNo < nextSeq && !HasId(log, event.content.id)
    ensures GoodLog(hash, log + [Linked(hash, log, event, seqNo)], nextSeq)
  {
    var log' := log + [Linked(hash, log, event, seqNo)];
    forall i | 0 <= i < |log'|
      ensures LinkOk(log', i) && ContentOk(hash, log', i)
    {
      assert HashBefore(log', i) == HashBefore(log, i);
      if i < |log| {
        assert LinkOk(log, i) && ContentOk(hash, log, i);
      }
    }
  }

  /** `ORDER BY seq DESC LIMIT 1` */
  function ReadHead(rows: seq<AuditEvent>): Option<AuditEvent> {
    if rows == [] then None
    else
      var earlier := ReadHead(rows[..|rows| - 1]);
      var last := rows[|rows| - 1];
      if earlier.Some? && earlier.value.seqNo > last.seqNo then earlier else Some(last)
  }

  /** With increasing numbers the row with the highest number is the last one written. */
  lemma {:induction false} ReadHeadIsLast(rows: seq<AuditEvent>)
    requires Increasing(rows) && rows != []
    ensures ReadHead(rows) == Some(rows[|rows| - 1])
    ensures HeadHash(rows) == ReadHead(rows).value.recordHash
  {
    if |rows| > 1 {
      ReadHeadIsLast(rows[..|rows| - 1]);
    }
  }

  // ----- The reference log ------------------------------------------------------------------

  datatype AppendError = DuplicateEvent | SerializationExhausted | StoreFailure

  class InMemoryAuditLog {
    const hash: Hasher
    var rows: seq<AuditEvent>
    var nextSeq: int

    ghost predicate Valid()
      reads this
    {
      GoodLog(hash, rows, nextSeq) && nextSeq == |rows| + 1 && forall i :: 0 <= i < |rows| ==> rows[i].seqNo == i + 1
    }

    constructor (hash: Hasher)
      ensures Valid() && rows == [] && this.hash == hash
    {
      this.hash := hash;
      rows, nextSeq := [], 1;
    }

    /** Here, and only here, the numbers have no gap: `Valid` says row i has number i + 1. */
    method Append(event: AuditEvent) returns (r: Result<AuditEvent, AppendError>)
      requires Valid()
      modifies this`rows, this`nextSeq
      ensures Valid()
      ensures HasId(old(rows), event.content.id) ==> r == Err(DuplicateEvent) && rows == old(rows)
      ensures !HasId(old(rows), event.content.id) ==>
                r == Ok(Linked(hash, old(rows), event, |old(rows)| + 1)) && rows == old(rows) + [r.value] && Keeps(event, r.value)
    {
      if HasId(rows, event.content.id) {
        return Err(DuplicateEvent);
      }
      var prevHash := if |rows| > 0 then rows[|rows| - 1].recordHash else GENESIS_HASH;
      var recordHash := event.RecomputeHash(hash, prevHash);
      var persisted := event.(seqNo := nextSeq, prevHash := prevHash, recordHash := recordHash);
      AppendKeepsGoodLog(hash, rows, event, nextSeq, nextSeq + 1);
      nextSeq := nextSeq + 1;
      rows := rows + [persisted];
      r := Ok(persisted);
    }
  }

  /** What the use case hands over: the event built against the head it happened to read. */
  function RecordEvent(hash: Hasher, content: CanonicalAuditEvent, recordedAt: int, seenHead: Text): AuditEvent {
    AuditEvent(content, recordedAt, -1, seenHead, hash(seenHead, content))
  }

  // ----- Interleaved appenders --------------------------------------------------------------

  datatype Phase =
    | Ready(attempt: nat)
    | Snapshotted(attempt: nat, seen: seq<AuditEvent>)
    | Inserted(attempt: nat, seen: seq<AuditEvent>, row: AuditEvent)
    | Committed(row: AuditEvent)
    | Duplicate
    | Exhausted
    | Crashed

  datatype Tx = Tx(event: AuditEvent, phase: Phase)

  /** `owners[i]` is the appender that wrote row i; `lost` holds numbers drawn and never committed. */
  datatype State = State(log: seq<AuditEvent>, nextSeq: int, txs: seq<Tx>, owners: seq<nat>, lost: set<int>)

  datatype Event =
    | Arrive(content: CanonicalAuditEvent, recordedAt: int, seenHead: Text)
    | TakeSnapshot(tx: nat)
    | Insert(tx: nat)
    | Commit(tx: nat)
    | FindDuplicate(tx: nat)
    | Abort(tx: nat)
    | Crash(tx: nat)

  function AfterFailure(attempt: nat): Phase {
    if attempt + 1 < MAX_APPEND_RETRIES then Ready(attempt + 1) else Exhausted
  }

  predicate UnderWay(p: Phase) {
    p.Ready? || p.Snapshotted? || p.Inserted?
  }

  /**
   Serializable isolation: a transaction that read the head commits only if no other append has
   committed since its snapshot; otherwise the database aborts it, or the insert, having waited for
   another append of the same id, finds that id taken.
   */
  predicate Enabled(s: State, e: Event) {
    match e
    case Arrive(_, _, _) => true
    case TakeSnapshot(t) => t < |s.txs| && s.txs[t].phase.Ready?
    case Insert(t) => t < |s.txs| && s.txs[t].phase.Snapshotted?
    case Commit(t) => t < |s.txs| && s.txs[t].phase.Inserted? && s.txs[t].phase.seen == s.log
    case FindDuplicate(t) => t < |s.txs| && s.txs[t].phase.Inserted? && HasId(s.log, s.txs[t].event.content.id)
    case Abort(t) => t < |s.txs| && (s.txs[t].phase.Snapshotted? || s.txs[t].phase.Inserted?)
    case Crash(t) => t < |s.txs| && UnderWay(s.txs[t].phase)
  }

  function SetPhase(s: State, t: nat, p: Phase): State
    requires t < |s.txs|
  {
    s.(txs := s.txs[t := s.txs[t].(phase := p)])
  }

  predicate HasHash(log: seq<AuditEvent>, h: Text) {
    exists i :: 0 <= i < |log| && log[i].recordHash == h
  }

  /** The record re-linked to the head read inside the transaction. */
  function Relink(hash: Hasher, seen: seq<AuditEvent>, event: AuditEvent, seqNo: int): AuditEvent {
    var head := ReadHead(seen);
    var prevHash := if head.Some? then head.value.recordHash else GENESIS_HASH;
    event.(seqNo := seqNo, prevHash := prevHash, recordHash := event.RecomputeHash(hash, prevHash))
  }

  lemma RelinkLinksToLast(hash: Hasher, seen: seq<AuditEvent>, event: AuditEvent, seqNo: int)
    requires Increasing(seen)
    ensures Relink(hash, seen, event, seqNo) == Linked(hash, seen, event, seqNo)
  {
    if seen != [] {
      ReadHeadIsLast(seen);
    }
  }

  /** The insert draws a number in every case; the unique indexes see all committed rows. */
  function InsertStep(hash: Hasher, s: State, t: nat): State
    requires t < |s.txs| && s.txs[t].phase.Snapshotted?
  {
    var attempt, seen, event := s.txs[t].phase.attempt, s.txs[t].phase.seen, s.txs[t].event;
    var row := Relink(hash, seen, event, s.nextSeq);
    var drawn := s.(nextSeq := s.nextSeq + 1);
    if HasId(s.log, event.content.id) then SetPhase(drawn, t, Duplicate).(lost := s.lost + {s.nextSeq})
    else if HasHash(s.log, row.recordHash) then SetPhase(drawn, t, AfterFailure(attempt)).(lost := s.lost + {s.nextSeq})
    else SetPhase(drawn, t, Inserted(attempt, seen, row))
  }

  function Forget(s: State, t: nat): set<int>
    requires t < |s.txs|
  {
    if s.txs[t].phase.Inserted? then s.lost + {s.txs[t].phase.row.seqNo} else s.lost
  }

  function Next(hash: Hasher, s: State, e: Event): State
    requires Enabled(s, e)
  {
    match e
    case Arrive(content, recordedAt, seenHead) =>
      s.(txs := s.txs + [Tx(RecordEvent(hash, content, recordedAt, seenHead), Ready(0))])
    case TakeSnapshot(t) => SetPhase(s, t, Snapshotted(s.txs[t].phase.attempt, s.log))
    case Insert(t) => InsertStep(hash, s, t)
    case Commit(t) =>
      var row := s.txs[t].phase.row;
      SetPhase(s, t, Committed(row)).(log := s.log + [row], owners := s.owners + [t])
    case FindDuplicate(t) => SetPhase(s, t, Duplicate).(lost := Forget(s, t))
    case Abort(t) => SetPhase(s, t, AfterFailure(s.txs[t].phase.attempt)).(lost := Forget(s, t))
    case Crash(t) => SetPhase(s, t, Crashed).(lost := Forget(s, t))
  }

  ghost predicate IsRun(hash: Hasher, states: seq<State>, events: seq<Event>) {
    && |states| == |events| + 1
    && states[0] == State([], 1, [], [], {})
    && forall k :: 0 <= k < |events| ==> Enabled(states[k], events[k]) && states[k + 1] == Next(hash, states[k], events[k])
  }

  ghost predicate TxOk(hash: Hasher, s: State, t: nat)
    requires t < |s.txs|
  {
    match s.txs[t].phase
    case Ready(attempt) => attempt < MAX_APPEND_RETRIES
    case Snapshotted(attempt, seen) => attempt < MAX_APPEND_RETRIES && seen <= s.log
    case Inserted(attempt, seen, row) =>
      && attempt < MAX_APPEND_RETRIES && seen <= s.log
      && row == Linked(hash, seen, s.txs[t].event, row.seqNo)
      && NumbersBelow(seen, row.seqNo) && 1 <= row.seqNo < s.nextSeq
      && !HasId(seen, row.content.id)
    case Committed(row) => exists i :: 0 <= i < |s.owners| && s.owners[i] == t
    case _ => true
  }

  /** Each row has exactly one owner, whose append committed that row. */
  ghost predicate OwnersOk(s: State) {
    && |s.owners| == |s.log|
    && (forall i :: 0 <= i < |s.owners| ==> s.owners[i] < |s.txs| && s.txs[s.owners[i]].phase == Committed(s.log[i]))
    && (forall i, j :: 0 <= i < j < |s.owners| ==> s.owners[i] != s.owners[j])
  }

  ghost predicate Inv(hash: Hasher, s: State) {
    && GoodLog(hash, s.log, s.nextSeq)
    && OwnersOk(s)
    && forall t {:trigger TxOk(hash, s, t)} :: 0 <= t < |s.txs| ==> TxOk(hash, s, t)
  }

  /** The transactions other than `t` do not notice a step that keeps the log's beginning. */
  lemma OthersKept(hash: Hasher, s: State, s': State, t: nat)
    requires Inv(hash, s) && |s'.txs| == |s.txs| && s.log <= s'.log && s.nextSeq <= s'.nextSeq && s.owners <= s'.owners
    requires forall u :: 0 <= u < |s.txs| && u != t ==> s'.txs[u] == s.txs[u]
    ensures forall u {:trigger TxOk(hash, s', u)} :: 0 <= u < |s'.txs| && u != t ==> TxOk(hash, s', u)
  {
    forall u {:trigger TxOk(hash, s', u)} | 0 <= u < |s'.txs| && u != t
      ensures TxOk(hash, s', u)
    {
      assert TxOk(hash, s, u);
    }
  }

  lemma GoodLogMono(hash: Hasher, log: seq<AuditEvent>, n: int, m: int)
    requires GoodLog(hash, log, n) && n <= m
    ensures GoodLog(hash, log, m)
  {
  }

  lemma InsertedTxOk(hash: Hasher, s: State, s': State, t: nat)
    requires Inv(hash, s) && Enabled(s, Insert(t)) && s'.log == s.log && s'.nextSeq == s.nextSeq + 1 && |s'.txs| == |s.txs|
    requires !HasId(s.log, s.txs[t].event.content.id) && s'.txs[t].event == s.txs[t].event
    requires s'.txs[t].phase == Inserted(s.txs[t].phase.attempt, s.txs[t].phase.seen,
                                         Relink(hash, s.txs[t].phase.seen, s.txs[t].event, s.nextSeq))
    ensures TxOk(hash, s', t)
  {
    assert TxOk(hash, s, t);
    var seen := s.txs[t].phase.seen;
    assert forall i :: 0 <= i < |seen| ==> seen[i] == s.log[i];
    RelinkLinksToLast(hash, seen, s.txs[t].event, s.nextSeq);
  }

  lemma InsertKeeps(hash: Hasher, s: State, t: nat)
    requires Inv(hash, s) && Enabled(s, Insert(t))
    ensures Inv(hash, InsertStep(hash, s, t))
  {
    var s' := InsertStep(hash, s, t);
    assert TxOk(hash, s, t);
    OthersKept(hash, s, s', t);
    GoodLogMono(hash, s.log, s.nextSeq, s'.nextSeq);
    OwnersKept(s, s', t);
    if s'.txs[t].phase.Inserted? {
      InsertedTxOk(hash, s, s', t);
    }
    assert TxOk(hash, s', t);
  }

  lemma OwnersKept(s: State, s': State, t: nat)
    requires OwnersOk(s) && t < |s.txs| && !s.txs[t].phase.Committed?
    requires |s'.txs| >= |s.txs| && s'.owners == s.owners && s'.log == s.log
    requires forall u :: 0 <= u < |s.txs| && u != t ==> s'.txs[u] == s.txs[u]
    ensures OwnersOk(s')
  {
  }

  lemma CommitKeeps(hash: Hasher, s: State, t: nat)
    requires Inv(hash, s) && Enabled(s, Commit(t))
    ensures Inv(hash, Next(hash, s, Commit(t)))
  {
    var s' := Next(hash, s, Commit(t));
    assert TxOk(hash, s, t);
    var row := s.txs[t].phase.row;
    AppendKeepsGoodLog(hash, s.log, s.txs[t].event, row.seqNo, s.nextSeq);
    OthersKept(hash, s, s', t);
    assert s'.owners[|s.owners|] == t;
    assert TxOk(hash, s', t);
    forall i | 0 <= i < |s.owners|
      ensures s.owners[i] != t
    {
      assert s.txs[s.owners[i]].phase.Committed?;
    }
  }

  lemma NextKeeps(hash: Hasher, s: State, e: Event)
    requires Inv(hash, s) && Enabled(s, e)
    ensures Inv(hash, Next(hash, s, e))
  {
    var s' := Next(hash, s, e);
    match e
    case Arrive(_, _, _) =>
      forall u {:trigger TxOk(hash, s', u)} | 0 <= u < |s'.txs|
        ensures TxOk(hash, s', u)
      {
        if u < |s.txs| {
          assert TxOk(hash, s, u);
        }
      }
    case Insert(t) => InsertKeeps(hash, s, t);
    case Commit(t) => CommitKeeps(hash, s, t);
    case TakeSnapshot(t) =>
      assert TxOk(hash, s, t);
      OthersKept(hash, s, s', t);
      OwnersKept(s, s', t);
      assert TxOk(hash, s', t);
    case Abort(t) =>
      assert TxOk(hash, s, t);
      OthersKept(hash, s, s', t);
      OwnersKept(s, s', t);
      assert TxOk(hash, s', t);
    case FindDuplicate(t) =>
      OthersKept(hash, s, s', t);
      OwnersKept(s, s', t);
      assert TxOk(hash, s', t);
    case Crash(t) =>
      OthersKept(hash, s, s', t);
      OwnersKept(s, s', t);
      assert TxOk(hash, s', t);
  }

  /**
   At every point of every interleaving the committed log replays, ids never repeat and the numbers
   strictly increase; and each row belongs to exactly one appender, the one whose append committed it.
   */
  lemma {:induction false} EveryRunKeepsGoodLog(hash: Hasher, states: seq<State>, events: seq<Event>, k: nat)
    requires IsRun(hash, states, events) && k < |states|
    ensures GoodLog(hash, states[k].log, states[k].nextSeq) && OwnersOk(states[k]) && Inv(hash, states[k])
  {
    if k > 0 {
      EveryRunKeepsGoodLog(hash, states, events, k - 1);
      assert Enabled(states[k - 1], events[k - 1]) && states[k - 1 + 1] == Next(hash, states[k - 1], events[k - 1]);
      NextKeeps(hash, states[k - 1], events[k - 1]);
    }
  }

  // ----- Why an append ends -------------------------------------------------------------------

  /** The event makes transaction `t` fail for reasons that a retry may overcome. */
  predicate Fails(hash: Hasher, s: State, e: Event, t: nat)
    requires Enabled(s, e)
  {
    || e == Abort(t)
    || (e == Insert(t) && !HasId(s.log, s.txs[t].event.content.id)
        && HasHash(s.log, Relink(hash, s.txs[t].phase.seen, s.txs[t].event, s.nextSeq).recordHash))
  }

  /** How often `t` has failed in this way before position k. */
  ghost function Failures(hash: Hasher, states: seq<State>, events: seq<Event>, k: nat, t: nat): nat
    requires IsRun(hash, states, events) && k < |states|
  {
    if k == 0 then 0
    else Failures(hash, states, events, k - 1, t) + if Enabled(states[k - 1], events[k - 1]) && Fails(hash, states[k - 1], events[k - 1], t) then 1 else 0
  }

  /** The phase agrees with `n` failures so far; a duplicate is one, and only a crash gives up for no reason of its own. */
  predicate PhaseAgrees(s: State, t: nat, n: nat) {
    if t >= |s.txs| then n == 0
    else
      match s.txs[t].phase
      case Ready(attempt) => attempt == n
      case Snapshotted(attempt, _) => attempt == n
      case Inserted(attempt, _, _) => attempt == n
      case Committed(_) => n < MAX_APPEND_RETRIES
      case Duplicate => n < MAX_APPEND_RETRIES && HasId(s.log, s.txs[t].event.content.id)
      case Exhausted => n == MAX_APPEND_RETRIES
      case Crashed => n < MAX_APPEND_RETRIES
  }

  lemma SamePhaseAgrees(s: State, s': State, t: nat, n: nat)
    requires PhaseAgrees(s, t, n) && t < |s.txs| <= |s'.txs| && s'.txs[t] == s.txs[t] && s.log <= s'.log
    ensures PhaseAgrees(s', t, n)
  {
    if HasId(s.log, s.txs[t].event.content.id) {
      var i :| 0 <= i < |s.log| && s.log[i].content.id == s.txs[t].event.content.id;
      assert s'.log[i] == s.log[i];
    }
  }

  /** The transaction that the event is about, if it is about one. */
  function About(e: Event): Option<nat> {
    match e
    case Arrive(_, _, _) => None
    case TakeSnapshot(t) => Some(t)
    case Insert(t) => Some(t)
    case Commit(t) => Some(t)
    case FindDuplicate(t) => Some(t)
    case Abort(t) => Some(t)
    case Crash(t) => Some(t)
  }

  lemma StepAgrees(hash: Hasher, s: State, e: Event, t: nat, n: nat)
    requires Inv(hash, s) && Enabled(s, e) && PhaseAgrees(s, t, n)
    ensures PhaseAgrees(Next(hash, s, e), t, n + if Fails(hash, s, e, t) then 1 else 0)
  {
    if t < |s.txs| {
      assert TxOk(hash, s, t);
      if About(e) != Some(t) {
        SamePhaseAgrees(s, Next(hash, s, e), t, n);
      }
    }
  }

  /**
   In every run: an append that reports a duplicate has its id in the log, and one that runs out of
   attempts has failed exactly five times, by aborts or because its record hash was taken.
   */
  lemma {:induction false} EndsForAReason(hash: Hasher, states: seq<State>, events: seq<Event>, k: nat, t: nat)
    requires IsRun(hash, states, events) && k < |states|
    ensures PhaseAgrees(states[k], t, Failures(hash, states, events, k, t))
    ensures t < |states[k].txs| && states[k].txs[t].phase.Exhausted? ==> Failures(hash, states, events, k, t) == 5
  {
    if k > 0 {
      EndsForAReason(hash, states, events, k - 1, t);
      EveryRunKeepsGoodLog(hash, states, events, k - 1);
      assert Enabled(states[k - 1], events[k - 1]) && states[k - 1 + 1] == Next(hash, states[k - 1], events[k - 1]);
      StepAgrees(hash, states[k - 1], events[k - 1], t, Failures(hash, states, events, k - 1, t));
    }
  }

  /** The transaction's event is what came in, and the row it holds, if any, keeps it. */
  ghost predicate FromArrival(s: State, events: seq<Event>, k: nat, t: nat)
    requires t < |s.txs| && k <= |events|
  {
    && (exists j, seen :: 0 <= j < k && events[j] == Arrive(s.txs[t].event.content, s.txs[t].event.recordedAt, seen))
    && (s.txs[t].phase.Inserted? ==> Keeps(s.txs[t].event, s.txs[t].phase.row))
    && (s.txs[t].phase.Committed? ==> Keeps(s.txs[t].event, s.txs[t].phase.row))
  }

  lemma StepFromArrival(hash: Hasher, s: State, events: seq<Event>, k: nat, t: nat)
    requires k < |events| && Enabled(s, events[k]) && (t < |s.txs| ==> FromArrival(s, events, k, t))
    ensures t < |Next(hash, s, events[k]).txs| ==> FromArrival(Next(hash, s, events[k]), events, k + 1, t)
  {
    var s' := Next(hash, s, events[k]);
    if t < |s.txs| {
      var j, seen :| 0 <= j < k && events[j] == Arrive(s.txs[t].event.content, s.txs[t].event.recordedAt, seen);
      assert events[j] == Arrive(s'.txs[t].event.content, s'.txs[t].event.recordedAt, seen);
    } else if t < |s'.txs| {
      assert events[k] == Arrive(s'.txs[t].event.content, s'.txs[t].event.recordedAt, events[k].seenHead);
    }
  }

  lemma {:induction false} TxsFromArrivals(hash: Hasher, states: seq<State>, events: seq<Event>, k: nat, t: nat)
    requires IsRun(hash, states, events) && k < |states| && t < |states[k].txs|
    ensures FromArrival(states[k], events, k, t)
  {
    assert k > 0;
    assert Enabled(states[k - 1], events[k - 1]) && states[k - 1 + 1] == Next(hash, states[k - 1], events[k - 1]);
    if t < |states[k - 1].txs| {
      TxsFromArrivals(hash, states, events, k - 1, t);
    }
    StepFromArrival(hash, states[k - 1], events, k - 1, t);
  }

  /** Every row of the log says what some event said when it came in. */
  lemma RowsFromArrivals(hash: Hasher, states: seq<State>, events: seq<Event>, k: nat, i: nat)
    requires IsRun(hash, states, events) && k < |states| && i < |states[k].log|
    ensures exists j, seen :: 0 <= j < k && events[j] == Arrive(states[k].log[i].content, states[k].log[i].recordedAt, seen)
  {
    EveryRunKeepsGoodLog(hash, states, events, k);
    TxsFromArrivals(hash, states, events, k, states[k].owners[i]);
  }

  /** Rows are never changed or removed. */
  lemma {:induction false} AppendOnly(hash: Hasher, states: seq<State>, events: seq<Event>, j: nat, k: nat)
    requires IsRun(hash, states, events) && j <= k < |states|
    ensures states[j].log <= states[k].log && states[j].owners <= states[k].owners
    decreases k - j
  {
    if j < k {
      AppendOnly(hash, states, events, j, k - 1);
      assert Enabled(states[k - 1], events[k - 1]) && states[k - 1 + 1] == Next(hash, states[k - 1], events[k - 1]);
    }
  }

  /** A finished append stays finished. */
  lemma {:induction false} FinalStays(hash: Hasher, states: seq<State>, events: seq<Event>, t: nat, j: nat, k: nat)
    requires IsRun(hash, states, events) && j <= k < |states|
    requires t < |states[j].txs| && !UnderWay(states[j].txs[t].phase)
    ensures t < |states[k].txs| && states[k].txs[t].phase == states[j].txs[t].phase
    decreases k - j
  {
    if j < k {
      FinalStays(hash, states, events, t, j, k - 1);
      assert Enabled(states[k - 1], events[k - 1]) && states[k - 1 + 1] == Next(hash, states[k - 1], events[k - 1]);
    }
  }

  /** An append that was a duplicate, ran out of retries or crashed owns no row, then or ever after. */
  lemma FailedAppendLeavesNoRow(hash: Hasher, states: seq<State>, events: seq<Event>, t: nat, j: nat, k: nat, i: nat)
    requires IsRun(hash, states, events) && j <= k < |states| && t < |states[j].txs|
    requires states[j].txs[t].phase.Exhausted? || states[j].txs[t].phase.Duplicate? || states[j].txs[t].phase.Crashed?
    requires i < |states[k].log|
    ensures i < |states[k].owners| && states[k].owners[i] != t
  {
    FinalStays(hash, states, events, t, j, k);
    EveryRunKeepsGoodLog(hash, states, events, k);
  }

  // ----- The head the use case saw does not matter -------------------------------------------

  predicate SameButSeen(a: AuditEvent, b: AuditEvent) {
    a.(prevHash := [], recordHash := []) == b.(prevHash := [], recordHash := [])
  }

  ghost predicate Alike(s: State, r: State) {
    && s.log == r.log && s.nextSeq == r.nextSeq && s.owners == r.owners && s.lost == r.lost
    && |s.txs| == |r.txs|
    && forall t :: 0 <= t < |s.txs| ==> s.txs[t].phase == r.txs[t].phase && SameButSeen(s.txs[t].event, r.txs[t].event)
  }

  predicate SameButSeenHead(e: Event, f: Event) {
    if e.Arrive? then f.Arrive? && e.content == f.content && e.recordedAt == f.recordedAt else e == f
  }

  lemma RelinkForgetsSeen(hash: Hasher, seen: seq<AuditEvent>, a: AuditEvent, b: AuditEvent, seqNo: int)
    requires SameButSeen(a, b)
    ensures a.content == b.content && Relink(hash, seen, a, seqNo) == Relink(hash, seen, b, seqNo)
  {
    assert a.(prevHash := [], recordHash := []).content == b.(prevHash := [], recordHash := []).content;
    assert a.(prevHash := [], recordHash := []).recordedAt == b.(prevHash := [], recordHash := []).recordedAt;
  }

  lemma AlikeInsert(hash: Hasher, s: State, r: State, t: nat)
    requires Alike(s, r) && Enabled(s, Insert(t)) && Enabled(r, Insert(t))
    ensures Alike(InsertStep(hash, s, t), InsertStep(hash, r, t))
  {
    var s', r' := InsertStep(hash, s, t), InsertStep(hash, r, t);
    RelinkForgetsSeen(hash, s.txs[t].phase.seen, s.txs[t].event, r.txs[t].event, s.nextSeq);
    assert s'.txs[t].phase == r'.txs[t].phase;
    forall u | 0 <= u < |s.txs|
      ensures s'.txs[u].phase == r'.txs[u].phase && SameButSeen(s'.txs[u].event, r'.txs[u].event)
    {
      assert SameButSeen(s.txs[u].event, r.txs[u].event);
    }
  }

  lemma AlikeStep(hash: Hasher, s: State, r: State, e: Event, f: Event)
    requires Alike(s, r) && SameButSeenHead(e, f) && Enabled(s, e) && Enabled(r, f)
    ensures Alike(Next(hash, s, e), Next(hash, r, f))
  {
    match e
    case Insert(t) => AlikeInsert(hash, s, r, t);
    case FindDuplicate(t) =>
    case Commit(t) =>
    case Abort(t) =>
    case Crash(t) =>
    case TakeSnapshot(t) =>
    case Arrive(_, _, _) =>
  }

  /**
   Two runs whose appenders differ only in the head each had read beforehand write the same log,
   number by number and hash by hash, and end every append the same way.
   */
  lemma {:induction false} StaleHeadNeverMatters(hash: Hasher, ss: seq<State>, es: seq<Event>, rs: seq<State>, fs: seq<Event>, k: nat)
    requires IsRun(hash, ss, es) && IsRun(hash, rs, fs) && |es| == |fs| && k < |ss|
    requires forall i :: 0 <= i < |es| ==> SameButSeenHead(es[i], fs[i])
    ensures Alike(ss[k], rs[k])
  {
    if k > 0 {
      StaleHeadNeverMatters(hash, ss, es, rs, fs, k - 1);
      assert Enabled(ss[k - 1], es[k - 1]) && ss[k - 1 + 1] == Next(hash, ss[k - 1], es[k - 1]);
      assert Enabled(rs[k - 1], fs[k - 1]) && rs[k - 1 + 1] == Next(hash, rs[k - 1], fs[k - 1]);
      AlikeStep(hash, ss[k - 1], rs[k - 1], es[k - 1], fs[k - 1]);
    }
  }

  // ----- Numbers: increasing, not gap-free ----------------------------------------------------

  ghost predicate Numbered(log: seq<AuditEvent>, n: int) {
    exists i :: 0 <= i < |log| && log[i].seqNo == n
  }

  ghost predicate Pending(s: State, n: int) {
    exists t :: 0 <= t < |s.txs| && s.txs[t].phase.Inserted? && s.txs[t].phase.row.seqNo == n
  }

  /** Every number drawn so far is in the log, under way, or lost; and a lost one is in neither. */
  ghost predicate Accounted(s: State) {
    && (forall n :: 1 <= n < s.nextSeq ==> Numbered(s.log, n) || Pending(s, n) || n in s.lost)
    && (forall n :: n in s.lost ==> 1 <= n < s.nextSeq && !Numbered(s.log, n) && !Pending(s, n))
    && (forall t, u :: 0 <= t < u < |s.txs| && s.txs[t].phase.Inserted? && s.txs[u].phase.Inserted? ==>
          s.txs[t].phase.row.seqNo != s.txs[u].phase.row.seqNo)
    && (forall n :: Pending(s, n) ==> 1 <= n < s.nextSeq && !Numbered(s.log, n))
  }

  lemma AccountedKept(hash: Hasher, s: State, e: Event)
    requires Inv(hash, s) && Accounted(s) && Enabled(s, e)
    ensures Accounted(Next(hash, s, e))
  {
    var s' := Next(hash, s, e);
    match e
    case Arrive(_, _, _) => SamePending(s, s');
    case TakeSnapshot(t) => SamePending(s, s');
    case Insert(t) => AccountedInsert(hash, s, t);
    case Commit(t) => AccountedCommit(hash, s, t);
    case FindDuplicate(t) => AccountedForget(s, s', t);
    case Abort(t) => AccountedForget(s, s', t);
    case Crash(t) => AccountedForget(s, s', t);
  }

  lemma SamePending(s: State, s': State)
    requires Accounted(s) && s'.log == s.log && s'.lost == s.lost && s'.nextSeq == s.nextSeq && |s.txs| <= |s'.txs|
    requires forall t :: 0 <= t < |s.txs| ==> s'.txs[t].phase == s.txs[t].phase || !(s.txs[t].phase.Inserted? || s'.txs[t].phase.Inserted?)
    requires forall t :: |s.txs| <= t < |s'.txs| ==> !s'.txs[t].phase.Inserted?
    ensures Accounted(s')
  {
    forall n
      ensures Pending(s', n) <==> Pending(s, n)
    {
      if Pending(s, n) {
        var t :| 0 <= t < |s.txs| && s.txs[t].phase.Inserted? && s.txs[t].phase.row.seqNo == n;
        assert s'.txs[t].phase == s.txs[t].phase;
      }
    }
  }

  /** A failed insert draws a number and loses it. */
  lemma AccountedDrawn(s: State, s': State, t: nat)
    requires Accounted(s) && NumbersBelow(s.log, s.nextSeq) && s.nextSeq >= 1 && t < |s.txs|
    requires !s.txs[t].phase.Inserted? && |s'.txs| == |s.txs| && !s'.txs[t].phase.Inserted?
    requires forall u :: 0 <= u < |s.txs| && u != t ==> s'.txs[u] == s.txs[u]
    requires s'.log == s.log && s'.nextSeq == s.nextSeq + 1 && s'.lost == s.lost + {s.nextSeq}
    ensures Accounted(s')
  {
    forall n
      ensures Pending(s', n) <==> Pending(s, n)
    {
      if Pending(s, n) {
        var u :| 0 <= u < |s.txs| && s.txs[u].phase.Inserted? && s.txs[u].phase.row.seqNo == n;
        assert s'.txs[u] == s.txs[u];
      }
    }
    assert !Numbered(s.log, s.nextSeq) && !Pending(s, s.nextSeq);
  }

  /** A waiting insert holds the number it drew. */
  lemma AccountedHeld(s: State, s': State, t: nat)
    requires Accounted(s) && NumbersBelow(s.log, s.nextSeq) && s.nextSeq >= 1 && t < |s.txs|
    requires !s.txs[t].phase.Inserted? && |s'.txs| == |s.txs|
    requires s'.txs[t].phase.Inserted? && s'.txs[t].phase.row.seqNo == s.nextSeq
    requires forall u :: 0 <= u < |s.txs| && u != t ==> s'.txs[u] == s.txs[u]
    requires s'.log == s.log && s'.nextSeq == s.nextSeq + 1 && s'.lost == s.lost
    ensures Accounted(s')
  {
    forall n
      ensures Pending(s', n) <==> Pending(s, n) || n == s.nextSeq
    {
      if Pending(s, n) {
        var u :| 0 <= u < |s.txs| && s.txs[u].phase.Inserted? && s.txs[u].phase.row.seqNo == n;
        assert s'.txs[u] == s.txs[u];
      }
    }
    forall u | 0 <= u < |s.txs| && s.txs[u].phase.Inserted?
      ensures s.txs[u].phase.row.seqNo < s.nextSeq
    {
      assert Pending(s, s.txs[u].phase.row.seqNo);
    }
    assert !Numbered(s.log, s.nextSeq);
  }

  lemma AccountedInsert(hash: Hasher, s: State, t: nat)
    requires Inv(hash, s) && Accounted(s) && Enabled(s, Insert(t))
    ensures Accounted(InsertStep(hash, s, t))
  {
    var s' := InsertStep(hash, s, t);
    if s'.txs[t].phase.Inserted? {
      AccountedHeld(s, s', t);
    } else {
      AccountedDrawn(s, s', t);
    }
  }

  lemma AccountedCommit(hash: Hasher, s: State, t: nat)
    requires Inv(hash, s) && Accounted(s) && Enabled(s, Commit(t))
    ensures Accounted(Next(hash, s, Commit(t)))
  {
    var s' := Next(hash, s, Commit(t));
    var m := s.txs[t].phase.row.seqNo;
    assert Pending(s, m);
    forall n
      ensures Numbered(s'.log, n) <==> Numbered(s.log, n) || n == m
    {
      assert s'.log[|s.log|].seqNo == m;
      if Numbered(s.log, n) {
        var i :| 0 <= i < |s.log| && s.log[i].seqNo == n;
        assert s'.log[i].seqNo == n;
      }
    }
    PendingMinus(s, s', t);
  }

  /** Taking one inserted row out of the transactions takes exactly its number out of play. */
  lemma PendingMinus(s: State, s': State, t: nat)
    requires Accounted(s) && t < |s.txs| && s.txs[t].phase.Inserted? && |s'.txs| == |s.txs| && !s'.txs[t].phase.Inserted?
    requires forall u :: 0 <= u < |s.txs| && u != t ==> s'.txs[u] == s.txs[u]
    ensures forall n :: Pending(s', n) <==> Pending(s, n) && n != s.txs[t].phase.row.seqNo
  {
    forall n
      ensures Pending(s', n) <==> Pending(s, n) && n != s.txs[t].phase.row.seqNo
    {
      if Pending(s, n) && n != s.txs[t].phase.row.seqNo {
        var u :| 0 <= u < |s.txs| && s.txs[u].phase.Inserted? && s.txs[u].phase.row.seqNo == n;
        assert s'.txs[u] == s.txs[u];
      }
      if Pending(s', n) {
        var u :| 0 <= u < |s'.txs| && s'.txs[u].phase.Inserted? && s'.txs[u].phase.row.seqNo == n;
        assert s.txs[u] == s'.txs[u];
      }
    }
  }

  lemma AccountedForget(s: State, s': State, t: nat)
    requires Accounted(s) && t < |s.txs| && |s'.txs| == |s.txs| && !s'.txs[t].phase.Inserted?
    requires forall u :: 0 <= u < |s.txs| && u != t ==> s'.txs[u] == s.txs[u]
    requires s'.log == s.log && s'.nextSeq == s.nextSeq && s'.lost == Forget(s, t)
    ensures Accounted(s')
  {
    if s.txs[t].phase.Inserted? {
      assert Pending(s, s.txs[t].phase.row.seqNo);
      PendingMinus(s, s', t);
    } else {
      SamePending(s, s');
    }
  }

  lemma {:induction false} EveryRunAccounted(hash: Hasher, states: seq<State>, events: seq<Event>, k: nat)
    requires IsRun(hash, states, events) && k < |states|
    ensures Accounted(states[k])
  {
    if k > 0 {
      EveryRunAccounted(hash, states, events, k - 1);
      EveryRunKeepsGoodLog(hash, states, events, k - 1);
      assert Enabled(states[k - 1], events[k - 1]) && states[k - 1 + 1] == Next(hash, states[k - 1], events[k - 1]);
      AccountedKept(hash, states[k - 1], events[k - 1]);
    }
  }

  function LastNumber(log: seq<AuditEvent>): int {
    if log == [] then 0 else log[|log| - 1].seqNo
  }

  ghost predicate GapFree(log: seq<AuditEvent>) {
    forall i :: 0 <= i < |log| ==> log[i].seqNo == i + 1
  }

  lemma {:induction false} GapFreeIffAllNumbered(log: seq<AuditEvent>, n: int)
    requires Increasing(log) && NumbersBelow(log, n)
    ensures GapFree(log) <==> forall m :: 1 <= m <= LastNumber(log) ==> Numbered(log, m)
  {
    if GapFree(log) {
      forall m | 1 <= m <= LastNumber(log)
        ensures Numbered(log, m)
      {
        assert log[m - 1].seqNo == m;
      }
    }
    if log != [] && forall m :: 1 <= m <= LastNumber(log) ==> Numbered(log, m) {
      var front := log[..|log| - 1];
      forall m | 1 <= m < LastNumber(log)
        ensures Numbered(front, m)
      {
        assert Numbered(log, m);
        var i :| 0 <= i < |log| && log[i].seqNo == m;
        assert front[i].seqNo == m;
      }
      GapFreeIffAllNumbered(front, n);
      assert LastNumber(front) == |front|;
      assert LastNumber(log) > |front| + 1 ==> Numbered(front, |front| + 1);
    }
  }

  /**
   The database sequence is not rolled back with a transaction. At every point of every run the log's
   numbers are 1, 2, 3, ... if and only if no number that was lost, or is held by an append under way,
   lies below the last row's.
   */
  lemma GapFreeIffNoneMissingBelow(hash: Hasher, states: seq<State>, events: seq<Event>, k: nat)
    requires IsRun(hash, states, events) && k < |states|
    ensures GapFree(states[k].log)
            <==> forall n :: n in states[k].lost || Pending(states[k], n) ==> n > LastNumber(states[k].log)
  {
    var s := states[k];
    EveryRunAccounted(hash, states, events, k);
    EveryRunKeepsGoodLog(hash, states, events, k);
    GapFreeIffAllNumbered(s.log, s.nextSeq);
    if forall n :: n in s.lost || Pending(s, n) ==> n > LastNumber(s.log) {
      forall m | 1 <= m <= LastNumber(s.log)
        ensures Numbered(s.log, m)
      {
        assert m < s.nextSeq;
      }
    }
  }

  ghost predicate Reaches(hash: Hasher, s: State) {
    exists states, events :: IsRun(hash, states, events) && states[|events|] == s
  }

  lemma ReachesNext(hash: Hasher, s: State, e: Event)
    requires Reaches(hash, s) && Enabled(s, e)
    ensures Reaches(hash, Next(hash, s, e))
  {
    var states: seq<State>, events: seq<Event> :| IsRun(hash, states, events) && states[|events|] == s;
    var states', events' := states + [Next(hash, s, e)], events + [e];
    forall k | 0 <= k < |events'|
      ensures Enabled(states'[k], events'[k]) && states'[k + 1] == Next(hash, states'[k], events'[k])
    {
      if k < |events| {
        assert Enabled(states[k], events[k]) && states[k + 1] == Next(hash, states[k], events[k]);
      }
    }
    assert IsRun(hash, states', events') && states'[|events'|] == Next(hash, s, e);
  }

  lemma ReachesSoloInsert(hash: Hasher, event: AuditEvent, n: int, attempt: nat, lost: set<int>)
    requires Reaches(hash, State([], n, [Tx(event, Ready(attempt))], [], lost))
    ensures Reaches(hash, State([], n + 1, [Tx(event, Inserted(attempt, [], Relink(hash, [], event, n)))], [], lost))
  {
    var s := State([], n, [Tx(event, Ready(attempt))], [], lost);
    ReachesNext(hash, s, TakeSnapshot(0));
    ReachesNext(hash, Next(hash, s, TakeSnapshot(0)), Insert(0));
  }

  /** An append aborted once: the number it drew is lost, and the append is ready to retry. */
  lemma SoloAbort(hash: Hasher, event: AuditEvent, row: AuditEvent)
    ensures var s := State([], 2, [Tx(event, Inserted(0, [], row))], [], {});
            && Enabled(s, Abort(0))
            && Next(hash, s, Abort(0)) == State([], 2, [Tx(event, Ready(1))], [], {row.seqNo})
  {
  }

  lemma SoloCommit(hash: Hasher, event: AuditEvent, row: AuditEvent, lost: set<int>)
    ensures var s := State([], 3, [Tx(event, Inserted(1, [], row))], [], lost);
            && Enabled(s, Commit(0))
            && Next(hash, s, Commit(0)) == State([row], 3, [Tx(event, Committed(row))], [0], lost)
  {
    assert [] + [row] == [row];
  }

  /** So the log can begin at number 2 with nothing under way: the numbers are not gap-free. */
  lemma RetryLeavesGap(hash: Hasher, content: CanonicalAuditEvent)
    ensures exists s :: Reaches(hash, s) && |s.log| == 1 && s.log[0].seqNo == 2 && |s.txs| == 1 && s.txs[0].phase == Committed(s.log[0])
  {
    var start := State([], 1, [], [], {});
    var none: seq<Event> := [];
    assert IsRun(hash, [start], none) && [start][|none|] == start;
    var event := RecordEvent(hash, content, 0, GENESIS_HASH);
    ReachesNext(hash, start, Arrive(content, 0, GENESIS_HASH));
    assert Next(hash, start, Arrive(content, 0, GENESIS_HASH)) == start.(txs := [Tx(event, Ready(0))]);
    ReachesSoloInsert(hash, event, 1, 0, {});
    var first, second := Relink(hash, [], event, 1), Relink(hash, [], event, 2);
    SoloAbort(hash, event, first);
    ReachesNext(hash, State([], 2, [Tx(event, Inserted(0, [], first))], [], {}), Abort(0));
    ReachesSoloInsert(hash, event, 2, 1, {first.seqNo});
    SoloCommit(hash, event, second, {first.seqNo});
    ReachesNext(hash, State([], 3, [Tx(event, Inserted(1, [], second))], [], {first.seqNo}), Commit(0));
  }

  // ----- The retry loop ---------------------------------------------------------------------

  /**
   What the rest of the system does around one attempt: the appends that commit before it reads the
   head, those that commit before it inserts, and those that commit before it would.
   */
  datatype Attempt = Attempt(before: seq<AuditEvent>, during: seq<AuditEvent>, late: seq<AuditEvent>, aborted: bool, crashed: bool)
  {
    function Others(): seq<AuditEvent> {
      before + during + late
    }

    predicate Undisturbed() {
      !aborted && during == [] && late == []
    }
  }

  const QUIET := Attempt([], [], [], false, false)

  class AuditTable {
    const hash: Hasher
    var rows: seq<AuditEvent>
    var nextSeq: int

    constructor (hash: Hasher)
      ensures GoodLog(hash, rows, nextSeq) && rows == [] && this.hash == hash
    {
      this.hash := hash;
      rows, nextSeq := [], 1;
    }

    /** Another appender's whole append, from snapshot to commit. */
    method CommitOther(event: AuditEvent)
      requires GoodLog(hash, rows, nextSeq)
      modifies this`rows, this`nextSeq
      ensures GoodLog(hash, rows, nextSeq)
      ensures nextSeq == old(nextSeq) + 1
      ensures rows == if HasId(old(rows), event.content.id) then old(rows)
                      else old(rows) + [Linked(hash, old(rows), event, old(nextSeq))]
    {
      var drawn := nextSeq;
      nextSeq := nextSeq + 1;
      if !HasId(rows, event.content.id) {
        AppendKeepsGoodLog(hash, rows, event, drawn, nextSeq);
        rows := rows + [Linked(hash, rows, event, drawn)];
      }
    }

    method CommitOthers(others: seq<AuditEvent>)
      requires GoodLog(hash, rows, nextSeq)
      modifies this`rows, this`nextSeq
      ensures GoodLog(hash, rows, nextSeq) && OnlyFrom(others, old(rows), rows) && nextSeq >= old(nextSeq)
      ensures others == [] ==> rows == old(rows) && nextSeq == old(nextSeq)
    {
      for n := 0 to |others|
        invariant GoodLog(hash, rows, nextSeq) && OnlyFrom(others, old(rows), rows) && nextSeq >= old(nextSeq)
        invariant n == 0 ==> rows == old(rows) && nextSeq == old(nextSeq)
      {
        CommitOther(others[n]);
        assert others[n].content == others[n].content && From(others, others[n].content);
      }
    }

    /**
     One serializable transaction; `head` is the log whose last row it read and `table` the log it
     inserted into. It fails if and only if it crashed; else the id is taken if and only if it is in that
     table; else it writes the last row, if and only if nothing has disturbed it and the hash is free.
     */
    method AppendOnce(event: AuditEvent, around: Attempt)
      returns (o: Outcome, ghost head: seq<AuditEvent>, ghost table: seq<AuditEvent>)
      requires GoodLog(hash, rows, nextSeq)
      modifies this`rows, this`nextSeq
      ensures GoodLog(hash, rows, nextSeq)
      ensures OnlyFrom(around.Others(), old(rows), head) && OnlyFrom(around.Others(), head, table) && table <= rows
      ensures (around.before == [] ==> head == old(rows)) && (around.during == [] ==> table == head)
      ensures o.Failed? <==> around.crashed
      ensures o.IdTaken? <==> !around.crashed && HasId(table, event.content.id)
      ensures o.Written? ==> !around.aborted && table == head && !Clashes(hash, head, event)
      ensures !around.crashed && around.Undisturbed() && !Clashes(hash, head, event) ==> o.Written?
      ensures o.Written? ==> rows == head + [o.row] && o.row == Linked(hash, head, event, o.row.seqNo) && Keeps(event, o.row)
      ensures !o.Written? ==> OnlyFrom(around.Others(), head, rows)
      ensures around.Others() == [] ==> nextSeq == old(nextSeq) + 1 && (o.Written? ==> o.row.seqNo == old(nextSeq))
    {
      CommitOthers(around.before);
      OnlyFromMore(around.before, around.Others(), old(rows), rows);
      var snapshot := rows;
      head := snapshot;
      CommitOthers(around.during);
      OnlyFromMore(around.during, around.Others(), snapshot, rows);
      table := rows;
      var drawn := nextSeq;
      nextSeq := nextSeq + 1;
      GoodLogMono(hash, rows, drawn, nextSeq);
      if around.crashed {
        return Failed, head, table;
      }
      if HasId(rows, event.content.id) {
        return IdTaken, head, table;
      }
      var row := Relink(hash, snapshot, event, drawn);
      RelinkLinksToLast(hash, snapshot, event, drawn);
      if rows != snapshot || around.aborted || HasHash(rows, row.recordHash) {
        return SerializationFailure, head, table;
      }
      CommitOthers(around.late);
      OnlyFromMore(around.late, around.Others(), snapshot, rows);
      if rows != snapshot {
        return SerializationFailure, head, table;
      }
      AppendKeepsGoodLog(hash, rows, event, drawn, nextSeq);
      rows := rows + [row];
      o := Written(row);
    }

    /**
     The append: up to five attempts, each against a fresh head. On success our record is the last
     row, linked to the row before it. On any failure no row of ours is in the table. `heads[k]` is the
     log whose head attempt k read and `tables[k]` the log it inserted into; every attempt but the last met
     an abort or a racing append, or found the hash of our record linked to its head taken.
     */
    method Append(event: AuditEvent, schedule: seq<Attempt>)
      returns (r: Result<AuditEvent, AppendError>, ghost heads: seq<seq<AuditEvent>>, ghost tables: seq<seq<AuditEvent>>)
      requires GoodLog(hash, rows, nextSeq)
      modifies this`rows, this`nextSeq
      ensures GoodLog(hash, rows, nextSeq)
      ensures 1 <= |heads| == |tables| <= MAX_APPEND_RETRIES && Grow(old(rows), heads, rows)
      ensures forall k :: 0 <= k < |heads| - 1 ==> Retried(hash, heads[k], tables[k], event, schedule, k)
      ensures EndsWith(hash, heads[|heads| - 1], tables[|heads| - 1], event, schedule, |heads| - 1, r)
      ensures r.Ok? ==>
                && rows == heads[|heads| - 1] + [r.value] && OthersOnly(old(rows), heads[|heads| - 1], schedule)
                && r.value == Linked(hash, heads[|heads| - 1], event, r.value.seqNo) && Keeps(event, r.value)
      ensures r.Err? ==> OthersOnly(old(rows), rows, schedule)
      ensures Around(schedule, 0).before == [] ==> heads[0] == old(rows)
    {
      heads, tables := [], [];
      for attempt := 0 to MAX_APPEND_RETRIES
        invariant GoodLog(hash, rows, nextSeq)
        invariant OthersOnly(old(rows), rows, schedule)
        invariant |heads| == |tables| == attempt && Grow(old(rows), heads, rows)
        invariant attempt == 0 ==> rows == old(rows)
        invariant attempt > 0 && Around(schedule, 0).before == [] ==> heads[0] == old(rows)
        invariant forall k :: 0 <= k < attempt ==> Retried(hash, heads[k], tables[k], event, schedule, k)
      {
        var around := Around(schedule, attempt);
        ghost var before := rows;
        var o, head, table := AppendOnce(event, around);
        GrowMore(old(rows), heads, before, head, rows);
        heads, tables := heads + [head], tables + [table];
        OthersGrow(old(rows), before, head, schedule, attempt, around);
        if !o.Written? {
          OthersGrow(old(rows), head, rows, schedule, attempt, around);
        }
        match o
        case Written(row) => return Ok(row), heads, tables;
        case IdTaken => return Err(DuplicateEvent), heads, tables;
        case Failed => return Err(StoreFailure), heads, tables;
        case SerializationFailure =>
          assert Retried(hash, head, table, event, schedule, attempt);
      }
      r := Err(SerializationExhausted);
    }
  }

  /** The attempts planned, and then quiet ones. */
  function Around(schedule: seq<Attempt>, k: nat): Attempt {
    if k < |schedule| then schedule[k] else QUIET
  }

  /** The id of the event, or the hash of its record linked to this head, is in the log already. */
  predicate Clashes(hash: Hasher, head: seq<AuditEvent>, event: AuditEvent) {
    HasId(head, event.content.id) || HasHash(head, event.RecomputeHash(hash, HeadHash(head)))
  }

  /** What attempt k read and inserted into: nothing came between if nobody else committed there. */
  predicate Saw(head: seq<AuditEvent>, table: seq<AuditEvent>, schedule: seq<Attempt>, k: nat) {
    head <= table && (Around(schedule, k).during == [] ==> table == head)
  }

  /** Attempt k did not crash and its id was free; an abort, a racing append or a taken record hash made it fail. */
  predicate Retried(hash: Hasher, head: seq<AuditEvent>, table: seq<AuditEvent>, event: AuditEvent, schedule: seq<Attempt>, k: nat) {
    && Saw(head, table, schedule, k)
    && !Around(schedule, k).crashed && !HasId(table, event.content.id)
    && (!Around(schedule, k).Undisturbed() || HasHash(head, event.RecomputeHash(hash, HeadHash(head))))
  }

  datatype Outcome = Written(row: AuditEvent) | IdTaken | SerializationFailure | Failed

  /** How attempt k, the last, ends the append. */
  predicate EndsWith(hash: Hasher, head: seq<AuditEvent>, table: seq<AuditEvent>, event: AuditEvent, schedule: seq<Attempt>, k: nat,
                     r: Result<AuditEvent, AppendError>)
  {
    && Saw(head, table, schedule, k)
    && match r
       case Err(StoreFailure) => Around(schedule, k).crashed
       case Err(DuplicateEvent) => !Around(schedule, k).crashed && HasId(table, event.content.id)
       case Err(SerializationExhausted) => k == MAX_APPEND_RETRIES - 1 && Retried(hash, head, table, event, schedule, k)
       case Ok(_) => !Around(schedule, k).crashed && !Around(schedule, k).aborted && table == head && !Clashes(hash, head, event)
  }

  /**
   What that means for a caller. An id in the table from the start is reported as a duplicate, unless the
   first attempt crashes; the store fails only in a crash; and the first attempt that runs undisturbed, with
   the id and the hash free, writes the record.
   */
  lemma AppendAnswers(hash: Hasher, first: seq<AuditEvent>, last: seq<AuditEvent>, event: AuditEvent, schedule: seq<Attempt>,
                      heads: seq<seq<AuditEvent>>, tables: seq<seq<AuditEvent>>, r: Result<AuditEvent, AppendError>)
    requires 1 <= |heads| == |tables| <= MAX_APPEND_RETRIES && Grow(first, heads, last)
    requires forall k :: 0 <= k < |heads| - 1 ==> Retried(hash, heads[k], tables[k], event, schedule, k)
    requires EndsWith(hash, heads[|heads| - 1], tables[|heads| - 1], event, schedule, |heads| - 1, r)
    ensures |heads| <= 5 && (r == Err(SerializationExhausted) ==> |heads| == 5)
    ensures HasId(first, event.content.id) ==> r == if Around(schedule, 0).crashed then Err(StoreFailure) else Err(DuplicateEvent)
    ensures r == Err(StoreFailure) <==> Around(schedule, |heads| - 1).crashed
    ensures forall k :: 0 <= k < |heads| && Runs(hash, heads[k], event, schedule, k) ==> k == |heads| - 1 && r.Ok?
  {
    if HasId(first, event.content.id) {
      var i :| 0 <= i < |first| && first[i].content.id == event.content.id;
      assert Saw(heads[0], tables[0], schedule, 0);
      assert tables[0][i] == heads[0][i] == first[i];
    }
  }

  /** Nothing comes in the way of attempt k. */
  predicate Runs(hash: Hasher, head: seq<AuditEvent>, event: AuditEvent, schedule: seq<Attempt>, k: nat) {
    Around(schedule, k).Undisturbed() && !Around(schedule, k).crashed && !Clashes(hash, head, event)
  }

  /** The logs read, one after the other, from the first table to the last: rows are only added. */
  ghost predicate Grow(first: seq<AuditEvent>, heads: seq<seq<AuditEvent>>, last: seq<AuditEvent>) {
    && first <= last
    && (forall k :: 0 <= k < |heads| ==> first <= heads[k] <= last)
    && (forall j, k :: 0 <= j <= k < |heads| ==> heads[j] <= heads[k])
  }

  lemma GrowMore(first: seq<AuditEvent>, heads: seq<seq<AuditEvent>>, last: seq<AuditEvent>, head: seq<AuditEvent>, later: seq<AuditEvent>)
    requires Grow(first, heads, last) && last <= head <= later
    ensures Grow(first, heads + [head], later)
  {
  }

  /** `after` is `before` and then rows of these other appenders. */
  ghost predicate OnlyFrom(others: seq<AuditEvent>, before: seq<AuditEvent>, after: seq<AuditEvent>) {
    before <= after && forall i :: |before| <= i < |after| ==> From(others, after[i].content)
  }

  lemma OnlyFromMore(some: seq<AuditEvent>, all: seq<AuditEvent>, before: seq<AuditEvent>, after: seq<AuditEvent>)
    requires OnlyFrom(some, before, after) && forall k :: 0 <= k < |some| ==> some[k] in all
    ensures OnlyFrom(all, before, after)
  {
    forall i | |before| <= i < |after|
      ensures From(all, after[i].content)
    {
      var k :| 0 <= k < |some| && some[k].content == after[i].content;
      var m :| 0 <= m < |all| && all[m] == some[k];
      assert all[m].content == after[i].content;
    }
  }

  ghost predicate From(others: seq<AuditEvent>, content: CanonicalAuditEvent) {
    exists k :: 0 <= k < |others| && others[k].content == content
  }

  /** Every row after the old ones came from another appender. */
  ghost predicate OthersOnly(before: seq<AuditEvent>, after: seq<AuditEvent>, schedule: seq<Attempt>) {
    && before <= after
    && forall i :: |before| <= i < |after| ==> exists k :: 0 <= k < |schedule| && From(schedule[k].Others(), after[i].content)
  }

  lemma OthersGrow(before: seq<AuditEvent>, middle: seq<AuditEvent>, after: seq<AuditEvent>,
                   schedule: seq<Attempt>, n: nat, around: Attempt)
    requires OthersOnly(before, middle, schedule) && OnlyFrom(around.Others(), middle, after)
    requires around == Around(schedule, n)
    ensures OthersOnly(before, after, schedule)
  {
    forall i | |before| <= i < |after|
      ensures exists k :: 0 <= k < |schedule| && From(schedule[k].Others(), after[i].content)
    {
      if i < |middle| {
        assert after[i] == middle[i];
      } else {
        assert From(around.Others(), after[i].content);
      }
    }
  }
}
