/**
 Read, change, save: transactions that load aggregates, change them in memory and write them back
 behind a compare-and-set on the version, at read-committed isolation. A transaction holds a row's
 lock from its compare-and-set to its end; its writes appear together when it commits.
 */
module OptimisticLock {
  import opened Wrappers

  type Id = string

  // ----- The aggregates -----------------------------------------------------------------------

  datatype ExpenseStatus = Pending | Approved | Rejected

  datatype AssignmentStatus = Active | Revoked

  datatype Body =
    | ExpenseBody(expenseStatus: ExpenseStatus)
    | AssignmentBody(assignmentStatus: AssignmentStatus)
    | UnitBody(parentId: Option<Id>, path: string)

  datatype Change = Approve | Revoke | Place(parentId: Option<Id>, path: string)

  datatype StatusError = AlreadyApproved | CannotApproveRejected | AlreadyRevoked | WrongKind

  /** One domain transition. */
  function Transition(body: Body, change: Change): Result<Body, StatusError> {
    match (body, change)
    case (ExpenseBody(status), Approve) =>
      if status.Approved? then Err(AlreadyApproved)
      else if status.Rejected? then Err(CannotApproveRejected)
      else Ok(ExpenseBody(Approved))
    case (AssignmentBody(status), Revoke) => if status.Revoked? then Err(AlreadyRevoked) else Ok(AssignmentBody(Revoked))
    case (UnitBody(_, _), Place(parentId, path)) => Ok(UnitBody(parentId, path))
    case _ => Err(WrongKind)
  }

  datatype Row = Row(version: int, body: Body)

  class Expense {
    var status: ExpenseStatus
    var version: int
    var updatedAt: int

    function ToRow(): Row
      reads this
    {
      Row(version, ExpenseBody(status))
    }

    constructor FromSnapshot(status: ExpenseStatus, version: int, updatedAt: int)
      ensures this.status == status && this.version == version && this.updatedAt == updatedAt
    {
      this.status, this.version, this.updatedAt := status, version, updatedAt;
    }

    method Approve(now: int) returns (r: Result<(), StatusError>)
      modifies this
      ensures old(status) == Pending ==> r.Ok? && status == Approved && version == old(version) + 1 && updatedAt == now
      ensures old(status) == Approved ==> r == Err(AlreadyApproved)
      ensures old(status) == Rejected ==> r == Err(CannotApproveRejected)
      ensures r.Err? ==> status == old(status) && version == old(version) && updatedAt == old(updatedAt)
      ensures var changed := Transition(old(ToRow()).body, Change.Approve);
              if changed.Ok? then r.Ok? && ToRow() == Row(old(version) + 1, changed.value) else r == Err(changed.error)
    {
      if status == Approved {
        return Err(AlreadyApproved);
      }
      if status == Rejected {
        return Err(CannotApproveRejected);
      }
      status := Approved;
      updatedAt := now;
      version := version + 1;
      r := Ok(());
    }
  }

  class RoleAssignment {
    var status: AssignmentStatus
    var version: int
    var updatedAt: int

    function ToRow(): Row
      reads this
    {
      Row(version, AssignmentBody(status))
    }

    constructor FromSnapshot(status: AssignmentStatus, version: int, updatedAt: int)
      ensures this.status == status && this.version == version && this.updatedAt == updatedAt
    {
      this.status, this.version, this.updatedAt := status, version, updatedAt;
    }

    method Revoke(now: int) returns (r: Result<(), StatusError>)
      modifies this
      ensures old(status) == Active ==> r.Ok? && status == Revoked && version == old(version) + 1 && updatedAt == now
      ensures old(status) == Revoked ==> r == Err(AlreadyRevoked)
      ensures r.Err? ==> status == old(status) && version == old(version) && updatedAt == old(updatedAt)
      ensures var changed := Transition(old(ToRow()).body, Change.Revoke);
              if changed.Ok? then r.Ok? && ToRow() == Row(old(version) + 1, changed.value) else r == Err(changed.error)
    {
      if status == Revoked {
        return Err(AlreadyRevoked);
      }
      status := Revoked;
      updatedAt := now;
      version := version + 1;
      r := Ok(());
    }
  }

  // ----- Transactions -----------------------------------------------------------------------

  type Table = map<Id, Row>

  /** An aggregate in memory, as loaded, or changed once since. */
  datatype Copy = Loaded(row: Row) | Changed(row: Row, change: Change, to: Row)

  /** A row version with the transaction that wrote it and the transition it made; None is the insert. */
  datatype Entry = Entry(row: Row, writer: nat, change: Option<Change>)

  datatype Phase = Open | Committed(writes: map<Id, Entry>) | RolledBack

  /** `pending` are the rows whose locks the transaction holds, with what it has written there. */
  datatype Tx = Tx(copies: map<Id, Copy>, pending: map<Id, Entry>, phase: Phase)

  /** `history[i]` lists every committed version of row i. */
  datatype State = State(table: Table, txs: seq<Tx>, history: map<Id, seq<Entry>>)

  datatype Event =
    | Begin
    | Read(tx: nat, id: Id)
    | Mutate(tx: nat, id: Id, change: Change)
    | Create(tx: nat, id: Id, body: Body)
    | Save(tx: nat, id: Id)
    | Commit(tx: nat)
    | Rollback(tx: nat)

  predicate IsOpen(s: State, t: nat) {
    t < |s.txs| && s.txs[t].phase.Open?
  }

  predicate LockedByAnother(s: State, t: nat, id: Id) {
    exists u :: 0 <= u < |s.txs| && u != t && id in s.txs[u].pending
  }

  /** The transaction may go on to write the row. */
  predicate GuardPasses(table: Table, id: Id, newVersion: int) {
    newVersion <= 1 || (id in table && table[id].version == newVersion - 1) || id !in table
  }

  /**
   A save waits for the row's lock. Ids are fresh when rows are created. A request keeps the copy it
   has changed, and commits only when it has returned, with everything it changed saved.
   */
  predicate Enabled(s: State, e: Event) {
    match e
    case Begin => true
    case Read(t, id) =>
      && IsOpen(s, t) && id in s.table && id !in s.txs[t].pending
      && (id in s.txs[t].copies ==> s.txs[t].copies[id].Loaded?)
    case Mutate(t, id, change) =>
      IsOpen(s, t) && id in s.txs[t].copies && s.txs[t].copies[id].Loaded? && Transition(s.txs[t].copies[id].row.body, change).Ok?
    case Create(t, id, body) => IsOpen(s, t) && id !in s.table && forall u :: 0 <= u < |s.txs| ==> id !in s.txs[u].pending
    case Save(t, id) => IsOpen(s, t) && id in s.txs[t].copies && s.txs[t].copies[id].Changed? && !LockedByAnother(s, t, id)
    case Commit(t) => IsOpen(s, t) && forall id :: id in s.txs[t].copies ==> s.txs[t].copies[id].Loaded?
    case Rollback(t) => IsOpen(s, t)
  }

  function SetTx(s: State, t: nat, tx: Tx): State
    requires t < |s.txs|
  {
    s.(txs := s.txs[t := tx])
  }

  /** The compare-and-set, and then the full row; a lost race rolls the whole transaction back. */
  function SaveStep(s: State, t: nat, id: Id): State
    requires Enabled(s, Save(t, id))
  {
    var tx := s.txs[t];
    var copy := tx.copies[id];
    if GuardPasses(s.table, id, copy.to.version)
    then SetTx(s, t, Tx(tx.copies - {id}, tx.pending[id := Entry(copy.to, t, Some(copy.change))], Open))
    else SetTx(s, t, Tx(map[], map[], RolledBack))
  }

  function EntriesOf(history: map<Id, seq<Entry>>, id: Id): seq<Entry> {
    if id in history then history[id] else []
  }

  function CommitStep(s: State, t: nat): State
    requires t < |s.txs|
  {
    var pending := s.txs[t].pending;
    State(
      s.table + map id | id in pending :: pending[id].row,
      s.txs[t := Tx(map[], map[], Committed(pending))],
      s.history + map id | id in pending :: EntriesOf(s.history, id) + [pending[id]])
  }

  function Next(s: State, e: Event): State
    requires Enabled(s, e)
  {
    match e
    case Begin => s.(txs := s.txs + [Tx(map[], map[], Open)])
    case Read(t, id) => SetTx(s, t, s.txs[t].(copies := s.txs[t].copies[id := Loaded(s.table[id])]))
    case Mutate(t, id, change) =>
      var row := s.txs[t].copies[id].row;
      var to := Row(row.version + 1, Transition(row.body, change).value);
      SetTx(s, t, s.txs[t].(copies := s.txs[t].copies[id := Changed(row, change, to)]))
    case Create(t, id, body) => SetTx(s, t, s.txs[t].(pending := s.txs[t].pending[id := Entry(Row(1, body), t, None)]))
    case Save(t, id) => SaveStep(s, t, id)
    case Commit(t) => CommitStep(s, t)
    case Rollback(t) => SetTx(s, t, Tx(map[], map[], RolledBack))
  }

  ghost predicate IsRun(states: seq<State>, events: seq<Event>) {
    && |states| == |events| + 1
    && states[0] == State(map[], [], map[])
    && forall k :: 0 <= k < |events| ==> Enabled(states[k], events[k]) && states[k + 1] == Next(states[k], events[k])
  }

  // ----- The invariant ----------------------------------------------------------------------

  /** Versions 1, 2, 3, ..., each one domain transition from the one before. */
  ghost predicate ChainOk(h: seq<Entry>) {
    && (forall k :: 0 <= k < |h| ==> h[k].row.version == k + 1)
    && (forall k :: 0 <= k < |h| ==> (h[k].change.None? <==> k == 0))
    && (forall k :: 0 < k < |h| ==> Transition(h[k - 1].row.body, h[k].change.value) == Ok(h[k].row.body))
  }

  ghost predicate RowOk(s: State, id: Id) {
    && (id in s.table <==> id in s.history)
    && (id in s.table ==> s.history[id] != [] && ChainOk(s.history[id]) && s.history[id][|s.history[id]| - 1].row == s.table[id])
  }

  ghost predicate CopyOk(history: map<Id, seq<Entry>>, id: Id, copy: Copy) {
    && id in history && 1 <= copy.row.version <= |history[id]| && history[id][copy.row.version - 1].row == copy.row
    && (copy.Changed? ==> copy.to.version == copy.row.version + 1 && Transition(copy.row.body, copy.change) == Ok(copy.to.body))
  }

  ghost predicate PendingOk(table: Table, t: nat, id: Id, entry: Entry) {
    && entry.writer == t
    && if id in table
       then entry.row.version == table[id].version + 1 && entry.change.Some?
            && Transition(table[id].body, entry.change.value) == Ok(entry.row.body)
       else entry.row.version == 1 && entry.change.None?
  }

  ghost predicate TxOk(s: State, t: nat)
    requires t < |s.txs|
  {
    && (forall id :: id in s.txs[t].copies ==> CopyOk(s.history, id, s.txs[t].copies[id]))
    && (forall id :: id in s.txs[t].pending ==> PendingOk(s.table, t, id, s.txs[t].pending[id]))
    && (!s.txs[t].phase.Open? ==> s.txs[t].pending == map[])
    && (s.txs[t].phase.Committed? ==>
          forall id :: id in s.txs[t].phase.writes ==>
            s.txs[t].phase.writes[id] in EntriesOf(s.history, id) && s.txs[t].phase.writes[id].writer == t)
  }

  ghost predicate LocksOk(s: State) {
    forall t, u, id :: 0 <= t < u < |s.txs| && id in s.txs[t].pending ==> id !in s.txs[u].pending
  }

  ghost predicate EntryOk(s: State, id: Id, entry: Entry) {
    && entry.writer < |s.txs|
    && s.txs[entry.writer].phase.Committed?
    && id in s.txs[entry.writer].phase.writes && s.txs[entry.writer].phase.writes[id] == entry
  }

  ghost predicate EntriesOk(s: State) {
    forall id, entry :: id in s.history && entry in s.history[id] ==> EntryOk(s, id, entry)
  }

  ghost predicate Inv(s: State) {
    && (forall id :: RowOk(s, id))
    && (forall t {:trigger TxOk(s, t)} :: 0 <= t < |s.txs| ==> TxOk(s, t))
    && LocksOk(s)
    && EntriesOk(s)
  }

  // ----- Every step keeps it ------------------------------------------------------------------

  /** Steps that change nothing but one open transaction. */
  lemma OneTxKeeps(s: State, s': State, t: nat)
    requires Inv(s) && IsOpen(s, t) && |s'.txs| == |s.txs| && s' == SetTx(s, t, s'.txs[t])
    requires TxOk(s', t) && !s'.txs[t].phase.Committed?
    requires forall id :: id in s'.txs[t].pending ==> !LockedByAnother(s, t, id)
    ensures Inv(s')
  {
    forall id
      ensures RowOk(s', id)
    {
      assert RowOk(s, id);
    }
    forall u {:trigger TxOk(s', u)} | 0 <= u < |s'.txs|
      ensures TxOk(s', u)
    {
      if u != t {
        assert TxOk(s, u);
      }
    }
    forall id, entry | id in s'.history && entry in s'.history[id]
      ensures EntryOk(s', id, entry)
    {
      assert EntryOk(s, id, entry);
    }
    forall u, w, id | 0 <= u < w < |s'.txs| && id in s'.txs[u].pending
      ensures id !in s'.txs[w].pending
    {
      assert id in s'.txs[t].pending ==> !LockedByAnother(s, t, id);
    }
  }

  lemma OwnLocks(s: State, t: nat, id: Id)
    requires LocksOk(s) && t < |s.txs| && id in s.txs[t].pending
    ensures !LockedByAnother(s, t, id)
  {
  }

  /** The compare-and-set succeeds only on the very row that was loaded. */
  lemma GuardedCopyIsCurrent(s: State, t: nat, id: Id)
    requires Inv(s) && Enabled(s, Save(t, id)) && GuardPasses(s.table, id, s.txs[t].copies[id].to.version)
    ensures id in s.table && s.txs[t].copies[id].row == s.table[id]
  {
    assert TxOk(s, t) && RowOk(s, id);
    assert CopyOk(s.history, id, s.txs[t].copies[id]);
  }

  lemma SaveKeeps(s: State, t: nat, id: Id)
    requires Inv(s) && Enabled(s, Save(t, id))
    ensures Inv(SaveStep(s, t, id))
  {
    var s' := SaveStep(s, t, id);
    assert TxOk(s, t);
    if GuardPasses(s.table, id, s.txs[t].copies[id].to.version) {
      GuardedCopyIsCurrent(s, t, id);
      assert CopyOk(s.history, id, s.txs[t].copies[id]);
      forall i | i in s'.txs[t].pending
        ensures !LockedByAnother(s, t, i)
      {
        if i in s.txs[t].pending {
          OwnLocks(s, t, i);
        }
      }
    }
    assert TxOk(s', t);
    OneTxKeeps(s, s', t);
  }

  lemma ChainAppends(h: seq<Entry>, entry: Entry)
    requires ChainOk(h) && entry.row.version == |h| + 1 && (entry.change.None? <==> h == [])
    requires h != [] ==> Transition(h[|h| - 1].row.body, entry.change.value) == Ok(entry.row.body)
    ensures ChainOk(h + [entry])
  {
  }

  lemma CommitRowOk(s: State, t: nat, id: Id)
    requires Inv(s) && t < |s.txs|
    ensures RowOk(CommitStep(s, t), id)
  {
    assert RowOk(s, id) && TxOk(s, t);
    var s' := CommitStep(s, t);
    if id in s.txs[t].pending {
      var entry := s.txs[t].pending[id];
      assert PendingOk(s.table, t, id, entry);
      ChainAppends(EntriesOf(s.history, id), entry);
      assert s'.history[id] == EntriesOf(s.history, id) + [entry] && s'.table[id] == entry.row;
    } else {
      assert (id in s'.table <==> id in s.table) && (id in s'.history <==> id in s.history);
    }
  }

  lemma CommitTxOk(s: State, t: nat, u: nat)
    requires Inv(s) && IsOpen(s, t) && u < |s.txs|
    ensures TxOk(CommitStep(s, t), u)
  {
    var s' := CommitStep(s, t);
    assert TxOk(s, u) && TxOk(s, t);
    if u != t {
      forall id | id in s.txs[u].copies
        ensures CopyOk(s'.history, id, s.txs[u].copies[id])
      {
        assert CopyOk(s.history, id, s.txs[u].copies[id]);
      }
      forall id | id in s.txs[u].pending
        ensures PendingOk(s'.table, u, id, s.txs[u].pending[id])
      {
        assert PendingOk(s.table, u, id, s.txs[u].pending[id]);
        OwnLocks(s, u, id);
        assert id !in s.txs[t].pending;
      }
      assert s'.txs[u] == s.txs[u];
    }
  }

  lemma CommitEntriesOk(s: State, t: nat)
    requires Inv(s) && IsOpen(s, t)
    ensures EntriesOk(CommitStep(s, t))
  {
    var s' := CommitStep(s, t);
    assert TxOk(s, t);
    forall id, entry | id in s'.history && entry in s'.history[id]
      ensures EntryOk(s', id, entry)
    {
      if id in s.history && entry in s.history[id] {
        assert EntryOk(s, id, entry);
      } else {
        assert id in s.txs[t].pending && entry == s.txs[t].pending[id];
        assert PendingOk(s.table, t, id, entry);
      }
    }
  }

  lemma NextKeeps(s: State, e: Event)
    requires Inv(s) && Enabled(s, e)
    ensures Inv(Next(s, e))
  {
    var s' := Next(s, e);
    match e
    case Begin => BeginKeeps(s);
    case Save(t, id) => SaveKeeps(s, t, id);
    case Commit(t) =>
      forall id
        ensures RowOk(s', id)
      {
        CommitRowOk(s, t, id);
      }
      forall u {:trigger TxOk(s', u)} | 0 <= u < |s'.txs|
        ensures TxOk(s', u)
      {
        CommitTxOk(s, t, u);
      }
      CommitEntriesOk(s, t);
    case Rollback(t) =>
      OneTxKeeps(s, s', t);
    case Read(t, id) =>
      assert TxOk(s, t) && RowOk(s, id);
      KeepsLocks(s, s', t);
      OneTxKeeps(s, s', t);
    case Mutate(t, id, change) =>
      assert TxOk(s, t);
      assert CopyOk(s.history, id, s.txs[t].copies[id]);
      KeepsLocks(s, s', t);
      OneTxKeeps(s, s', t);
    case Create(t, id, body) =>
      assert TxOk(s, t);
      assert !LockedByAnother(s, t, id);
      forall i | i in s'.txs[t].pending
        ensures !LockedByAnother(s, t, i)
      {
        if i in s.txs[t].pending {
          OwnLocks(s, t, i);
        }
      }
      OneTxKeeps(s, s', t);
  }

  lemma KeepsLocks(s: State, s': State, t: nat)
    requires LocksOk(s) && t < |s.txs| && t < |s'.txs| && s'.txs[t].pending == s.txs[t].pending
    ensures forall id :: id in s'.txs[t].pending ==> !LockedByAnother(s, t, id)
  {
    forall id | id in s'.txs[t].pending
      ensures !LockedByAnother(s, t, id)
    {
      OwnLocks(s, t, id);
    }
  }

  lemma BeginKeeps(s: State)
    requires Inv(s)
    ensures Inv(Next(s, Begin))
  {
    var s' := Next(s, Begin);
    forall id
      ensures RowOk(s', id)
    {
      assert RowOk(s, id);
    }
    forall u {:trigger TxOk(s', u)} | 0 <= u < |s'.txs|
      ensures TxOk(s', u)
    {
      if u < |s.txs| {
        assert TxOk(s, u);
      }
    }
    forall id, entry | id in s'.history && entry in s'.history[id]
      ensures EntryOk(s', id, entry)
    {
      assert EntryOk(s, id, entry);
    }
  }

  lemma {:induction false} RunKeepsInv(states: seq<State>, events: seq<Event>, k: nat)
    requires IsRun(states, events) && k < |states|
    ensures Inv(states[k])
  {
    if k > 0 {
      RunKeepsInv(states, events, k - 1);
      assert Enabled(states[k - 1], events[k - 1]) && states[k - 1 + 1] == Next(states[k - 1], events[k - 1]);
      NextKeeps(states[k - 1], events[k - 1]);
    }
  }

  // ----- What every run shows -----------------------------------------------------------------

  /**
   No lost update: at every moment, each row's committed versions are 1, 2, 3, ... and each was made
   by one domain transition from the version before it.
   */
  lemma VersionsAreOneTransitionApart(states: seq<State>, events: seq<Event>, k: nat, id: Id)
    requires IsRun(states, events) && k < |states| && id in states[k].table
    ensures id in states[k].history && ChainOk(states[k].history[id])
    ensures states[k].history[id] != [] && states[k].history[id][|states[k].history[id]| - 1].row == states[k].table[id]
  {
    RunKeepsInv(states, events, k);
    assert RowOk(states[k], id);
  }

  /** Committed versions are never changed or dropped. */
  lemma {:induction false} HistoryGrows(states: seq<State>, events: seq<Event>, j: nat, k: nat, id: Id)
    requires IsRun(states, events) && j <= k < |states|
    ensures EntriesOf(states[j].history, id) <= EntriesOf(states[k].history, id)
    decreases k - j
  {
    if j < k {
      HistoryGrows(states, events, j, k - 1, id);
      assert Enabled(states[k - 1], events[k - 1]) && states[k - 1 + 1] == Next(states[k - 1], events[k - 1]);
    }
  }

  /** The row that the event changes or creates in transaction `t`, if it does. */
  function ChangedIn(e: Event, t: nat): set<Id> {
    match e
    case Mutate(u, id, _) => if u == t then {id} else {}
    case Create(u, id, _) => if u == t then {id} else {}
    case _ => {}
  }

  /** The rows that transaction `t` changes or creates in the course of these events. */
  function ChangedBy(events: seq<Event>, t: nat): set<Id> {
    if events == [] then {} else ChangedBy(events[..|events| - 1], t) + ChangedIn(events[|events| - 1], t)
  }

  /** What an open transaction has changed waits in its copies or is locked; what a committed one has is written. */
  ghost predicate Tracked(s: State, t: nat, changed: set<Id>) {
    if t >= |s.txs| then changed == {}
    else
      match s.txs[t].phase
      case Open =>
        forall id :: id in changed <==> id in s.txs[t].pending || (id in s.txs[t].copies && s.txs[t].copies[id].Changed?)
      case Committed(writes) => changed == writes.Keys
      case RolledBack => true
  }

  lemma TrackedStep(s: State, e: Event, t: nat, changed: set<Id>)
    requires Enabled(s, e) && Tracked(s, t, changed)
    ensures Tracked(Next(s, e), t, changed + ChangedIn(e, t))
  {
    match e
    case Save(u, id) =>
      assert t < |s.txs| && t != u ==> Next(s, e).txs[t] == s.txs[t];
    case _ =>
  }

  lemma {:induction false} RunTracks(states: seq<State>, events: seq<Event>, k: nat, t: nat)
    requires IsRun(states, events) && k < |states|
    ensures Tracked(states[k], t, ChangedBy(events[..k], t))
  {
    if k > 0 {
      RunTracks(states, events, k - 1, t);
      assert Enabled(states[k - 1], events[k - 1]) && states[k - 1 + 1] == Next(states[k - 1], events[k - 1]);
      TrackedStep(states[k - 1], events[k - 1], t, ChangedBy(events[..k - 1], t));
      assert events[..k][..k - 1] == events[..k - 1];
    }
  }

  /**
   All rows or none. A transaction that committed has one entry in the history for each row it
   changed or created in the run, and no other; a transaction that did not commit has none.
   */
  lemma AllRowsOrNone(states: seq<State>, events: seq<Event>, k: nat, t: nat, id: Id)
    requires IsRun(states, events) && k < |states| && t < |states[k].txs|
    ensures (exists entry :: entry in EntriesOf(states[k].history, id) && entry.writer == t)
            <==> states[k].txs[t].phase.Committed? && id in ChangedBy(events[..k], t)
    ensures forall x, y | x in EntriesOf(states[k].history, id) && y in EntriesOf(states[k].history, id) ::
              x.writer == t && y.writer == t ==> x == y
  {
    var s := states[k];
    RunKeepsInv(states, events, k);
    RunTracks(states, events, k, t);
    assert TxOk(s, t);
    forall entry | entry in EntriesOf(s.history, id) && entry.writer == t
      ensures s.txs[t].phase.Committed? && id in s.txs[t].phase.writes && s.txs[t].phase.writes[id] == entry
    {
      assert EntryOk(s, id, entry);
    }
    if s.txs[t].phase.Committed? && id in ChangedBy(events[..k], t) {
      var entry := s.txs[t].phase.writes[id];
      assert entry in EntriesOf(s.history, id) && entry.writer == t;
    }
  }

  predicate Settled(body: Body) {
    body == ExpenseBody(Approved) || body == AssignmentBody(Revoked)
  }

  /** Whatever has a later version was neither approved nor revoked. */
  lemma SettledIsLast(h: seq<Entry>, i: nat)
    requires ChainOk(h) && i < |h|
    ensures i + 1 < |h| ==> !Settled(h[i].row.body)
  {
    if i + 1 < |h| {
      assert Transition(h[i + 1 - 1].row.body, h[i + 1].change.value) == Ok(h[i + 1].row.body);
    }
  }

  /** The bodies a change leads from and to, by its kind. */
  predicate LeadsTo(before: Body, change: Change, after: Body) {
    match change
    case Approve => before == ExpenseBody(Pending) && after == ExpenseBody(Approved)
    case Revoke => before == AssignmentBody(Active) && after == AssignmentBody(Revoked)
    case Place(parentId, path) => before.UnitBody? && after == UnitBody(parentId, path)
  }

  /**
   In every run: an approval leads from a pending expense to an approved one, a revocation from an active
   assignment to a revoked one, a placement from a unit to that place; and a row that is approved,
   rejected or revoked never gets a later version.
   */
  lemma CommittedChangesByStatus(states: seq<State>, events: seq<Event>, k: nat, id: Id, i: nat)
    requires IsRun(states, events) && k < |states| && i + 1 < |EntriesOf(states[k].history, id)|
    ensures var h := EntriesOf(states[k].history, id);
            && h[i + 1].change.Some? && LeadsTo(h[i].row.body, h[i + 1].change.value, h[i + 1].row.body)
            && h[i].row.body !in {ExpenseBody(Approved), ExpenseBody(Rejected), AssignmentBody(Revoked)}
  {
    RunKeepsInv(states, events, k);
    assert RowOk(states[k], id);
    var h := states[k].history[id];
    assert Transition(h[i + 1 - 1].row.body, h[i + 1].change.value) == Ok(h[i + 1].row.body);
  }

  predicate Settles(entry: Entry) {
    entry.change == Some(Approve) || entry.change == Some(Revoke)
  }

  /**
   Under every interleaving an approval or a revocation is the last committed version of its row, so
   at most one approval of an expense, and one revocation of an assignment, ever commits.
   */
  lemma SettlesAtMostOnce(states: seq<State>, events: seq<Event>, k: nat, id: Id, i: nat)
    requires IsRun(states, events) && k < |states|
    requires i < |EntriesOf(states[k].history, id)| && Settles(EntriesOf(states[k].history, id)[i])
    ensures i == |EntriesOf(states[k].history, id)| - 1
    ensures forall j :: 0 <= j < |EntriesOf(states[k].history, id)| && j != i ==> !Settles(EntriesOf(states[k].history, id)[j])
  {
    RunKeepsInv(states, events, k);
    assert RowOk(states[k], id);
    var h := states[k].history[id];
    forall j | 0 <= j < |h| && Settles(h[j])
      ensures j == |h| - 1
    {
      assert Transition(h[j - 1].row.body, h[j].change.value) == Ok(h[j].row.body);
      SettledIsLast(h, j);
    }
  }

  /**
   Of two transactions that loaded the same version of a row, changed it and saved it, at most one
   commits: the version after it has one writer.
   */
  lemma OneWriterPerVersion(states: seq<State>, events: seq<Event>, k: nat, id: Id, t: nat, u: nat)
    requires IsRun(states, events) && k < |states| && t < |states[k].txs| && u < |states[k].txs|
    requires states[k].txs[t].phase.Committed? && states[k].txs[u].phase.Committed?
    requires id in states[k].txs[t].phase.writes && id in states[k].txs[u].phase.writes
    requires states[k].txs[t].phase.writes[id].row.version == states[k].txs[u].phase.writes[id].row.version
    ensures states[k].txs[t].phase.writes[id] == states[k].txs[u].phase.writes[id]
  {
    var s := states[k];
    RunKeepsInv(states, events, k);
    assert TxOk(s, t) && TxOk(s, u) && RowOk(s, id);
  }

  // ----- Saves that succeed -------------------------------------------------------------------

  /**
   A save goes on exactly when the copy is of the row as it is now, and then holds its lock and its new
   version; otherwise the transaction is over and has let go of everything.
   */
  lemma SaveSucceedsIff(states: seq<State>, events: seq<Event>, k: nat, t: nat, id: Id)
    requires IsRun(states, events) && k < |states| && Enabled(states[k], Save(t, id))
    ensures var s, s' := states[k], Next(states[k], Save(t, id));
            var copy := s.txs[t].copies[id];
            if id in s.table && s.table[id] == copy.row
            then s'.txs[t] == Tx(s.txs[t].copies - {id}, s.txs[t].pending[id := Entry(copy.to, t, Some(copy.change))], Open)
                 && copy.to.version == copy.row.version + 1 && Transition(copy.row.body, copy.change) == Ok(copy.to.body)
            else s'.txs[t] == Tx(map[], map[], RolledBack)
    ensures Next(states[k], Save(t, id)).table == states[k].table
  {
    RunKeepsInv(states, events, k);
    var s := states[k];
    assert TxOk(s, t) && CopyOk(s.history, id, s.txs[t].copies[id]);
    if GuardPasses(s.table, id, s.txs[t].copies[id].to.version) {
      GuardedCopyIsCurrent(s, t, id);
    }
  }

  lemma Extend(states: seq<State>, events: seq<Event>, e: Event) returns (states': seq<State>, events': seq<Event>)
    requires IsRun(states, events) && Enabled(states[|events|], e)
    ensures IsRun(states', events') && states' == states + [Next(states[|events|], e)] && events' == events + [e]
  {
    states', events' := states + [Next(states[|events|], e)], events + [e];
    forall k | 0 <= k < |events'|
      ensures Enabled(states'[k], events'[k]) && states'[k + 1] == Next(states'[k], events'[k])
    {
      if k < |events| {
        assert Enabled(states[k], events[k]) && states[k + 1] == Next(states[k], events[k]);
      }
    }
  }

  ghost predicate Free(s: State, id: Id) {
    forall u :: 0 <= u < |s.txs| ==> id !in s.txs[u].pending
  }

  /** What a transaction is to do: each of these rows, once, through this change. */
  ghost predicate Plan(s: State, plan: map<Id, Change>) {
    forall id :: id in plan ==> id in s.table && Transition(s.table[id].body, plan[id]).Ok?
  }

  /** Reads, changes and saves one row in an open transaction that holds no copies. */
  lemma SaveOne(states: seq<State>, events: seq<Event>, t: nat, id: Id, change: Change)
    returns (states': seq<State>, events': seq<Event>)
    requires IsRun(states, events) && IsOpen(states[|events|], t) && states[|events|].txs[t].copies == map[]
    requires Free(states[|events|], id) && id in states[|events|].table && Transition(states[|events|].table[id].body, change).Ok?
    ensures IsRun(states', events') && states <= states' && |states'| == |states| + 3
    ensures var s, s' := states[|events|], states'[|events'|];
            var row := s.table[id];
            && s'.table == s.table && s'.history == s.history && |s'.txs| == |s.txs|
            && (forall u :: 0 <= u < |s.txs| && u != t ==> s'.txs[u] == s.txs[u])
            && s'.txs[t] == Tx(map[], s.txs[t].pending[id := Entry(Row(row.version + 1, Transition(row.body, change).value), t, Some(change))], Open)
  {
    states', events' := Extend(states, events, Read(t, id));
    states', events' := Extend(states', events', Mutate(t, id, change));
    var s := states'[|events'|];
    assert s.txs[t].copies == map[id := s.txs[t].copies[id]];
    SaveSucceedsIff(states', events', |events'|, t, id);
    states', events' := Extend(states', events', Save(t, id));
  }

  function NewRow(row: Row, change: Change): Row
    requires Transition(row.body, change).Ok?
  {
    Row(row.version + 1, Transition(row.body, change).value)
  }

  ghost predicate Undisturbed(s: State, plan: map<Id, Change>) {
    Plan(s, plan) && forall id :: id in plan ==> Free(s, id)
  }

  /** What a transaction that carries out the plan holds before it commits. */
  function Planned(table: Table, t: nat, plan: map<Id, Change>): map<Id, Entry>
    requires forall id :: id in plan ==> id in table && Transition(table[id].body, plan[id]).Ok?
  {
    map id | id in plan :: Entry(NewRow(table[id], plan[id]), t, Some(plan[id]))
  }

  lemma PlannedFirst(table: Table, t: nat, plan: map<Id, Change>, id: Id, pending: map<Id, Entry>)
    requires forall i :: i in plan ==> i in table && Transition(table[i].body, plan[i]).Ok?
    requires id in plan
    ensures pending[id := Entry(NewRow(table[id], plan[id]), t, Some(plan[id]))] + Planned(table, t, plan - {id})
            == pending + Planned(table, t, plan)
  {
  }

  lemma StaysUndisturbed(s: State, s': State, t: nat, id: Id, plan: map<Id, Change>)
    requires Undisturbed(s, plan) && s'.table == s.table && |s'.txs| == |s.txs| && t < |s.txs|
    requires forall u :: 0 <= u < |s.txs| && u != t ==> s'.txs[u] == s.txs[u]
    requires s'.txs[t].pending.Keys == s.txs[t].pending.Keys + {id}
    ensures Undisturbed(s', plan - {id})
  {
    forall i | i in plan - {id}
      ensures Free(s', i)
    {
      assert Free(s, i);
    }
  }

  /** The open transaction t holds no copies, nobody else is in the plan's way, and what it will hold is `goal`. */
  ghost predicate OnTheWay(s: State, t: nat, plan: map<Id, Change>, table: Table, goal: map<Id, Entry>) {
    && IsOpen(s, t) && s.txs[t].copies == map[] && Undisturbed(s, plan) && s.table == table
    && s.txs[t].pending + Planned(table, t, plan) == goal
  }

  lemma SaveFirst(states: seq<State>, events: seq<Event>, t: nat, plan: map<Id, Change>, goal: map<Id, Entry>, id: Id)
    returns (states': seq<State>, events': seq<Event>)
    requires IsRun(states, events) && OnTheWay(states[|events|], t, plan, states[|events|].table, goal) && id in plan
    ensures IsRun(states', events') && states <= states' && |states'[|events'|].txs| == |states[|events|].txs|
    ensures OnTheWay(states'[|events'|], t, plan - {id}, states[|events|].table, goal)
  {
    var s := states[|events|];
    states', events' := SaveOne(states, events, t, id, plan[id]);
    StaysUndisturbed(s, states'[|events'|], t, id, plan);
    PlannedFirst(s.table, t, plan, id, s.txs[t].pending);
  }

  lemma {:induction false} SaveAll(states: seq<State>, events: seq<Event>, t: nat, plan: map<Id, Change>, goal: map<Id, Entry>)
    returns (states': seq<State>, events': seq<Event>)
    requires IsRun(states, events) && OnTheWay(states[|events|], t, plan, states[|events|].table, goal)
    ensures IsRun(states', events') && states <= states' && |states'[|events'|].txs| == |states[|events|].txs|
    ensures OnTheWay(states'[|events'|], t, map[], states[|events|].table, goal)
    decreases |plan|
  {
    if plan == map[] {
      states', events' := states, events;
    } else {
      var id :| id in plan;
      var states1, events1 := SaveFirst(states, events, t, plan, goal, id);
      assert (plan - {id}).Keys == plan.Keys - {id};
      states', events' := SaveAll(states1, events1, t, plan - {id}, goal);
    }
  }

  lemma BeginsUndisturbed(s: State, plan: map<Id, Change>)
    requires Undisturbed(s, plan)
    ensures Undisturbed(Next(s, Begin), plan)
  {
    forall id | id in plan
      ensures Free(Next(s, Begin), id)
    {
      assert Free(s, id);
    }
  }

  lemma CommitsPlan(s: State, t: nat, plan: map<Id, Change>)
    requires Plan(s, plan) && t < |s.txs| && s.txs[t].pending == Planned(s.table, t, plan)
    ensures CommitStep(s, t).table == map id | id in s.table :: if id in plan then NewRow(s.table[id], plan[id]) else s.table[id]
  {
  }

  /** A transaction that no other disturbs commits what it set out to do, and nothing else. */
  lemma SoloCommits(states: seq<State>, events: seq<Event>, plan: map<Id, Change>)
    returns (states': seq<State>, events': seq<Event>)
    requires IsRun(states, events) && Undisturbed(states[|events|], plan)
    ensures IsRun(states', events') && states <= states'
    ensures var s, s' := states[|events|], states'[|events'|];
            && |s'.txs| == |s.txs| + 1 && s'.txs[|s.txs|].phase == Committed(Planned(s.table, |s.txs|, plan))
            && s'.table == map id | id in s.table :: if id in plan then NewRow(s.table[id], plan[id]) else s.table[id]
  {
    var s := states[|events|];
    var goal := Planned(s.table, |s.txs|, plan);
    BeginsUndisturbed(s, plan);
    var states1, events1 := Extend(states, events, Begin);
    assert map[] + goal == goal;
    var states2, events2 := SaveAll(states1, events1, |s.txs|, plan, goal);
    assert Planned(s.table, |s.txs|, map[]) == map[];
    CommitsPlan(states2[|events2|], |s.txs|, plan);
    states', events' := Extend(states2, events2, Commit(|s.txs|));
  }
}
