/**
 The bounded TTL + LRU cache of the principal resolver. The map's insertion order is the
 recency order: the first key is the least recently used one.
 */
module TtlLruCaches {
  import opened Wrappers
  import opened InsertionMaps

  datatype Entry<V> = Entry(value: V, expiresAt: int)

  type Store<V> = Pairs<string, Entry<V>>

  datatype Op<V> =
    | GetOp(key: string, now: int)
    | SetOp(key: string, value: V, now: int)
    | DeleteOp(key: string)
    | ClearOp

  // ----- One operation ----------------------------------------------------------------------

  function CacheGet<V>(s: Store<V>, key: string, now: int): (Store<V>, Option<V>) {
    var found := Get(s, key);
    if found.None? then (s, None)
    else if found.value.expiresAt <= now then (Delete(s, key), None)
    else (Set(Delete(s, key), key, found.value), Some(found.value.value))
  }

  function EvictFirst<V>(s: Store<V>): Store<V> {
    if s == [] then s else Delete(s, s[0].0)
  }

  function CacheSet<V>(s: Store<V>, maxEntries: nat, ttl: int, key: string, value: V, now: int): Store<V> {
    var room := if Get(s, key).Some? then Delete(s, key)
                else if |s| >= maxEntries then EvictFirst(s)
                else s;
    Set(room, key, Entry(value, now + ttl))
  }

  function Apply<V>(s: Store<V>, maxEntries: nat, ttl: int, op: Op<V>): (Store<V>, Option<V>) {
    match op
    case GetOp(key, now) => CacheGet(s, key, now)
    case SetOp(key, value, now) => (CacheSet(s, maxEntries, ttl, key, value, now), None)
    case DeleteOp(key) => (Delete(s, key), None)
    case ClearOp => ([], None)
  }

  function Run<V>(s: Store<V>, maxEntries: nat, ttl: int, ops: seq<Op<V>>): Store<V> {
    if ops == [] then s
    else Apply(Run(s, maxEntries, ttl, ops[..|ops| - 1]), maxEntries, ttl, ops[|ops| - 1]).0
  }

  // ----- The class --------------------------------------------------------------------------

  class TtlLruCache<V> {
    const maxEntries: nat
    const ttlMs: int
    var store: Store<V>

    constructor (maxEntries: nat, ttlMs: int)
      ensures this.maxEntries == maxEntries && this.ttlMs == ttlMs && store == []
    {
      this.maxEntries := maxEntries;
      this.ttlMs := ttlMs;
      store := [];
    }

    method Lookup(key: string, now: int) returns (r: Option<V>)
      modifies this`store
      ensures (store, r) == CacheGet(old(store), key, now)
    {
      var entry := Get(store, key);
      if entry.None? {
        return None;
      }
      if entry.value.expiresAt <= now {
        store := Delete(store, key);
        return None;
      }
      store := Delete(store, key);
      store := Set(store, key, entry.value);
      r := Some(entry.value.value);
    }

    method Put(key: string, value: V, now: int)
      modifies this`store
      ensures store == CacheSet(old(store), maxEntries, ttlMs, key, value, now)
    {
      if Get(store, key).Some? {
        store := Delete(store, key);
      } else if |store| >= maxEntries {
        if |store| > 0 {
          store := Delete(store, store[0].0);
        }
      }
      store := Set(store, key, Entry(value, now + ttlMs));
    }

    method Remove(key: string)
      modifies this`store
      ensures store == Apply(old(store), maxEntries, ttlMs, DeleteOp(key)).0
    {
      store := Delete(store, key);
    }

    method Clear()
      modifies this`store
      ensures store == Apply(old(store), maxEntries, ttlMs, ClearOp).0
    {
      store := [];
    }
  }

  // ----- Shape: bounded, one entry a key, what each operation leaves --------------------------

  ghost predicate Bounded<V>(s: Store<V>, maxEntries: nat) {
    Distinct(s) && |s| <= maxEntries
  }

  /** A hit moves its entry to the end and changes no other. */
  lemma GetShape<V>(s: Store<V>, key: string, now: int)
    requires Distinct(s)
    ensures var (s', r) := CacheGet(s, key, now);
            && Distinct(s')
            && (Get(s, key).None? ==> s' == s && r.None?)
            && (Get(s, key).Some? && Get(s, key).value.expiresAt <= now ==> s' == Delete(s, key) && r.None?)
            && (Get(s, key).Some? && Get(s, key).value.expiresAt > now ==>
                  s' == Delete(s, key) + [(key, Get(s, key).value)] && r == Some(Get(s, key).value.value)
                  && Keys(s') == Keys(s) && |s'| == |s|)
  {
    DeleteSize(s, key);
    var found := Get(s, key);
    if found.Some? && found.value.expiresAt > now {
      SetAbsentAppends(Delete(s, key), key, found.value);
      SnocDistinct(Delete(s, key), (key, found.value));
      SetKeys(Delete(s, key), key, found.value);
    }
  }

  lemma EvictShape<V>(s: Store<V>)
    requires Distinct(s) && s != []
    ensures EvictFirst(s) == s[1..] && Keys(s[1..]) == Keys(s) - {s[0].0} && Distinct(s[1..])
  {
    DistinctTail(s);
    KeysCons(s);
    DeleteIsRestrict(s, s[0].0);
    RestrictAll(s[1..], Keys(s) - {s[0].0});
    DeleteSize(s, s[0].0);
  }

  /** What is left of the store when a set appends its entry. */
  function Room<V>(s: Store<V>, maxEntries: nat, key: string): Store<V> {
    if Get(s, key).Some? then Delete(s, key)
    else if |s| >= maxEntries then EvictFirst(s)
    else s
  }

  lemma SetShape<V>(s: Store<V>, maxEntries: nat, ttl: int, key: string, value: V, now: int)
    requires Bounded(s, maxEntries) && maxEntries >= 1
    ensures var s' := CacheSet(s, maxEntries, ttl, key, value, now);
            && s' == Room(s, maxEntries, key) + [(key, Entry(value, now + ttl))]
            && Bounded(s', maxEntries)
            && key !in Keys(Room(s, maxEntries, key)) && Keys(Room(s, maxEntries, key)) <= Keys(s)
            && |Room(s, maxEntries, key)| < maxEntries
            && Keys(s') == Keys(Room(s, maxEntries, key)) + {key}
  {
    DeleteSize(s, key);
    if Get(s, key).None? && |s| >= maxEntries {
      EvictShape(s);
    }
    var room := Room(s, maxEntries, key);
    SetAbsentAppends(room, key, Entry(value, now + ttl));
    SnocDistinct(room, (key, Entry(value, now + ttl)));
    SetKeys(room, key, Entry(value, now + ttl));
  }

  lemma ApplyBounded<V>(s: Store<V>, maxEntries: nat, ttl: int, op: Op<V>)
    requires Bounded(s, maxEntries) && maxEntries >= 1
    ensures Bounded(Apply(s, maxEntries, ttl, op).0, maxEntries)
  {
    match op
    case GetOp(key, now) =>
      GetShape(s, key, now);
      DeleteSize(s, key);
    case SetOp(key, value, now) => SetShape(s, maxEntries, ttl, key, value, now);
    case DeleteOp(key) => DeleteSize(s, key);
    case ClearOp =>
  }

  /** The size never exceeds the capacity, over every run. */
  lemma {:induction false} RunBounded<V>(maxEntries: nat, ttl: int, ops: seq<Op<V>>)
    requires maxEntries >= 1
    ensures Bounded(Run([], maxEntries, ttl, ops), maxEntries)
  {
    if ops != [] {
      RunBounded(maxEntries, ttl, ops[..|ops| - 1]);
      ApplyBounded(Run([], maxEntries, ttl, ops[..|ops| - 1]), maxEntries, ttl, ops[|ops| - 1]);
    }
  }

  /** With capacity zero the eviction finds nothing and the cache still holds one entry. */
  lemma ZeroCapacityHoldsOne<V>(ttl: int, key: string, value: V, now: int)
    ensures |Run([], 0, ttl, [SetOp(key, value, now)])| == 1
  {
    assert [SetOp(key, value, now)][..0] == [];
    assert Run([], 0, ttl, [SetOp(key, value, now)]) == CacheSet([], 0, ttl, key, value, now);
  }

  // ----- Inclusion --------------------------------------------------------------------------

  /**
   The small store is the big one cut down to the small one's keys (equal entries, same order),
   and the big one has at least as many free places. The second half is what keeps the big cache
   from evicting an entry the small one still holds.
   */
  ghost predicate Included<V>(small: Store<V>, big: Store<V>, m: nat, n: nat) {
    && Bounded(small, m) && Bounded(big, n)
    && Keys(small) <= Keys(big)
    && small == Restrict(big, Keys(small))
    && |big| - |small| <= n - m
  }

  lemma IncludedGet<V>(small: Store<V>, big: Store<V>, m: nat, n: nat, key: string)
    requires Included(small, big, m, n)
    ensures Get(small, key).Some? ==> Get(big, key) == Get(small, key)
  {
    RestrictGet(big, Keys(small), key);
  }

  lemma IncludedDelete<V>(small: Store<V>, big: Store<V>, m: nat, n: nat, key: string)
    requires Included(small, big, m, n)
    ensures Included(Delete(small, key), Delete(big, key), m, n)
  {
    DeleteSize(small, key);
    DeleteSize(big, key);
    DeleteCommutes(big, Keys(small), key);
  }

  lemma DeleteCommutes<V>(s: Store<V>, keep: set<string>, key: string)
    ensures Delete(Restrict(s, keep), key) == Restrict(Delete(s, key), keep - {key})
    ensures Restrict(Delete(s, key), keep - {key}) == Restrict(s, keep - {key})
  {
    var r := Restrict(s, keep);
    DeleteIsRestrictTo(r, key, Keys(r) + keep);
    RestrictTwice(s, keep, Keys(r) + keep - {key});
    DeleteIsRestrict(s, key);
    RestrictTwice(s, Keys(s) - {key}, keep - {key});
    RestrictAgree(s, keep * (Keys(r) + keep - {key}), keep - {key});
    RestrictAgree(s, (Keys(s) - {key}) * (keep - {key}), keep - {key});
  }

  /** Appending the same fresh entry to both sides keeps the order. */
  lemma RestrictAppend<V>(big: Store<V>, keep: set<string>, x: (string, Entry<V>))
    requires x.0 !in Keys(big)
    ensures Restrict(big + [x], keep + {x.0}) == Restrict(big, keep) + [x]
  {
    RestrictConcat(big, [x], keep + {x.0});
    RestrictAgree(big, keep + {x.0}, keep);
    assert Restrict([x], keep + {x.0}) == [x] + Restrict([x][1..], keep + {x.0});
  }

  /** Rooms made in both stores before a set: still included, with one entry fewer allowed. */
  lemma RoomIncluded<V>(small: Store<V>, big: Store<V>, m: nat, n: nat, key: string)
    requires Included(small, big, m, n) && 1 <= m <= n
    ensures var rs, rb := Room(small, m, key), Room(big, n, key);
            && Keys(rs) <= Keys(rb) && rs == Restrict(Delete(rb, key), Keys(rs))
            && |rb| - |rs| <= n - m
  {
    var rs, rb := Room(small, m, key), Room(big, n, key);
    DeleteSize(small, key);
    DeleteSize(big, key);
    if key in Keys(small) {
      IncludedDelete(small, big, m, n, key);
      DeleteAbsent(rb, key);
    } else if |small| >= m {
      EvictShape(small);
      if key in Keys(big) {
        DeleteCommutes(big, Keys(small), small[0].0);
        DeleteCommutes(big, Keys(rs), key);
        assert Keys(rs) - {key} == Keys(rs);
        DeleteAbsent(rb, key);
      } else {
        EvictBoth(small, big, m, n, key);
      }
    } else {
      DeleteCommutes(big, Keys(small), key);
      assert Keys(small) - {key} == Keys(small);
      DeleteAbsent(rb, key);
    }
  }

  /** The small store evicts; the big one evicts only if it is full, and then never a shared entry. */
  lemma EvictBoth<V>(small: Store<V>, big: Store<V>, m: nat, n: nat, key: string)
    requires Included(small, big, m, n) && 1 <= m <= n
    requires |small| >= m && key !in Keys(small) && key !in Keys(big)
    ensures var rs, rb := Room(small, m, key), Room(big, n, key);
            && Keys(rs) <= Keys(rb) && rs == Restrict(Delete(rb, key), Keys(rs))
            && |rb| - |rs| <= n - m
  {
    var rs, rb := Room(small, m, key), Room(big, n, key);
    EvictShape(small);
    DeleteCommutes(big, Keys(small), small[0].0);
    assert rs == Restrict(big, Keys(rs));
    if |big| >= n {
      EvictShape(big);
      KeysCons(big);
      if big[0].0 in Keys(small) {
        assert small[0] == big[0];
      }
      assert big[0].0 !in Keys(rs);
      assert Restrict(big, Keys(rs)) == Restrict(big[1..], Keys(rs));
    }
    DeleteAbsent(rb, key);
  }

  lemma IncludedSet<V>(small: Store<V>, big: Store<V>, m: nat, n: nat, ttl: int, key: string, value: V, now: int)
    requires Included(small, big, m, n) && 1 <= m <= n
    ensures Included(CacheSet(small, m, ttl, key, value, now), CacheSet(big, n, ttl, key, value, now), m, n)
  {
    var rs, rb := Room(small, m, key), Room(big, n, key);
    var x := (key, Entry(value, now + ttl));
    SetShape(small, m, ttl, key, value, now);
    SetShape(big, n, ttl, key, value, now);
    RoomIncluded(small, big, m, n, key);
    DeleteAbsent(rb, key);
    RestrictAppend(rb, Keys(rs), x);
  }

  lemma DeleteAbsent<V>(s: Store<V>, key: string)
    requires key !in Keys(s)
    ensures Delete(s, key) == s
  {
    DeleteIsRestrict(s, key);
    RestrictAll(s, Keys(s) - {key});
  }

  /** A read that hits in the small cache is the same hit in the big one. */
  lemma IncludedRead<V>(small: Store<V>, big: Store<V>, m: nat, n: nat, key: string, now: int)
    requires Included(small, big, m, n) && 1 <= m <= n
    ensures Included(CacheGet(small, key, now).0, CacheGet(big, key, now).0, m, n)
    ensures CacheGet(small, key, now).1.Some? ==> CacheGet(big, key, now).1 == CacheGet(small, key, now).1
  {
    IncludedGet(small, big, m, n, key);
    IncludedDelete(small, big, m, n, key);
    GetShape(small, key, now);
    GetShape(big, key, now);
    DeleteSize(small, key);
    DeleteSize(big, key);
    var found := Get(big, key);
    if found.Some? && found.value.expiresAt > now {
      var x := (key, found.value);
      if Get(small, key).Some? {
        RestrictAppend(Delete(big, key), Keys(Delete(small, key)), x);
        assert Keys(small) == Keys(Delete(small, key)) + {key};
      } else {
        DeleteAbsent(small, key);
        RestrictConcat(Delete(big, key), [x], Keys(small));
        assert Restrict([x], Keys(small)) == Restrict([x][1..], Keys(small)) == [];
      }
    } else if found.Some? && Get(small, key).None? {
      DeleteAbsent(small, key);
    }
  }

  lemma IncludedApply<V>(small: Store<V>, big: Store<V>, m: nat, n: nat, ttl: int, op: Op<V>)
    requires Included(small, big, m, n) && 1 <= m <= n
    ensures Included(Apply(small, m, ttl, op).0, Apply(big, n, ttl, op).0, m, n)
    ensures Apply(small, m, ttl, op).1.Some? ==> Apply(big, n, ttl, op).1 == Apply(small, m, ttl, op).1
  {
    match op
    case GetOp(key, now) => IncludedRead(small, big, m, n, key, now);
    case SetOp(key, value, now) => IncludedSet(small, big, m, n, ttl, key, value, now);
    case DeleteOp(key) => IncludedDelete(small, big, m, n, key);
    case ClearOp =>
  }

  /**
   Run the same operations on the same clock with capacities m <= n: at every point the small
   cache is the big one restricted to fewer keys, in the same order with the same values and
   expiries, and every hit in the small one is the same hit in the big one.
   */
  lemma {:induction false} Inclusion<V>(m: nat, n: nat, ttl: int, ops: seq<Op<V>>, next: Op<V>)
    requires 1 <= m <= n
    ensures Included(Run([], m, ttl, ops), Run([], n, ttl, ops), m, n)
    ensures var hit := Apply(Run([], m, ttl, ops), m, ttl, next).1;
            hit.Some? ==> Apply(Run([], n, ttl, ops), n, ttl, next).1 == hit
  {
    if ops == [] {
      KeysOfEmpty<string, Entry<V>>();
    } else {
      var last := ops[|ops| - 1];
      Inclusion(m, n, ttl, ops[..|ops| - 1], last);
      IncludedApply(Run([], m, ttl, ops[..|ops| - 1]), Run([], n, ttl, ops[..|ops| - 1]), m, n, ttl, last);
    }
    IncludedApply(Run([], m, ttl, ops), Run([], n, ttl, ops), m, n, ttl, next);
  }

  // ----- Refinement of an unbounded map -------------------------------------------------------

  /** The value last set and not removed since, with the time it was set. No capacity, no TTL. */
  ghost function LastSet<V>(ops: seq<Op<V>>, key: string): Option<(V, int)> {
    if ops == [] then None
    else
      var last := ops[|ops| - 1];
      if last.SetOp? && last.key == key then Some((last.value, last.now))
      else if last.ClearOp? || (last.DeleteOp? && last.key == key) then None
      else LastSet(ops[..|ops| - 1], key)
  }

  ghost predicate Remembers<V>(s: Store<V>, ttl: int, ops: seq<Op<V>>) {
    forall k :: Get(s, k).Some? ==>
      && LastSet(ops, k).Some?
      && Get(s, k).value == Entry(LastSet(ops, k).value.0, LastSet(ops, k).value.1 + ttl)
  }

  lemma GetAfterApply<V>(s: Store<V>, maxEntries: nat, ttl: int, op: Op<V>, k: string)
    ensures var s' := Apply(s, maxEntries, ttl, op).0;
            Get(s', k).Some? ==>
              if op.SetOp? && op.key == k then Get(s', k).value == Entry(op.value, op.now + ttl)
              else Get(s', k) == Get(s, k) && !op.ClearOp? && !(op.DeleteOp? && op.key == k)
  {
    match op
    case GetOp(key, now) =>
      DeleteGet(s, key, k);
      if Get(s, key).Some? {
        SetGet(Delete(s, key), key, Get(s, key).value, k);
      }
    case SetOp(key, value, now) =>
      RoomGet(s, maxEntries, key, k);
      SetGet(Room(s, maxEntries, key), key, Entry(value, now + ttl), k);
    case DeleteOp(key) => DeleteGet(s, key, k);
    case ClearOp => KeysOfEmpty<string, Entry<V>>();
  }

  lemma RoomGet<V>(s: Store<V>, maxEntries: nat, key: string, k: string)
    ensures Get(Room(s, maxEntries, key), k).Some? ==> Get(Room(s, maxEntries, key), k) == Get(s, k)
  {
    DeleteGet(s, key, k);
    if s != [] {
      DeleteGet(s, s[0].0, k);
    }
  }

  lemma {:induction false} RunRemembers<V>(maxEntries: nat, ttl: int, ops: seq<Op<V>>)
    requires maxEntries >= 1
    ensures Remembers(Run([], maxEntries, ttl, ops), ttl, ops)
  {
    var s := Run([], maxEntries, ttl, ops);
    if ops == [] {
      KeysOfEmpty<string, Entry<V>>();
    } else {
      var before := ops[..|ops| - 1];
      RunRemembers(maxEntries, ttl, before);
      RunBounded(maxEntries, ttl, before);
      forall k | Get(s, k).Some?
        ensures LastSet(ops, k).Some? && Get(s, k).value == Entry(LastSet(ops, k).value.0, LastSet(ops, k).value.1 + ttl)
      {
        GetAfterApply(Run([], maxEntries, ttl, before), maxEntries, ttl, ops[|ops| - 1], k);
      }
    }
  }

  /** A hit returns the value last set and not removed since, strictly within its TTL. */
  lemma HitIsLastSetWithinTtl<V>(maxEntries: nat, ttl: int, ops: seq<Op<V>>, key: string, now: int)
    requires maxEntries >= 1
    ensures var hit := Apply(Run([], maxEntries, ttl, ops), maxEntries, ttl, GetOp(key, now)).1;
            hit.Some? ==>
              && LastSet(ops, key).Some?
              && hit.value == LastSet(ops, key).value.0
              && now < LastSet(ops, key).value.1 + ttl
  {
    RunRemembers(maxEntries, ttl, ops);
  }

  // ----- Recency order ------------------------------------------------------------------------

  /** A set touches its key; a read touches it when it hits. */
  ghost predicate Touches<V>(s: Store<V>, op: Op<V>, k: string) {
    || (op.SetOp? && op.key == k)
    || (op.GetOp? && op.key == k && CacheGet(s, k, op.now).1.Some?)
  }

  /** The number of operations up to and including the last touch of `k`; zero if there is none. */
  ghost function LastTouch<V>(maxEntries: nat, ttl: int, ops: seq<Op<V>>, k: string): nat {
    if ops == [] then 0
    else
      var before := ops[..|ops| - 1];
      if Touches(Run([], maxEntries, ttl, before), ops[|ops| - 1], k) then |ops|
      else LastTouch(maxEntries, ttl, before, k)
  }

  ghost predicate OrderedBy<V>(s: Store<V>, f: string -> int) {
    forall i, j :: 0 <= i < j < |s| ==> f(s[i].0) < f(s[j].0)
  }

  lemma {:induction false} DeleteMembers<V>(s: Store<V>, key: string)
    ensures forall x :: x in Delete(s, key) ==> x in s
  {
    if s != [] {
      DeleteMembers(s[1..], key);
    }
  }

  lemma {:induction false} OrderedDelete<V>(s: Store<V>, f: string -> int, key: string)
    requires OrderedBy(s, f)
    ensures OrderedBy(Delete(s, key), f)
  {
    if s != [] {
      var rest := Delete(s[1..], key);
      OrderedDelete(s[1..], f, key);
      if s[0].0 != key {
        DeleteMembers(s[1..], key);
        forall j | 0 <= j < |rest|
          ensures f(s[0].0) < f(rest[j].0)
        {
          assert rest[j] in s[1..];
        }
      }
    }
  }

  lemma {:induction false} LastTouchBound<V>(maxEntries: nat, ttl: int, ops: seq<Op<V>>, k: string)
    ensures LastTouch(maxEntries, ttl, ops, k) <= |ops|
  {
    if ops != [] {
      LastTouchBound(maxEntries, ttl, ops[..|ops| - 1], k);
    }
  }

  /** An operation leaves a remainder of the old store, then the touched entry if there is one. */
  lemma ApplySplits<V>(s: Store<V>, maxEntries: nat, ttl: int, op: Op<V>, f: string -> int) returns (rest: Store<V>, tail: Store<V>)
    requires Bounded(s, maxEntries) && maxEntries >= 1 && OrderedBy(s, f)
    ensures Apply(s, maxEntries, ttl, op).0 == rest + tail && OrderedBy(rest, f)
    ensures |tail| <= 1 && (|tail| == 1 ==> Touches(s, op, tail[0].0))
    ensures forall i :: 0 <= i < |rest| ==> !Touches(s, op, rest[i].0)
  {
    match op
    case GetOp(key, now) =>
      GetShape(s, key, now);
      OrderedDelete(s, f, key);
      DeleteSize(s, key);
      if CacheGet(s, key, now).1.Some? {
        rest, tail := Delete(s, key), [(key, Get(s, key).value)];
        assert forall i :: 0 <= i < |rest| ==> rest[i].0 in Keys(rest);
      } else {
        rest, tail := CacheGet(s, key, now).0, [];
      }
    case SetOp(key, value, now) =>
      SetShape(s, maxEntries, ttl, key, value, now);
      OrderedDelete(s, f, key);
      if s != [] {
        OrderedDelete(s, f, s[0].0);
      }
      rest, tail := Room(s, maxEntries, key), [(key, Entry(value, now + ttl))];
      assert forall i :: 0 <= i < |rest| ==> rest[i].0 in Keys(rest);
    case DeleteOp(key) =>
      OrderedDelete(s, f, key);
      rest, tail := Delete(s, key), [];
    case ClearOp =>
      rest, tail := [], [];
  }

  /** The map's order is last-touch order: the first key is the one touched longest ago. */
  lemma {:induction false} OrderIsLastTouchOrder<V>(maxEntries: nat, ttl: int, ops: seq<Op<V>>)
    requires maxEntries >= 1
    ensures OrderedBy(Run([], maxEntries, ttl, ops), k => LastTouch(maxEntries, ttl, ops, k))
  {
    if ops != [] {
      var before, op := ops[..|ops| - 1], ops[|ops| - 1];
      var s := Run([], maxEntries, ttl, before);
      OrderIsLastTouchOrder(maxEntries, ttl, before);
      RunBounded(maxEntries, ttl, before);
      var f: string -> int := k => LastTouch(maxEntries, ttl, before, k);
      var g: string -> int := k => LastTouch(maxEntries, ttl, ops, k);
      var rest, tail := ApplySplits(s, maxEntries, ttl, op, f);
      forall i | 0 <= i < |rest|
        ensures g(rest[i].0) == f(rest[i].0) < |ops|
      {
        LastTouchBound(maxEntries, ttl, before, rest[i].0);
      }
      assert OrderedBy(rest + tail, g);
    }
  }

  // ----- Survival -----------------------------------------------------------------------------

  /** Every key touched while running `ops` from `s`. */
  ghost function TouchedKeys<V>(s: Store<V>, maxEntries: nat, ttl: int, ops: seq<Op<V>>): set<string> {
    if ops == [] then {}
    else
      var op := ops[|ops| - 1];
      var earlier := TouchedKeys(s, maxEntries, ttl, ops[..|ops| - 1]);
      if (op.SetOp? || op.GetOp?) && Touches(Run(s, maxEntries, ttl, ops[..|ops| - 1]), op, op.key)
      then earlier + {op.key} else earlier
  }

  /** Nobody removes or replaces `k`, and whoever reads it does so before it expires. */
  ghost predicate Spares<V>(ops: seq<Op<V>>, k: string, expiresAt: int) {
    forall i :: 0 <= i < |ops| ==> SparesOp(ops[i], k, expiresAt)
  }

  predicate SparesOp<V>(op: Op<V>, k: string, expiresAt: int) {
    !op.ClearOp? && (op.key == k ==> op.GetOp? && op.now < expiresAt)
  }

  /** An early read of `k` puts it behind all others. */
  lemma ReadStep<V>(s: Store<V>, maxEntries: nat, ttl: int, k: string, now: int)
    requires Bounded(s, maxEntries) && Get(s, k).Some? && now < Get(s, k).value.expiresAt
    ensures var s' := Apply(s, maxEntries, ttl, GetOp(k, now)).0;
            Get(s', k) == Get(s, k) && KeysAfter(s', k) == {}
  {
    GetShape(s, k, now);
    GetAfterApply(s, maxEntries, ttl, GetOp(k, now), k);
    DeleteSize(s, k);
    NoneAfterLast(Delete(s, k), (k, Get(s, k).value));
  }

  lemma {:induction false} SurvivesStep<V>(s: Store<V>, maxEntries: nat, ttl: int, op: Op<V>, k: string, others: set<string>)
    requires Bounded(s, maxEntries) && maxEntries >= 1 && k in Keys(s) && KeysAfter(s, k) <= others
    requires !op.ClearOp? && op.key != k
    requires var others' := if (op.SetOp? || op.GetOp?) && Touches(s, op, op.key) then others + {op.key} else others;
             |others'| < maxEntries
    ensures var s' := Apply(s, maxEntries, ttl, op).0;
            var others' := if (op.SetOp? || op.GetOp?) && Touches(s, op, op.key) then others + {op.key} else others;
            k in Keys(s') && Get(s', k) == Get(s, k) && KeysAfter(s', k) <= others'
  {
    GetAfterApply(s, maxEntries, ttl, op, k);
    DeleteSize(s, op.key);
    KeysAfterDelete(s, k, op.key);
    match op
    case GetOp(key, now) =>
      GetShape(s, key, now);
      if CacheGet(s, key, now).1.Some? {
        KeysAfterAppend(Delete(s, key), k, (key, Get(s, key).value));
      }
    case SetOp(key, value, now) =>
      SetShape(s, maxEntries, ttl, key, value, now);
      if Get(s, key).None? && |s| >= maxEntries {
        EvictShape(s);
        KeysCons(s);
        if s[0].0 == k {
          FullMeansTooManyOthers(s, maxEntries, k, key, others);
        }
        assert KeysAfter(s, k) == KeysAfter(s[1..], k);
      }
      KeysAfterAppend(Room(s, maxEntries, key), k, (key, Entry(value, now + ttl)));
    case DeleteOp(key) =>
  }

  /** If `k` is first in a full cache, the keys behind it and the new one already fill the cache. */
  lemma FullMeansTooManyOthers<V>(s: Store<V>, maxEntries: nat, k: string, key: string, others: set<string>)
    requires Distinct(s) && |s| == maxEntries >= 1 && s[0].0 == k && key !in Keys(s)
    requires KeysAfter(s, k) <= others
    ensures |others + {key}| >= maxEntries
  {
    DistinctTail(s);
    KeysCons(s);
    KeysCount(s[1..]);
    Contained(Keys(s[1..]) + {key}, others + {key});
  }

  /** A key just set stands last, with the value and expiry it was set with. */
  lemma SetIsLast<V>(s: Store<V>, maxEntries: nat, ttl: int, key: string, value: V, now: int)
    requires Bounded(s, maxEntries) && maxEntries >= 1
    ensures var s' := CacheSet(s, maxEntries, ttl, key, value, now);
            key in Keys(s') && Get(s', key) == Some(Entry(value, now + ttl)) && KeysAfter(s', key) == {}
  {
    SetShape(s, maxEntries, ttl, key, value, now);
    NoneAfterLast(Room(s, maxEntries, key), (key, Entry(value, now + ttl)));
    GetAfterApply(s, maxEntries, ttl, SetOp(key, value, now), key);
  }

  lemma {:induction false} Contained<T>(a: set<T>, b: set<T>)
    requires a <= b
    ensures |a| <= |b|
  {
    if a != {} {
      var x :| x in a;
      Contained(a - {x}, b - {x});
    }
  }

  /**
   A key just touched keeps its entry while fewer than `maxEntries` distinct other keys are touched
   and nobody removes or replaces it, however often it is itself read before it expires.
   */
  lemma {:induction false} Survives<V>(s: Store<V>, maxEntries: nat, ttl: int, ops: seq<Op<V>>, k: string)
    requires Bounded(s, maxEntries) && maxEntries >= 1
    requires k in Keys(s) && KeysAfter(s, k) == {}
    requires Spares(ops, k, Get(s, k).value.expiresAt) && |TouchedKeys(s, maxEntries, ttl, ops) - {k}| < maxEntries
    ensures var s' := Run(s, maxEntries, ttl, ops);
            && Bounded(s', maxEntries) && k in Keys(s') && Get(s', k) == Get(s, k)
            && KeysAfter(s', k) <= TouchedKeys(s, maxEntries, ttl, ops) - {k}
  {
    if ops != [] {
      var before, op := ops[..|ops| - 1], ops[|ops| - 1];
      var others := TouchedKeys(s, maxEntries, ttl, before) - {k};
      Contained(others, TouchedKeys(s, maxEntries, ttl, ops) - {k});
      Survives(s, maxEntries, ttl, before, k);
      var mid := Run(s, maxEntries, ttl, before);
      ApplyBounded(mid, maxEntries, ttl, op);
      assert SparesOp(op, k, Get(s, k).value.expiresAt);
      if op.key == k {
        ReadStep(mid, maxEntries, ttl, k, op.now);
      } else {
        var others' := if (op.SetOp? || op.GetOp?) && Touches(mid, op, op.key) then others + {op.key} else others;
        assert others' == TouchedKeys(s, maxEntries, ttl, ops) - {k};
        SurvivesStep(mid, maxEntries, ttl, op, k, others);
      }
    }
  }

  lemma {:induction false} RunConcat<V>(s: Store<V>, maxEntries: nat, ttl: int, a: seq<Op<V>>, b: seq<Op<V>>)
    ensures Run(s, maxEntries, ttl, a + b) == Run(Run(s, maxEntries, ttl, a), maxEntries, ttl, b)
    decreases |b|
  {
    if b == [] {
      assert a + b == a;
    } else {
      var front := b[..|b| - 1];
      RunConcat(s, maxEntries, ttl, a, front);
      assert (a + b)[..|a + b| - 1] == a + front;
    }
  }
}
