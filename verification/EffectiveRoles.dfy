/**
 A principal's effective roles at a scope: the active grants on the scope's chain, each role once,
 most specific first.
 */
module EffectiveRoles {
  import opened Wrappers
  import opened DottedPaths
  import opened InsertionMaps
  import opened ScopeChains

  datatype Assignment = Assignment(userId: string, roleId: string, scope: string, active: bool, validUntil: Option<int>)

  datatype Grant = Grant(roleKey: string, scope: string)

  // ----- The query --------------------------------------------------------------------------

  predicate Selected(a: Assignment, keys: map<string, string>, userId: string, chain: seq<string>, now: int) {
    && a.roleId in keys
    && a.userId == userId
    && a.scope in chain
    && a.active
    && (a.validUntil.None? || a.validUntil.value > now)
  }

  /** The joined and filtered rows, in the order the table yields them; `keys` are the existing roles. */
  function FindActiveGrants(rows: seq<Assignment>, keys: map<string, string>, userId: string, chain: seq<string>, now: int): seq<Grant> {
    if rows == [] then []
    else
      (if Selected(rows[0], keys, userId, chain, now) then [Grant(keys[rows[0].roleId], rows[0].scope)] else [])
      + FindActiveGrants(rows[1..], keys, userId, chain, now)
  }

  predicate Grants(a: Assignment, keys: map<string, string>, userId: string, chain: seq<string>, now: int, g: Grant) {
    Selected(a, keys, userId, chain, now) && g == Grant(keys[a.roleId], a.scope)
  }

  lemma {:induction false} FindActiveGrantsExact(rows: seq<Assignment>, keys: map<string, string>, userId: string,
                                                 chain: seq<string>, now: int, g: Grant)
    ensures g in FindActiveGrants(rows, keys, userId, chain, now)
            <==> exists i :: 0 <= i < |rows| && Grants(rows[i], keys, userId, chain, now, g)
  {
    if rows != [] {
      var rest := rows[1..];
      FindActiveGrantsExact(rest, keys, userId, chain, now, g);
      assert rows == [rows[0]] + rest;
      if exists i :: 0 <= i < |rest| && Grants(rest[i], keys, userId, chain, now, g) {
        var i :| 0 <= i < |rest| && Grants(rest[i], keys, userId, chain, now, g);
        assert rows[i + 1] == rest[i];
      }
    }
  }

  // ----- Each role once, most specific first ----------------------------------------------------

  /** The place of a scope in the chain; a scope off the chain ranks below all. */
  function Depth(chain: seq<string>, scope: string): int {
    var depth := DepthOf(chain, scope);
    if depth.Some? then depth.value else -1
  }

  function RoleKeys(grants: seq<Grant>): set<string> {
    set i | 0 <= i < |grants| :: grants[i].roleKey
  }

  /** The deepest of the grants of a role. */
  function Deepest(chain: seq<string>, grants: seq<Grant>, key: string): int
    requires key in RoleKeys(grants)
  {
    var last, earlier := grants[|grants| - 1], grants[..|grants| - 1];
    if last.roleKey != key then RoleKeysSnoc(grants); Deepest(chain, earlier, key)
    else if key !in RoleKeys(earlier) then Depth(chain, last.scope)
    else
      var before := Deepest(chain, earlier, key);
      if Depth(chain, last.scope) > before then Depth(chain, last.scope) else before
  }

  lemma RoleKeysSnoc(grants: seq<Grant>)
    requires grants != []
    ensures RoleKeys(grants) == RoleKeys(grants[..|grants| - 1]) + {grants[|grants| - 1].roleKey}
  {
    var earlier := grants[..|grants| - 1];
    assert forall i :: 0 <= i < |earlier| ==> earlier[i] == grants[i];
    forall k | k in RoleKeys(grants)
      ensures k in RoleKeys(earlier) + {grants[|grants| - 1].roleKey}
    {
      var i :| 0 <= i < |grants| && grants[i].roleKey == k;
      if i < |earlier| {
        assert earlier[i].roleKey == k;
      }
    }
    forall k | k in RoleKeys(earlier)
      ensures k in RoleKeys(grants)
    {
      var i :| 0 <= i < |earlier| && earlier[i].roleKey == k;
      assert grants[i].roleKey == k;
    }
  }

  /** Where a role's first grant stands. */
  function First(grants: seq<Grant>, key: string): nat
    requires key in RoleKeys(grants)
    ensures First(grants, key) < |grants| && grants[First(grants, key)].roleKey == key
  {
    if key in RoleKeys(grants[..|grants| - 1]) then First(grants[..|grants| - 1], key)
    else RoleKeysSnoc(grants); |grants| - 1
  }

  /** `x` is granted deeper than `y`, or as deep and earlier. */
  predicate Outranks(chain: seq<string>, grants: seq<Grant>, x: string, y: string)
    requires x in RoleKeys(grants) && y in RoleKeys(grants)
  {
    || Deepest(chain, grants, x) > Deepest(chain, grants, y)
    || (Deepest(chain, grants, x) == Deepest(chain, grants, y) && First(grants, x) < First(grants, y))
  }

  /** Each granted role exactly once, each outranking all after it. */
  ghost predicate MostSpecificFirst(chain: seq<string>, grants: seq<Grant>, roles: seq<string>) {
    && (forall k :: k in roles <==> k in RoleKeys(grants))
    && forall i, j :: 0 <= i < j < |roles| ==> Outranks(chain, grants, roles[i], roles[j])
  }

  ghost predicate Ranked(chain: seq<string>, grants: seq<Grant>, roles: seq<string>) {
    && (forall k :: k in roles ==> k in RoleKeys(grants))
    && forall i, j :: 0 <= i < j < |roles| ==> Outranks(chain, grants, roles[i], roles[j])
  }

  lemma {:induction false} RankedUnique(chain: seq<string>, grants: seq<Grant>, a: seq<string>, b: seq<string>)
    requires Ranked(chain, grants, a) && Ranked(chain, grants, b) && forall k :: k in a <==> k in b
    ensures a == b
  {
    assert forall k :: 0 <= k < |a| ==> a[k] in b;
    assert forall k :: 0 <= k < |b| ==> b[k] in a;
    if a != [] && b != [] {
      assert a[0] == b[0];
      var x, y := a[1..], b[1..];
      assert a == [a[0]] + x && b == [b[0]] + y;
      forall k
        ensures k in x <==> k in y
      {
        assert k in x ==> k in a && k != a[0];
        assert k in y ==> k in b && k != b[0];
      }
      RankedUnique(chain, grants, x, y);
    }
  }

  /** There is one such list, and no role stands in it twice. */
  lemma MostSpecificFirstDetermines(chain: seq<string>, grants: seq<Grant>, a: seq<string>, b: seq<string>)
    requires MostSpecificFirst(chain, grants, a) && MostSpecificFirst(chain, grants, b)
    ensures a == b
    ensures forall i, j :: 0 <= i < j < |a| ==> a[i] != a[j]
  {
    RankedUnique(chain, grants, a, b);
    forall i, j | 0 <= i < j < |a|
      ensures a[i] != a[j]
    {
      assert Outranks(chain, grants, a[i], a[j]);
    }
  }

  lemma {:induction false} DeepestIsMaximum(chain: seq<string>, grants: seq<Grant>, key: string)
    requires key in RoleKeys(grants)
    ensures forall i :: 0 <= i < |grants| && grants[i].roleKey == key ==> Depth(chain, grants[i].scope) <= Deepest(chain, grants, key)
    ensures exists i :: 0 <= i < |grants| && grants[i].roleKey == key && Depth(chain, grants[i].scope) == Deepest(chain, grants, key)
  {
    var n, earlier := |grants| - 1, grants[..|grants| - 1];
    RoleKeysSnoc(grants);
    if key in RoleKeys(earlier) {
      DeepestIsMaximum(chain, earlier, key);
      var j :| 0 <= j < |earlier| && earlier[j].roleKey == key && Depth(chain, earlier[j].scope) == Deepest(chain, earlier, key);
      assert grants[j] == earlier[j];
      assert forall i :: 0 <= i < n ==> grants[i] == earlier[i];
    } else {
      assert forall i :: 0 <= i < n ==> grants[i] == earlier[i];
      assert grants[n].roleKey == key;
    }
  }

  lemma {:induction false} FirstIsFirst(grants: seq<Grant>, key: string)
    requires key in RoleKeys(grants)
    ensures forall i :: 0 <= i < First(grants, key) ==> grants[i].roleKey != key
  {
    var earlier := grants[..|grants| - 1];
    assert forall i :: 0 <= i < |earlier| ==> grants[i] == earlier[i];
    if key in RoleKeys(earlier) {
      FirstIsFirst(earlier, key);
    } else {
    }
  }

  // ----- The loop ---------------------------------------------------------------------------

  /** The map built from these grants: their roles in the order of first appearance, each with its best depth. */
  ghost predicate Tracks(chain: seq<string>, grants: seq<Grant>, best: Pairs<string, int>) {
    && Distinct(best) && Keys(best) == RoleKeys(grants)
    && (forall p :: 0 <= p < |best| ==> best[p].0 in RoleKeys(grants))
    && (forall p :: 0 <= p < |best| ==> best[p].1 == Deepest(chain, grants, best[p].0))
    && (forall p, q :: 0 <= p < q < |best| ==> First(grants, best[p].0) < First(grants, best[q].0))
  }

  lemma TracksNewRole(chain: seq<string>, grants: seq<Grant>, best: Pairs<string, int>)
    requires grants != [] && Tracks(chain, grants[..|grants| - 1], best) && grants[|grants| - 1].roleKey !in Keys(best)
    ensures Tracks(chain, grants, Set(best, grants[|grants| - 1].roleKey, Depth(chain, grants[|grants| - 1].scope)))
  {
    var g, earlier := grants[|grants| - 1], grants[..|grants| - 1];
    var best' := Set(best, g.roleKey, Depth(chain, g.scope));
    SetAbsentAppends(best, g.roleKey, Depth(chain, g.scope));
    SetKeys(best, g.roleKey, Depth(chain, g.scope));
    RoleKeysSnoc(grants);
    forall p | 0 <= p < |best|
      ensures best'[p] == best[p] && best'[p].0 in RoleKeys(grants)
      ensures First(grants, best'[p].0) == First(earlier, best[p].0) && best'[p].1 == Deepest(chain, grants, best'[p].0)
    {
      KeyAt(best, p);
    }
    assert best'[|best|] == (g.roleKey, Depth(chain, g.scope)) && First(grants, g.roleKey) == |earlier|;
  }

  lemma KeyAt(best: Pairs<string, int>, p: nat)
    requires p < |best|
    ensures best[p].0 in Keys(best)
  {
  }

  lemma TracksKnownRole(chain: seq<string>, grants: seq<Grant>, best: Pairs<string, int>, best': Pairs<string, int>)
    requires grants != [] && Tracks(chain, grants[..|grants| - 1], best) && grants[|grants| - 1].roleKey in Keys(best)
    requires |best'| == |best|
    requires forall p :: 0 <= p < |best| ==>
               best'[p].0 == best[p].0
               && best'[p].1 == if best[p].0 == grants[|grants| - 1].roleKey && Depth(chain, grants[|grants| - 1].scope) > best[p].1
                                then Depth(chain, grants[|grants| - 1].scope) else best[p].1
    ensures Tracks(chain, grants, best')
  {
    var earlier := grants[..|grants| - 1];
    RoleKeysSnoc(grants);
    forall p | 0 <= p < |best|
      ensures best'[p].0 in RoleKeys(grants)
      ensures First(grants, best'[p].0) == First(earlier, best[p].0) && best'[p].1 == Deepest(chain, grants, best'[p].0)
    {
      KeyAt(best, p);
    }
    SameKeys(best, best');
  }

  lemma SameKeys(best: Pairs<string, int>, best': Pairs<string, int>)
    requires |best'| == |best| && forall p :: 0 <= p < |best| ==> best'[p].0 == best[p].0
    ensures Keys(best') == Keys(best) && (Distinct(best) ==> Distinct(best'))
  {
    forall p | 0 <= p < |best|
      ensures best[p].0 in Keys(best') && best'[p].0 in Keys(best)
    {
      KeyAt(best, p);
      KeyAt(best', p);
    }
  }

  lemma {:induction false} GetAt(best: Pairs<string, int>, p: nat)
    requires Distinct(best) && p < |best|
    ensures Get(best, best[p].0) == Some(best[p].1)
  {
    if p > 0 {
      DistinctTail(best);
      GetAt(best[1..], p - 1);
    }
  }

  /** What the loop body does with the last grant. */
  function Tracked(chain: seq<string>, grant: Grant, best: Pairs<string, int>): Pairs<string, int> {
    var depth, current := Depth(chain, grant.scope), Get(best, grant.roleKey);
    if current.None? || depth > current.value then Set(best, grant.roleKey, depth) else best
  }

  lemma TrackStep(chain: seq<string>, grants: seq<Grant>, best: Pairs<string, int>)
    requires grants != [] && Tracks(chain, grants[..|grants| - 1], best)
    ensures Tracks(chain, grants, Tracked(chain, grants[|grants| - 1], best))
  {
    var g := grants[|grants| - 1];
    if g.roleKey in Keys(best) {
      forall p | 0 <= p < |best|
        ensures Get(best, best[p].0) == Some(best[p].1)
      {
        GetAt(best, p);
      }
      SetKeepsPlaces(best, g.roleKey, Depth(chain, g.scope));
      TracksKnownRole(chain, grants, best, Tracked(chain, g, best));
    } else {
      TracksNewRole(chain, grants, best);
    }
  }

  // ----- The stable sort ------------------------------------------------------------------------

  function InsertByDepth(x: (string, int), sorted: seq<(string, int)>): seq<(string, int)> {
    if sorted == [] || sorted[0].1 < x.1 then [x] + sorted else [sorted[0]] + InsertByDepth(x, sorted[1..])
  }

  /** `sort((a, b) => b[1] - a[1])`, which is stable. */
  function SortByDepth(entries: seq<(string, int)>): seq<(string, int)> {
    if entries == [] then [] else InsertByDepth(entries[|entries| - 1], SortByDepth(entries[..|entries| - 1]))
  }

  type Place = string -> int

  predicate Before(place: Place, x: (string, int), y: (string, int)) {
    x.1 > y.1 || (x.1 == y.1 && place(x.0) < place(y.0))
  }

  ghost predicate InOrder(place: Place, s: seq<(string, int)>) {
    forall i, j :: 0 <= i < j < |s| ==> Before(place, s[i], s[j])
  }

  lemma {:induction false} InsertKeepsOrder(place: Place, x: (string, int), s: seq<(string, int)>)
    requires InOrder(place, s) && forall i :: 0 <= i < |s| ==> place(s[i].0) < place(x.0)
    ensures InOrder(place, InsertByDepth(x, s))
    ensures forall y :: y in InsertByDepth(x, s) <==> y == x || y in s
  {
    if s != [] {
      if s[0].1 < x.1 {
        assert forall i :: 0 < i < |s| ==> Before(place, s[0], s[i]);
      } else {
        var rest := s[1..];
        assert forall i :: 0 <= i < |rest| ==> rest[i] == s[i + 1];
        InsertKeepsOrder(place, x, rest);
        var r := InsertByDepth(x, rest);
        forall y | y in r
          ensures Before(place, s[0], y)
        {
        }
        assert s == [s[0]] + rest;
      }
    }
  }

  /** Entries listed by place come out deepest first, and by place within one depth. */
  lemma {:induction false} SortIsStable(place: Place, entries: seq<(string, int)>)
    requires forall i, j :: 0 <= i < j < |entries| ==> place(entries[i].0) < place(entries[j].0)
    ensures InOrder(place, SortByDepth(entries))
    ensures forall y :: y in SortByDepth(entries) <==> y in entries
  {
    if entries != [] {
      var x, front := entries[|entries| - 1], entries[..|entries| - 1];
      SortIsStable(place, front);
      var sorted := SortByDepth(front);
      forall i | 0 <= i < |sorted|
        ensures place(sorted[i].0) < place(x.0)
      {
        assert sorted[i] in front;
      }
      InsertKeepsOrder(place, x, sorted);
      assert entries == front + [x];
    }
  }

  function RolesOf(entries: seq<(string, int)>): seq<string> {
    seq(|entries|, i requires 0 <= i < |entries| => entries[i].0)
  }

  lemma SortedEntries(chain: seq<string>, grants: seq<Grant>, best: Pairs<string, int>, sorted: seq<(string, int)>)
    requires Tracks(chain, grants, best) && forall y :: y in sorted <==> y in best
    ensures forall i :: 0 <= i < |sorted| ==>
              sorted[i].0 in RoleKeys(grants) && sorted[i].1 == Deepest(chain, grants, sorted[i].0)
    ensures forall k :: k in RolesOf(sorted) <==> k in RoleKeys(grants)
  {
    forall i | 0 <= i < |sorted|
      ensures sorted[i].0 in RoleKeys(grants) && sorted[i].1 == Deepest(chain, grants, sorted[i].0)
    {
      assert sorted[i] in best;
    }
    forall k | k in RoleKeys(grants)
      ensures k in RolesOf(sorted)
    {
      assert k in Keys(best);
      var p :| 0 <= p < |best| && best[p].0 == k;
      assert best[p] in sorted;
      var q :| 0 <= q < |sorted| && sorted[q] == best[p];
      assert RolesOf(sorted)[q] == k;
    }
  }

  lemma SortedTrackIsMostSpecificFirst(chain: seq<string>, grants: seq<Grant>, best: Pairs<string, int>)
    requires Tracks(chain, grants, best)
    ensures MostSpecificFirst(chain, grants, RolesOf(SortByDepth(best)))
  {
    var place: Place := k => if k in RoleKeys(grants) then First(grants, k) else -1;
    SortIsStable(place, best);
    var sorted := SortByDepth(best);
    SortedEntries(chain, grants, best, sorted);
    forall i, j | 0 <= i < j < |sorted|
      ensures Outranks(chain, grants, RolesOf(sorted)[i], RolesOf(sorted)[j])
    {
      assert Before(place, sorted[i], sorted[j]);
    }
  }

  /** One entry a role, raised when a deeper grant comes; then a stable sort, deepest first. */
  method DedupeMostSpecificFirst(grants: seq<Grant>, chain: seq<string>) returns (roles: seq<string>)
    ensures MostSpecificFirst(chain, grants, roles)
  {
    var best: Pairs<string, int> := [];
    for i := 0 to |grants|
      invariant Tracks(chain, grants[..i], best)
    {
      var grant := grants[i];
      ghost var seen, before := grants[..i + 1], best;
      assert seen[..i] == grants[..i] && seen[i] == grant;
      var depth := Depth(chain, grant.scope);
      var current := Get(best, grant.roleKey);
      if current.None? || depth > current.value {
        best := Set(best, grant.roleKey, depth);
      }
      TrackStep(chain, seen, before);
    }
    assert grants[..|grants|] == grants;
    SortedTrackIsMostSpecificFirst(chain, grants, best);
    roles := RolesOf(SortByDepth(best));
  }

  // ----- The department ---------------------------------------------------------------------

  /**
   The label under the root of the deepest grant's scope. All the grants lie on one chain, so that
   label is the requested scope's own, present when any grant lies below the root.
   */
  method DeriveDepartment(grants: seq<Grant>, requested: string) returns (department: Option<string>)
    requires forall i :: 0 <= i < |grants| ==> AncestorOrSelf(grants[i].scope, requested)
    ensures department.Some? <==> exists i :: 0 <= i < |grants| && |Split(grants[i].scope)| >= 2
    ensures department.Some? ==> |Split(requested)| >= 2 && department.value == Split(requested)[1]
  {
    var chain := Chain(requested);
    var deepest: Option<(string, int)> := None;
    for i := 0 to |grants|
      invariant deepest.None? <==> i == 0
      invariant deepest.Some? ==> AncestorOrSelf(deepest.value.0, requested) && deepest.value.1 == |Split(deepest.value.0)| - 1
      invariant deepest.Some? ==> forall j :: 0 <= j < i ==> |Split(grants[j].scope)| - 1 <= deepest.value.1
      invariant deepest.Some? ==> exists j :: 0 <= j < i && grants[j].scope == deepest.value.0
    {
      DepthOfIsSegmentCount(requested, grants[i].scope);
      var depth := Depth(chain, grants[i].scope);
      if deepest.None? || depth > deepest.value.1 {
        deepest := Some((grants[i].scope, depth));
      }
    }
    if deepest.None? {
      return None;
    }
    var labels := Split(deepest.value.0);
    department := if |labels| >= 2 then Some(labels[1]) else None;
  }

  // ----- The use case -----------------------------------------------------------------------

  datatype Principal = Principal(roles: seq<string>, department: Option<string>)

  lemma GrantsAreOnTheChain(rows: seq<Assignment>, keys: map<string, string>, userId: string, scope: string, now: int)
    ensures forall i :: 0 <= i < |FindActiveGrants(rows, keys, userId, Chain(scope), now)| ==>
              AncestorOrSelf(FindActiveGrants(rows, keys, userId, Chain(scope), now)[i].scope, scope)
  {
    var grants := FindActiveGrants(rows, keys, userId, Chain(scope), now);
    forall i | 0 <= i < |grants|
      ensures AncestorOrSelf(grants[i].scope, scope)
    {
      FindActiveGrantsExact(rows, keys, userId, Chain(scope), now, grants[i]);
      ChainIsAncestorsOrSelf(scope, grants[i].scope);
    }
  }

  method ResolvePrincipal(rows: seq<Assignment>, keys: map<string, string>, userId: string, scope: string, now: int)
    returns (r: Result<Principal, ScopeError>)
    ensures r.Ok? <==> IsScope(scope)
    ensures r.Ok? ==> MostSpecificFirst(Chain(scope), FindActiveGrants(rows, keys, userId, Chain(scope), now), r.value.roles)
    ensures r.Ok? ==> (r.value.department.Some? <==>
              exists g :: g in FindActiveGrants(rows, keys, userId, Chain(scope), now) && |Split(g.scope)| >= 2)
    ensures r.Ok? && r.value.department.Some? ==> |Split(scope)| >= 2 && r.value.department.value == Split(scope)[1]
  {
    var chain := ForScope(scope);
    if chain.Err? {
      return Err(chain.error);
    }
    var grants := FindActiveGrants(rows, keys, userId, chain.value, now);
    GrantsAreOnTheChain(rows, keys, userId, scope, now);
    var roles := DedupeMostSpecificFirst(grants, chain.value);
    var department := DeriveDepartment(grants, scope);
    r := Ok(Principal(roles, department));
  }

  /** The user holds the role at the scope or above it, active, unexpired, and the role still exists. */
  ghost predicate Effective(rows: seq<Assignment>, keys: map<string, string>, userId: string, scope: string, now: int, key: string) {
    exists i :: 0 <= i < |rows| && HoldsAt(rows[i], keys, userId, scope, now, key)
  }

  predicate HoldsAt(a: Assignment, keys: map<string, string>, userId: string, scope: string, now: int, key: string) {
    && a.userId == userId && a.roleId in keys && keys[a.roleId] == key
    && a.active && (a.validUntil.None? || a.validUntil.value > now)
    && AncestorOrSelf(a.scope, scope)
  }

  /** The roles listed at a scope are exactly the effective ones. */
  lemma RolesAreTheEffectiveOnes(rows: seq<Assignment>, keys: map<string, string>, userId: string, scope: string, now: int,
                                 roles: seq<string>, key: string)
    requires MostSpecificFirst(Chain(scope), FindActiveGrants(rows, keys, userId, Chain(scope), now), roles)
    ensures key in roles <==> Effective(rows, keys, userId, scope, now, key)
  {
    var grants := FindActiveGrants(rows, keys, userId, Chain(scope), now);
    if key in roles {
      var p :| 0 <= p < |grants| && grants[p].roleKey == key;
      FindActiveGrantsExact(rows, keys, userId, Chain(scope), now, grants[p]);
      ChainIsAncestorsOrSelf(scope, grants[p].scope);
      var i :| 0 <= i < |rows| && Grants(rows[i], keys, userId, Chain(scope), now, grants[p]);
      assert HoldsAt(rows[i], keys, userId, scope, now, key);
    }
    if Effective(rows, keys, userId, scope, now, key) {
      var i :| 0 <= i < |rows| && HoldsAt(rows[i], keys, userId, scope, now, key);
      ChainIsAncestorsOrSelf(scope, rows[i].scope);
      var g := Grant(key, rows[i].scope);
      assert Grants(rows[i], keys, userId, Chain(scope), now, g);
      FindActiveGrantsExact(rows, keys, userId, Chain(scope), now, g);
      var p :| 0 <= p < |grants| && grants[p] == g;
      assert grants[p].roleKey in RoleKeys(grants);
    }
  }

  /** A narrower scope has every role of a wider one. */
  lemma NarrowerScopeHasMore(rows: seq<Assignment>, keys: map<string, string>, userId: string, wide: string, narrow: string, now: int,
                             wideRoles: seq<string>, narrowRoles: seq<string>, key: string)
    requires AncestorOrSelf(wide, narrow) && key in wideRoles
    requires MostSpecificFirst(Chain(wide), FindActiveGrants(rows, keys, userId, Chain(wide), now), wideRoles)
    requires MostSpecificFirst(Chain(narrow), FindActiveGrants(rows, keys, userId, Chain(narrow), now), narrowRoles)
    ensures key in narrowRoles
  {
    RolesAreTheEffectiveOnes(rows, keys, userId, wide, now, wideRoles, key);
    RolesAreTheEffectiveOnes(rows, keys, userId, narrow, now, narrowRoles, key);
    var i :| 0 <= i < |rows| && HoldsAt(rows[i], keys, userId, wide, now, key);
    assert HoldsAt(rows[i], keys, userId, narrow, now, key);
  }
}
