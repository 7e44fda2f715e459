/**
 The principal client's cache keys: tenant, user and scope joined by `::`, with nothing escaped, and
 exactly when two principals get one key.
 */
module CacheKeys {
  function CacheKey(userId: string, tenantId: string, scope: string): string {
    tenantId + "::" + userId + "::" + scope
  }

  /** One tenant id, closed by the separator, begins the other. */
  predicate TenantsClash(t1: string, t2: string) {
    t1 + "::" <= t2 + "::" || t2 + "::" <= t1 + "::"
  }

  predicate EndsWith(s: string, suffix: string) {
    |suffix| <= |s| && s[|s| - |suffix|..] == suffix
  }

  /** One scope, opened by the separator, ends the other. */
  predicate ScopesClash(s1: string, s2: string) {
    EndsWith("::" + s1, "::" + s2) || EndsWith("::" + s2, "::" + s1)
  }

  lemma KeyFromTenant(userId: string, tenantId: string, scope: string)
    ensures CacheKey(userId, tenantId, scope) == (tenantId + "::") + (userId + ("::" + scope))
  {
  }

  lemma KeyToScope(userId: string, tenantId: string, scope: string)
    ensures CacheKey(userId, tenantId, scope) == (tenantId + "::" + userId) + ("::" + scope)
  {
  }

  lemma PrefixesOfOne(a: string, x: string, b: string, y: string)
    requires a + x == b + y
    ensures a <= b || b <= a
  {
    var k := a + x;
    assert a == k[..|a|] && b == k[..|b|];
  }

  lemma SuffixesOfOne(x: string, a: string, y: string, b: string)
    requires x + a == y + b
    ensures EndsWith(a, b) || EndsWith(b, a)
  {
    var k := x + a;
    assert a == k[|k| - |a|..] && b == k[|k| - |b|..];
  }

  /** Where the longer tenant id goes on, the shorter one's user id can go on the same way. */
  lemma ClashingTenantsShare(t1: string, t2: string, userId: string, scope: string)
    requires t1 + "::" <= t2 + "::"
    ensures CacheKey((t2 + "::")[|t1| + 2..] + userId, t1, scope) == CacheKey(userId, t2, scope)
  {
    var more := (t2 + "::")[|t1| + 2..];
    KeyFromTenant(more + userId, t1, scope);
    KeyFromTenant(userId, t2, scope);
    assert t2 + "::" == (t1 + "::") + more;
    assert more + userId + ("::" + scope) == more + (userId + ("::" + scope));
  }

  /** Two tenants have a key in common, for some users and scopes, if and only if their ids clash. */
  lemma TenantsShareKeyIff(t1: string, t2: string)
    ensures (exists u1, s1, u2, s2 :: CacheKey(u1, t1, s1) == CacheKey(u2, t2, s2)) <==> TenantsClash(t1, t2)
  {
    forall u1, s1, u2, s2 | CacheKey(u1, t1, s1) == CacheKey(u2, t2, s2)
      ensures TenantsClash(t1, t2)
    {
      KeyFromTenant(u1, t1, s1);
      KeyFromTenant(u2, t2, s2);
      PrefixesOfOne(t1 + "::", u1 + ("::" + s1), t2 + "::", u2 + ("::" + s2));
    }
    if t1 + "::" <= t2 + "::" {
      ClashingTenantsShare(t1, t2, "", "");
    } else if t2 + "::" <= t1 + "::" {
      ClashingTenantsShare(t2, t1, "", "");
    }
  }

  lemma ClashingScopesShare(tenantId: string, s1: string, more: string, s2: string, userId: string)
    requires "::" + s2 == more + ("::" + s1)
    ensures CacheKey(userId + more, tenantId, s1) == CacheKey(userId, tenantId, s2)
  {
    KeyFromTenant(userId + more, tenantId, s1);
    KeyFromTenant(userId, tenantId, s2);
    assert userId + more + ("::" + s1) == userId + (more + ("::" + s1));
  }

  lemma EndsWithSplit(s: string, suffix: string) returns (more: string)
    ensures EndsWith(s, suffix) ==> s == more + suffix
  {
    more := if EndsWith(s, suffix) then s[..|s| - |suffix|] else "";
  }

  /** Two scopes of one tenant have a key in common, for some users, if and only if the scopes clash. */
  lemma ScopesShareKeyIff(tenantId: string, s1: string, s2: string)
    ensures (exists u1, u2 :: CacheKey(u1, tenantId, s1) == CacheKey(u2, tenantId, s2)) <==> ScopesClash(s1, s2)
  {
    forall u1, u2 | CacheKey(u1, tenantId, s1) == CacheKey(u2, tenantId, s2)
      ensures ScopesClash(s1, s2)
    {
      KeyToScope(u1, tenantId, s1);
      KeyToScope(u2, tenantId, s2);
      SuffixesOfOne(tenantId + "::" + u1, "::" + s1, tenantId + "::" + u2, "::" + s2);
    }
    var m1 := EndsWithSplit("::" + s2, "::" + s1);
    var m2 := EndsWithSplit("::" + s1, "::" + s2);
    if EndsWith("::" + s2, "::" + s1) {
      ClashingScopesShare(tenantId, s1, m1, s2, "");
    } else if EndsWith("::" + s1, "::" + s2) {
      ClashingScopesShare(tenantId, s2, m2, s1, "");
    }
  }

  ghost predicate Unambiguous(tenants: set<string>, scopes: set<string>) {
    forall u1, t1, s1, u2, t2, s2 | t1 in tenants && t2 in tenants && s1 in scopes && s2 in scopes ::
      CacheKey(u1, t1, s1) == CacheKey(u2, t2, s2) ==> u1 == u2 && t1 == t2 && s1 == s2
  }

  ghost predicate NoClash(tenants: set<string>, scopes: set<string>) {
    && (forall t1, t2 | t1 in tenants && t2 in tenants :: TenantsClash(t1, t2) ==> t1 == t2)
    && (forall s1, s2 | s1 in scopes && s2 in scopes :: ScopesClash(s1, s2) ==> s1 == s2)
  }

  /** Over these tenants and scopes, and all users, a key names one principal if and only if nothing clashes. */
  lemma UnambiguousIffNoClash(tenants: set<string>, scopes: set<string>)
    requires tenants != {} && scopes != {}
    ensures Unambiguous(tenants, scopes) <==> NoClash(tenants, scopes)
  {
    if NoClash(tenants, scopes) {
      forall u1, t1, s1, u2, t2, s2 | t1 in tenants && t2 in tenants && s1 in scopes && s2 in scopes
        && CacheKey(u1, t1, s1) == CacheKey(u2, t2, s2)
        ensures u1 == u2 && t1 == t2 && s1 == s2
      {
        TenantsShareKeyIff(t1, t2);
        ScopesShareKeyIff(t1, s1, s2);
        SameTenantAndScope(u1, u2, t1, s1);
      }
    }
    if Unambiguous(tenants, scopes) {
      var t: string :| t in tenants;
      var s: string :| s in scopes;
      forall t1, t2 | t1 in tenants && t2 in tenants && TenantsClash(t1, t2)
        ensures t1 == t2
      {
        if t1 + "::" <= t2 + "::" {
          ClashingTenantsShare(t1, t2, "", s);
        } else {
          ClashingTenantsShare(t2, t1, "", s);
        }
      }
      forall s1, s2 | s1 in scopes && s2 in scopes && ScopesClash(s1, s2)
        ensures s1 == s2
      {
        var m1 := EndsWithSplit("::" + s2, "::" + s1);
        var m2 := EndsWithSplit("::" + s1, "::" + s2);
        if EndsWith("::" + s2, "::" + s1) {
          ClashingScopesShare(t, s1, m1, s2, "");
        } else {
          ClashingScopesShare(t, s2, m2, s1, "");
        }
      }
    }
  }

  lemma SameTenantAndScope(u1: string, u2: string, tenantId: string, scope: string)
    requires CacheKey(u1, tenantId, scope) == CacheKey(u2, tenantId, scope)
    ensures u1 == u2
  {
    var k, n := CacheKey(u1, tenantId, scope), |tenantId| + 2;
    assert u1 == k[n..n + |u1|] && u2 == k[n..n + |u2|];
  }

  lemma ColonFreeTenantsApart(t1: string, t2: string)
    requires ':' !in t1 && ':' !in t2 && t1 + "::" <= t2 + "::"
    ensures t1 == t2
  {
    var k := t2 + "::";
    assert k[|t1|] == (t1 + "::")[|t1|] == ':';
    assert forall i :: 0 <= i < |t2| ==> k[i] == t2[i];
    assert |t1| >= |t2|;
  }

  lemma ColonFreeScopesApart(s1: string, more: string, s2: string)
    requires ':' !in s1 && ':' !in s2 && "::" + s2 == more + ("::" + s1)
    ensures s1 == s2
  {
    var k, n := "::" + s2, |more|;
    assert k[n] == (more + ("::" + s1))[n] == ':';
    assert k[n + 1] == (more + ("::" + s1))[n + 1] == ':';
    assert forall i :: 2 <= i < |k| ==> k[i] == s2[i - 2];
    assert n == 0;
    assert s2 == k[2..] && s1 == ("::" + s1)[2..];
  }

  /** With no colon in the tenants and the scopes nothing clashes: one key names one principal. */
  lemma CacheKeyInjective(u1: string, t1: string, s1: string, u2: string, t2: string, s2: string)
    requires ':' !in t1 && ':' !in t2 && ':' !in s1 && ':' !in s2
    requires CacheKey(u1, t1, s1) == CacheKey(u2, t2, s2)
    ensures u1 == u2 && t1 == t2 && s1 == s2
  {
    TenantsShareKeyIff(t1, t2);
    if t1 + "::" <= t2 + "::" {
      ColonFreeTenantsApart(t1, t2);
    } else {
      ColonFreeTenantsApart(t2, t1);
    }
    ScopesShareKeyIff(t1, s1, s2);
    var m1 := EndsWithSplit("::" + s2, "::" + s1);
    var m2 := EndsWithSplit("::" + s1, "::" + s2);
    if EndsWith("::" + s2, "::" + s1) {
      ColonFreeScopesApart(s1, m1, s2);
    } else {
      ColonFreeScopesApart(s2, m2, s1);
    }
    SameTenantAndScope(u1, u2, t1, s1);
  }

  /** A tenant whose id goes on from another's with a colon, or with the separator, clashes with it. */
  lemma CacheKeyCollides(userId: string, tenantId: string, more: string, scope: string)
    ensures CacheKey(userId, tenantId + ":", scope) == CacheKey(":" + userId, tenantId, scope)
    ensures CacheKey(userId, tenantId + "::" + more, scope) == CacheKey(more + "::" + userId, tenantId, scope)
  {
    assert (tenantId + ":") + "::" == (tenantId + "::") + ":";
    ClashingTenantsShare(tenantId, tenantId + ":", userId, scope);
    assert (tenantId + "::" + more) + "::" == (tenantId + "::") + (more + "::");
    ClashingTenantsShare(tenantId, tenantId + "::" + more, userId, scope);
  }
}
