/** The ancestor-or-self chain of a dotted scope, root first. */
module ScopeChains {
  import opened Wrappers
  import opened DottedPaths
  import OrgPaths

  const MAX_SCOPE_DEPTH := 8

  datatype ScopeError = ScopeEmpty | ScopeTooDeep | ScopeFormat

  /** Runs of `[a-z0-9]` joined by single underscores. */
  predicate IsLabel(s: string) {
    && |s| > 0
    && (forall k :: 0 <= k < |s| ==> OrgPaths.IsAlnum(s[k]) || s[k] == '_')
    && s[0] != '_' && s[|s| - 1] != '_'
    && (forall k :: 0 < k < |s| ==> !(s[k - 1] == '_' && s[k] == '_'))
  }

  predicate IsScope(s: string) {
    |Split(s)| <= MAX_SCOPE_DEPTH && forall k :: 0 <= k < |Split(s)| ==> IsLabel(Split(s)[k])
  }

  /** A scope is one to eight labels between dots, each matching `[a-z0-9]+(?:_[a-z0-9]+)*`. */
  lemma ScopeIffPattern(s: string)
    ensures IsScope(s) <==> 1 <= |Split(s)| <= 8 && forall k :: 0 <= k < |Split(s)| ==> OrgPaths.MatchesRuns(Split(s)[k], '_')
  {
    forall k | 0 <= k < |Split(s)|
      ensures IsLabel(Split(s)[k]) <==> OrgPaths.MatchesRuns(Split(s)[k], '_')
    {
      OrgPaths.MatchesFromIff(Split(s)[k], '_', true);
    }
  }

  lemma BlankIsNoScope(s: string)
    requires OrgPaths.Blank(s)
    ensures !IsScope(s)
  {
    if s == "" {
      assert Split(s)[0] == "";
    } else {
      assert !OrgPaths.IsAlnum(s[0]) && s[0] != '_' && s[0] != '.';
      assert Split(s)[0][0] == s[0];
    }
  }

  /** Scope `a` is scope `s` or a dotted prefix of it. */
  predicate AncestorOrSelf(a: string, s: string) {
    Split(a) <= Split(s)
  }

  /** `labels.slice(0, n).join('.')` */
  function Prefix(labels: seq<string>, n: nat): string
    requires 1 <= n <= |labels|
  {
    Join(labels[..n])
  }

  lemma PrefixIs(labels: seq<string>, front: seq<string>)
    requires 1 <= |front| && front <= labels
    ensures Prefix(labels, |front|) == Join(front)
  {
    assert labels[..|front|] == front;
  }

  /** The prefixes of lengths 1, 2, ..., n of `labels`, each joined. */
  function Prefixes(labels: seq<string>, n: nat): seq<string>
    requires n <= |labels|
  {
    seq(n, i requires 0 <= i < n => Prefix(labels, i + 1))
  }

  function Chain(scope: string): seq<string> {
    Prefixes(Split(scope), |Split(scope)|)
  }

  /** The checks in order, then the prefixes, shortest first. */
  method ForScope(scope: string) returns (chain: Result<seq<string>, ScopeError>)
    ensures chain.Ok? <==> IsScope(scope)
    ensures chain.Ok? ==> chain.value == Chain(scope)
    ensures chain.Err? ==> (chain.error.ScopeEmpty? <==> OrgPaths.Blank(scope))
    ensures chain.Err? && !OrgPaths.Blank(scope) ==> (chain.error.ScopeTooDeep? <==> |Split(scope)| > MAX_SCOPE_DEPTH)
  {
    if OrgPaths.Blank(scope) {
      BlankIsNoScope(scope);
      return Err(ScopeEmpty);
    }
    var labels := Split(scope);
    if |labels| > MAX_SCOPE_DEPTH {
      return Err(ScopeTooDeep);
    }
    if !(forall k :: 0 <= k < |labels| ==> IsLabel(labels[k])) {
      return Err(ScopeFormat);
    }
    var prefixes := [];
    for cut := 1 to |labels| + 1
      invariant prefixes == Prefixes(labels, cut - 1)
    {
      prefixes := prefixes + [Prefix(labels, cut)];
    }
    chain := Ok(prefixes);
  }

  lemma ChainSegments(scope: string, i: nat)
    requires i < |Chain(scope)|
    ensures Split(Chain(scope)[i]) == Split(scope)[..i + 1]
  {
    SplitJoin(Split(scope)[..i + 1]);
  }

  lemma InChainIsAncestor(scope: string, a: string)
    requires a in Chain(scope)
    ensures AncestorOrSelf(a, scope)
  {
    var i :| 0 <= i < |Chain(scope)| && Chain(scope)[i] == a;
    ChainSegments(scope, i);
  }

  lemma AncestorIsInChain(scope: string, a: string)
    requires AncestorOrSelf(a, scope)
    ensures Chain(scope)[|Split(a)| - 1] == a
  {
    PrefixIs(Split(scope), Split(a));
    JoinSplit(a);
  }

  /** The chain holds exactly the ancestors of a scope and the scope itself, which stands last. */
  lemma ChainIsAncestorsOrSelf(scope: string, a: string)
    ensures a in Chain(scope) <==> AncestorOrSelf(a, scope)
    ensures Chain(scope)[|Chain(scope)| - 1] == scope
  {
    if a in Chain(scope) {
      InChainIsAncestor(scope, a);
    }
    if AncestorOrSelf(a, scope) {
      AncestorIsInChain(scope, a);
    }
    AncestorIsInChain(scope, scope);
  }

  function IndexOf(chain: seq<string>, scope: string): Option<nat> {
    if chain == [] then None
    else if chain[0] == scope then Some(0)
    else
      var rest := IndexOf(chain[1..], scope);
      if rest.Some? then Some(rest.value + 1) else None
  }

  lemma {:induction false} IndexOfFirst(chain: seq<string>, scope: string)
    ensures IndexOf(chain, scope).Some? <==> scope in chain
    ensures IndexOf(chain, scope).Some? ==> IndexOf(chain, scope).value < |chain| && chain[IndexOf(chain, scope).value] == scope
  {
    if chain != [] && chain[0] != scope {
      IndexOfFirst(chain[1..], scope);
    }
  }

  function DepthOf(chain: seq<string>, scope: string): Option<nat> {
    IndexOf(chain, scope)
  }

  /** The depth rank of an ancestor-or-self scope is its number of labels less one; others have none. */
  lemma DepthOfIsSegmentCount(requested: string, scope: string)
    ensures DepthOf(Chain(requested), scope) == if AncestorOrSelf(scope, requested) then Some(|Split(scope)| - 1) else None
  {
    IndexOfFirst(Chain(requested), scope);
    ChainIsAncestorsOrSelf(requested, scope);
    if AncestorOrSelf(scope, requested) {
      ChainSegments(requested, DepthOf(Chain(requested), scope).value);
    }
  }
}
