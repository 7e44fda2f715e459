/**
 Publishing a policy: the authored body is checked, the tenant-isolation guardrail goes in first,
 and the compiled document and an empty document for every ancestor scope are written into the
 engine's directory, one file at a time.

 The engine decides a request at a scope by the documents of that scope and its ancestors, most
 specific first, then by the scope-less base policy the platform ships, and denies if none speaks.
 */
module PolicyPublisher {
  import opened Wrappers
  import opened DottedPaths
  import OrgPaths
  import opened PolicyCompiler
  import opened ScopeChains

  // ----- Checking the authored body -----------------------------------------------------------

  /** A rule as it comes out of the database; a list that is not all strings is None. */
  datatype RawRule =
    | NotAnObject
    | RawRule(actions: Option<seq<string>>, effect: string, roles: Option<seq<string>>, condition: Option<Condition>, name: Option<string>)

  datatype RawBody = RawBody(resource: Option<string>, rules: Option<seq<RawRule>>)

  datatype Body = Body(resource: string, rules: seq<Rule>)

  datatype CompileError =
    | ResourceMissing
    | RulesNotArray
    | RuleNotObject(index: nat)
    | ActionsMissing(index: nat)
    | EffectUnknown(index: nat)
    | RolesMissing(index: nat)
    | WriteFailed

  function ParseRule(raw: RawRule, index: nat): Result<Rule, CompileError> {
    if raw.NotAnObject? then Err(RuleNotObject(index))
    else if raw.actions.None? || raw.actions.value == [] then Err(ActionsMissing(index))
    else if raw.effect != "ALLOW" && raw.effect != "DENY" then Err(EffectUnknown(index))
    else if raw.roles.None? || raw.roles.value == [] then Err(RolesMissing(index))
    else Ok(Rule(raw.actions.value, if raw.effect == "ALLOW" then Allow else Deny, raw.roles.value, raw.condition, raw.name))
  }

  /** Stops at the first rule that is not well shaped. */
  function ParseRules(raw: seq<RawRule>, index: nat): Result<seq<Rule>, CompileError>
    requires index <= |raw|
    decreases |raw| - index
  {
    if index == |raw| then Ok([])
    else
      var rule := ParseRule(raw[index], index);
      if rule.Err? then Err(rule.error)
      else
        var rest := ParseRules(raw, index + 1);
        if rest.Err? then Err(rest.error) else Ok([rule.value] + rest.value)
  }

  function ParseRuleBody(raw: RawBody): Result<Body, CompileError> {
    if raw.resource.None? || OrgPaths.Blank(raw.resource.value) then Err(ResourceMissing)
    else if raw.rules.None? then Err(RulesNotArray)
    else
      var rules := ParseRules(raw.rules.value, 0);
      if rules.Err? then Err(rules.error) else Ok(Body(raw.resource.value, rules.value))
  }

  /** A body parses exactly when every rule of it does, and an error is that of the first bad rule. */
  lemma {:induction false} ParseRulesIsPointwise(raw: seq<RawRule>, index: nat)
    requires index <= |raw|
    ensures ParseRules(raw, index).Ok? <==> forall k :: index <= k < |raw| ==> ParseRule(raw[k], k).Ok?
    ensures ParseRules(raw, index).Ok? ==>
              && |ParseRules(raw, index).value| == |raw| - index
              && forall k :: index <= k < |raw| ==> ParseRule(raw[k], k) == Ok(ParseRules(raw, index).value[k - index])
    ensures ParseRules(raw, index).Err? ==>
              exists k :: index <= k < |raw| && ParseRule(raw[k], k) == Err(ParseRules(raw, index).error)
                && forall j :: index <= j < k ==> ParseRule(raw[j], j).Ok?
    decreases |raw| - index
  {
    if index < |raw| {
      ParseRulesIsPointwise(raw, index + 1);
    }
  }

  // ----- Documents and file names ---------------------------------------------------------------

  const GUARD_EXPR := "request.resource.attr.tenantId != request.principal.attr.tenantId"

  const GUARDRAIL := Rule(["*"], Deny, ["*"], Some(Condition(Unset, Unset, Some(GUARD_EXPR))), Some("tenant_isolation_guardrail"))

  datatype Document = Document(resource: string, scope: string, rules: seq<CompiledRule>)

  datatype File = File(fileName: string, document: Document)

  function FileNameFor(resource: string, scope: string): string {
    resource + "." + (if scope != "" then scope else "base") + ".yaml"
  }

  function CompileFile(resource: string, scope: string, rules: seq<Rule>): File {
    File(FileNameFor(resource, scope), Document(resource, scope, CompileRules(rules)))
  }

  /** The proper ancestors of a scope, most specific first. */
  function AncestorsOf(scope: string): seq<string> {
    ProperPrefixes(Split(scope))
  }

  function ProperPrefixes(labels: seq<string>): seq<string>
    requires |labels| >= 1
  {
    seq(|labels| - 1, i requires 0 <= i < |labels| - 1 => Prefix(labels, |labels| - 1 - i))
  }

  method AncestorScopes(scope: string) returns (ancestors: seq<string>)
    ensures ancestors == AncestorsOf(scope)
  {
    if scope == "" {
      return [];
    }
    var labels := Split(scope);
    ancestors := [];
    var cut := |labels| - 1;
    while cut >= 1
      invariant 0 <= cut <= |labels| - 1
      invariant |ancestors| == |labels| - 1 - cut
      invariant forall i :: 0 <= i < |ancestors| ==> ancestors[i] == Prefix(labels, |labels| - 1 - i)
    {
      ancestors := ancestors + [Prefix(labels, cut)];
      cut := cut - 1;
    }
  }

  /** The scope and then its ancestors are the principal side's chain, read backwards. */
  lemma ScopeThenAncestorsIsReversedChain(scope: string, i: nat)
    requires i < |Chain(scope)|
    ensures |AncestorsOf(scope)| == |Chain(scope)| - 1
    ensures (if i == 0 then scope else AncestorsOf(scope)[i - 1]) == Chain(scope)[|Chain(scope)| - 1 - i]
  {
    if i == 0 {
      JoinSplit(scope);
      PrefixIs(Split(scope), Split(scope));
    } else {
    }
  }

  function Emitted(body: Body, scope: string): seq<File> {
    [CompileFile(body.resource, scope, [GUARDRAIL] + body.rules)] + Stubs(body.resource, AncestorsOf(scope))
  }

  function Stubs(resource: string, scopes: seq<string>): seq<File> {
    seq(|scopes|, i requires 0 <= i < |scopes| => CompileFile(resource, scopes[i], []))
  }

  method MapPolicyToCerbosFiles(raw: RawBody, scope: string) returns (r: Result<seq<File>, CompileError>)
    ensures r.Ok? <==> ParseRuleBody(raw).Ok?
    ensures r.Ok? ==> r.value == Emitted(ParseRuleBody(raw).value, scope)
    ensures r.Err? ==> r.error == ParseRuleBody(raw).error
  {
    var parsed := ParseRuleBody(raw);
    if parsed.Err? {
      return Err(parsed.error);
    }
    var body := parsed.value;
    var files := [CompileFile(body.resource, scope, [GUARDRAIL] + body.rules)];
    var ancestors := AncestorScopes(scope);
    for i := 0 to |ancestors|
      invariant files == [CompileFile(body.resource, scope, [GUARDRAIL] + body.rules)] + Stubs(body.resource, ancestors[..i])
    {
      assert ancestors[..i + 1] == ancestors[..i] + [ancestors[i]];
      files := files + [CompileFile(body.resource, ancestors[i], [])];
    }
    assert ancestors[..|ancestors|] == ancestors;
    r := Ok(files);
  }

  // ----- The directory ----------------------------------------------------------------------

  /** File name to document. */
  type Directory = map<string, Document>

  function WriteAll(dir: Directory, files: seq<File>): Directory {
    if files == [] then dir
    else WriteAll(dir, files[..|files| - 1])[files[|files| - 1].fileName := files[|files| - 1].document]
  }

  lemma WriteOneMore(dir: Directory, files: seq<File>, i: nat)
    requires i < |files|
    ensures WriteAll(dir, files[..i + 1]) == WriteAll(dir, files[..i])[files[i].fileName := files[i].document]
  {
    assert files[..i + 1][..i] == files[..i];
  }

  // ----- What the engine decides ------------------------------------------------------------

  /** The document of a resource kind at a scope. */
  function Find(dir: Directory, resource: string, scope: string): Option<Document> {
    var name := FileNameFor(resource, scope);
    if name in dir && dir[name].resource == resource && dir[name].scope == scope then Some(dir[name]) else None
  }

  /** The platform's base policies by resource kind. */
  type Base = map<string, seq<CompiledRule>>

  ghost function VerdictAt(engine: Engine, req: Request, dir: Directory, resource: string, scope: string): Option<Effect> {
    var doc := Find(dir, resource, scope);
    if doc.Some? then Verdict(engine, req, doc.value.rules) else None
  }

  ghost function FirstVerdict(engine: Engine, req: Request, dir: Directory, resource: string, scopes: seq<string>): Option<Effect> {
    if scopes == [] then None
    else
      var here := VerdictAt(engine, req, dir, resource, scopes[0]);
      if here.Some? then here else FirstVerdict(engine, req, dir, resource, scopes[1..])
  }

  ghost function BaseDecision(engine: Engine, req: Request, base: Base, resource: string): Effect {
    var verdict := if resource in base then Verdict(engine, req, base[resource]) else None;
    if verdict.Some? then verdict.value else Deny
  }

  ghost function Decide(engine: Engine, req: Request, base: Base, dir: Directory, resource: string, scope: string): Effect {
    var scoped := FirstVerdict(engine, req, dir, resource, [scope] + AncestorsOf(scope));
    if scoped.Some? then scoped.value else BaseDecision(engine, req, base, resource)
  }

  /** The evaluator knows `true` and the guardrail's expression, and `*` is every action. */
  ghost predicate Sound(engine: Engine, req: Request) {
    && engine.cel(req, "true")
    && (engine.cel(req, "request.resource.attr.tenantId != request.principal.attr.tenantId") <==> req.resourceTenant != req.principalTenant)
    && engine.actionMatches("*", req.action)
  }

  predicate CrossTenant(req: Request) {
    req.resourceTenant != req.principalTenant
  }

  // ----- No policy lets a request cross tenants ----------------------------------------------

  /** Empty, or the guardrail comes first. */
  predicate Guarded(rules: seq<CompiledRule>) {
    rules == [] || rules[0] == CompileRule(GUARDRAIL, 0)
  }

  lemma GuardrailFires(engine: Engine, req: Request)
    requires Sound(engine, req)
    ensures Fires(engine, req, CompileRule(GUARDRAIL, 0)) <==> CrossTenant(req)
  {
    var rule := CompileRule(GUARDRAIL, 0);
    assert rule.actions[0] == "*" && rule.roles[0] == "*";
    assert rule.match_ == Some(Expr(GUARD_EXPR));
  }

  lemma GuardedNeverAllows(engine: Engine, req: Request, rules: seq<CompiledRule>)
    requires Sound(engine, req) && CrossTenant(req) && Guarded(rules)
    ensures Verdict(engine, req, rules) != Some(Allow)
  {
    GuardrailFires(engine, req);
    if rules != [] {
      assert Fires(engine, req, rules[0]) && rules[0].effect.Deny?;
    }
  }

  ghost predicate AllGuarded(dir: Directory) {
    forall name :: name in dir ==> Guarded(dir[name].rules)
  }

  ghost predicate BaseGuarded(base: Base) {
    forall resource :: resource in base ==> Guarded(base[resource])
  }

  lemma {:induction false} FirstVerdictGuarded(engine: Engine, req: Request, dir: Directory, resource: string, scopes: seq<string>)
    requires Sound(engine, req) && CrossTenant(req) && AllGuarded(dir)
    ensures FirstVerdict(engine, req, dir, resource, scopes) != Some(Allow)
  {
    if scopes != [] {
      var doc := Find(dir, resource, scopes[0]);
      if doc.Some? {
        GuardedNeverAllows(engine, req, doc.value.rules);
      }
      FirstVerdictGuarded(engine, req, dir, resource, scopes[1..]);
    }
  }

  /** Some publication writes this file. */
  ghost predicate IsEmitted(file: File) {
    exists body, scope :: file in Emitted(body, scope)
  }

  /** Single-file writes of any publications, in any interleaving, complete or cut short. */
  ghost predicate IsRun(dirs: seq<Directory>, writes: seq<File>) {
    && |dirs| == |writes| + 1
    && forall k :: 0 <= k < |writes| ==> IsEmitted(writes[k]) && dirs[k + 1] == dirs[k][writes[k].fileName := writes[k].document]
  }

  lemma {:induction false} RunKeepsGuarded(dirs: seq<Directory>, writes: seq<File>, k: nat)
    requires IsRun(dirs, writes) && AllGuarded(dirs[0]) && k < |dirs|
    ensures AllGuarded(dirs[k])
  {
    if k > 0 {
      RunKeepsGuarded(dirs, writes, k - 1);
      assert IsEmitted(writes[k - 1]) && dirs[k - 1 + 1] == dirs[k - 1][writes[k - 1].fileName := writes[k - 1].document];
    }
  }

  /**
   From a guarded base and directory, at every moment of every run of publications, finished or
   not, whatever the authored rules say, a request across tenants is denied at every scope.
   */
  lemma CrossTenantAlwaysDenied(engine: Engine, req: Request, base: Base, dirs: seq<Directory>, writes: seq<File>,
                                k: nat, resource: string, scope: string)
    requires Sound(engine, req) && CrossTenant(req) && BaseGuarded(base)
    requires IsRun(dirs, writes) && AllGuarded(dirs[0]) && k < |dirs|
    ensures Decide(engine, req, base, dirs[k], resource, scope) == Deny
  {
    RunKeepsGuarded(dirs, writes, k);
    FirstVerdictGuarded(engine, req, dirs[k], resource, [scope] + AncestorsOf(scope));
    if resource in base {
      GuardedNeverAllows(engine, req, base[resource]);
    }
  }

  // ----- What a publication changes -----------------------------------------------------------

  predicate IsPolicyScope(s: string) {
    |Split(s)| <= MAX_SCOPE_DEPTH
    && forall k :: 0 <= k < |Split(s)| ==> Split(s)[k] != "" && forall j :: 0 <= j < |Split(s)[k]| ==> OrgPaths.IsAlnum(Split(s)[k][j])
  }

  lemma NoHyphenInLabels(path: string)
    ensures '-' !in path ==> forall k :: 0 <= k < |Split(path)| ==> '-' !in Split(path)[k]
  {
    CharInSegments(path, '-');
  }

  /** A policy scope is one to eight labels between dots, each matching `[a-z0-9]+`. */
  lemma PolicyScopeIffPattern(s: string)
    ensures IsPolicyScope(s) <==> 1 <= |Split(s)| <= 8 && forall k :: 0 <= k < |Split(s)| ==> OrgPaths.IsRun(Split(s)[k])
  {
  }

  /**
   Scopes are meant to be org-unit paths, but the three validators disagree: an org-unit path is a
   policy scope, and a principal scope, if and only if it has no hyphen.
   */
  lemma OrgPathIsScopeIffNoHyphen(path: string)
    requires OrgPaths.IsPath(path)
    ensures IsPolicyScope(path) <==> '-' !in path
    ensures IsScope(path) <==> '-' !in path
  {
    NoHyphenInLabels(path);
    CharInSegments(path, '-');
    var labels := Split(path);
    assert forall k :: 0 <= k < |labels| ==> OrgPaths.IsSegment(labels[k]);
    if '-' in path {
      var k :| 0 <= k < |labels| && '-' in labels[k];
      var j :| 0 <= j < |labels[k]| && labels[k][j] == '-';
      assert !OrgPaths.IsAlnum(labels[k][j]) && !IsLabel(labels[k]);
    } else {
      forall k | 0 <= k < |labels|
        ensures IsLabel(labels[k]) && forall j :: 0 <= j < |labels[k]| ==> OrgPaths.IsAlnum(labels[k][j])
      {
        assert '-' !in labels[k];
      }
    }
  }

  lemma AncestorSegments(scope: string, i: nat)
    requires i < |AncestorsOf(scope)|
    ensures Split(AncestorsOf(scope)[i]) == Split(scope)[..|Split(scope)| - 1 - i]
  {
    var labels := Split(scope);
    SplitJoin(labels[..|labels| - 1 - i]);
    assert AncestorsOf(scope)[i] == Prefix(labels, |labels| - 1 - i);
  }

  lemma AncestorIsScope(scope: string, i: nat)
    requires IsPolicyScope(scope) && i < |AncestorsOf(scope)|
    ensures IsPolicyScope(AncestorsOf(scope)[i])
  {
    AncestorSegments(scope, i);
  }

  lemma ScopeNotEmpty(scope: string)
    requires IsPolicyScope(scope)
    ensures scope != ""
  {
    assert Split("")[0] == "";
  }

  /** The ancestors are exactly the scopes whose labels are a proper beginning of the scope's. */
  lemma InAncestorsIff(scope: string, a: string)
    ensures a in AncestorsOf(scope) <==> Split(a) < Split(scope)
  {
    if a in AncestorsOf(scope) {
      var i :| 0 <= i < |AncestorsOf(scope)| && AncestorsOf(scope)[i] == a;
      AncestorSegments(scope, i);
    }
    if Split(a) < Split(scope) {
      var i := |Split(scope)| - 1 - |Split(a)|;
      AncestorSegments(scope, i);
      SplitInjective(a, AncestorsOf(scope)[i]);
    }
  }

  lemma SameWithoutSuffix(x: string, y: string, suffix: string)
    ensures x + suffix == y + suffix <==> x == y
  {
    assert x == (x + suffix)[..|x|] && y == (y + suffix)[..|y|];
  }

  lemma SameWithoutPrefix(prefix: string, x: string, y: string)
    ensures prefix + x == prefix + y <==> x == y
  {
    assert x == (prefix + x)[|prefix|..] && y == (prefix + y)[|prefix|..];
  }

  /** Two policies own one file exactly when the longer kind goes on, after a dot, into the other's scope. */
  lemma FileNamesMeetIff(r: string, a: string, q: string, b: string)
    requires |r| < |q| && a != "" && b != ""
    ensures FileNameFor(r, a) == FileNameFor(q, b) <==> r + "." <= q && a == q[|r| + 1..] + "." + b
  {
    SameWithoutSuffix(r + "." + a, q + "." + b, ".yaml");
    if r + "." + a == q + "." + b {
      var n := r + "." + a;
      assert q == n[..|q|] && r + "." == n[..|r| + 1];
      assert r + "." == q[..|r| + 1];
    }
    if r + "." <= q {
      assert q == (r + ".") + q[|r| + 1..];
      assert q + "." + b == (r + ".") + (q[|r| + 1..] + "." + b);
      SameWithoutPrefix(r + ".", a, q[|r| + 1..] + "." + b);
    }
  }

  /** Kind `q` is kind `r`, a dot and labels that leave room for one more in a scope. */
  predicate Extends(q: string, r: string) {
    r + "." <= q && IsPolicyScope(q[|r| + 1..]) && |Split(q[|r| + 1..])| < MAX_SCOPE_DEPTH
  }

  predicate KindsClash(r: string, q: string) {
    Extends(q, r) || Extends(r, q)
  }

  lemma ScopeConcat(x: string, b: string)
    requires IsPolicyScope(b)
    ensures Split(x + "." + b) == Split(x) + Split(b)
    ensures IsPolicyScope(x + "." + b) <==> IsPolicyScope(x) && |Split(x)| + |Split(b)| <= MAX_SCOPE_DEPTH
  {
    SplitConcat(x, b);
    var whole := Split(x + "." + b);
    assert forall k :: 0 <= k < |Split(x)| ==> whole[k] == Split(x)[k];
    assert forall k :: 0 <= k < |Split(b)| ==> whole[|Split(x)| + k] == Split(b)[k];
  }

  lemma LetterIsScope(letter: string)
    requires letter == "a" || letter == "b"
    ensures IsPolicyScope(letter) && Split(letter) == [letter]
  {
    SplitDotFree(letter);
  }

  lemma MeetingKindsExtend(r: string, a: string, q: string, b: string)
    requires |r| < |q| && IsPolicyScope(a) && IsPolicyScope(b) && FileNameFor(r, a) == FileNameFor(q, b)
    ensures Extends(q, r) && Split(a) == Split(q[|r| + 1..]) + Split(b)
  {
    ScopeNotEmpty(a);
    ScopeNotEmpty(b);
    FileNamesMeetIff(r, a, q, b);
    ScopeConcat(q[|r| + 1..], b);
  }

  /** Two resource kinds can share a file, under policy scopes, if and only if one extends the other. */
  lemma KindsShareFileIff(r: string, q: string)
    requires r != q
    ensures (exists a, b :: IsPolicyScope(a) && IsPolicyScope(b) && FileNameFor(r, a) == FileNameFor(q, b)) <==> KindsClash(r, q)
  {
    forall a, b | IsPolicyScope(a) && IsPolicyScope(b) && FileNameFor(r, a) == FileNameFor(q, b)
      ensures KindsClash(r, q)
    {
      FileNamesDistinct(r, a, q, b);
    }
    LetterIsScope("a");
    if Extends(q, r) {
      ExtensionShares(r, q, "a");
    } else if Extends(r, q) {
      ExtensionShares(q, r, "a");
    }
  }

  lemma ExtensionShares(r: string, q: string, b: string)
    requires Extends(q, r) && IsPolicyScope(b) && |Split(q[|r| + 1..])| + |Split(b)| <= MAX_SCOPE_DEPTH
    ensures IsPolicyScope(q[|r| + 1..] + "." + b) && FileNameFor(r, q[|r| + 1..] + "." + b) == FileNameFor(q, b)
  {
    ScopeNotEmpty(b);
    ScopeConcat(q[|r| + 1..], b);
    FileNamesMeetIff(r, q[|r| + 1..] + "." + b, q, b);
  }

  /** Between kinds that do not clash, a file name determines the kind and the scope. */
  lemma FileNamesDistinct(r: string, a: string, q: string, b: string)
    requires IsPolicyScope(a) && IsPolicyScope(b) && FileNameFor(r, a) == FileNameFor(q, b)
    ensures (r == q && a == b) || KindsClash(r, q)
  {
    ScopeNotEmpty(a);
    ScopeNotEmpty(b);
    if |r| < |q| {
      MeetingKindsExtend(r, a, q, b);
    } else if |q| < |r| {
      MeetingKindsExtend(q, b, r, a);
    } else {
      assert r == FileNameFor(r, a)[..|r|] == FileNameFor(q, b)[..|q|] == q;
      SameResourceNamesDistinct(r, a, b);
    }
  }

  /** Dot-free kinds clash with no dot-free kind. */
  lemma DotFreeKindsApart(r: string, q: string)
    requires DotFree(r) && DotFree(q)
    ensures !KindsClash(r, q)
  {
    ExtensionHasDot(r, q);
    ExtensionHasDot(q, r);
  }

  lemma ExtensionHasDot(r: string, q: string)
    ensures r + "." <= q ==> !DotFree(q)
  {
    if r + "." <= q {
      assert q[|r|] == (r + ".")[|r|];
    }
  }

  /** Of one kind, the only other scope with the base policy's file is the one called `base`. */
  lemma SameKindSameFileIff(resource: string, a: string, b: string)
    ensures FileNameFor(resource, a) == FileNameFor(resource, b) <==> a == b || (a == "" && b == "base") || (a == "base" && b == "")
  {
    var x, y := if a != "" then a else "base", if b != "" then b else "base";
    SameWithoutSuffix(resource + "." + x, resource + "." + y, ".yaml");
    SameWithoutPrefix(resource + ".", x, y);
  }

  /** One resource kind, two scopes: two names. */
  lemma SameResourceNamesDistinct(resource: string, a: string, b: string)
    requires a != "" && b != "" && FileNameFor(resource, a) == FileNameFor(resource, b)
    ensures a == b
  {
    var n := FileNameFor(resource, a);
    assert a == n[|resource| + 1..|n| - 5] && b == n[|resource| + 1..|n| - 5];
  }

  function EmittedScopes(scope: string): seq<string> {
    [scope] + AncestorsOf(scope)
  }

  lemma EmittedScopesDistinct(scope: string, i: nat, j: nat)
    requires i < |EmittedScopes(scope)| && j < |EmittedScopes(scope)| && EmittedScopes(scope)[i] == EmittedScopes(scope)[j]
    ensures i == j
  {
    if i > 0 {
      AncestorSegments(scope, i - 1);
    }
    if j > 0 {
      AncestorSegments(scope, j - 1);
    }
  }

  lemma EmittedAt(body: Body, scope: string, i: nat)
    requires i < |Emitted(body, scope)|
    ensures |Emitted(body, scope)| == |EmittedScopes(scope)|
    ensures Emitted(body, scope)[i] == CompileFile(body.resource, EmittedScopes(scope)[i], if i == 0 then [GUARDRAIL] + body.rules else [])
  {
  }

  lemma EmittedScopeNotEmpty(scope: string, i: nat)
    requires IsPolicyScope(scope) && i < |EmittedScopes(scope)|
    ensures IsPolicyScope(EmittedScopes(scope)[i]) && EmittedScopes(scope)[i] != ""
  {
    if i > 0 {
      AncestorIsScope(scope, i - 1);
    }
    ScopeNotEmpty(EmittedScopes(scope)[i]);
  }

  predicate Writes(files: seq<File>, name: string) {
    exists i :: 0 <= i < |files| && files[i].fileName == name
  }

  lemma {:induction false} WriteAllElsewhere(dir: Directory, files: seq<File>, name: string)
    requires !Writes(files, name)
    ensures name in WriteAll(dir, files) <==> name in dir
    ensures name in dir ==> WriteAll(dir, files)[name] == dir[name]
  {
    if files != [] {
      var front := files[..|files| - 1];
      assert files[|files| - 1].fileName != name;
      assert forall i :: 0 <= i < |front| ==> front[i] == files[i];
      WriteAllElsewhere(dir, front, name);
    }
  }

  ghost predicate DistinctNames(files: seq<File>) {
    forall i, j :: 0 <= i < j < |files| ==> files[i].fileName != files[j].fileName
  }

  lemma {:induction false} WriteAllAt(dir: Directory, files: seq<File>, i: nat)
    requires DistinctNames(files) && i < |files|
    ensures files[i].fileName in WriteAll(dir, files) && WriteAll(dir, files)[files[i].fileName] == files[i].document
  {
    var front := files[..|files| - 1];
    if i < |front| {
      WriteAllAt(dir, front, i);
    }
  }

  lemma EmittedNamesDistinct(body: Body, scope: string)
    requires IsPolicyScope(scope)
    ensures DistinctNames(Emitted(body, scope))
  {
    var files := Emitted(body, scope);
    forall i, j | 0 <= i < j < |files|
      ensures files[i].fileName != files[j].fileName
    {
      EmittedAt(body, scope, i);
      EmittedAt(body, scope, j);
      EmittedScopeNotEmpty(scope, i);
      EmittedScopeNotEmpty(scope, j);
      if files[i].fileName == files[j].fileName {
        SameResourceNamesDistinct(body.resource, EmittedScopes(scope)[i], EmittedScopes(scope)[j]);
        EmittedScopesDistinct(scope, i, j);
      }
    }
  }

  /** After `k` of a publication's writes, each written scope holds exactly its new document. */
  lemma WrittenIsFound(dir: Directory, body: Body, scope: string, k: nat, i: nat)
    requires IsPolicyScope(scope) && k <= |Emitted(body, scope)| && i < k
    ensures Find(WriteAll(dir, Emitted(body, scope)[..k]), body.resource, EmittedScopes(scope)[i]) == Some(Emitted(body, scope)[i].document)
  {
    EmittedNamesDistinct(body, scope);
    EmittedAt(body, scope, i);
    WriteAllAt(dir, Emitted(body, scope)[..k], i);
  }

  /** And a document whose file name is not among the written ones is as it was. */
  lemma UnnamedIsKept(dir: Directory, body: Body, scope: string, k: nat, resource: string, other: string)
    requires k <= |Emitted(body, scope)| && |Emitted(body, scope)| == |EmittedScopes(scope)|
    requires forall i :: 0 <= i < k ==> FileNameFor(body.resource, EmittedScopes(scope)[i]) != FileNameFor(resource, other)
    ensures Find(WriteAll(dir, Emitted(body, scope)[..k]), resource, other) == Find(dir, resource, other)
  {
    var files := Emitted(body, scope)[..k];
    forall i | 0 <= i < k
      ensures files[i].fileName != FileNameFor(resource, other)
    {
      EmittedAt(body, scope, i);
    }
    WriteAllElsewhere(dir, files, FileNameFor(resource, other));
  }

  /** So are the unwritten scopes of the same kind, and every scope of a kind that does not clash with it. */
  lemma UnwrittenIsKept(dir: Directory, body: Body, scope: string, k: nat, resource: string, other: string)
    requires IsPolicyScope(scope) && k <= |Emitted(body, scope)| && IsPolicyScope(other)
    requires if resource == body.resource then other !in EmittedScopes(scope)[..k] else !KindsClash(resource, body.resource)
    ensures Find(WriteAll(dir, Emitted(body, scope)[..k]), resource, other) == Find(dir, resource, other)
  {
    WholePublication(body, scope);
    forall i | 0 <= i < k
      ensures FileNameFor(body.resource, EmittedScopes(scope)[i]) != FileNameFor(resource, other)
    {
      EmittedScopeNotEmpty(scope, i);
      ScopeNotEmpty(other);
      assert EmittedScopes(scope)[..k][i] == EmittedScopes(scope)[i];
      if FileNameFor(body.resource, EmittedScopes(scope)[i]) == FileNameFor(resource, other) {
        FileNamesDistinct(resource, other, body.resource, EmittedScopes(scope)[i]);
        if resource == body.resource {
          SameResourceNamesDistinct(resource, other, EmittedScopes(scope)[i]);
        }
      }
    }
    UnnamedIsKept(dir, body, scope, k, resource, other);
  }

  lemma WholePublication(body: Body, scope: string)
    ensures Emitted(body, scope)[..|Emitted(body, scope)|] == Emitted(body, scope)
    ensures EmittedScopes(scope)[..|EmittedScopes(scope)|] == EmittedScopes(scope)
    ensures |Emitted(body, scope)| == |EmittedScopes(scope)|
  {
  }

  // ----- What same-tenant requests get --------------------------------------------------------

  lemma SkipSilent(engine: Engine, req: Request, dir: Directory, resource: string, scopes: seq<string>)
    requires forall i :: 0 <= i < |scopes| ==> VerdictAt(engine, req, dir, resource, scopes[i]) == None
    ensures FirstVerdict(engine, req, dir, resource, scopes) == None
  {
    if scopes != [] {
      assert VerdictAt(engine, req, dir, resource, scopes[0]) == None;
      SkipSilent(engine, req, dir, resource, scopes[1..]);
    }
  }

  /** Within one tenant the guardrail is silent, and the leaf decides as its author wrote. */
  lemma LeafDecidesAsAuthored(engine: Engine, req: Request, rules: seq<Rule>)
    requires Sound(engine, req) && !CrossTenant(req) && RulesWellFormed(rules)
    ensures Verdict(engine, req, CompileRules([GUARDRAIL] + rules)) == AuthoredVerdict(engine, req, rules)
  {
    var guarded := [GUARDRAIL] + rules;
    assert RulesWellFormed(guarded);
    VerdictPreserved(engine, req, guarded);
    RulePreserved(engine, req, GUARDRAIL, 0);
    GuardrailFires(engine, req);
    assert !Applies(engine, req, guarded[0]);
    assert forall i :: 0 < i < |guarded| ==> guarded[i] == rules[i - 1];
    assert forall i :: 0 <= i < |rules| ==> rules[i] == guarded[i + 1];
  }

  /** After a publication every proper ancestor of its scope is an empty document. */
  lemma AncestorsSilent(engine: Engine, req: Request, dir: Directory, body: Body, scope: string, i: nat)
    requires IsPolicyScope(scope) && i < |AncestorsOf(scope)|
    ensures VerdictAt(engine, req, WriteAll(dir, Emitted(body, scope)), body.resource, AncestorsOf(scope)[i]) == None
  {
    WholePublication(body, scope);
    assert EmittedScopes(scope)[i + 1] == AncestorsOf(scope)[i];
    WrittenIsFound(dir, body, scope, |Emitted(body, scope)|, i + 1);
    EmittedAt(body, scope, i + 1);
  }

  /**
   Right after a publication, a request within one tenant at the published scope gets what the
   authored rules say, and where they say nothing, what the base policy says.
   */
  lemma PublishedRulesDecide(engine: Engine, req: Request, base: Base, dir: Directory, body: Body, scope: string)
    requires IsPolicyScope(scope) && RulesWellFormed(body.rules) && Sound(engine, req) && !CrossTenant(req)
    ensures Decide(engine, req, base, WriteAll(dir, Emitted(body, scope)), body.resource, scope)
            == var authored := AuthoredVerdict(engine, req, body.rules);
               if authored.Some? then authored.value else BaseDecision(engine, req, base, body.resource)
  {
    var after := WriteAll(dir, Emitted(body, scope));
    WholePublication(body, scope);
    WrittenIsFound(dir, body, scope, |Emitted(body, scope)|, 0);
    EmittedAt(body, scope, 0);
    LeafDecidesAsAuthored(engine, req, body.rules);
    forall i | 0 <= i < |AncestorsOf(scope)|
      ensures VerdictAt(engine, req, after, body.resource, AncestorsOf(scope)[i]) == None
    {
      AncestorsSilent(engine, req, dir, body, scope, i);
    }
    SkipSilent(engine, req, after, body.resource, AncestorsOf(scope));
    assert ([scope] + AncestorsOf(scope))[1..] == AncestorsOf(scope);
  }

  /**
   The stubs are written over whatever the ancestors had: whichever policy an ancestor scope
   carried before, afterwards only the base decides there.
   */
  lemma PublishEmptiesAncestors(engine: Engine, req: Request, base: Base, dir: Directory, body: Body, scope: string, a: string)
    requires IsPolicyScope(scope) && a in AncestorsOf(scope)
    ensures Decide(engine, req, base, WriteAll(dir, Emitted(body, scope)), body.resource, a)
            == BaseDecision(engine, req, base, body.resource)
  {
    var after := WriteAll(dir, Emitted(body, scope));
    var chain := [a] + AncestorsOf(a);
    InAncestorsIff(scope, a);
    forall i | 0 <= i < |chain|
      ensures VerdictAt(engine, req, after, body.resource, chain[i]) == None
    {
      if i > 0 {
        AncestorSegments(a, i - 1);
      }
      InAncestorsIff(scope, chain[i]);
      var j :| 0 <= j < |AncestorsOf(scope)| && AncestorsOf(scope)[j] == chain[i];
      AncestorsSilent(engine, req, dir, body, scope, j);
    }
    SkipSilent(engine, req, after, body.resource, chain);
  }

  /**
   A document already at scope `a` outlives the publication of another policy of its kind at `scope`,
   whatever that document is, if and only if `a` is neither that scope nor an ancestor of it.
   */
  lemma EarlierPolicySurvivesIff(body: Body, scope: string, a: string)
    requires IsPolicyScope(scope) && IsPolicyScope(a)
    ensures (forall dir :: Find(WriteAll(dir, Emitted(body, scope)), body.resource, a) == Find(dir, body.resource, a))
            <==> !AncestorOrSelf(a, scope)
  {
    WholePublication(body, scope);
    ScopeNotEmpty(a);
    InAncestorsIff(scope, a);
    if AncestorOrSelf(a, scope) {
      if Split(a) == Split(scope) {
        SplitInjective(a, scope);
        assert EmittedScopes(scope)[0] == a;
      } else {
        var j :| 0 <= j < |AncestorsOf(scope)| && AncestorsOf(scope)[j] == a;
        assert EmittedScopes(scope)[j + 1] == a;
      }
      var i :| 0 <= i < |EmittedScopes(scope)| && EmittedScopes(scope)[i] == a;
      WrittenIsFound(map[], body, scope, |Emitted(body, scope)|, i);
      assert Find(map[], body.resource, a) == None;
    } else {
      assert a !in EmittedScopes(scope);
      forall dir
        ensures Find(WriteAll(dir, Emitted(body, scope)), body.resource, a) == Find(dir, body.resource, a)
      {
        UnwrittenIsKept(dir, body, scope, |Emitted(body, scope)|, body.resource, a);
      }
    }
  }

  // ----- Ancestor closure ---------------------------------------------------------------------

  predicate Has(dir: Directory, resource: string, scope: string) {
    Find(dir, resource, scope).Some?
  }

  /** Every scope with a document has documents at all its ancestors; the engine refuses anything else. */
  ghost predicate Closed(dir: Directory, resource: string) {
    forall s, a :: IsPolicyScope(s) && Has(dir, resource, s) && a in AncestorsOf(s) ==> Has(dir, resource, a)
  }

  lemma HasAfterWrites(dir: Directory, body: Body, scope: string, k: nat, s: string)
    requires IsPolicyScope(scope) && k <= |Emitted(body, scope)| && IsPolicyScope(s)
    ensures Has(WriteAll(dir, Emitted(body, scope)[..k]), body.resource, s)
            <==> Has(dir, body.resource, s) || s in EmittedScopes(scope)[..k]
  {
    WholePublication(body, scope);
    ScopeNotEmpty(s);
    if s in EmittedScopes(scope)[..k] {
      var i :| 0 <= i < k && EmittedScopes(scope)[i] == s;
      WrittenIsFound(dir, body, scope, k, i);
    } else {
      UnwrittenIsKept(dir, body, scope, k, body.resource, s);
    }
  }

  lemma AncestorOfAncestor(s: string, a: string, b: string)
    requires a in AncestorsOf(s) && b in AncestorsOf(a)
    ensures b in AncestorsOf(s)
  {
    InAncestorsIff(s, a);
    InAncestorsIff(a, b);
    InAncestorsIff(s, b);
  }

  lemma InAncestorsIsScope(scope: string, a: string)
    requires IsPolicyScope(scope) && a in AncestorsOf(scope)
    ensures IsPolicyScope(a)
  {
    var i :| 0 <= i < |AncestorsOf(scope)| && AncestorsOf(scope)[i] == a;
    AncestorIsScope(scope, i);
  }

  /**
   The leaf is written first. In a closed directory, after one or more of a publication's writes,
   the directory is closed if and only if every ancestor not yet written was there before.
   */
  lemma MidPublishClosedIff(dir: Directory, body: Body, scope: string, k: nat)
    requires IsPolicyScope(scope) && Closed(dir, body.resource) && 1 <= k <= |Emitted(body, scope)|
    ensures Closed(WriteAll(dir, Emitted(body, scope)[..k]), body.resource)
            <==> forall a :: a in AncestorsOf(scope) && a !in EmittedScopes(scope)[..k] ==> Has(dir, body.resource, a)
  {
    var after, r, written := WriteAll(dir, Emitted(body, scope)[..k]), body.resource, EmittedScopes(scope)[..k];
    WholePublication(body, scope);
    if Closed(after, r) {
      assert written[0] == scope;
      HasAfterWrites(dir, body, scope, k, scope);
      forall a | a in AncestorsOf(scope) && a !in written
        ensures Has(dir, r, a)
      {
        InAncestorsIsScope(scope, a);
        HasAfterWrites(dir, body, scope, k, a);
      }
    }
    if forall a :: a in AncestorsOf(scope) && a !in written ==> Has(dir, r, a) {
      forall s, a | IsPolicyScope(s) && Has(after, r, s) && a in AncestorsOf(s)
        ensures Has(after, r, a)
      {
        InAncestorsIsScope(s, a);
        HasAfterWrites(dir, body, scope, k, s);
        HasAfterWrites(dir, body, scope, k, a);
        if s in written {
          if s != scope {
            AncestorOfAncestor(scope, s, a);
          }
        }
      }
    }
  }

  /** A completed publication keeps the directory closed for its own kind. */
  lemma CompletePublishKeepsOwnClosed(dir: Directory, body: Body, scope: string)
    requires IsPolicyScope(scope) && Closed(dir, body.resource)
    ensures Closed(WriteAll(dir, Emitted(body, scope)), body.resource)
  {
    WholePublication(body, scope);
    MidPublishClosedIff(dir, body, scope, |Emitted(body, scope)|);
  }

  /** Where documents of one kind are written, a document of that kind is found. */
  lemma {:induction false} WrittenOfKind(dir: Directory, files: seq<File>, kind: string, name: string)
    requires Writes(files, name) && forall i :: 0 <= i < |files| ==> files[i].document.resource == kind
    ensures name in WriteAll(dir, files) && WriteAll(dir, files)[name].resource == kind
  {
    var front := files[..|files| - 1];
    if files[|files| - 1].fileName != name {
      var j :| 0 <= j < |files| && files[j].fileName == name;
      assert front[j].fileName == name;
      WrittenOfKind(dir, front, kind, name);
    }
  }

  lemma EmittedOfKind(body: Body, scope: string)
    ensures forall i :: 0 <= i < |Emitted(body, scope)| ==> Emitted(body, scope)[i].document.resource == body.resource
  {
    forall i | 0 <= i < |Emitted(body, scope)|
      ensures Emitted(body, scope)[i].document.resource == body.resource
    {
      EmittedAt(body, scope, i);
    }
  }

  /** A publication of one kind adds no document of another. */
  lemma OtherKindOnlyLoses(dir: Directory, body: Body, scope: string, resource: string, s: string)
    requires resource != body.resource && Has(WriteAll(dir, Emitted(body, scope)), resource, s)
    ensures Has(dir, resource, s)
  {
    var files, name := Emitted(body, scope), FileNameFor(resource, s);
    if Writes(files, name) {
      EmittedOfKind(body, scope);
      WrittenOfKind(dir, files, body.resource, name);
    } else {
      WriteAllElsewhere(dir, files, name);
    }
  }

  /**
   Publishing kind `p` can take from kind `r` a document that another document of `r` needs: `r` extends
   `p`, or `p` extends `r` with room for two more labels.
   */
  predicate CanBreak(p: string, r: string) {
    Extends(r, p) || (Extends(p, r) && |Split(p[|r| + 1..])| + 2 <= MAX_SCOPE_DEPTH)
  }

  /** Otherwise no publication of `p` names the file of a scope of `r` that can have a scope below it. */
  lemma NeverNamesInner(p: string, scope: string, r: string, a: string, i: nat)
    requires p != r && !CanBreak(p, r) && IsPolicyScope(scope) && i < |EmittedScopes(scope)|
    requires IsPolicyScope(a) && |Split(a)| < MAX_SCOPE_DEPTH
    ensures FileNameFor(p, EmittedScopes(scope)[i]) != FileNameFor(r, a)
  {
    var e := EmittedScopes(scope)[i];
    EmittedScopeNotEmpty(scope, i);
    if FileNameFor(p, e) == FileNameFor(r, a) {
      FileNamesDistinct(p, e, r, a);
      if |r| < |p| {
        MeetingKindsExtend(r, a, p, e);
      } else if |p| < |r| {
        MeetingKindsExtend(p, e, r, a);
      }
    }
  }

  lemma CompletePublishKeepsOtherClosed(dir: Directory, body: Body, scope: string, r: string)
    requires IsPolicyScope(scope) && body.resource != r && !CanBreak(body.resource, r) && Closed(dir, r)
    ensures Closed(WriteAll(dir, Emitted(body, scope)), r)
  {
    var after := WriteAll(dir, Emitted(body, scope));
    WholePublication(body, scope);
    forall s, a | IsPolicyScope(s) && Has(after, r, s) && a in AncestorsOf(s)
      ensures Has(after, r, a)
    {
      OtherKindOnlyLoses(dir, body, scope, r, s);
      InAncestorsIsScope(s, a);
      InAncestorsIff(s, a);
      forall i | 0 <= i < |EmittedScopes(scope)|
        ensures FileNameFor(body.resource, EmittedScopes(scope)[i]) != FileNameFor(r, a)
      {
        NeverNamesInner(body.resource, scope, r, a, i);
      }
      UnnamedIsKept(dir, body, scope, |Emitted(body, scope)|, r, a);
      assert Has(dir, r, s) && Has(dir, r, a);
    }
  }

  ghost predicate KeepsClosed(p: string, r: string) {
    forall dir, rules, scope ::
      IsPolicyScope(scope) && Closed(dir, r) ==> Closed(WriteAll(dir, Emitted(Body(p, rules), scope)), r)
  }

  /** The document of `r` at `top` is overwritten by one of `p`, and the one under it stays. */
  lemma OverwrittenAncestor(p: string, scope: string, r: string, top: string, i: nat)
    requires p != r && IsPolicyScope(scope) && IsPolicyScope(top) && IsPolicyScope(top + ".a")
    requires i < |EmittedScopes(scope)| && FileNameFor(p, EmittedScopes(scope)[i]) == FileNameFor(r, top)
    requires forall j :: 0 <= j < |EmittedScopes(scope)| ==> FileNameFor(p, EmittedScopes(scope)[j]) != FileNameFor(r, top + ".a")
    ensures !KeepsClosed(p, r)
  {
    var below := top + ".a";
    var mine, theirs := Body(r, []), Body(p, []);
    var dir := WriteAll(map[], Emitted(mine, below));
    CompletePublishKeepsOwnClosed(map[], mine, below);
    var after := WriteAll(dir, Emitted(theirs, scope));
    WholePublication(mine, below);
    WholePublication(theirs, scope);
    WrittenIsFound(map[], mine, below, |Emitted(mine, below)|, 0);
    UnnamedIsKept(dir, theirs, scope, |Emitted(theirs, scope)|, r, below);
    EmittedAt(theirs, scope, i);
    assert Emitted(theirs, scope)[i].fileName == FileNameFor(r, top);
    EmittedOfKind(theirs, scope);
    WrittenOfKind(dir, Emitted(theirs, scope), p, FileNameFor(r, top));
    LetterIsScope("a");
    ScopeConcat(top, "a");
    assert top + ".a" == top + "." + "a";
    InAncestorsIff(below, top);
    assert Has(after, r, below) && !Has(after, r, top);
    assert !Closed(after, r);
  }

  /**
   Completed publications of kind `p` keep every directory closed for kind `r` if and only if `p` cannot
   take a document that `r` needs. For one kind, and for kinds that do not clash, they always do.
   */
  lemma CompletePublishKeepsClosedIff(p: string, r: string)
    ensures KeepsClosed(p, r) <==> p == r || !CanBreak(p, r)
  {
    if p == r || !CanBreak(p, r) {
      forall dir, rules, scope | IsPolicyScope(scope) && Closed(dir, r)
        ensures Closed(WriteAll(dir, Emitted(Body(p, rules), scope)), r)
      {
        if p == r {
          CompletePublishKeepsOwnClosed(dir, Body(p, rules), scope);
        } else {
          CompletePublishKeepsOtherClosed(dir, Body(p, rules), scope, r);
        }
      }
    } else if Extends(r, p) {
      LongerKindBroken(p, r);
    } else {
      ShorterKindBroken(p, r);
    }
  }

  /** Kinds without a dot, whatever they are, keep every directory closed for each other. */
  lemma DotFreeKindsKeepClosed(p: string, r: string)
    requires DotFree(p) && DotFree(r)
    ensures KeepsClosed(p, r) && KeepsClosed(r, p)
  {
    DotFreeKindsApart(p, r);
    CompletePublishKeepsClosedIff(p, r);
    CompletePublishKeepsClosedIff(r, p);
  }

  lemma LongerKindBroken(p: string, r: string)
    requires Extends(r, p)
    ensures !KeepsClosed(p, r)
  {
    var scope := r[|p| + 1..] + "." + "b";
    LetterIsScope("a");
    LetterIsScope("b");
    ExtensionShares(p, r, "b");
    ScopeConcat("b", "a");
    assert "b" + ".a" == "b" + "." + "a";
    ScopeConcat(r[|p| + 1..], "b");
    forall j | 0 <= j < |EmittedScopes(scope)|
      ensures FileNameFor(p, EmittedScopes(scope)[j]) != FileNameFor(r, "b.a")
    {
      EmittedScopeNotEmpty(scope, j);
      EmittedScopeDepth(scope, j);
      if FileNameFor(p, EmittedScopes(scope)[j]) == FileNameFor(r, "b.a") {
        MeetingKindsExtend(p, EmittedScopes(scope)[j], r, "b.a");
      }
    }
    OverwrittenAncestor(p, scope, r, "b", 0);
  }

  lemma EmittedScopeDepth(scope: string, j: nat)
    requires j < |EmittedScopes(scope)|
    ensures |Split(EmittedScopes(scope)[j])| <= |Split(scope)|
  {
    if j > 0 {
      AncestorSegments(scope, j - 1);
    }
  }

  lemma ShorterKindBroken(p: string, r: string)
    requires Extends(p, r) && |Split(p[|r| + 1..])| + 2 <= MAX_SCOPE_DEPTH
    ensures !KeepsClosed(p, r)
  {
    var x := p[|r| + 1..];
    LetterIsScope("a");
    LetterIsScope("b");
    ExtensionShares(r, p, "b");
    ScopeConcat(x, "b");
    ScopeConcat(x + "." + "b", "a");
    assert (x + "." + "b") + "." + "a" == (x + "." + "b") + ".a";
    forall j | 0 <= j < |EmittedScopes("b")|
      ensures FileNameFor(p, EmittedScopes("b")[j]) != FileNameFor(r, (x + "." + "b") + ".a")
    {
      EmittedScopeNotEmpty("b", j);
      EmittedScopeDepth("b", j);
      if FileNameFor(p, EmittedScopes("b")[j]) == FileNameFor(r, (x + "." + "b") + ".a") {
        MeetingKindsExtend(r, (x + "." + "b") + ".a", p, EmittedScopes("b")[j]);
      }
    }
    OverwrittenAncestor(p, "b", r, x + "." + "b", 0);
  }
}
