/**
 Publishing, from the authored text to the decision: when a policy body is accepted, which error it gets
 otherwise, and that once published it decides as its raw rules say.
 */
module PolicyAuthoring {
  import opened Wrappers
  import OrgPaths
  import opened PolicyCompiler
  import opened ScopeChains
  import opened PolicyPublisher

  // ----- Which bodies are accepted --------------------------------------------------------------

  /** A list of strings, and not an empty one. */
  predicate Listed(list: Option<seq<string>>) {
    list.Some? && list.value != []
  }

  /** What is wrong with a rule; of several faults the first in the order of its fields. */
  ghost predicate HasFault(raw: RawRule, k: nat, fault: CompileError) {
    match fault
    case RuleNotObject(i) => i == k && raw.NotAnObject?
    case ActionsMissing(i) => i == k && raw.RawRule? && !Listed(raw.actions)
    case EffectUnknown(i) => i == k && raw.RawRule? && Listed(raw.actions) && raw.effect !in {"ALLOW", "DENY"}
    case RolesMissing(i) => i == k && raw.RawRule? && Listed(raw.actions) && raw.effect in {"ALLOW", "DENY"} && !Listed(raw.roles)
    case _ => false
  }

  predicate RuleShaped(raw: RawRule) {
    raw.RawRule? && Listed(raw.actions) && raw.effect in {"ALLOW", "DENY"} && Listed(raw.roles)
  }

  predicate Named(resource: Option<string>) {
    resource.Some? && !OrgPaths.Blank(resource.value)
  }

  predicate WellShaped(raw: RawBody) {
    Named(raw.resource) && raw.rules.Some? && forall k :: 0 <= k < |raw.rules.value| ==> RuleShaped(raw.rules.value[k])
  }

  /** A body is accepted if and only if it is well shaped. */
  lemma AcceptedIff(raw: RawBody)
    ensures ParseRuleBody(raw).Ok? <==> WellShaped(raw)
  {
    if raw.rules.Some? {
      ParseRulesIsPointwise(raw.rules.value, 0);
    }
  }

  /** Each error comes in exactly its case: the resource first, then the list, then the first bad rule's first fault. */
  lemma RejectedIff(raw: RawBody, error: CompileError)
    ensures ParseRuleBody(raw) == Err(error) <==>
              if !Named(raw.resource) then error == ResourceMissing
              else if raw.rules.None? then error == RulesNotArray
              else exists k :: 0 <= k < |raw.rules.value| && HasFault(raw.rules.value[k], k, error)
                     && forall j :: 0 <= j < k ==> RuleShaped(raw.rules.value[j])
  {
    if raw.rules.Some? {
      var rules := raw.rules.value;
      ParseRulesIsPointwise(rules, 0);
      if ParseRules(rules, 0).Err? {
        var k :| 0 <= k < |rules| && ParseRule(rules[k], k) == Err(ParseRules(rules, 0).error)
                 && forall j :: 0 <= j < k ==> ParseRule(rules[j], j).Ok?;
        assert HasFault(rules[k], k, ParseRules(rules, 0).error);
        forall j, other | 0 <= j < |rules| && HasFault(rules[j], j, other) && forall i :: 0 <= i < j ==> RuleShaped(rules[i])
          ensures j == k && other == ParseRules(rules, 0).error
        {
          assert RuleShaped(rules[j]) <==> ParseRule(rules[j], j).Ok?;
        }
      }
    }
  }

  // ----- What the author wrote ------------------------------------------------------------------

  ghost predicate RawApplies(engine: Engine, req: Request, raw: RawRule) {
    && raw.RawRule? && raw.actions.Some? && raw.roles.Some?
    && Addressed(engine, req, raw.actions.value, raw.roles.value)
    && (raw.condition.Some? ==> Holds(At(engine, req), raw.condition.value))
  }

  /** A raw rule that applies denies if and only if its effect is the text DENY, and denial overrides. */
  ghost function RawVerdict(engine: Engine, req: Request, raw: seq<RawRule>): Option<Effect> {
    if exists i :: 0 <= i < |raw| && RawApplies(engine, req, raw[i]) && raw[i].effect == "DENY" then Some(Deny)
    else if exists i :: 0 <= i < |raw| && RawApplies(engine, req, raw[i]) then Some(Allow)
    else None
  }

  ghost predicate RawWellFormed(raw: seq<RawRule>) {
    forall i :: 0 <= i < |raw| && raw[i].RawRule? && raw[i].condition.Some? ==> WellFormed(raw[i].condition.value)
  }

  /** The rule kept what its raw form says. */
  ghost predicate SaysTheSame(engine: Engine, req: Request, rule: Rule, raw: RawRule) {
    && raw.RawRule? && rule.condition == raw.condition && rule.name == raw.name
    && (Applies(engine, req, rule) <==> RawApplies(engine, req, raw))
    && (rule.effect.Deny? <==> raw.effect == "DENY")
  }

  lemma ParsedRuleIsRaw(engine: Engine, req: Request, raw: RawRule, k: nat)
    requires ParseRule(raw, k).Ok?
    ensures SaysTheSame(engine, req, ParseRule(raw, k).value, raw)
  {
  }

  lemma ParsedIsRaw(engine: Engine, req: Request, raw: RawBody)
    requires ParseRuleBody(raw).Ok?
    ensures var body := ParseRuleBody(raw).value;
            && raw.resource == Some(body.resource) && raw.rules.Some? && |body.rules| == |raw.rules.value|
            && forall i :: 0 <= i < |body.rules| ==> SaysTheSame(engine, req, body.rules[i], raw.rules.value[i])
  {
    var rules := raw.rules.value;
    ParseRulesIsPointwise(rules, 0);
    var body := ParseRuleBody(raw).value;
    forall i | 0 <= i < |body.rules|
      ensures SaysTheSame(engine, req, body.rules[i], rules[i])
    {
      assert ParseRule(rules[i], i) == Ok(body.rules[i - 0]);
      ParsedRuleIsRaw(engine, req, rules[i], i);
    }
  }

  lemma SameVerdict(engine: Engine, req: Request, rules: seq<Rule>, raw: seq<RawRule>)
    requires |rules| == |raw| && forall i :: 0 <= i < |rules| ==> SaysTheSame(engine, req, rules[i], raw[i])
    ensures AuthoredVerdict(engine, req, rules) == RawVerdict(engine, req, raw)
    ensures RawWellFormed(raw) <==> RulesWellFormed(rules)
  {
    assert forall i :: 0 <= i < |raw| ==> SaysTheSame(engine, req, rules[i], raw[i]);
  }

  /** Every same-tenant request at the scope gets what the raw rules say, else what the base does. */
  ghost predicate DecidesAsAuthored(dir: Directory, raw: RawBody, scope: string)
    requires WellShaped(raw)
  {
    forall engine, req, base :: Sound(engine, req) && !CrossTenant(req) ==>
      var verdict := RawVerdict(engine, req, raw.rules.value);
      Decide(engine, req, base, dir, raw.resource.value, scope)
      == if verdict.Some? then verdict.value else BaseDecision(engine, req, base, raw.resource.value)
  }

  lemma PublishedDecidesAsAuthored(dir: Directory, raw: RawBody, scope: string)
    requires WellShaped(raw) && RawWellFormed(raw.rules.value) && IsPolicyScope(scope)
    ensures ParseRuleBody(raw).Ok?
    ensures DecidesAsAuthored(WriteAll(dir, Emitted(ParseRuleBody(raw).value, scope)), raw, scope)
  {
    AcceptedIff(raw);
    var body := ParseRuleBody(raw).value;
    forall engine, req, base | Sound(engine, req) && !CrossTenant(req)
      ensures Decide(engine, req, base, WriteAll(dir, Emitted(body, scope)), raw.resource.value, scope)
              == var verdict := RawVerdict(engine, req, raw.rules.value);
                 if verdict.Some? then verdict.value else BaseDecision(engine, req, base, raw.resource.value)
    {
      ParsedIsRaw(engine, req, raw);
      SameVerdict(engine, req, body.rules, raw.rules.value);
      PublishedRulesDecide(engine, req, base, dir, body, scope);
    }
  }

  class FsCerbosPolicyPublisher {
    var dir: Directory

    /**
     From the raw body to the decision. `writable` is how many writes the disk takes before it fails, and
     each replaces a whole file. Publishing succeeds if and only if the body is well shaped and the disk takes
     all files; then the directory decides as the author wrote. A body that is not well shaped changes nothing.
     */
    method Publish(raw: RawBody, scope: string, writable: nat) returns (r: Result<nat, CompileError>)
      modifies this
      ensures ParseRuleBody(raw).Err? ==> r == Err(ParseRuleBody(raw).error) && dir == old(dir)
      ensures ParseRuleBody(raw).Ok? ==>
                var files := Emitted(ParseRuleBody(raw).value, scope);
                if writable < |files|
                then r == Err(WriteFailed) && dir == WriteAll(old(dir), files[..writable])
                else r == Ok(|files|) && dir == WriteAll(old(dir), files)
      ensures r.Ok? <==> WellShaped(raw) && writable > |AncestorsOf(scope)|
      ensures !WellShaped(raw) ==> dir == old(dir)
      ensures r.Ok? && IsPolicyScope(scope) && RawWellFormed(raw.rules.value) ==> DecidesAsAuthored(dir, raw, scope)
    {
      AcceptedIff(raw);
      if IsPolicyScope(scope) && WellShaped(raw) && RawWellFormed(raw.rules.value) {
        PublishedDecidesAsAuthored(dir, raw, scope);
      }
      var mapped := MapPolicyToCerbosFiles(raw, scope);
      if mapped.Err? {
        return Err(mapped.error);
      }
      var files := mapped.value;
      for i := 0 to |files|
        invariant i <= writable && dir == WriteAll(old(dir), files[..i])
      {
        if i == writable {
          return Err(WriteFailed);
        }
        WriteOneMore(old(dir), files, i);
        dir := dir[files[i].fileName := files[i].document];
      }
      assert files[..|files|] == files;
      r := Ok(|files|);
    }
  }
}
