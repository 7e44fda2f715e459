/**
 Compiling authored policy rules into Cerbos rules. The CEL evaluator is an oracle; what the engine
 does with a rule (which actions, roles and conditions make it apply) is written out.
 */
module PolicyCompiler {
  import opened Wrappers

  datatype Effect = Allow | Deny

  /** The contract sets exactly one of the three; the JSON it arrives in can hold any of them. */
  datatype Condition = Condition(all: Operands, any: Operands, expr: Option<string>)

  datatype Operands = Unset | Operands(list: seq<Condition>)

  datatype Match = All(of: seq<Match>) | Any(of: seq<Match>) | Expr(expr: string)

  datatype Rule = Rule(
    actions: seq<string>,
    effect: Effect,
    roles: seq<string>,
    condition: Option<Condition>,
    name: Option<string>)

  datatype CompiledRule = CompiledRule(
    actions: seq<string>,
    effect: Effect,
    roles: seq<string>,
    name: string,
    match_: Option<Match>)

  // ----- The compiler -----------------------------------------------------------------------

  function CompileCondition(c: Condition): Match
    decreases c, 0
  {
    if c.all.Operands? then All(seq(|c.all.list|, i requires 0 <= i < |c.all.list| => CompileOperand(c.all.list[i])))
    else if c.any.Operands? then Any(seq(|c.any.list|, i requires 0 <= i < |c.any.list| => CompileOperand(c.any.list[i])))
    else if c.expr.Some? then Expr(c.expr.value)
    else Expr("true")
  }

  function CompileOperand(c: Condition): Match
    decreases c, 1
  {
    if c.all.Operands? then CompileCondition(c)
    else if c.any.Operands? then CompileCondition(c)
    else if c.expr.Some? then Expr(c.expr.value)
    else CompileCondition(c)
  }

  function Decimal(n: nat): string {
    var digit := ['0' + (n % 10) as char];
    if n < 10 then digit else Decimal(n / 10) + digit
  }

  function CompileRule(rule: Rule, index: nat): CompiledRule {
    CompiledRule(
      rule.actions,
      rule.effect,
      rule.roles,
      if rule.name.Some? then rule.name.value else "rule_" + Decimal(index),
      if rule.condition.Some? then Some(CompileCondition(rule.condition.value)) else None)
  }

  /** The number that decimal digits stand for. */
  function ReadDecimal(s: string): Option<nat> {
    if s == "" then None
    else
      var last, front := s[|s| - 1], s[..|s| - 1];
      if !('0' <= last <= '9') then None
      else if front == "" then Some((last - '0') as nat)
      else
        var earlier := ReadDecimal(front);
        if earlier.None? then None else Some(earlier.value * 10 + (last - '0') as nat)
  }

  lemma {:induction false} DecimalReadsBack(n: nat)
    ensures Decimal(n) != "" && ReadDecimal(Decimal(n)) == Some(n)
  {
    if n >= 10 {
      DecimalReadsBack(n / 10);
      assert Decimal(n)[..|Decimal(n)| - 1] == Decimal(n / 10);
    }
  }

  /** A rule keeps its own name; one without is called `rule_` and its number. */
  lemma NamesKept(rules: seq<Rule>, i: nat)
    requires i < |rules|
    ensures var name := CompileRules(rules)[i].name;
            if rules[i].name.Some? then name == rules[i].name.value
            else |name| > 5 && name[..5] == "rule_" && ReadDecimal(name[5..]) == Some(i)
  {
    DecimalReadsBack(i);
  }

  /** Rules without a name of their own get different ones. */
  lemma DefaultNamesDistinct(rule: Rule, other: Rule, i: nat, j: nat)
    requires rule.name.None? && other.name.None? && CompileRule(rule, i).name == CompileRule(other, j).name
    ensures i == j
  {
    assert Decimal(i) == ("rule_" + Decimal(i))[5..] && Decimal(j) == ("rule_" + Decimal(j))[5..];
    DecimalReadsBack(i);
    DecimalReadsBack(j);
  }

  function CompileRules(rules: seq<Rule>): seq<CompiledRule> {
    seq(|rules|, i requires 0 <= i < |rules| => CompileRule(rules[i], i))
  }

  // ----- What conditions mean ---------------------------------------------------------------

  type Cel = string -> bool

  /** The authored meaning: every field that is set has its say, and an empty condition is no restriction. */
  ghost predicate Holds(cel: Cel, c: Condition) {
    && (c.all.Operands? ==> forall i :: 0 <= i < |c.all.list| ==> Holds(cel, c.all.list[i]))
    && (c.any.Operands? ==> exists i :: 0 <= i < |c.any.list| && Holds(cel, c.any.list[i]))
    && (c.expr.Some? ==> cel(c.expr.value))
  }

  /** The engine's meaning of a compiled match block. */
  ghost predicate Matches(cel: Cel, m: Match) {
    match m
    case All(of) => forall i :: 0 <= i < |of| ==> Matches(cel, of[i])
    case Any(of) => exists i :: 0 <= i < |of| && Matches(cel, of[i])
    case Expr(e) => cel(e)
  }

  predicate AtMostOneField(c: Condition) {
    !(c.all.Operands? && c.any.Operands?) && !(c.all.Operands? && c.expr.Some?) && !(c.any.Operands? && c.expr.Some?)
  }

  /** At most one field is set, at every level. */
  ghost predicate WellFormed(c: Condition) {
    && AtMostOneField(c)
    && (c.all.Operands? ==> forall i :: 0 <= i < |c.all.list| ==> WellFormed(c.all.list[i]))
    && (c.any.Operands? ==> forall i :: 0 <= i < |c.any.list| ==> WellFormed(c.any.list[i]))
  }

  lemma OperandIsCondition(c: Condition)
    ensures CompileOperand(c) == CompileCondition(c)
  {
  }

  /** Compiling keeps a condition's truth value, for every evaluator and every nesting. */
  lemma {:induction false} CompilePreserves(cel: Cel, c: Condition)
    requires WellFormed(c) && cel("true")
    ensures Matches(cel, CompileCondition(c)) <==> Holds(cel, c)
  {
    var m := CompileCondition(c);
    if c.all.Operands? {
      OperandsPreserved(cel, c, c.all.list);
      assert Holds(cel, c) <==> forall i :: 0 <= i < |c.all.list| ==> Holds(cel, c.all.list[i]);
      assert forall i :: 0 <= i < |m.of| ==> (Matches(cel, m.of[i]) <==> Holds(cel, c.all.list[i]));
    } else if c.any.Operands? {
      OperandsPreserved(cel, c, c.any.list);
      assert Holds(cel, c) <==> exists i :: 0 <= i < |c.any.list| && Holds(cel, c.any.list[i]);
      assert forall i :: 0 <= i < |m.of| ==> (Matches(cel, m.of[i]) <==> Holds(cel, c.any.list[i]));
    }
  }

  lemma {:induction false} OperandsPreserved(cel: Cel, c: Condition, operands: seq<Condition>)
    requires cel("true") && (c.all == Operands(operands) || c.any == Operands(operands))
    requires forall i :: 0 <= i < |operands| ==> WellFormed(operands[i])
    ensures forall i :: 0 <= i < |operands| ==> (Matches(cel, CompileOperand(operands[i])) <==> Holds(cel, operands[i]))
    decreases c, 0
  {
    forall i | 0 <= i < |operands|
      ensures Matches(cel, CompileOperand(operands[i])) <==> Holds(cel, operands[i])
    {
      CompilePreserves(cel, operands[i]);
    }
  }

  /** The truth of a one-expression condition is the truth of its expression. */
  function Leaf(expr: string): Condition {
    Condition(Unset, Unset, Some(expr))
  }

  ghost predicate Preserved(cel: Cel, c: Condition) {
    Matches(cel, CompileCondition(c)) <==> Holds(cel, c)
  }

  /** The two conditions have the same fields set at the top. */
  predicate SameFields(c: Condition, d: Condition) {
    && (c.all.Operands? <==> d.all.Operands?)
    && (c.any.Operands? <==> d.any.Operands?)
    && (c.expr.Some? <==> d.expr.Some?)
  }

  /** A condition with the given fields, `x` behind the one the compiler reads and `y` behind the others. */
  function Mixed(fields: Condition, x: string, y: string): Condition {
    Condition(
      if fields.all.Operands? then Operands([Leaf(x)]) else Unset,
      if fields.any.Operands? then Operands([Leaf(if fields.all.Operands? then y else x)]) else Unset,
      if fields.expr.Some? then Some(y) else None)
  }

  /**
   Which of the three fields are set decides it. If at most one is, truth is preserved whatever is
   inside; if two are, there is a condition with the same fields set whose compiled form is true
   while the condition is false, because the compiler drops every field after the first.
   */
  lemma PreservedIffAtMostOneField(fields: Condition)
    ensures AtMostOneField(fields) <==>
              forall c, cel: Cel :: SameFields(fields, c) && OperandsWellFormed(c) && cel("true") ==> Preserved(cel, c)
  {
    if AtMostOneField(fields) {
      forall c, cel: Cel | SameFields(fields, c) && OperandsWellFormed(c) && cel("true")
        ensures Preserved(cel, c)
      {
        CompilePreserves(cel, c);
      }
    } else {
      var cel: Cel := e => e != "no";
      var c := Mixed(fields, "true", "no");
      MixedIsDropped(cel, fields);
      assert SameFields(fields, c) && OperandsWellFormed(c) && cel("true") && !Preserved(cel, c);
    }
  }

  ghost predicate OperandsWellFormed(c: Condition) {
    && (c.all.Operands? ==> forall i :: 0 <= i < |c.all.list| ==> WellFormed(c.all.list[i]))
    && (c.any.Operands? ==> forall i :: 0 <= i < |c.any.list| ==> WellFormed(c.any.list[i]))
  }

  lemma MixedIsDropped(cel: Cel, fields: Condition)
    requires !AtMostOneField(fields) && cel("true") && !cel("no")
    ensures Matches(cel, CompileCondition(Mixed(fields, "true", "no"))) && !Holds(cel, Mixed(fields, "true", "no"))
  {
    var c := Mixed(fields, "true", "no");
    assert !Holds(cel, Leaf("no")) && CompileOperand(Leaf("true")) == Expr("true");
    if fields.all.Operands? {
      assert CompileCondition(c).of == [Expr("true")];
    } else {
      assert CompileCondition(c).of == [Expr("true")] && Matches(cel, CompileCondition(c).of[0]);
    }
    if fields.all.Operands? && fields.any.Operands? {
      assert c.any.list == [Leaf("no")];
    }
  }

  // ----- What rules decide ------------------------------------------------------------------

  datatype Request = Request(action: string, roles: set<string>, principalTenant: string, resourceTenant: string)

  /** The evaluator on one request, and how the engine matches an action against a pattern. */
  datatype Engine = Engine(cel: (Request, string) -> bool, actionMatches: (string, string) -> bool)

  function At(engine: Engine, req: Request): Cel {
    (e: string) => engine.cel(req, e)
  }

  predicate Addressed(engine: Engine, req: Request, actions: seq<string>, roles: seq<string>) {
    && (exists i :: 0 <= i < |actions| && engine.actionMatches(actions[i], req.action))
    && (exists j :: 0 <= j < |roles| && (roles[j] == "*" || roles[j] in req.roles))
  }

  ghost predicate Fires(engine: Engine, req: Request, rule: CompiledRule) {
    && Addressed(engine, req, rule.actions, rule.roles)
    && (rule.match_.Some? ==> Matches(At(engine, req), rule.match_.value))
  }

  /** Deny overrides within one policy; a policy none of whose rules fires says nothing. */
  ghost function Verdict(engine: Engine, req: Request, rules: seq<CompiledRule>): Option<Effect> {
    if exists i :: 0 <= i < |rules| && Fires(engine, req, rules[i]) && rules[i].effect.Deny? then Some(Deny)
    else if exists i :: 0 <= i < |rules| && Fires(engine, req, rules[i]) then Some(Allow)
    else None
  }

  ghost predicate Applies(engine: Engine, req: Request, rule: Rule) {
    && Addressed(engine, req, rule.actions, rule.roles)
    && (rule.condition.Some? ==> Holds(At(engine, req), rule.condition.value))
  }

  /** What the author wrote: a rule that applies and denies, else one that applies. */
  ghost function AuthoredVerdict(engine: Engine, req: Request, rules: seq<Rule>): Option<Effect> {
    if exists i :: 0 <= i < |rules| && Applies(engine, req, rules[i]) && rules[i].effect.Deny? then Some(Deny)
    else if exists i :: 0 <= i < |rules| && Applies(engine, req, rules[i]) then Some(Allow)
    else None
  }

  ghost predicate RulesWellFormed(rules: seq<Rule>) {
    forall i :: 0 <= i < |rules| ==> rules[i].condition.Some? ==> WellFormed(rules[i].condition.value)
  }

  lemma RulePreserved(engine: Engine, req: Request, rule: Rule, index: nat)
    requires rule.condition.Some? ==> WellFormed(rule.condition.value)
    requires engine.cel(req, "true")
    ensures Fires(engine, req, CompileRule(rule, index)) <==> Applies(engine, req, rule)
  {
    if rule.condition.Some? {
      CompilePreserves(At(engine, req), rule.condition.value);
    }
  }

  /** The compiled rules decide every request as the authored ones do. */
  lemma VerdictPreserved(engine: Engine, req: Request, rules: seq<Rule>)
    requires RulesWellFormed(rules) && engine.cel(req, "true")
    ensures Verdict(engine, req, CompileRules(rules)) == AuthoredVerdict(engine, req, rules)
  {
    var compiled := CompileRules(rules);
    forall i | 0 <= i < |rules|
      ensures Fires(engine, req, compiled[i]) <==> Applies(engine, req, rules[i])
    {
      RulePreserved(engine, req, rules[i], i);
    }
    assert forall i :: 0 <= i < |rules| ==> compiled[i].effect == rules[i].effect;
  }
}
