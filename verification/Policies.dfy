/** The consequentiality classifier: an ordered list of rules, the first that applies decides. */
module Policies {
  import opened Text
  import opened Scalar
  import opened Types
  import Macaroons

  datatype Condition = Condition(field: string, op: Op, value: string)
  datatype Rule = Rule(name: string, when: seq<Condition>, deny: bool, consequential: bool, reason: string)
  datatype Default = Default(allowed: bool, consequential: bool, reason: string)
  datatype Policy = Policy(ver: string, rules: seq<Rule>, dflt: Default)

  const DEFAULT_RULE := "default"

  predicate ValidCondition(lx: Lexicon, c: Condition) {
    && Trim(c.field) != ""
    && match c.op
       case Eq => c.value != ""
       case Ne => c.value != ""
       case In => c.value != ""
       case Unknown(_) => false
       case _ => Parse(lx, c.value).Some?
  }

  /** Policy.Validate; defaultPresent says whether the decoded file carried a default block. */
  predicate Valid(lx: Lexicon, p: Policy, defaultPresent: bool) {
    && Trim(p.ver) != "" && defaultPresent && Trim(p.dflt.reason) != ""
    && forall i :: 0 <= i < |p.rules| ==> ValidRule(lx, p.rules[i])
  }

  predicate ValidRule(lx: Lexicon, r: Rule) {
    && Trim(r.name) != "" && r.when != [] && Trim(r.reason) != ""
    && forall c :: c in r.when ==> ValidCondition(lx, c)
  }

  /** Validate, rule by rule, with its early exits. */
  method Validate(lx: Lexicon, p: Policy, defaultPresent: bool) returns (ok: bool)
    ensures ok == Valid(lx, p, defaultPresent)
  {
    if Trim(p.ver) == "" || !defaultPresent || Trim(p.dflt.reason) == "" {
      return false;
    }
    for i := 0 to |p.rules|
      invariant forall j :: 0 <= j < i ==> ValidRule(lx, p.rules[j])
    {
      var r := p.rules[i];
      if Trim(r.name) == "" || |r.when| == 0 {
        return false;
      }
      for k := 0 to |r.when|
        invariant forall j :: 0 <= j < k ==> ValidCondition(lx, r.when[j])
      {
        if !ValidCondition(lx, r.when[k]) {
          assert r.when[k] in r.when;
          return false;
        }
      }
      if Trim(r.reason) == "" {
        return false;
      }
    }
    return true;
  }

  /** A condition's result: whether it holds, and whether it could not be evaluated at all. */
  datatype Answer = Answer(holds: bool, indeterminate: bool)

  function ConditionAnswer(lx: Lexicon, c: Condition, ctx: map<string, string>): Answer {
    if c.field !in ctx then Answer(false, false)
    else
      var got := ctx[c.field];
      match c.op
      case Eq => Answer(got == c.value, false)
      case Ne => Answer(got != c.value, false)
      case In => Answer(exists m | m in Split(c.value) :: Trim(m) != "" && got == Trim(m), false)
      case Unknown(_) => Answer(false, false)
      case _ =>
        var g, v := Parse(lx, got), Parse(lx, c.value);
        if g.None? || v.None? then Answer(false, true)
        else Answer(Satisfies(g.value, c.op, v.value), false)
  }

  /** Condition.eval, with its scan of the comma-separated set. */
  method EvalCondition(lx: Lexicon, c: Condition, ctx: map<string, string>) returns (a: Answer)
    ensures a == ConditionAnswer(lx, c, ctx)
  {
    if c.field !in ctx {
      return Answer(false, false);
    }
    var got := ctx[c.field];
    match c.op {
      case Eq => return Answer(got == c.value, false);
      case Ne => return Answer(got != c.value, false);
      case In =>
        var parts := Split(c.value);
        for i := 0 to |parts|
          invariant forall j :: 0 <= j < i ==> !(Trim(parts[j]) != "" && got == Trim(parts[j]))
        {
          var m := Trim(parts[i]);
          if m != "" && got == m {
            assert parts[i] in Split(c.value);
            return Answer(true, false);
          }
        }
        return Answer(false, false);
      case Unknown(_) => return Answer(false, false);
      case _ =>
        var g, v := Parse(lx, got), Parse(lx, c.value);
        if g.None? || v.None? {
          return Answer(false, true);
        }
        return Answer(Satisfies(g.value, c.op, v.value), false);
    }
  }

  /** A rule could not be evaluated if any condition could not; it matches if every condition holds. */
  function RuleAnswer(lx: Lexicon, r: Rule, ctx: map<string, string>): Answer {
    var ind := exists c | c in r.when :: ConditionAnswer(lx, c, ctx).indeterminate;
    var all := forall c | c in r.when :: ConditionAnswer(lx, c, ctx).holds;
    Answer(all && !ind, ind)
  }

  /** Rule.eval: no short circuit, so both flags see every condition. */
  method EvalRule(lx: Lexicon, r: Rule, ctx: map<string, string>) returns (a: Answer)
    ensures a == RuleAnswer(lx, r, ctx)
  {
    var matched, indeterminate := true, false;
    for i := 0 to |r.when|
      invariant indeterminate == exists j :: 0 <= j < i && ConditionAnswer(lx, r.when[j], ctx).indeterminate
      invariant matched == forall j :: 0 <= j < i ==> ConditionAnswer(lx, r.when[j], ctx).holds
    {
      var c := EvalCondition(lx, r.when[i], ctx);
      if c.indeterminate {
        indeterminate := true;
      }
      if !c.holds {
        matched := false;
      }
    }
    assert indeterminate == exists c | c in r.when :: ConditionAnswer(lx, c, ctx).indeterminate;
    return Answer(matched && !indeterminate, indeterminate);
  }

  /** The fields that could not be evaluated, in declaration order. */
  function BadFields(lx: Lexicon, when: seq<Condition>, ctx: map<string, string>): seq<string> {
    if when == [] then []
    else
      var first := if ConditionAnswer(lx, when[0], ctx).indeterminate then [when[0].field] else [];
      first + BadFields(lx, when[1..], ctx)
  }

  method IndeterminateFields(lx: Lexicon, r: Rule, ctx: map<string, string>) returns (names: seq<string>)
    ensures names == BadFields(lx, r.when, ctx)
  {
    names := [];
    for i := 0 to |r.when|
      invariant names + BadFields(lx, r.when[i..], ctx) == BadFields(lx, r.when, ctx)
    {
      assert r.when[i..][1..] == r.when[i + 1..];
      var a := EvalCondition(lx, r.when[i], ctx);
      if a.indeterminate {
        names := names + [r.when[i].field];
      }
    }
  }

  function RuleDecision(p: Policy, r: Rule): Decision {
    Decision(!r.deny, r.consequential, r.name, p.ver, 0, Stated(r.reason))
  }

  function UncomparableDecision(p: Policy, r: Rule, fields: seq<string>): Decision {
    Decision(false, true, r.name, p.ver, 0, NotComparable(r.name, fields))
  }

  function DefaultDecision(p: Policy): Decision {
    Decision(p.dflt.allowed, p.dflt.consequential, DEFAULT_RULE, p.ver, 0, Stated(p.dflt.reason))
  }

  function EvaluateFrom(lx: Lexicon, p: Policy, ctx: map<string, string>, i: nat): Decision
    requires i <= |p.rules|
    decreases |p.rules| - i
  {
    if i == |p.rules| then DefaultDecision(p)
    else
      var a := RuleAnswer(lx, p.rules[i], ctx);
      if a.indeterminate then UncomparableDecision(p, p.rules[i], BadFields(lx, p.rules[i].when, ctx))
      else if a.holds then RuleDecision(p, p.rules[i])
      else EvaluateFrom(lx, p, ctx, i + 1)
  }

  function Evaluation(lx: Lexicon, p: Policy, a: Action): Decision {
    EvaluateFrom(lx, p, Context(a), 0)
  }

  /** Policy.Evaluate: top to bottom, an unevaluable rule denies before any later rule is asked. */
  method Evaluate(lx: Lexicon, p: Policy, action: Action) returns (d: Decision)
    ensures d == Evaluation(lx, p, action)
  {
    var ctx := FillContext(action);
    for i := 0 to |p.rules|
      invariant EvaluateFrom(lx, p, ctx, i) == EvaluateFrom(lx, p, ctx, 0)
    {
      var a := EvalRule(lx, p.rules[i], ctx);
      if a.indeterminate {
        var names := IndeterminateFields(lx, p.rules[i], ctx);
        return UncomparableDecision(p, p.rules[i], names);
      }
      if a.holds {
        return RuleDecision(p, p.rules[i]);
      }
    }
    return DefaultDecision(p);
  }

  // ---- what the classifier means ------------------------------------------

  /** A rule speaks when it matches or cannot be evaluated. */
  ghost predicate Speaks(lx: Lexicon, r: Rule, ctx: map<string, string>) {
    RuleAnswer(lx, r, ctx).holds || RuleAnswer(lx, r, ctx).indeterminate
  }

  /** The least rule that speaks decides; if none does, the default. */
  lemma {:induction false} FirstToSpeakDecides(lx: Lexicon, p: Policy, ctx: map<string, string>, i: nat)
    requires i <= |p.rules|
    requires forall j :: 0 <= j < i ==> !Speaks(lx, p.rules[j], ctx)
    ensures i < |p.rules| && Speaks(lx, p.rules[i], ctx) ==>
              EvaluateFrom(lx, p, ctx, 0) ==
                if RuleAnswer(lx, p.rules[i], ctx).indeterminate
                then UncomparableDecision(p, p.rules[i], BadFields(lx, p.rules[i].when, ctx))
                else RuleDecision(p, p.rules[i])
    ensures i == |p.rules| ==> EvaluateFrom(lx, p, ctx, 0) == DefaultDecision(p)
    ensures EvaluateFrom(lx, p, ctx, 0) == EvaluateFrom(lx, p, ctx, i)
  {
    if i > 0 {
      FirstToSpeakDecides(lx, p, ctx, i - 1);
    }
  }

  /** The classifier itself never reports a status check. */
  lemma {:induction false} EvaluationChecksNoHops(lx: Lexicon, p: Policy, ctx: map<string, string>, i: nat)
    requires i <= |p.rules|
    ensures EvaluateFrom(lx, p, ctx, i).statusCheckedHops == 0
    decreases |p.rules| - i
  {
    if i < |p.rules| {
      EvaluationChecksNoHops(lx, p, ctx, i + 1);
    }
  }

  /**
   What the classifier answers, case by case, where rule i is the first to speak or none does. A rule that
   cannot be evaluated denies as consequential and names its fields.
   */
  lemma EvaluationMeans(lx: Lexicon, p: Policy, a: Action, i: nat)
    requires i <= |p.rules| && forall j :: 0 <= j < i ==> !Speaks(lx, p.rules[j], Context(a))
    ensures var d := Evaluation(lx, p, a); d.policyVersion == p.ver && d.statusCheckedHops == 0
    ensures i < |p.rules| && RuleAnswer(lx, p.rules[i], Context(a)).holds ==>
              var d, r := Evaluation(lx, p, a), p.rules[i];
              && d.allowed == !r.deny && d.consequential == r.consequential && d.ruleFired == r.name
              && d.reason == Stated(r.reason)
    ensures i < |p.rules| && RuleAnswer(lx, p.rules[i], Context(a)).indeterminate ==>
              var d, r := Evaluation(lx, p, a), p.rules[i];
              && !d.allowed && d.consequential && d.ruleFired == r.name
              && d.reason == NotComparable(r.name, BadFields(lx, r.when, Context(a)))
    ensures i == |p.rules| ==>
              var d := Evaluation(lx, p, a);
              && d.allowed == p.dflt.allowed && d.consequential == p.dflt.consequential && d.ruleFired == "default"
              && d.reason == Stated(p.dflt.reason)
  {
    FirstToSpeakDecides(lx, p, Context(a), i);
    VersionAlways(lx, p, Context(a), 0);
    EvaluationChecksNoHops(lx, p, Context(a), 0);
  }

  lemma {:induction false} VersionAlways(lx: Lexicon, p: Policy, ctx: map<string, string>, i: nat)
    requires i <= |p.rules|
    ensures EvaluateFrom(lx, p, ctx, i).policyVersion == p.ver
    decreases |p.rules| - i
  {
    if i < |p.rules| {
      VersionAlways(lx, p, ctx, i + 1);
    }
  }

  /**
   A rule holds exactly when each of its conditions, read as a caveat, is satisfied, and cannot be evaluated
   exactly when it orders some field that is present and that field or the bound is no scalar.
   */
  lemma RuleMeans(lx: Lexicon, r: Rule, ctx: map<string, string>)
    ensures RuleAnswer(lx, r, ctx).holds <==>
            forall c :: c in r.when ==> Macaroons.Satisfied(lx, Macaroons.Caveat(c.field, c.op, c.value), ctx)
    ensures RuleAnswer(lx, r, ctx).indeterminate <==>
            exists c :: c in r.when && IsOrdering(c.op) && c.field in ctx &&
              (Parse(lx, ctx[c.field]).None? || Parse(lx, c.value).None?)
  {
    forall c | c in r.when
      ensures Macaroons.Satisfied(lx, Macaroons.Caveat(c.field, c.op, c.value), ctx) <==>
              ConditionAnswer(lx, c, ctx) == Answer(true, false)
    {
      CaveatMeansCondition(lx, c.field, c.op, c.value, ctx);
    }
  }

  /** A reason that says something: some rule and some fields of it, or a text that is not blank. */
  predicate SaysSomething(reason: Reason) {
    match reason
    case Stated(text) => Trim(text) != ""
    case NotComparable(rule, fields) => Trim(rule) != "" && fields != []
    case Refusal(_) => true
  }

  lemma RuleSaysSomething(lx: Lexicon, p: Policy, r: Rule, ctx: map<string, string>)
    requires ValidRule(lx, r)
    ensures SaysSomething(RuleDecision(p, r).reason)
    ensures RuleAnswer(lx, r, ctx).indeterminate ==>
              SaysSomething(UncomparableDecision(p, r, BadFields(lx, r.when, ctx)).reason)
  {
    BadFieldsIff(lx, r.when, ctx);
  }

  /** A validated policy never decides without a stated reason. */
  lemma {:induction false} ReasonAlwaysStated(lx: Lexicon, p: Policy, ctx: map<string, string>, i: nat)
    requires Valid(lx, p, true) && i <= |p.rules|
    ensures SaysSomething(EvaluateFrom(lx, p, ctx, i).reason) && !EvaluateFrom(lx, p, ctx, i).reason.Refusal?
    decreases |p.rules| - i
  {
    if i < |p.rules| {
      ReasonAlwaysStated(lx, p, ctx, i + 1);
      assert ValidRule(lx, p.rules[i]);
      RuleSaysSomething(lx, p, p.rules[i], ctx);
    }
  }

  lemma {:induction false} BadFieldsIff(lx: Lexicon, when: seq<Condition>, ctx: map<string, string>)
    ensures BadFields(lx, when, ctx) != [] <==> exists c :: c in when && ConditionAnswer(lx, c, ctx).indeterminate
  {
    if when != [] {
      BadFieldsIff(lx, when[1..], ctx);
      assert when == [when[0]] + when[1..];
    }
  }

  /** A rule's answer does not depend on the order its conditions are written in. */
  lemma ConditionOrderIrrelevant(lx: Lexicon, r: Rule, s: Rule, ctx: map<string, string>)
    requires multiset(r.when) == multiset(s.when)
    ensures RuleAnswer(lx, r, ctx) == RuleAnswer(lx, s, ctx)
  {
    forall c ensures c in r.when <==> c in s.when {
      assert c in r.when <==> c in multiset(r.when);
      assert c in s.when <==> c in multiset(s.when);
    }
  }

  /** A caveat and a condition over one field reach the same answer about it, for every operator. */
  lemma CaveatMeansCondition(lx: Lexicon, field: string, op: Op, value: string, ctx: map<string, string>)
    ensures Macaroons.Satisfied(lx, Macaroons.Caveat(field, op, value), ctx) <==>
            ConditionAnswer(lx, Condition(field, op, value), ctx) == Answer(true, false)
  {
    if field in ctx {
      MemberIff(value, ctx[field]);
    }
  }
}
