/** The translation of a policy into a Rego module, and the fragment of Rego it uses. */
module Rego {
  import opened Util
  import opened Text
  import opened Scalar
  import opened Types
  import opened Policies

  // ---- the fragment -------------------------------------------------------

  datatype Term =
    | Ref(field: string)            // input.ctx[field]
    | Str(text: string)
    | Local(name: nat)              // m<name>
    | TrimSpace(arg: Term)
    | ScalarCall(arg: Term)         // scalar(arg)

  datatype Expr =
    | Equal(l: Term, r: Term)
    | Differ(l: Term, r: Term)
    | Ordered(op: Op, l: Term, r: Term)
    | SomeIn(name: nat, text: string)   // some m<name> in split(text, ",")

  /** Successive expressions of a body are conjunctive. */
  type Body = seq<Expr>

  /**
   The generated module: the default decision, the ordering_fields object, one
   "matches contains i" rule per index, and the decisions object. Nothing in it is ordered.
   */
  datatype RegoModule = RegoModule(
    fallback: Decision, orderingFields: map<nat, seq<string>>, matches: map<nat, Body>, decisions: map<nat, Decision>)

  // ---- its meaning --------------------------------------------------------

  datatype Val = VString(s: string) | VNumber(r: real)

  /** The shared coercion, read as a Rego number. Rego has no NaN. */
  ghost function Coerce(lx: Lexicon, s: string): Option<real> {
    match Parse(lx, s)
    case Some(Instant(n)) => Some(n as real)
    case Some(Number(Finite(r))) => Some(r)
    case _ => None
  }

  /** None is Rego's undefined. */
  ghost function TermValue(lx: Lexicon, t: Term, ctx: map<string, string>, env: map<nat, string>): Option<Val> {
    match t
    case Ref(f) => if f in ctx then Some(VString(ctx[f])) else None
    case Str(s) => Some(VString(s))
    case Local(n) => if n in env then Some(VString(env[n])) else None
    case TrimSpace(a) =>
      (match TermValue(lx, a, ctx, env)
       case Some(VString(s)) => Some(VString(Trim(s)))
       case _ => None)
    case ScalarCall(a) =>
      (match TermValue(lx, a, ctx, env)
       case Some(VString(s)) => if Coerce(lx, s).Some? then Some(VNumber(Coerce(lx, s).value)) else None
       case _ => None)
  }

  ghost predicate NumbersOrdered(op: Op, a: real, b: real) {
    match op
    case Le => a <= b
    case Lt => a < b
    case Ge => a >= b
    case Gt => a > b
    case _ => false
  }

  /** An expression that binds nothing; undefined is not true. */
  ghost predicate ExprHolds(lx: Lexicon, e: Expr, ctx: map<string, string>, env: map<nat, string>)
    requires !e.SomeIn?
  {
    var l, r := TermValue(lx, e.l, ctx, env), TermValue(lx, e.r, ctx, env);
    && l.Some? && r.Some?
    && match e
       case Equal(_, _) => l == r
       case Differ(_, _) => l != r
       case Ordered(op, _, _) => l.value.VNumber? && r.value.VNumber? && NumbersOrdered(op, l.value.r, r.value.r)
  }

  /** A body holds if some choice of its local names makes every expression true. */
  ghost predicate Holds(lx: Lexicon, body: Body, ctx: map<string, string>, env: map<nat, string>)
    decreases |body|
  {
    if body == [] then true
    else if body[0].SomeIn? then
      exists m :: m in Split(body[0].text) && Holds(lx, body[1..], ctx, env[body[0].name := m])
    else
      ExprHolds(lx, body[0], ctx, env) && Holds(lx, body[1..], ctx, env)
  }

  /** [f | some f in fields; input.ctx[f]; not comparable(input.ctx[f])] */
  ghost function Blocked(lx: Lexicon, fields: seq<string>, ctx: map<string, string>): seq<string> {
    if fields == [] then []
    else
      var first := if fields[0] in ctx && Coerce(lx, ctx[fields[0]]).None? then [fields[0]] else [];
      first + Blocked(lx, fields[1..], ctx)
  }

  ghost function Min(s: set<nat>): (m: nat)
    requires s != {}
    ensures m in s && forall i :: i in s ==> m <= i
  {
    var x :| x in s;
    if s == {x} then x
    else
      var y := Min(s - {x});
      assert forall i :: i in s ==> i == x || i in s - {x};
      if x < y then x else y
  }

  ghost function Uncomparable(lx: Lexicon, m: RegoModule, ctx: map<string, string>): map<nat, seq<string>> {
    map i | i in m.orderingFields && Blocked(lx, m.orderingFields[i], ctx) != [] ::
      Blocked(lx, m.orderingFields[i], ctx)
  }

  ghost function Considered(lx: Lexicon, m: RegoModule, ctx: map<string, string>): set<nat> {
    (set i | i in m.matches && Holds(lx, m.matches[i], ctx, map[])) + Uncomparable(lx, m, ctx).Keys
  }

  /** The values the two definitions of "decision" give. */
  ghost function DecisionValues(lx: Lexicon, m: RegoModule, ctx: map<string, string>): set<Decision> {
    var considered := Considered(lx, m, ctx);
    if considered == {} then {}
    else
      var i := Min(considered);
      var bad := Uncomparable(lx, m, ctx);
      if i !in m.decisions then {}
      else
        (if i in bad then {} else {m.decisions[i]}) +
        (if i in bad then {m.decisions[i].(allowed := false, consequential := true,
                                           reason := NotComparable(m.decisions[i].ruleFired, bad[i]))} else {})
  }

  /** data.kessa.policy.decision: the default applies when no definition yields a value. */
  ghost predicate Answers(lx: Lexicon, m: RegoModule, ctx: map<string, string>, d: Decision) {
    DecisionValues(lx, m, ctx) == {d} || (DecisionValues(lx, m, ctx) == {} && d == m.fallback)
  }

  // ---- the compiler -------------------------------------------------------

  function CompiledCondition(idx: nat, c: Condition): Option<Body> {
    match c.op
    case Eq => Some([Equal(Ref(c.field), Str(c.value))])
    case Ne => Some([Differ(Ref(c.field), Str(c.value))])
    case In => Some([SomeIn(idx, c.value), Differ(TrimSpace(Local(idx)), Str("")),
                     Equal(TrimSpace(Local(idx)), Ref(c.field))])
    case Unknown(_) => None
    case _ => Some([Ordered(c.op, ScalarCall(Ref(c.field)), ScalarCall(Str(c.value)))])
  }

  function CompiledFrom(cs: seq<Condition>, i: nat): Option<Body>
    requires i <= |cs|
    decreases |cs| - i
  {
    if i == |cs| then Some([])
    else
      match (CompiledCondition(i, cs[i]), CompiledFrom(cs, i + 1))
      case (Some(head), Some(rest)) => Some(head + rest)
      case _ => None
  }

  /** conditions: one line per condition, refusing the policy at the first unsupported operator. */
  method CompileConditions(cs: seq<Condition>) returns (r: Option<Body>)
    ensures r == CompiledFrom(cs, 0)
  {
    var lines: Body := [];
    for i := 0 to |cs|
      invariant CompiledFrom(cs, 0).Some? <==> CompiledFrom(cs, i).Some?
      invariant CompiledFrom(cs, i).Some? ==> CompiledFrom(cs, 0).value == lines + CompiledFrom(cs, i).value
    {
      var line := CompiledCondition(i, cs[i]);
      if line.None? {
        return None;
      }
      lines := lines + line.value;
    }
    assert lines + [] == lines;
    return Some(lines);
  }

  function OrderingFieldsOf(when: seq<Condition>): seq<string> {
    if when == [] then []
    else (if IsOrdering(when[0].op) then [when[0].field] else []) + OrderingFieldsOf(when[1..])
  }

  function OrderingTable(rules: seq<Rule>): map<nat, seq<string>> {
    map i: nat | 0 <= i < |rules| && OrderingFieldsOf(rules[i].when) != [] :: OrderingFieldsOf(rules[i].when)
  }

  /** orderingFields: rules that compare nothing are left out of the object. */
  method OrderingFields(rules: seq<Rule>) returns (table: map<nat, seq<string>>)
    ensures table == OrderingTable(rules)
  {
    table := map[];
    for i := 0 to |rules|
      invariant forall j: nat :: j in table <==> j < i && OrderingFieldsOf(rules[j].when) != []
      invariant forall j: nat :: j in table ==> table[j] == OrderingFieldsOf(rules[j].when)
    {
      var fields: seq<string> := [];
      var when := rules[i].when;
      for k := 0 to |when|
        invariant fields + OrderingFieldsOf(when[k..]) == OrderingFieldsOf(when)
      {
        assert when[k..][1..] == when[k + 1..];
        if IsOrdering(when[k].op) {
          fields := fields + [when[k].field];
        }
      }
      if fields != [] {
        table := table[i := fields];
      }
    }
  }

  predicate Supported(rules: seq<Rule>) {
    forall i | 0 <= i < |rules| :: CompiledFrom(rules[i].when, 0).Some?
  }

  function MatchTable(rules: seq<Rule>): map<nat, Body>
    requires Supported(rules)
  {
    map i: nat | 0 <= i < |rules| :: CompiledFrom(rules[i].when, 0).value
  }

  /** decisionLiteral: the object the module writes for a decision; no status check is ever in it. */
  function DecisionLiteral(allowed: bool, consequential: bool, rule: string, ver: string, reason: string): Decision {
    Decision(allowed, consequential, rule, ver, 0, Stated(reason))
  }

  function RuleLiteral(p: Policy, r: Rule): Decision {
    DecisionLiteral(!r.deny, r.consequential, r.name, p.ver, r.reason)
  }

  function DefaultLiteral(p: Policy): Decision {
    DecisionLiteral(p.dflt.allowed, p.dflt.consequential, "default", p.ver, p.dflt.reason)
  }

  function DecisionTable(p: Policy): map<nat, Decision> {
    map i: nat | 0 <= i < |p.rules| :: RuleLiteral(p, p.rules[i])
  }

  function Compiled(p: Policy): Option<RegoModule> {
    if Supported(p.rules) then
      Some(RegoModule(DefaultLiteral(p), OrderingTable(p.rules), MatchTable(p.rules), DecisionTable(p)))
    else None
  }

  method CompileMatches(rules: seq<Rule>) returns (r: Option<map<nat, Body>>)
    ensures r == if Supported(rules) then Some(MatchTable(rules)) else None
  {
    var matches: map<nat, Body> := map[];
    for i := 0 to |rules|
      invariant forall j :: 0 <= j < i ==> CompiledFrom(rules[j].when, 0).Some?
      invariant forall j: nat :: j in matches <==> j < i
      invariant forall j: nat :: j in matches ==> matches[j] == CompiledFrom(rules[j].when, 0).value
    {
      var conds := CompileConditions(rules[i].when);
      if conds.None? {
        return None;
      }
      matches := matches[i := conds.value];
    }
    assert matches == MatchTable(rules);
    return Some(matches);
  }

  method CompileDecisions(p: Policy) returns (decisions: map<nat, Decision>)
    ensures decisions == DecisionTable(p)
  {
    decisions := map[];
    for i := 0 to |p.rules|
      invariant forall j: nat :: j in decisions <==> j < i
      invariant forall j: nat :: j in decisions ==> decisions[j] == RuleLiteral(p, p.rules[j])
    {
      var r := p.rules[i];
      decisions := decisions[i := DecisionLiteral(!r.deny, r.consequential, r.name, p.ver, r.reason)];
    }
  }

  /** compileModule: the default, then, if there is any rule, the tables and one matches rule per index. */
  method CompileModule(p: Policy) returns (r: Option<RegoModule>)
    ensures r == Compiled(p)
  {
    if |p.rules| == 0 {
      assert OrderingTable(p.rules) == map[] && MatchTable(p.rules) == map[] && DecisionTable(p) == map[];
      return Some(RegoModule(DefaultLiteral(p), map[], map[], map[]));
    }
    var table := OrderingFields(p.rules);
    var matches := CompileMatches(p.rules);
    if matches.None? {
      return None;
    }
    var decisions := CompileDecisions(p);
    return Some(RegoModule(DefaultLiteral(p), table, matches.value, decisions));
  }

  // ---- meaning is preserved -----------------------------------------------

  ghost predicate NaNText(lx: Lexicon, s: string) {
    Parse(lx, s).Some? && IsNaN(Parse(lx, s).value)
  }

  /** No ordering comparison of the rule meets a NaN operand. */
  ghost predicate NaNFree(lx: Lexicon, when: seq<Condition>, ctx: map<string, string>) {
    forall c :: c in when && IsOrdering(c.op) ==>
      !NaNText(lx, c.value) && (c.field in ctx ==> !NaNText(lx, ctx[c.field]))
  }

  lemma OrderedAgrees(lx: Lexicon, op: Op, a: string, b: string)
    requires IsOrdering(op) && !NaNText(lx, a) && !NaNText(lx, b)
    ensures Coerce(lx, a).Some? <==> Parse(lx, a).Some?
    ensures Parse(lx, a).Some? && Parse(lx, b).Some? ==>
              NumbersOrdered(op, Coerce(lx, a).value, Coerce(lx, b).value) ==
                Satisfies(Parse(lx, a).value, op, Parse(lx, b).value)
  {
    if Parse(lx, a).Some? && Parse(lx, b).Some? {
      CompareExact(Parse(lx, a).value, Parse(lx, b).value);
    }
  }

  lemma PlainHolds(lx: Lexicon, e: Expr, rest: Body, ctx: map<string, string>, env: map<nat, string>)
    requires !e.SomeIn?
    ensures Holds(lx, [e] + rest, ctx, env) <==> ExprHolds(lx, e, ctx, env) && Holds(lx, rest, ctx, env)
  {
    assert ([e] + rest)[1..] == rest;
  }

  /** A membership condition followed by a rest whose truth does not depend on the local name it binds. */
  lemma MembershipHolds(
      lx: Lexicon, i: nat, c: Condition, rest: Body, ctx: map<string, string>, env: map<nat, string>, h: bool)
    requires c.op.In?
    requires forall m :: m in Split(c.value) ==> Holds(lx, rest, ctx, env[i := m]) == h
    ensures Holds(lx, CompiledCondition(i, c).value + rest, ctx, env) <==> ConditionAnswer(lx, c, ctx).holds && h
  {
    var differ, equal := Differ(TrimSpace(Local(i)), Str("")), Equal(TrimSpace(Local(i)), Ref(c.field));
    var body := CompiledCondition(i, c).value + rest;
    assert body[0] == SomeIn(i, c.value) && body[1..] == [differ] + ([equal] + rest);
    forall m | m in Split(c.value)
      ensures Holds(lx, body[1..], ctx, env[i := m]) <==>
              Trim(m) != "" && c.field in ctx && Trim(m) == ctx[c.field] && h
    {
      var bound := env[i := m];
      PlainHolds(lx, differ, [equal] + rest, ctx, bound);
      PlainHolds(lx, equal, rest, ctx, bound);
      assert TermValue(lx, Local(i), ctx, bound) == Some(VString(m));
      assert TermValue(lx, TrimSpace(Local(i)), ctx, bound) == Some(VString(Trim(m)));
    }
  }

  lemma ComparisonHolds(lx: Lexicon, i: nat, c: Condition, rest: Body, ctx: map<string, string>, env: map<nat, string>)
    requires !c.op.In? && ValidCondition(lx, c) && NaNFree(lx, [c], ctx)
    ensures Holds(lx, CompiledCondition(i, c).value + rest, ctx, env) <==>
            ConditionAnswer(lx, c, ctx).holds && Holds(lx, rest, ctx, env)
  {
    PlainHolds(lx, CompiledCondition(i, c).value[0], rest, ctx, env);
    assert c in [c];
    if IsOrdering(c.op) {
      assert TermValue(lx, Str(c.value), ctx, env) == Some(VString(c.value));
      OrderedAgrees(lx, c.op, c.value, c.value);
      if c.field in ctx {
        assert TermValue(lx, Ref(c.field), ctx, env) == Some(VString(ctx[c.field]));
        OrderedAgrees(lx, c.op, ctx[c.field], c.value);
      } else {
        assert TermValue(lx, Ref(c.field), ctx, env) == None;
      }
    }
  }

  /** A compiled body holds exactly when every condition does, whatever its local names already stand for. */
  lemma {:induction false} BodyHoldsIff(
      lx: Lexicon, cs: seq<Condition>, i: nat, ctx: map<string, string>, env: map<nat, string>)
    requires i <= |cs| && CompiledFrom(cs, i).Some?
    requires forall c :: c in cs ==> ValidCondition(lx, c)
    requires NaNFree(lx, cs, ctx)
    ensures Holds(lx, CompiledFrom(cs, i).value, ctx, env) <==>
            forall j :: i <= j < |cs| ==> ConditionAnswer(lx, cs[j], ctx).holds
    decreases |cs| - i
  {
    if i < |cs| {
      var c := cs[i];
      assert c in cs;
      var rest := CompiledFrom(cs, i + 1).value;
      assert CompiledFrom(cs, i).value == CompiledCondition(i, c).value + rest;
      BodyHoldsIff(lx, cs, i + 1, ctx, env);
      assert (forall j :: i <= j < |cs| ==> ConditionAnswer(lx, cs[j], ctx).holds) <==>
             ConditionAnswer(lx, c, ctx).holds && forall j :: i + 1 <= j < |cs| ==>
               ConditionAnswer(lx, cs[j], ctx).holds;
      if c.op.In? {
        forall m | m in Split(c.value) ensures Holds(lx, rest, ctx, env[i := m]) == Holds(lx, rest, ctx, env) {
          BodyHoldsIff(lx, cs, i + 1, ctx, env[i := m]);
        }
        MembershipHolds(lx, i, c, rest, ctx, env, Holds(lx, rest, ctx, env));
      } else {
        ComparisonHolds(lx, i, c, rest, ctx, env);
      }
    }
  }

  lemma {:induction false} ValidCompiles(lx: Lexicon, cs: seq<Condition>, i: nat)
    requires i <= |cs| && forall c :: c in cs ==> ValidCondition(lx, c)
    ensures CompiledFrom(cs, i).Some?
    decreases |cs| - i
  {
    if i < |cs| {
      assert cs[i] in cs;
      ValidCompiles(lx, cs, i + 1);
    }
  }

  /** A condition is indeterminate exactly when it orders a field that is present and not comparable. */
  lemma OneBlocked(lx: Lexicon, c: Condition, ctx: map<string, string>)
    requires ValidCondition(lx, c) && NaNFree(lx, [c], ctx)
    ensures ConditionAnswer(lx, c, ctx).indeterminate <==>
            IsOrdering(c.op) && c.field in ctx && Coerce(lx, ctx[c.field]).None?
  {
    assert c in [c];
    if IsOrdering(c.op) && c.field in ctx {
      OrderedAgrees(lx, c.op, ctx[c.field], c.value);
    }
  }

  lemma {:induction false} BlockedIsBad(lx: Lexicon, when: seq<Condition>, ctx: map<string, string>)
    requires forall c :: c in when ==> ValidCondition(lx, c)
    requires NaNFree(lx, when, ctx)
    ensures Blocked(lx, OrderingFieldsOf(when), ctx) == BadFields(lx, when, ctx)
  {
    if when != [] {
      var c := when[0];
      assert c in when;
      OneBlocked(lx, c, ctx);
      BlockedIsBad(lx, when[1..], ctx);
      if IsOrdering(c.op) {
        assert OrderingFieldsOf(when)[1..] == OrderingFieldsOf(when[1..]);
      } else {
        assert OrderingFieldsOf(when) == OrderingFieldsOf(when[1..]);
      }
    }
  }

  /** One rule blocks the module exactly when it is indeterminate, and on the same fields. */
  lemma BlockedIffIndeterminate(lx: Lexicon, p: Policy, ctx: map<string, string>, i: nat)
    requires Valid(lx, p, true) && i < |p.rules| && NaNFree(lx, p.rules[i].when, ctx)
    requires Compiled(p).Some?
    ensures var bad, r := Uncomparable(lx, Compiled(p).value, ctx), p.rules[i];
            && (i in bad <==> RuleAnswer(lx, r, ctx).indeterminate)
            && (i in bad ==> bad[i] == BadFields(lx, r.when, ctx))
  {
    var when, m := p.rules[i].when, Compiled(p).value;
    BlockedIsBad(lx, when, ctx);
    BadFieldsIff(lx, when, ctx);
    assert m.orderingFields == OrderingTable(p.rules);
    if OrderingFieldsOf(when) == [] {
      assert Blocked(lx, [], ctx) == [];
    }
  }

  /** One rule is considered exactly when it speaks. */
  lemma ConsideredIffSpeaks(lx: Lexicon, p: Policy, ctx: map<string, string>, i: nat)
    requires Valid(lx, p, true) && i < |p.rules| && NaNFree(lx, p.rules[i].when, ctx)
    requires Compiled(p).Some?
    ensures i in Considered(lx, Compiled(p).value, ctx) <==> Speaks(lx, p.rules[i], ctx)
  {
    var when, m := p.rules[i].when, Compiled(p).value;
    BlockedIffIndeterminate(lx, p, ctx, i);
    assert i in m.matches && m.matches[i] == CompiledFrom(when, 0).value;
    BodyHoldsIff(lx, when, 0, ctx, map[]);
    assert Holds(lx, m.matches[i], ctx, map[]) <==> forall c :: c in when ==> ConditionAnswer(lx, c, ctx).holds;
  }

  /** The definitions of "decision" give one value: the answer of the least index considered. */
  lemma DecisionAt(lx: Lexicon, p: Policy, ctx: map<string, string>, i: nat)
    requires Valid(lx, p, true) && i < |p.rules| && NaNFree(lx, p.rules[i].when, ctx)
    requires Compiled(p).Some?
    requires Considered(lx, Compiled(p).value, ctx) != {} && i == Min(Considered(lx, Compiled(p).value, ctx))
    ensures DecisionValues(lx, Compiled(p).value, ctx) ==
            {if RuleAnswer(lx, p.rules[i], ctx).indeterminate
             then UncomparableDecision(p, p.rules[i], BadFields(lx, p.rules[i].when, ctx))
             else RuleDecision(p, p.rules[i])}
  {
    var m := Compiled(p).value;
    TableHolds(p, i);
    LeastDecides(lx, m, ctx, i);
    BlockedIffIndeterminate(lx, p, ctx, i);
  }

  lemma TableHolds(p: Policy, i: nat)
    requires i < |p.rules| && Compiled(p).Some?
    ensures i in Compiled(p).value.decisions && Compiled(p).value.decisions[i] == RuleDecision(p, p.rules[i])
  {
  }

  /** A module answers with its least considered index's decision, or its uncomparable form. */
  lemma LeastDecides(lx: Lexicon, m: RegoModule, ctx: map<string, string>, i: nat)
    requires Considered(lx, m, ctx) != {} && i == Min(Considered(lx, m, ctx)) && i in m.decisions
    ensures var bad, d := Uncomparable(lx, m, ctx), m.decisions[i];
            DecisionValues(lx, m, ctx) ==
            {if i in bad
             then d.(allowed := false, consequential := true, reason := NotComparable(d.ruleFired, bad[i]))
             else d}
  {
  }

  /**
   For every validated policy and action, the module's one decision is the classifier's, reason and field
   order included.
   */
  lemma TranslationPreservesMeaning(lx: Lexicon, p: Policy, a: Action)
    requires Valid(lx, p, true)
    requires forall i :: 0 <= i < |p.rules| ==> NaNFree(lx, p.rules[i].when, Context(a))
    ensures Compiled(p).Some?
    ensures forall d :: Answers(lx, Compiled(p).value, Context(a), d) <==> d == Evaluation(lx, p, a)
  {
    var ctx := Context(a);
    forall i | 0 <= i < |p.rules| ensures CompiledFrom(p.rules[i].when, 0).Some? {
      ValidCompiles(lx, p.rules[i].when, 0);
    }
    var m := Compiled(p).value;
    var considered := Considered(lx, m, ctx);
    forall i: nat | i < |p.rules| ensures i in considered <==> Speaks(lx, p.rules[i], ctx) {
      ConsideredIffSpeaks(lx, p, ctx, i);
    }
    if considered == {} {
      FirstToSpeakDecides(lx, p, ctx, |p.rules|);
    } else {
      var i := Min(considered);
      assert i < |p.rules|;
      forall j | 0 <= j < i ensures !Speaks(lx, p.rules[j], ctx) {
        assert j !in considered;
      }
      FirstToSpeakDecides(lx, p, ctx, i);
      DecisionAt(lx, p, ctx, i);
    }
    SingletonAnswers(lx, m, ctx, Evaluation(lx, p, a));
  }

  /** What the module answers, case by case, where rule i is the first to speak or none does. */
  lemma ModuleMeans(lx: Lexicon, p: Policy, a: Action, i: nat, d: Decision)
    requires Valid(lx, p, true)
    requires forall j :: 0 <= j < |p.rules| ==> NaNFree(lx, p.rules[j].when, Context(a))
    requires i <= |p.rules| && forall j :: 0 <= j < i ==> !Speaks(lx, p.rules[j], Context(a))
    requires Compiled(p).Some? ==> Answers(lx, Compiled(p).value, Context(a), d)
    ensures d.policyVersion == p.ver
    ensures i < |p.rules| && RuleAnswer(lx, p.rules[i], Context(a)).holds ==>
              && d.allowed == !p.rules[i].deny && d.consequential == p.rules[i].consequential
              && d.ruleFired == p.rules[i].name && d.reason == Stated(p.rules[i].reason)
    ensures i < |p.rules| && RuleAnswer(lx, p.rules[i], Context(a)).indeterminate ==>
              && !d.allowed && d.consequential && d.ruleFired == p.rules[i].name
              && d.reason == NotComparable(p.rules[i].name, BadFields(lx, p.rules[i].when, Context(a)))
    ensures i == |p.rules| ==>
              && d.allowed == p.dflt.allowed && d.consequential == p.dflt.consequential
              && d.ruleFired == "default" && d.reason == Stated(p.dflt.reason)
  {
    TranslationPreservesMeaning(lx, p, a);
    EvaluationMeans(lx, p, a, i);
  }

  lemma SingletonAnswers(lx: Lexicon, m: RegoModule, ctx: map<string, string>, e: Decision)
    requires Answers(lx, m, ctx, e)
    ensures forall d :: Answers(lx, m, ctx, d) <==> d == e
  {
    forall d | Answers(lx, m, ctx, d) ensures d == e {
      if DecisionValues(lx, m, ctx) != {} {
        assert d in DecisionValues(lx, m, ctx);
      }
    }
  }
}
