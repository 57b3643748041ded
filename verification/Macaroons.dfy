/** Attenuation-first bearer credentials: caveats, the narrowing lattice and the HMAC chain. */
module Macaroons {
  import opened Util
  import opened Text
  import opened Scalar

  datatype Caveat = Caveat(field: string, op: Op, value: string)

  /** A byte string: given, or the HMAC of a message under a byte string used as key. */
  datatype Tag = Raw(bytes: seq<uint8>) | Hmac(key: Tag, msg: string)

  datatype Macaroon = Macaroon(location: string, identifier: string, caveats: seq<Caveat>, signature: Tag)

  type Ctx = map<string, string>

  function OpText(op: Op): string {
    match op
    case Eq => "=="
    case Ne => "!="
    case Le => "<="
    case Lt => "<"
    case Ge => ">="
    case Gt => ">"
    case In => "in"
    case Unknown(spelling) => spelling
  }

  const UNIT_SEPARATOR: char := '\U{1F}'

  /** The bytes of a caveat that enter the HMAC chain. */
  function Canonical(c: Caveat): string {
    c.field + [UNIT_SEPARATOR] + (OpText(c.op) + [UNIT_SEPARATOR] + c.value)
  }

  /** Caveat.validate. */
  predicate WellFormed(lx: Lexicon, c: Caveat) {
    && Trim(c.field) != ""
    && match c.op
       case Eq => c.value != ""
       case Ne => c.value != ""
       case In => c.value != ""
       case Unknown(_) => false
       case _ => Parse(lx, c.value).Some?
  }

  // ---- satisfaction -------------------------------------------------------

  /** Caveat.satisfied: a missing field fails closed. */
  predicate Satisfied(lx: Lexicon, c: Caveat, ctx: Ctx) {
    && c.field in ctx
    && var got := ctx[c.field];
       match c.op
       case Eq => got == c.value
       case Ne => got != c.value
       case In => got in Members(c.value)
       case Unknown(_) => false
       case _ =>
         var g, v := Parse(lx, got), Parse(lx, c.value);
         g.Some? && v.Some? && Satisfies(g.value, c.op, v.value)
  }

  predicate AllSatisfied(lx: Lexicon, caveats: seq<Caveat>, ctx: Ctx) {
    forall c :: c in caveats ==> Satisfied(lx, c, ctx)
  }

  /** macaroon.Satisfies: every caveat, in order, stopping at the first that fails. */
  method CheckSatisfies(lx: Lexicon, m: Macaroon, ctx: Ctx) returns (ok: bool)
    ensures ok == AllSatisfied(lx, m.caveats, ctx)
  {
    for i := 0 to |m.caveats|
      invariant forall j :: 0 <= j < i ==> Satisfied(lx, m.caveats[j], ctx)
    {
      if !Satisfied(lx, m.caveats[i], ctx) {
        return false;
      }
    }
    return true;
  }

  // ---- the narrowing lattice ----------------------------------------------

  /** The answer narrows gives; Incomparable is its error result. */
  datatype Narrowing = Narrower | NotNarrower | Incomparable

  function Proved(b: bool): Narrowing {
    if b then Narrower else NotNarrower
  }

  predicate IsUpper(op: Op) {
    op.Le? || op.Lt?
  }

  /** Containment of one bound in another of the same direction. */
  predicate BoundSubset(childOp: Op, childVal: Value, parentOp: Op, parentVal: Value, upper: bool) {
    var (cmp, ordered) := Compare(childVal, parentVal);
    var childInclusive := childOp.Le? || childOp.Ge?;
    var parentInclusive := parentOp.Le? || parentOp.Ge?;
    && ordered
    && if cmp == 0 then !childInclusive || parentInclusive
       else if upper then cmp < 0
       else cmp > 0
  }

  function NarrowsBound(lx: Lexicon, parent: Caveat, child: Caveat): Narrowing {
    var pv := Parse(lx, parent.value);
    if pv.None? then Incomparable
    else if IsOrdering(child.op) then
      var cv := Parse(lx, child.value);
      if cv.None? then Incomparable
      else if IsUpper(parent.op) != IsUpper(child.op) then NotNarrower
      else Proved(BoundSubset(child.op, cv.value, parent.op, pv.value, IsUpper(parent.op)))
    else if child.op.Eq? then
      var cv := Parse(lx, child.value);
      Proved(cv.Some? && Satisfies(cv.value, parent.op, pv.value))
    else if child.op.In? then
      Proved(forall m | m in Members(child.value) ::
               Parse(lx, m).Some? && Satisfies(Parse(lx, m).value, parent.op, pv.value))
    else NotNarrower
  }

  function NarrowsSet(parent: Caveat, child: Caveat): Narrowing {
    match child.op
    case Eq => Proved(child.value in Members(parent.value))
    case In => Proved(forall m | m in Members(child.value) :: m in Members(parent.value))
    case _ => NotNarrower
  }

  function Narrows(lx: Lexicon, parent: Caveat, child: Caveat): Narrowing {
    match parent.op
    case Eq => Proved(child.op.Eq? && child.value == parent.value)
    case Ne => Proved(child.op.Ne? && child.value == parent.value)
    case In => NarrowsSet(parent, child)
    case Unknown(_) => Incomparable
    case _ => NarrowsBound(lx, parent, child)
  }

  /** narrows with its loops: the set is built member by member, and the scan stops at the first stranger. */
  method CheckNarrows(lx: Lexicon, parent: Caveat, child: Caveat) returns (r: Narrowing)
    ensures r == Narrows(lx, parent, child)
  {
    if IsOrdering(parent.op) {
      r := CheckNarrowsBound(lx, parent, child);
    } else if parent.op.In? {
      r := CheckNarrowsSet(lx, parent, child);
    } else if parent.op.Eq? {
      r := Proved(child.op.Eq? && child.value == parent.value);
    } else if parent.op.Ne? {
      r := Proved(child.op.Ne? && child.value == parent.value);
    } else {
      r := Incomparable;
    }
  }

  method CheckNarrowsBound(lx: Lexicon, parent: Caveat, child: Caveat) returns (r: Narrowing)
    requires IsOrdering(parent.op)
    ensures r == Narrows(lx, parent, child)
  {
    var pv := Parse(lx, parent.value);
    if pv.None? {
      return Incomparable;
    }
    if IsOrdering(child.op) {
      var cv := Parse(lx, child.value);
      if cv.None? {
        return Incomparable;
      }
      if IsUpper(parent.op) != IsUpper(child.op) {
        return NotNarrower;
      }
      return Proved(BoundSubset(child.op, cv.value, parent.op, pv.value, IsUpper(parent.op)));
    } else if child.op.Eq? {
      var cv := Parse(lx, child.value);
      return Proved(cv.Some? && Satisfies(cv.value, parent.op, pv.value));
    } else if child.op.In? {
      var members := SplitSet(child.value);
      for i := 0 to |members|
        invariant forall j :: 0 <= j < i ==>
          Parse(lx, members[j]).Some? && Satisfies(Parse(lx, members[j]).value, parent.op, pv.value)
      {
        var cv := Parse(lx, members[i]);
        if cv.None? || !Satisfies(cv.value, parent.op, pv.value) {
          assert members[i] in Members(child.value);
          return NotNarrower;
        }
      }
      return Narrower;
    }
    return NotNarrower;
  }

  method CheckNarrowsSet(lx: Lexicon, parent: Caveat, child: Caveat) returns (r: Narrowing)
    requires parent.op.In?
    ensures r == Narrows(lx, parent, child)
  {
    var allowed: set<string> := {};
    var members := SplitSet(parent.value);
    for i := 0 to |members|
      invariant allowed == set j | 0 <= j < i :: members[j]
    {
      allowed := allowed + {members[i]};
    }
    assert forall m :: m in allowed <==> m in Members(parent.value);
    if child.op.Eq? {
      return Proved(child.value in allowed);
    } else if child.op.In? {
      var wanted := SplitSet(child.value);
      for i := 0 to |wanted|
        invariant forall j :: 0 <= j < i ==> wanted[j] in allowed
      {
        if wanted[i] !in allowed {
          assert wanted[i] in Members(child.value);
          return NotNarrower;
        }
      }
      return Narrower;
    }
    return NotNarrower;
  }

  lemma BoundSubsetSound(childOp: Op, cv: Value, parentOp: Op, pv: Value, g: Value)
    requires IsOrdering(childOp) && IsOrdering(parentOp) && IsUpper(childOp) == IsUpper(parentOp)
    requires BoundSubset(childOp, cv, parentOp, pv, IsUpper(parentOp))
    requires Satisfies(g, childOp, cv)
    ensures Satisfies(g, parentOp, pv)
  {
    CompareExact(cv, pv);
    CompareExact(g, cv);
    CompareIsOrder(g, cv, pv);
    CompareIsOrder(pv, cv, g);
    CompareExact(g, pv);
    CompareExact(pv, g);
    CompareExact(pv, cv);
    CompareExact(cv, g);
  }

  /** What narrows proves is containment: whatever meets the child caveat meets the parent. */
  lemma NarrowsSound(lx: Lexicon, parent: Caveat, child: Caveat, ctx: Ctx)
    requires parent.field == child.field
    requires Narrows(lx, parent, child) == Narrower
    requires Satisfied(lx, child, ctx)
    ensures Satisfied(lx, parent, ctx)
  {
    if IsOrdering(parent.op) && IsOrdering(child.op) {
      var g := Parse(lx, ctx[child.field]).value;
      BoundSubsetSound(child.op, Parse(lx, child.value).value, parent.op, Parse(lx, parent.value).value, g);
    }
  }

  /** An ordering bound written as NaN: it validates, and it orders against nothing. */
  ghost predicate NaNBound(lx: Lexicon, c: Caveat) {
    IsOrdering(c.op) && Parse(lx, c.value).Some? && IsNaN(Parse(lx, c.value).value)
  }

  /** A well-formed caveat narrows itself exactly when it is not a NaN bound. */
  lemma NarrowsItselfIff(lx: Lexicon, c: Caveat)
    requires WellFormed(lx, c)
    ensures Narrows(lx, c, c) == Narrower <==> !NaNBound(lx, c)
  {
    if IsOrdering(c.op) {
      var v := Parse(lx, c.value).value;
      CompareExact(v, v);
    }
  }

  // ---- what a caveat means, and narrowing against it ----------------------

  /** When a caveat is satisfied, operator by operator. An absent field and an unknown operator never are. */
  lemma SatisfiedMeans(lx: Lexicon, c: Caveat, ctx: Ctx)
    ensures Satisfied(lx, c, ctx) <==>
            && c.field in ctx
            && match c.op
               case Eq => ctx[c.field] == c.value
               case Ne => ctx[c.field] != c.value
               case In => ctx[c.field] != "" && exists p :: p in Split(c.value) && Trim(p) == ctx[c.field]
               case Unknown(_) => false
               case _ =>
                 && Parse(lx, ctx[c.field]).Some? && Parse(lx, c.value).Some?
                 && Satisfies(Parse(lx, ctx[c.field]).value, c.op, Parse(lx, c.value).value)
  {
    if c.field in ctx && c.op.In? {
      MemberIff(c.value, ctx[c.field]);
    }
  }

  /** Two instants in the window: an ordering caveat on them, expiry included, is the order of the instants. */
  lemma InstantsOrder(lx: Lexicon, field: string, op: Op, bound: string, got: string)
    requires IsOrdering(op) && lx.rfc3339(bound).Some? && lx.rfc3339(got).Some?
    requires -0x8000_0000_0000_0000 <= lx.rfc3339(bound).value <= 0x7FFF_FFFF_FFFF_FFFF
    requires -0x8000_0000_0000_0000 <= lx.rfc3339(got).value <= 0x7FFF_FFFF_FFFF_FFFF
    ensures var t, b := lx.rfc3339(got).value, lx.rfc3339(bound).value;
            Satisfied(lx, Caveat(field, op, bound), map[field := got]) <==>
            match op
            case Le => t <= b
            case Lt => t < b
            case Ge => t >= b
            case _ => t > b
  {
    ParseMeans(lx, bound);
    ParseMeans(lx, got);
    SatisfiesMeans(Parse(lx, got).value, op, Parse(lx, bound).value);
    var t, b := lx.rfc3339(got).value, lx.rfc3339(bound).value;
    if t < b {
      IntegersApart(t, b);
    } else if b < t {
      IntegersApart(b, t);
    }
  }

  /** Whatever value meets the child bound meets the parent bound. */
  ghost predicate BoundContained(childOp: Op, cv: Value, parentOp: Op, pv: Value) {
    forall g :: Satisfies(g, childOp, cv) ==> Satisfies(g, parentOp, pv)
  }

  /** Between any two different numbers lies a third. */
  lemma Between(a: Float, b: Float) returns (r: real)
    requires FloatLess(a, b)
    ensures FloatLess(a, Finite(r)) && FloatLess(Finite(r), b)
  {
    match (a, b) {
      case (Finite(x), Finite(y)) => r := (x + y) / 2.0;
      case (NegInf, Finite(y)) => r := y - 1.0;
      case (Finite(x), PosInf) => r := x + 1.0;
      case _ => r := 0.0;
    }
  }

  /** A bound that is not accepted as a subset admits a value the parent refuses. */
  lemma BoundEscapes(childOp: Op, cv: Value, parentOp: Op, pv: Value) returns (g: Value)
    requires IsOrdering(childOp) && IsOrdering(parentOp) && IsUpper(childOp) == IsUpper(parentOp)
    requires !IsNaN(cv) && !IsNaN(pv) && !BoundSubset(childOp, cv, parentOp, pv, IsUpper(parentOp))
    ensures Satisfies(g, childOp, cv) && !Satisfies(g, parentOp, pv)
  {
    CompareExact(cv, pv);
    g := cv;
    if childOp.Lt? && FloatLess(Denote(pv), Denote(cv)) {
      var r := Between(Denote(pv), Denote(cv));
      g := Number(Finite(r));
    } else if childOp.Gt? && FloatLess(Denote(cv), Denote(pv)) {
      var r := Between(Denote(cv), Denote(pv));
      g := Number(Finite(r));
    }
    SatisfiesMeans(g, childOp, cv);
    SatisfiesMeans(g, parentOp, pv);
    FloatLessAsymmetric(Denote(g), Denote(pv));
    FloatLessAsymmetric(Denote(cv), Denote(pv));
  }

  /** For two bounds of one direction, neither NaN, the subset check is containment: both ways. */
  lemma BoundSubsetExact(childOp: Op, cv: Value, parentOp: Op, pv: Value)
    requires IsOrdering(childOp) && IsOrdering(parentOp) && IsUpper(childOp) == IsUpper(parentOp)
    requires !IsNaN(cv) && !IsNaN(pv)
    ensures BoundSubset(childOp, cv, parentOp, pv, IsUpper(parentOp)) <==> BoundContained(childOp, cv, parentOp, pv)
  {
    if BoundSubset(childOp, cv, parentOp, pv, IsUpper(parentOp)) {
      forall g | Satisfies(g, childOp, cv) ensures Satisfies(g, parentOp, pv) {
        BoundSubsetSound(childOp, cv, parentOp, pv, g);
      }
    } else {
      var g := BoundEscapes(childOp, cv, parentOp, pv);
    }
  }

  /**
   A bound narrows a bound exactly when both point one way, neither is NaN, and the child's values are the
   parent's.
   */
  lemma BoundsNarrowIff(lx: Lexicon, parent: Caveat, child: Caveat)
    requires WellFormed(lx, parent) && WellFormed(lx, child) && IsOrdering(parent.op) && IsOrdering(child.op)
    ensures Narrows(lx, parent, child) == Narrower <==>
            && IsUpper(parent.op) == IsUpper(child.op) && !NaNBound(lx, parent) && !NaNBound(lx, child)
            && BoundContained(child.op, Parse(lx, child.value).value, parent.op, Parse(lx, parent.value).value)
  {
    var cv, pv := Parse(lx, child.value).value, Parse(lx, parent.value).value;
    if IsNaN(cv) || IsNaN(pv) {
      CompareExact(cv, pv);
    } else if IsUpper(parent.op) == IsUpper(child.op) {
      BoundSubsetExact(child.op, cv, parent.op, pv);
    }
  }

  /** The other pairs of operators that narrows looks into. */
  predicate Decided(parent: Op, child: Op) {
    || (parent.Eq? && child.Eq?) || (parent.Ne? && child.Ne?)
    || ((parent.In? || IsOrdering(parent)) && (child.Eq? || child.In?))
  }

  /** For those, narrowing is containment: both ways. */
  lemma NarrowsIffContained(lx: Lexicon, parent: Caveat, child: Caveat)
    requires WellFormed(lx, parent) && parent.field == child.field && Decided(parent.op, child.op)
    ensures Narrows(lx, parent, child) == Narrower <==> Contained(lx, child, parent)
  {
    if Narrows(lx, parent, child) == Narrower {
      forall v | SatisfiedBy(lx, child, v) ensures SatisfiedBy(lx, parent, v) {
        NarrowsSound(lx, parent, child, map[child.field := v]);
      }
    }
    if Contained(lx, child, parent) {
      if child.op.Eq? {
        assert SatisfiedBy(lx, child, child.value);
      } else if child.op.Ne? {
        assert !SatisfiedBy(lx, parent, parent.value);
      } else {
        forall m | m in Members(child.value) ensures SatisfiedBy(lx, parent, m) {
          assert SatisfiedBy(lx, child, m);
        }
      }
    }
  }

  /** Every other pair is refused, contained or not: narrows fails closed. */
  lemma UndecidedRefused(lx: Lexicon, parent: Caveat, child: Caveat)
    requires !Decided(parent.op, child.op) && !(IsOrdering(parent.op) && IsOrdering(child.op))
    ensures Narrows(lx, parent, child) != Narrower
  {
  }

  /** A contained caveat that is refused: a set of one member under equality with that member. */
  lemma ContainedButRefused(lx: Lexicon) returns (parent: Caveat, child: Caveat)
    ensures WellFormed(lx, parent) && WellFormed(lx, child) && parent.field == child.field
    ensures Contained(lx, child, parent) && Narrows(lx, parent, child) != Narrower
  {
    parent, child := Caveat("region", Eq, "eu"), Caveat("region", In, "eu");
    assert Trim("region") == "region" && Trim("eu") == "eu";
    SplitIsOnly(["eu"]);
    forall v | SatisfiedBy(lx, child, v) ensures v == "eu" {
      MemberIff("eu", v);
    }
  }

  // ---- construction and delegation ----------------------------------------

  function Mint(rootKey: Tag, identifier: string, location: string): Macaroon {
    Macaroon(location, identifier, [], Hmac(rootKey, identifier))
  }

  /** A well-formed caveat that narrows every caveat already on its field. */
  predicate Admits(lx: Lexicon, existing: seq<Caveat>, c: Caveat) {
    && WellFormed(lx, c)
    && forall i :: 0 <= i < |existing| && existing[i].field == c.field ==> Narrows(lx, existing[i], c) == Narrower
  }

  function Attenuated(lx: Lexicon, m: Macaroon, c: Caveat): Option<Macaroon> {
    if Admits(lx, m.caveats, c) then
      Some(Macaroon(m.location, m.identifier, m.caveats + [c], Hmac(m.signature, Canonical(c))))
    else None
  }

  /** The check Attenuate and Extends share: well-formed, and narrower than every existing caveat on its field. */
  method CheckAdmits(lx: Lexicon, existing: seq<Caveat>, c: Caveat) returns (ok: bool)
    ensures ok == Admits(lx, existing, c)
  {
    if !WellFormed(lx, c) {
      return false;
    }
    for i := 0 to |existing|
      invariant forall j :: 0 <= j < i && existing[j].field == c.field ==> Narrows(lx, existing[j], c) == Narrower
    {
      if existing[i].field == c.field {
        var n := CheckNarrows(lx, existing[i], c);
        if n != Narrower {
          return false;
        }
      }
    }
    return true;
  }

  /** Attenuate: a new macaroon with one more caveat, allowing exactly what both the old one and the caveat allow. */
  method Attenuate(lx: Lexicon, m: Macaroon, c: Caveat) returns (r: Option<Macaroon>)
    ensures r == Attenuated(lx, m, c)
    ensures r.Some? ==> forall ctx :: AllSatisfied(lx, r.value.caveats, ctx) <==>
                                      AllSatisfied(lx, m.caveats, ctx) && Satisfied(lx, c, ctx)
  {
    var ok := CheckAdmits(lx, m.caveats, c);
    if !ok {
      return None;
    }
    return Some(Macaroon(m.location, m.identifier, m.caveats + [c], Hmac(m.signature, Canonical(c))));
  }

  /** The first caveat of a macaroon is refused exactly for what validation names. */
  lemma FirstCaveatRefusedIff(lx: Lexicon, rootKey: Tag, identifier: string, location: string, c: Caveat)
    ensures Attenuated(lx, Mint(rootKey, identifier, location), c).None? <==>
            || Trim(c.field) == "" || c.op.Unknown?
            || ((c.op == Eq || c.op == Ne || c.op == In) && c.value == "")
            || (IsOrdering(c.op) && Parse(lx, c.value).None?)
  {
  }

  /** So a caveat may be repeated exactly when it was acceptable in the first place and is not a NaN bound. */
  lemma RepeatAdmittedIff(lx: Lexicon, existing: seq<Caveat>, c: Caveat)
    ensures Admits(lx, existing + [c], c) <==> Admits(lx, existing, c) && !NaNBound(lx, c)
  {
    var all := existing + [c];
    if WellFormed(lx, c) {
      NarrowsItselfIff(lx, c);
    }
    assert all[|existing|] == c;
    assert forall i :: 0 <= i < |existing| ==> all[i] == existing[i];
  }

  /** An equal caveat that is accepted, so narrowing is not strict. */
  lemma EqualCaveatAccepted(lx: Lexicon) returns (m: Macaroon, c: Caveat)
    ensures c in m.caveats && Attenuated(lx, m, c).Some?
  {
    c := Caveat("region", Eq, "eu");
    assert Trim("region") == "region";
    m := Macaroon("", "id", [c], Raw([]));
  }

  /** An equal caveat that is refused: a NaN bound is well-formed and can be added once, never twice. */
  lemma NaNCaveatRefusedTwice() returns (lx: Lexicon, c: Caveat)
    ensures WellFormed(lx, c) && Admits(lx, [], c) && !Admits(lx, [c], c)
  {
    lx := Lexicon(s => None, s => if s == "NaN" then Some(NaN) else None);
    c := Caveat("region", Le, "NaN");
    assert Trim("region") == "region";
    RepeatAdmittedIff(lx, [], c);
    assert [] + [c] == [c];
  }

  /** Successive attenuations; none unless every one is accepted. */
  function AttenuateAll(lx: Lexicon, m: Macaroon, cs: seq<Caveat>): Option<Macaroon>
    decreases |cs|
  {
    if cs == [] then Some(m)
    else
      match Attenuated(lx, m, cs[0])
      case None => None
      case Some(next) => AttenuateAll(lx, next, cs[1..])
  }

  /** Every caveat of `added` is admitted by what stands before it. */
  ghost predicate AdmittedInTurn(lx: Lexicon, base: seq<Caveat>, added: seq<Caveat>) {
    forall j :: 0 <= j < |added| ==> Admits(lx, base + added[..j], added[j])
  }

  /** Admission of a list, one caveat at a time. */
  lemma AdmittedCons(lx: Lexicon, base: seq<Caveat>, cs: seq<Caveat>)
    requires cs != []
    ensures AdmittedInTurn(lx, base, cs) <==> Admits(lx, base, cs[0]) && AdmittedInTurn(lx, base + [cs[0]], cs[1..])
  {
    var next, rest := base + [cs[0]], cs[1..];
    assert base + cs[..0] == base;
    forall j | 0 <= j < |rest| ensures next + rest[..j] == base + cs[..j + 1] && rest[j] == cs[j + 1] {
    }
    if AdmittedInTurn(lx, base, cs) {
      forall j | 0 <= j < |rest| ensures Admits(lx, next + rest[..j], rest[j]) {
        assert Admits(lx, base + cs[..j + 1], cs[j + 1]);
      }
    }
    if Admits(lx, base, cs[0]) && AdmittedInTurn(lx, next, rest) {
      forall j | 0 <= j < |cs| ensures Admits(lx, base + cs[..j], cs[j]) {
        if j > 0 {
          assert Admits(lx, next + rest[..j - 1], rest[j - 1]);
        }
      }
    }
  }

  lemma {:induction false} AttenuateAllIff(lx: Lexicon, m: Macaroon, cs: seq<Caveat>)
    ensures AttenuateAll(lx, m, cs).Some? <==> AdmittedInTurn(lx, m.caveats, cs)
    ensures AttenuateAll(lx, m, cs).Some? ==>
              var r := AttenuateAll(lx, m, cs).value;
              && r.caveats == m.caveats + cs && r.identifier == m.identifier && r.location == m.location
              && r.signature == Recompute(m.signature, cs)
    decreases |cs|
  {
    if cs == [] {
      assert m.caveats + cs == m.caveats;
    } else {
      AdmittedCons(lx, m.caveats, cs);
      if Admits(lx, m.caveats, cs[0]) {
        var next := Attenuated(lx, m, cs[0]).value;
        AttenuateAllIff(lx, next, cs[1..]);
        assert next.caveats + cs[1..] == m.caveats + cs;
      }
    }
  }

  /** The structural, key-free subset check a chain makes of each hop against its parent. */
  ghost predicate ExtendsParent(lx: Lexicon, m: Macaroon, parent: Macaroon) {
    && m.identifier == parent.identifier
    && |parent.caveats| <= |m.caveats|
    && m.caveats[..|parent.caveats|] == parent.caveats
    && AdmittedInTurn(lx, parent.caveats, m.caveats[|parent.caveats|..])
  }

  /** Macaroon.Extends: prefix comparison, then each added caveat against the accumulated list. */
  method Extends(lx: Lexicon, m: Macaroon, parent: Macaroon) returns (ok: bool)
    ensures ok == ExtendsParent(lx, m, parent)
  {
    if m.identifier != parent.identifier || |m.caveats| < |parent.caveats| {
      return false;
    }
    var n := |parent.caveats|;
    for i := 0 to n
      invariant forall j :: 0 <= j < i ==> m.caveats[j] == parent.caveats[j]
    {
      if m.caveats[i] != parent.caveats[i] {
        assert m.caveats[..n][i] != parent.caveats[i];
        return false;
      }
    }
    assert m.caveats[..n] == parent.caveats;
    ghost var added := m.caveats[n..];
    var acc := parent.caveats;
    for k := n to |m.caveats|
      invariant acc == parent.caveats + added[..k - n]
      invariant forall j :: 0 <= j < k - n ==> Admits(lx, parent.caveats + added[..j], added[j])
    {
      var c := m.caveats[k];
      assert c == added[k - n];
      var admitted := CheckAdmits(lx, acc, c);
      if !admitted {
        assert !Admits(lx, parent.caveats + added[..k - n], added[k - n]);
        return false;
      }
      acc := acc + [c];
      assert added[..k - n] + [c] == added[..k - n + 1];
    }
    return true;
  }

  /** Extends decides exactly the macaroons reachable from the parent by successful attenuations. */
  lemma ExtendsIffAttenuated(lx: Lexicon, m: Macaroon, parent: Macaroon)
    ensures ExtendsParent(lx, m, parent) <==>
            && m.identifier == parent.identifier
            && exists cs ::
                 AttenuateAll(lx, parent, cs).Some? && AttenuateAll(lx, parent, cs).value.caveats == m.caveats
  {
    var n := |parent.caveats|;
    if ExtendsParent(lx, m, parent) {
      var cs := m.caveats[n..];
      AttenuateAllIff(lx, parent, cs);
      assert parent.caveats + cs == m.caveats;
    }
    if exists cs :: AttenuateAll(lx, parent, cs).Some? && AttenuateAll(lx, parent, cs).value.caveats == m.caveats {
      var cs :| AttenuateAll(lx, parent, cs).Some? && AttenuateAll(lx, parent, cs).value.caveats == m.caveats;
      AttenuateAllIff(lx, parent, cs);
      assert m.caveats[..n] == parent.caveats && m.caveats[n..] == cs;
    }
  }

  /** Caveats admitted in two runs are admitted in one. */
  lemma AdmittedConcat(lx: Lexicon, base: seq<Caveat>, x: seq<Caveat>, y: seq<Caveat>)
    requires AdmittedInTurn(lx, base, x) && AdmittedInTurn(lx, base + x, y)
    ensures AdmittedInTurn(lx, base, x + y)
  {
    forall j | 0 <= j < |x + y| ensures Admits(lx, base + (x + y)[..j], (x + y)[j]) {
      if j < |x| {
        assert (x + y)[..j] == x[..j];
      } else {
        assert base + (x + y)[..j] == base + x + y[..j - |x|];
        assert Admits(lx, base + x + y[..j - |x|], y[j - |x|]);
      }
    }
  }

  lemma ExtendsTransitive(lx: Lexicon, a: Macaroon, b: Macaroon, c: Macaroon)
    requires ExtendsParent(lx, b, a) && ExtendsParent(lx, c, b)
    ensures ExtendsParent(lx, c, a)
  {
    var x, y := b.caveats[|a.caveats|..], c.caveats[|b.caveats|..];
    assert b.caveats == a.caveats + x && c.caveats == b.caveats + y;
    assert c.caveats[|a.caveats|..] == x + y;
    AdmittedConcat(lx, a.caveats, x, y);
  }

  // ---- the fast form ------------------------------------------------------

  ghost predicate IsLastOnField(caveats: seq<Caveat>, i: nat)
    requires i < |caveats|
  {
    forall j :: i < j < |caveats| ==> caveats[j].field != caveats[i].field
  }

  /** Checks one caveat per constrained field: the last. */
  ghost predicate LastsSatisfied(lx: Lexicon, caveats: seq<Caveat>, ctx: Ctx) {
    forall i :: 0 <= i < |caveats| && IsLastOnField(caveats, i) ==> Satisfied(lx, caveats[i], ctx)
  }

  lemma {:induction false} LastOfField(caveats: seq<Caveat>, i: nat) returns (l: nat)
    requires i < |caveats|
    ensures i <= l < |caveats| && caveats[l].field == caveats[i].field && IsLastOnField(caveats, l)
    decreases |caveats| - i
  {
    if IsLastOnField(caveats, i) {
      l := i;
    } else {
      var j :| i < j < |caveats| && caveats[j].field == caveats[i].field;
      l := LastOfField(caveats, j);
    }
  }

  /** A value for the caveat's field, taken on its own. */
  predicate SatisfiedBy(lx: Lexicon, c: Caveat, v: string) {
    Satisfied(lx, c, map[c.field := v])
  }

  lemma OnlyTheField(lx: Lexicon, c: Caveat, ctx: Ctx)
    ensures Satisfied(lx, c, ctx) <==> c.field in ctx && SatisfiedBy(lx, c, ctx[c.field])
  {
  }

  /** Whatever value satisfies the inner caveat satisfies the outer. */
  ghost predicate Contained(lx: Lexicon, inner: Caveat, outer: Caveat) {
    forall v :: SatisfiedBy(lx, inner, v) ==> SatisfiedBy(lx, outer, v)
  }

  /** Some field's last caveat is satisfied by nothing. */
  ghost predicate DeadLast(lx: Lexicon, cs: seq<Caveat>) {
    exists l :: 0 <= l < |cs| && IsLastOnField(cs, l) && forall v :: !SatisfiedBy(lx, cs[l], v)
  }

  /** Of the first n caveats, each that is the last on its field admits nothing an earlier one on it refuses. */
  ghost predicate LastsContained(lx: Lexicon, cs: seq<Caveat>, n: nat)
    requires n <= |cs|
  {
    forall i, l :: 0 <= i < l < n && cs[i].field == cs[l].field && IsLastOnField(cs, l) ==> Contained(lx, cs[l], cs[i])
  }

  /** Checking the last caveat on each field is checking all of them, on every context. */
  ghost predicate LastAlwaysDecides(lx: Lexicon, cs: seq<Caveat>) {
    forall ctx :: AllSatisfied(lx, cs, ctx) <==> LastsSatisfied(lx, cs, ctx)
  }

  lemma LastUnique(cs: seq<Caveat>, l: nat, k: nat)
    requires l < |cs| && k < |cs| && cs[l].field == cs[k].field && IsLastOnField(cs, l) && IsLastOnField(cs, k)
    ensures l == k
  {
  }

  /** The value satisfies the last caveat on this field. */
  ghost predicate Serves(lx: Lexicon, cs: seq<Caveat>, f: string, v: string) {
    forall l :: 0 <= l < |cs| && IsLastOnField(cs, l) && cs[l].field == f ==> SatisfiedBy(lx, cs[l], v)
  }

  ghost function ValueFor(lx: Lexicon, cs: seq<Caveat>, i: nat): (v: string)
    requires i < |cs| && !DeadLast(lx, cs)
    ensures Serves(lx, cs, cs[i].field, v)
  {
    LastExists(cs, i);
    var l :| i <= l < |cs| && cs[l].field == cs[i].field && IsLastOnField(cs, l);
    assert exists v :: SatisfiedBy(lx, cs[l], v);
    var v :| SatisfiedBy(lx, cs[l], v);
    v
  }

  lemma LastExists(cs: seq<Caveat>, i: nat)
    requires i < |cs|
    ensures exists l :: i <= l < |cs| && cs[l].field == cs[i].field && IsLastOnField(cs, l)
  {
    var l := LastOfField(cs, i);
  }

  /** If no last caveat is dead, some context satisfies them all. */
  lemma {:induction false} LastsTogether(lx: Lexicon, cs: seq<Caveat>, n: nat) returns (ctx: Ctx)
    requires n <= |cs| && !DeadLast(lx, cs)
    ensures forall i :: 0 <= i < n ==> cs[i].field in ctx
    ensures forall f :: f in ctx ==> Serves(lx, cs, f, ctx[f])
  {
    if n == 0 {
      ctx := map[];
    } else {
      var before := LastsTogether(lx, cs, n - 1);
      ctx := before[cs[n - 1].field := ValueFor(lx, cs, n - 1)];
    }
  }

  lemma DecidingIsContained(lx: Lexicon, cs: seq<Caveat>, i: nat, l: nat, v: string)
    requires LastAlwaysDecides(lx, cs) && !DeadLast(lx, cs)
    requires i < l < |cs| && cs[i].field == cs[l].field && IsLastOnField(cs, l) && SatisfiedBy(lx, cs[l], v)
    ensures SatisfiedBy(lx, cs[i], v)
  {
    var together := LastsTogether(lx, cs, |cs|);
    var ctx := together[cs[l].field := v];
    forall k | 0 <= k < |cs| && IsLastOnField(cs, k) ensures Satisfied(lx, cs[k], ctx) {
      OnlyTheField(lx, cs[k], ctx);
      if cs[k].field == cs[l].field {
        LastUnique(cs, l, k);
      }
    }
    assert AllSatisfied(lx, cs, ctx);
    OnlyTheField(lx, cs[i], ctx);
  }

  /**
   The last caveat on each field always decides if and only if one of them is dead or each contains no
   more than the earlier ones.
   */
  lemma LastDecidesIff(lx: Lexicon, cs: seq<Caveat>)
    ensures LastAlwaysDecides(lx, cs) <==> DeadLast(lx, cs) || LastsContained(lx, cs, |cs|)
  {
    if LastAlwaysDecides(lx, cs) && !DeadLast(lx, cs) {
      forall i, l, v |
          0 <= i < l < |cs| && cs[i].field == cs[l].field && IsLastOnField(cs, l) && SatisfiedBy(lx, cs[l], v)
        ensures SatisfiedBy(lx, cs[i], v)
      {
        DecidingIsContained(lx, cs, i, l, v);
      }
    }
    if DeadLast(lx, cs) {
      DeadDecides(lx, cs);
    }
    if LastsContained(lx, cs, |cs|) {
      ContainedDecides(lx, cs);
    }
  }

  lemma DeadDecides(lx: Lexicon, cs: seq<Caveat>)
    requires DeadLast(lx, cs)
    ensures LastAlwaysDecides(lx, cs)
  {
    var l :| 0 <= l < |cs| && IsLastOnField(cs, l) && forall v :: !SatisfiedBy(lx, cs[l], v);
    forall ctx ensures !AllSatisfied(lx, cs, ctx) && !LastsSatisfied(lx, cs, ctx) {
      OnlyTheField(lx, cs[l], ctx);
      assert cs[l] in cs;
    }
  }

  lemma ContainedDecides(lx: Lexicon, cs: seq<Caveat>)
    requires LastsContained(lx, cs, |cs|)
    ensures LastAlwaysDecides(lx, cs)
  {
    forall ctx | LastsSatisfied(lx, cs, ctx) ensures AllSatisfied(lx, cs, ctx) {
      forall i | 0 <= i < |cs| ensures Satisfied(lx, cs[i], ctx) {
        var l := LastOfField(cs, i);
        OnlyTheField(lx, cs[i], ctx);
        OnlyTheField(lx, cs[l], ctx);
      }
    }
  }

  /** Where every caveat from the n-th on was admitted by those before it, only the first n can break containment. */
  lemma OnlyTheRootMatters(lx: Lexicon, cs: seq<Caveat>, n: nat)
    requires n <= |cs| && AdmittedInTurn(lx, cs[..n], cs[n..])
    ensures LastsContained(lx, cs, |cs|) <==> LastsContained(lx, cs, n)
  {
    forall i, l, v | 0 <= i < l < |cs| && n <= l && cs[i].field == cs[l].field && SatisfiedBy(lx, cs[l], v)
      ensures SatisfiedBy(lx, cs[i], v)
    {
      assert Admits(lx, cs[..n] + cs[n..][..l - n], cs[n..][l - n]);
      assert cs[..n] + cs[n..][..l - n] == cs[..l] && cs[..l][i] == cs[i];
      NarrowsSound(lx, cs[i], cs[l], map[cs[l].field := v]);
    }
  }

  /** Where every caveat was admitted by those before it, the last one on each field decides. */
  lemma LastDecidesWhenAdmitted(lx: Lexicon, cs: seq<Caveat>, ctx: Ctx)
    requires AdmittedInTurn(lx, [], cs)
    ensures AllSatisfied(lx, cs, ctx) <==> LastsSatisfied(lx, cs, ctx)
  {
    if LastsSatisfied(lx, cs, ctx) {
      forall i | 0 <= i < |cs| ensures Satisfied(lx, cs[i], ctx) {
        var l := LastOfField(cs, i);
        if l != i {
          assert Admits(lx, [] + cs[..l], cs[l]);
          assert ([] + cs[..l])[i] == cs[i];
          NarrowsSound(lx, cs[i], cs[l], ctx);
        }
      }
    }
  }

  /** The exact condition for caveats that extend a root's, and the root admitted in turn as a case of it. */
  lemma LastDecidesAfterRoot(lx: Lexicon, root: seq<Caveat>, cs: seq<Caveat>)
    requires root <= cs && AdmittedInTurn(lx, root, cs[|root|..])
    ensures LastAlwaysDecides(lx, cs) <==> DeadLast(lx, cs) || LastsContained(lx, cs, |root|)
    ensures AdmittedInTurn(lx, [], root) ==> LastAlwaysDecides(lx, cs)
  {
    LastDecidesIff(lx, cs);
    assert cs[..|root|] == root;
    OnlyTheRootMatters(lx, cs, |root|);
    if AdmittedInTurn(lx, [], root) {
      AdmittedDecides(lx, root, cs[|root|..]);
      assert cs == root + cs[|root|..];
    }
  }

  lemma AdmittedDecides(lx: Lexicon, root: seq<Caveat>, rest: seq<Caveat>)
    requires AdmittedInTurn(lx, [], root) && AdmittedInTurn(lx, root, rest)
    ensures LastAlwaysDecides(lx, root + rest)
  {
    assert [] + root == root;
    AdmittedConcat(lx, [], root, rest);
    forall ctx ensures AllSatisfied(lx, root + rest, ctx) <==> LastsSatisfied(lx, root + rest, ctx) {
      LastDecidesWhenAdmitted(lx, root + rest, ctx);
    }
  }

  /** For a macaroon made by Mint and Attenuate, the last caveat on each field decides. */
  lemma LastCaveatDecides(lx: Lexicon, rootKey: Tag, identifier: string, location: string, cs: seq<Caveat>, ctx: Ctx)
    requires AttenuateAll(lx, Mint(rootKey, identifier, location), cs).Some?
    ensures var m := AttenuateAll(lx, Mint(rootKey, identifier, location), cs).value;
            AllSatisfied(lx, m.caveats, ctx) <==> LastsSatisfied(lx, m.caveats, ctx)
  {
    var m := AttenuateAll(lx, Mint(rootKey, identifier, location), cs).value;
    AttenuateAllIff(lx, Mint(rootKey, identifier, location), cs);
    assert m.caveats == cs;
    LastDecidesWhenAdmitted(lx, cs, ctx);
  }

  // ---- the HMAC chain -----------------------------------------------------

  function Recompute(start: Tag, caveats: seq<Caveat>): Tag
    decreases |caveats|
  {
    if caveats == [] then start else Recompute(Hmac(start, Canonical(caveats[0])), caveats[1..])
  }

  /** macaroon.Verify: re-derives the chain from the root key, then checks the caveats. */
  method VerifyMacaroon(lx: Lexicon, m: Macaroon, rootKey: Tag, ctx: Ctx) returns (ok: bool)
    ensures ok == (Recompute(Hmac(rootKey, m.identifier), m.caveats) == m.signature && AllSatisfied(lx, m.caveats, ctx))
  {
    var sig := Hmac(rootKey, m.identifier);
    for i := 0 to |m.caveats|
      invariant Recompute(sig, m.caveats[i..]) == Recompute(Hmac(rootKey, m.identifier), m.caveats)
    {
      assert m.caveats[i..][1..] == m.caveats[i + 1..];
      sig := Hmac(sig, Canonical(m.caveats[i]));
    }
    if sig != m.signature {
      return false;
    }
    ok := CheckSatisfies(lx, m, ctx);
  }

  /** The recomputed tag always matches what Mint and Attenuate produced. */
  lemma BuiltTagMatches(lx: Lexicon, rootKey: Tag, identifier: string, location: string, cs: seq<Caveat>)
    requires AttenuateAll(lx, Mint(rootKey, identifier, location), cs).Some?
    ensures var m := AttenuateAll(lx, Mint(rootKey, identifier, location), cs).value;
            Recompute(Hmac(rootKey, m.identifier), m.caveats) == m.signature
  {
    AttenuateAllIff(lx, Mint(rootKey, identifier, location), cs);
    assert [] + cs == cs;
  }

  lemma {:induction false} RecomputeSnoc(start: Tag, cs: seq<Caveat>)
    requires cs != []
    ensures Recompute(start, cs) == Hmac(Recompute(start, cs[..|cs| - 1]), Canonical(cs[|cs| - 1]))
    decreases |cs|
  {
    if |cs| > 1 {
      RecomputeSnoc(Hmac(start, Canonical(cs[0])), cs[1..]);
      assert cs[1..][..|cs[1..]| - 1] == cs[..|cs| - 1][1..];
    } else {
      assert cs[..0] == [] && cs[1..] == [];
    }
  }

  /** A caveat whose canonical bytes cannot be read as another's: no separator in its field, a known operator. */
  predicate Unambiguous(c: Caveat) {
    UNIT_SEPARATOR !in c.field && !c.op.Unknown?
  }

  lemma CanonicalInjective(c: Caveat, d: Caveat)
    requires Unambiguous(c) && Unambiguous(d)
    requires Canonical(c) == Canonical(d)
    ensures c == d
  {
    FirstSeparator(c.field, UNIT_SEPARATOR, OpText(c.op) + [UNIT_SEPARATOR] + c.value,
                   d.field, OpText(d.op) + [UNIT_SEPARATOR] + d.value);
    FirstSeparator(OpText(c.op), UNIT_SEPARATOR, c.value, OpText(d.op), d.value);
    OpTextInjective(c.op, d.op);
  }

  lemma OpTextInjective(a: Op, b: Op)
    requires !a.Unknown? && !b.Unknown? && OpText(a) == OpText(b)
    ensures a == b
  {
    assert "=="[0] == '=' && "!="[0] == '!' && "in"[0] == 'i' && "<="[0] == '<' && ">="[0] == '>' && "<"[0] == '<' &&
           ">"[0] == '>';
    assert |"<="| == 2 && |"<"| == 1 && |">="| == 2 && |">"| == 1;
  }

  /**
   One caveat read as another: the separators of its canonical form are taken one or more places to the right,
   so that its operator and the start of its value become part of the other's field.
   */
  ghost predicate Shifted(c: Caveat, d: Caveat) {
    var us := [UNIT_SEPARATOR];
    || (d.field == c.field + us + OpText(c.op) && c.value == OpText(d.op) + us + d.value)
    || exists mid :: ShiftedBy(c, d, mid)
  }

  predicate ShiftedBy(c: Caveat, d: Caveat, mid: string) {
    var us := [UNIT_SEPARATOR];
    && d.field == c.field + us + OpText(c.op) + us + mid
    && c.value == mid + us + OpText(d.op) + us + d.value
  }

  lemma ShiftedCollides(c: Caveat, d: Caveat)
    requires Shifted(c, d)
    ensures Canonical(c) == Canonical(d)
  {
    var us := [UNIT_SEPARATOR];
    if d.field == c.field + us + OpText(c.op) && c.value == OpText(d.op) + us + d.value {
      assert Canonical(c) == c.field + us + OpText(c.op) + us + (OpText(d.op) + us + d.value);
      assert Canonical(d) == c.field + us + OpText(c.op) + us + (OpText(d.op) + us + d.value);
    } else {
      var mid :| ShiftedBy(c, d, mid);
      assert Canonical(c) == c.field + us + OpText(c.op) + us + mid + us + OpText(d.op) + us + d.value;
      assert Canonical(d) == c.field + us + OpText(c.op) + us + mid + us + OpText(d.op) + us + d.value;
    }
  }

  lemma NoSeparatorInOp(op: Op)
    requires !op.Unknown?
    ensures UNIT_SEPARATOR !in OpText(op)
  {
  }

  /** Two readings of one string: the second cut lies on the first reading's second separator, or after it. */
  lemma LaterCut(f: string, op: string, v: string, g: string, rest: string, x: char)
    requires x !in op && |f| < |g| && f + [x] + op + [x] + v == g + [x] + rest
    ensures var head := f + [x] + op;
            || (g == head && v == rest)
            || (|head| < |g| && g == head + [x] + g[|head| + 1..] && v == g[|head| + 1..] + [x] + rest)
  {
    var head, t := f + [x] + op, g + [x] + rest;
    var p, q := |head|, |g|;
    assert t == head + [x] + v;
    assert t[q] == x && t[..q] == g && t[q + 1..] == rest && t[..p] == head && t[p + 1..] == v;
    assert forall j :: |f| < j < p ==> t[j] == op[j - |f| - 1] != x;
    if p < q {
      assert g == t[..p] + [t[p]] + t[p + 1..q];
      assert v == t[p + 1..q] + [t[q]] + t[q + 1..];
    }
  }

  lemma CollidesShifted(c: Caveat, d: Caveat)
    requires !c.op.Unknown? && !d.op.Unknown? && Canonical(c) == Canonical(d) && |c.field| < |d.field|
    ensures Shifted(c, d)
  {
    var us := [UNIT_SEPARATOR];
    var head, rest := c.field + us + OpText(c.op), OpText(d.op) + us + d.value;
    NoSeparatorInOp(c.op);
    assert Canonical(c) == c.field + us + OpText(c.op) + us + c.value;
    LaterCut(c.field, OpText(c.op), c.value, d.field, rest, UNIT_SEPARATOR);
    if d.field != head {
      var mid := d.field[|head| + 1..];
      assert mid + us + rest == mid + us + OpText(d.op) + us + d.value;
      assert ShiftedBy(c, d, mid);
    }
  }

  /**
   Exactly which caveats share their canonical bytes: equal ones, and ones that are one another read with
   the separators moved.
   */
  lemma CanonicalEqualIff(c: Caveat, d: Caveat)
    requires !c.op.Unknown? && !d.op.Unknown?
    ensures Canonical(c) == Canonical(d) <==> c == d || Shifted(c, d) || Shifted(d, c)
  {
    if Canonical(c) == Canonical(d) {
      if |c.field| < |d.field| {
        CollidesShifted(c, d);
      } else if |d.field| < |c.field| {
        CollidesShifted(d, c);
      } else {
        SameFieldSameCaveat(c, d);
      }
    }
    if Shifted(c, d) {
      ShiftedCollides(c, d);
    }
    if Shifted(d, c) {
      ShiftedCollides(d, c);
    }
  }

  lemma SameFieldSameCaveat(c: Caveat, d: Caveat)
    requires !c.op.Unknown? && !d.op.Unknown? && Canonical(c) == Canonical(d) && |c.field| == |d.field|
    ensures c == d
  {
    var t, n := Canonical(c), |c.field|;
    assert t[..n] == c.field && t[..n] == d.field;
    assert t[n + 1..] == OpText(c.op) + [UNIT_SEPARATOR] + c.value;
    assert t[n + 1..] == OpText(d.op) + [UNIT_SEPARATOR] + d.value;
    NoSeparatorInOp(c.op);
    NoSeparatorInOp(d.op);
    FirstSeparator(OpText(c.op), UNIT_SEPARATOR, c.value, OpText(d.op), d.value);
    OpTextInjective(c.op, d.op);
  }

  /** With a field that holds the separator, two different caveats that both validate share their canonical bytes. */
  lemma SeparatorInFieldCollides(lx: Lexicon) returns (c: Caveat, d: Caveat)
    ensures c != d && Canonical(c) == Canonical(d)
    ensures WellFormed(lx, c) && WellFormed(lx, d)
  {
    var us := [UNIT_SEPARATOR];
    c := Caveat("a", Eq, "b" + us + "==" + us + "c");
    d := Caveat("a" + us + "==" + us + "b", Eq, "c");
    assert Canonical(c) == "a" + us + "==" + us + "b" + us + "==" + us + "c";
    assert Canonical(d) == "a" + us + "==" + us + "b" + us + "==" + us + "c";
    assert d.field[0] == 'a' && d.field[|d.field| - 1] == 'b';
  }

  /** Under one root key a tag pins the identifier and, where caveats are unambiguous, every caveat in order. */
  lemma {:induction false} TagPinsCaveats(
      root: seq<uint8>, id1: string, cs1: seq<Caveat>, id2: string, cs2: seq<Caveat>)
    requires Recompute(Hmac(Raw(root), id1), cs1) == Recompute(Hmac(Raw(root), id2), cs2)
    requires forall c :: c in cs1 || c in cs2 ==> Unambiguous(c)
    ensures id1 == id2 && cs1 == cs2
    decreases |cs1| + |cs2|
  {
    if cs1 != [] {
      RecomputeSnoc(Hmac(Raw(root), id1), cs1);
    }
    if cs2 != [] {
      RecomputeSnoc(Hmac(Raw(root), id2), cs2);
    }
    if cs1 == [] && cs2 != [] {
      RecomputeIsHmac(Hmac(Raw(root), id2), cs2[..|cs2| - 1]);
    } else if cs1 != [] && cs2 == [] {
      RecomputeIsHmac(Hmac(Raw(root), id1), cs1[..|cs1| - 1]);
    } else if cs1 != [] {
      TagPinsCaveats(root, id1, cs1[..|cs1| - 1], id2, cs2[..|cs2| - 1]);
      CanonicalInjective(cs1[|cs1| - 1], cs2[|cs2| - 1]);
      assert cs1 == cs1[..|cs1| - 1] + [cs1[|cs1| - 1]];
      assert cs2 == cs2[..|cs2| - 1] + [cs2[|cs2| - 1]];
    }
  }

  lemma {:induction false} RecomputeIsHmac(start: Tag, cs: seq<Caveat>)
    requires start.Hmac?
    ensures Recompute(start, cs).Hmac?
    decreases |cs|
  {
    if cs != [] {
      RecomputeIsHmac(Hmac(start, Canonical(cs[0])), cs[1..]);
    }
  }
}
