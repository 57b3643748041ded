/** The one ordering that caveats and policy conditions are both written against. */
module Scalar {
  import opened Util

  const TWO_POW_63: int := 0x8000_0000_0000_0000

  type int64 = x: int | -TWO_POW_63 <= x < TWO_POW_63

  /** A comparison operator as policies and caveats spell it; any other spelling is Unknown. */
  datatype Op = Eq | Ne | Le | Lt | Ge | Gt | In | Unknown(spelling: string)

  predicate IsOrdering(op: Op) {
    op.Le? || op.Lt? || op.Ge? || op.Gt?
  }

  /** A float64: every finite double denotes exactly one real. */
  datatype Float = NaN | NegInf | Finite(r: real) | PosInf

  /** A parsed scalar: an instant in nanoseconds since the epoch, or a number. */
  datatype Value = Instant(nanos: int64) | Number(num: Float)

  /** The two library parsers. rfc3339 yields nanoseconds since the epoch, unbounded. */
  datatype Lexicon = Lexicon(rfc3339: string -> Option<int>, float: string -> Option<Float>)

  /** Parse: RFC 3339 first, refused outside the int64 window; then a number, infinities refused. */
  function Parse(lx: Lexicon, s: string): (v: Option<Value>)
    ensures v.Some? && v.value.Number? ==> v.value.num.NaN? || v.value.num.Finite?
  {
    match lx.rfc3339(s)
    case Some(t) => if -TWO_POW_63 <= t < TWO_POW_63 then Some(Instant(t)) else None
    case None =>
      match lx.float(s)
      case Some(f) => if f.PosInf? || f.NegInf? then None else Some(Number(f))
      case None => None
  }

  function CmpInt64(a: int64, b: int64): int {
    if a < b then -1 else if a > b then 1 else 0
  }

  /** The float64 "<", false whenever a NaN is involved. */
  predicate FloatLess(a: Float, b: Float) {
    match (a, b)
    case (Finite(x), Finite(y)) => x < y
    case (NegInf, Finite(_)) => true
    case (NegInf, PosInf) => true
    case (Finite(_), PosInf) => true
    case _ => false
  }

  function CmpFloat64(a: Float, b: Float): (int, bool) {
    if a.NaN? || b.NaN? then (0, false)
    else if FloatLess(a, b) then (-1, true)
    else if FloatLess(b, a) then (1, true)
    else (0, true)
  }

  /** math.Trunc: towards zero. */
  function Trunc(r: real): int {
    if r >= 0.0 then r.Floor else -((-r).Floor)
  }

  /** Orders an integer against a float without converting either to the other's type. */
  function CmpInt64Float(n: int64, f: Float): (int, bool) {
    if f.NaN? then (0, false)
    else if f.PosInf? || (f.Finite? && f.r >= TWO_POW_63 as real) then (-1, true)
    else if f.NegInf? || (f.Finite? && f.r < -(TWO_POW_63 as real)) then (1, true)
    else
      var whole := Trunc(f.r);
      var cmp := CmpInt64(n, whole);
      if cmp != 0 then (cmp, true)
      else
        var frac := f.r - whole as real;
        if frac > 0.0 then (-1, true)
        else if frac < 0.0 then (1, true)
        else (0, true)
  }

  function Compare(v: Value, w: Value): (int, bool) {
    match (v, w)
    case (Instant(a), Instant(b)) => (CmpInt64(a, b), true)
    case (Instant(a), Number(f)) => CmpInt64Float(a, f)
    case (Number(f), Instant(b)) => var (cmp, ok) := CmpInt64Float(b, f); (-cmp, ok)
    case (Number(f), Number(g)) => CmpFloat64(f, g)
  }

  /** "v op w"; an unknown operator and an unordered pair are both false. */
  predicate Satisfies(v: Value, op: Op, w: Value) {
    var (cmp, ok) := Compare(v, w);
    ok &&
    match op
    case Le => cmp <= 0
    case Lt => cmp < 0
    case Ge => cmp >= 0
    case Gt => cmp > 0
    case _ => false
  }

  // ---- exactness ----------------------------------------------------------

  /** The number a value stands for, with no rounding. */
  ghost function Denote(v: Value): Float {
    match v
    case Instant(n) => Finite(n as real)
    case Number(f) => f
  }

  ghost predicate IsNaN(v: Value) {
    Denote(v).NaN?
  }

  /** The sign of the exact difference of two denoted numbers. */
  ghost function ExactSign(a: Float, b: Float): int {
    if FloatLess(a, b) then -1 else if FloatLess(b, a) then 1 else 0
  }

  lemma TruncBetween(r: real)
    ensures r >= 0.0 ==> Trunc(r) as real <= r < Trunc(r) as real + 1.0
    ensures r < 0.0 ==> Trunc(r) as real - 1.0 < r <= Trunc(r) as real
  {
    assert (-r).Floor as real <= -r < (-r).Floor as real + 1.0;
  }

  lemma IntegersApart(n: int, m: int)
    requires n < m
    ensures n as real + 1.0 <= m as real
  {
    assert (m - n) as real == m as real - n as real;
  }

  /** An integer against a double: the result is the sign of the exact difference. */
  lemma CmpInt64FloatExact(n: int64, f: Float)
    ensures CmpInt64Float(n, f) == if f.NaN? then (0, false) else (ExactSign(Finite(n as real), f), true)
  {
    if f.Finite? {
      TruncBetween(f.r);
      var whole := Trunc(f.r);
      if n < whole { IntegersApart(n, whole); }
      if whole < n { IntegersApart(whole, n); }
      if f.r >= TWO_POW_63 as real { IntegersApart(n, TWO_POW_63); }
    }
  }

  /** Compare is the sign of the exact difference on every pair that has no NaN, and unordered otherwise. */
  lemma CompareExact(v: Value, w: Value)
    ensures Compare(v, w) == if IsNaN(v) || IsNaN(w) then (0, false) else (ExactSign(Denote(v), Denote(w)), true)
  {
    match (v, w) {
      case (Instant(a), Instant(b)) =>
        if a < b { IntegersApart(a, b); }
        if b < a { IntegersApart(b, a); }
      case (Instant(a), Number(f)) => CmpInt64FloatExact(a, f);
      case (Number(f), Instant(b)) => CmpInt64FloatExact(b, f);
      case (Number(f), Number(g)) =>
    }
  }

  /** What "v op w" says of the denoted numbers, exactly. */
  lemma SatisfiesMeans(v: Value, op: Op, w: Value)
    ensures Satisfies(v, op, w) <==>
            && !IsNaN(v) && !IsNaN(w)
            && match op
               case Le => !FloatLess(Denote(w), Denote(v))
               case Lt => FloatLess(Denote(v), Denote(w))
               case Ge => !FloatLess(Denote(v), Denote(w))
               case Gt => FloatLess(Denote(w), Denote(v))
               case _ => false
  {
    CompareExact(v, w);
    FloatLessAsymmetric(Denote(v), Denote(w));
  }

  lemma FloatLessAsymmetric(a: Float, b: Float)
    ensures !(FloatLess(a, b) && FloatLess(b, a))
  {
  }

  /**
   What a text parses to: an instant in the int64 window is its own number of nanoseconds and one outside it
   nothing, whatever it would be as a number; any other text is the number it is, unless that is infinite or it is none.
   */
  lemma ParseMeans(lx: Lexicon, s: string)
    ensures lx.rfc3339(s).Some? ==>
              var t := lx.rfc3339(s).value;
              if -0x8000_0000_0000_0000 <= t <= 0x7FFF_FFFF_FFFF_FFFF
              then Parse(lx, s).Some? && Denote(Parse(lx, s).value) == Finite(t as real)
              else Parse(lx, s).None?
    ensures lx.rfc3339(s).None? && lx.float(s).Some? ==>
              var f := lx.float(s).value;
              if f == PosInf || f == NegInf then Parse(lx, s).None?
              else Parse(lx, s).Some? && Denote(Parse(lx, s).value) == f
    ensures lx.rfc3339(s).None? && lx.float(s).None? ==> Parse(lx, s).None?
  {
  }

  /** Hence a total, antisymmetric and transitive order across instants and numbers alike. */
  lemma CompareIsOrder(u: Value, v: Value, w: Value)
    requires !IsNaN(u) && !IsNaN(v) && !IsNaN(w)
    ensures Compare(u, v).1 && Compare(u, v).0 == -Compare(v, u).0
    ensures Compare(u, v).0 <= 0 && Compare(v, w).0 <= 0 ==> Compare(u, w).0 <= 0
    ensures Compare(u, v).0 < 0 && Compare(v, w).0 <= 0 ==> Compare(u, w).0 < 0
    ensures Compare(u, v).0 <= 0 && Compare(v, w).0 < 0 ==> Compare(u, w).0 < 0
    ensures Compare(u, v).0 == 0 <==> Denote(u) == Denote(v)
  {
    CompareExact(u, v);
    CompareExact(v, u);
    CompareExact(v, w);
    CompareExact(u, w);
  }

  /** NaN orders against nothing, itself included, so no operator holds of it. */
  lemma NaNIsUnordered(v: Value, op: Op, w: Value)
    requires IsNaN(v) || IsNaN(w)
    ensures !Compare(v, w).1 && !Satisfies(v, op, w)
  {
    CompareExact(v, w);
  }
}
