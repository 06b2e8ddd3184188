/** Bounds of template polyhedra rows (src/domains/tpolyhedra_domain.cpp): the largest value a
    row expression can take and the split point the binary search asks for. */
module TemplateBounds {
  import opened Bitvectors
  import opened Widths

  /** Largest value of a row expression; `-(cast)e` over a signed `e` tops out at `-smallest(e)`. */
  function MaxForExpr(e: Expr): (m: int)
    ensures InRange(e.ty, m)
  {
    if e.ty.Signed? && e.Neg? && e.arg.Cast? && e.arg.arg.ty.Signed? then
      Wrap(e.ty, -Smallest(e.arg.arg.ty))
    else
      Largest(e.ty)
  }

  /** No valuation takes an extended row expression above its maximum. */
  lemma RowNeverAboveMax(e: Expr, env: Valuation)
    requires DivisionsFit(e)
    ensures Machine(Extend(e), env) <= MaxForExpr(Extend(e))
  {
    var x := Extend(e);
    ExtendedNegation(e);
    if x.Neg? && x.arg.arg.ty.Signed? {
      var a := x.arg.arg;
      var v := Machine(a, env);
      NegationFits(a.ty, v);
      NegationFits(a.ty, Smallest(a.ty));
      assert Machine(x.arg, env) == v && Machine(x, env) == -v;
    }
  }

  lemma {:induction false} ExtendedNegation(e: Expr)
    ensures var x := Extend(e);
      x.Neg? ==> (x.arg.Cast? && x.arg.ty == x.ty && x.ty == Signed(x.arg.arg.ty.width + 1))
  {
    match e
    case Cast(a, _) => ExtendedNegation(a);
    case _ =>
  }

  /** The rows `x <= c` and `-x <= c` of the interval template. */
  function IntervalRow(x: Expr, negated: bool): Expr {
    Extend(if negated then Neg(x, x.ty) else x)
  }

  lemma NegatedMax(x: Expr)
    requires x.Symbol? && x.ty.Signed?
    ensures MaxForExpr(IntervalRow(x, true)) == -Smallest(x.ty)
  {
    var t := Signed(x.ty.width + 1);
    NegationFits(x.ty, Smallest(x.ty));
    assert Extend(x) == x && IntervalRow(x, true) == Neg(Cast(x, t), t);
  }

  /** An interval row over a variable is a tautology exactly when its value is at least the
      maximum; for `-x` with `x` unsigned the maximum is not reached, and 0 is enough. */
  lemma IntervalRowTopIff(x: Expr, negated: bool, c: int)
    requires x.Symbol?
    ensures (forall env: Valuation :: Machine(IntervalRow(x, negated), env) <= c) <==>
      c >= if negated && x.ty.Unsigned? then 0 else MaxForExpr(IntervalRow(x, negated))
  {
    var row := IntervalRow(x, negated);
    var extreme := if negated then Smallest(x.ty) else Largest(x.ty);
    var worst: Valuation := _ => extreme;
    var sign := if negated then -1 else 1;
    forall env: Valuation ensures Machine(row, env) == sign * Machine(x, env) {
      var e := if negated then Neg(x, x.ty) else x;
      ExtendIsExact(e, env);
      assert Exact(x, env) == Machine(x, env);
    }
    assert InRange(x.ty, extreme) && worst(x.id) == extreme;
    assert Machine(x, worst) == extreme && Machine(row, worst) == sign * extreme;
    if negated && x.ty.Signed? {
      NegatedMax(x);
    }
  }

  function Half(x: int): int {
    if x >= 0 then x / 2 else -(-x / 2)
  }

  /** The value tried between two bounds of the same type: hand-picked values first, else the
      midpoint rounded toward zero. Constants wrap around at narrow types. */
  function Between(t: BvType, lower: int, upper: int): int
    requires InRange(t, lower) && InRange(t, upper) && lower <= upper
  {
    var top := Largest(t);
    if lower + 1 == upper then lower
    else if t.Unsigned? then
      if lower == 0 && upper == top then Wrap(t, 1)
      else if lower == 1 && upper == top then upper - 1
      else if lower == 1 && upper == top - 1 then Wrap(t, 2)
      else if lower < 128 && upper == top then top - 1
      else if lower < 128 && upper == top - 1 then Wrap(t, 255)
      else Half(upper + lower)
    else
      if lower == -top && upper == top then 0
      else if lower == 1 && upper == top then Wrap(t, 2)
      else if lower == -1 && upper == top then 0
      else if lower == 0 && upper == top then upper - 1
      else if lower == -Half(top) && upper == top then Wrap(t, Half(top) + 1)
      else if lower == Half(top) + 1 && upper == top then Wrap(t, Half(top) + 2)
      else if lower == 0 && upper == top - 1 then Wrap(t, 1)
      else if lower < 128 && upper == top then top - 1
      else if lower < 128 && upper == top - 1 then Wrap(t, 255)
      else if lower < -128 && upper == 255 then Wrap(t, -255)
      else Half(upper + lower)
  }

  /** The bounds at which the hand-picked value falls outside the open interval. */
  predicate Misses(t: BvType, lower: int, upper: int) {
    var top := Largest(t);
    if t.Unsigned? then t.width <= 8 && lower < 128 && lower != 1 && upper == top - 1
    else if t.width <= 8 then -1 <= lower && lower != 0 && upper == top - 1
    else if t.width == 9 then lower < 128 && lower != 0 && upper == top - 1
    else -255 <= lower <= -129 && upper == 255
  }

  /** `Between` splits a gap of at least two strictly, at every width, except at `Misses`. */
  lemma BetweenStrictIff(t: BvType, lower: int, upper: int)
    requires InRange(t, lower) && InRange(t, upper) && lower + 2 <= upper
    ensures lower < Between(t, lower, upper) < upper <==> !Misses(t, lower, upper)
  {
    SmallWidths(t);
    if t.width <= 8 {
      Wrap255(t);
    }
  }

  /** The gaps for which `between` has a value picked by hand. */
  predicate HandPicked(t: BvType, lower: int, upper: int) {
    var top := Largest(t);
    if upper == top then lower < 128 || (t.Signed? && lower == Half(top) + 1)
    else if upper == top - 1 then lower < 128
    else t.Signed? && upper == 255 && lower < -128
  }

  /** All other gaps are split in halves, at every width. */
  lemma BetweenHalves(t: BvType, lower: int, upper: int)
    requires InRange(t, lower) && InRange(t, upper) && lower + 2 <= upper && !HandPicked(t, lower, upper)
    ensures upper - Between(t, lower, upper) <= (upper - lower + 1) / 2
    ensures Between(t, lower, upper) - lower <= (upper - lower + 1) / 2
  {
  }

  lemma SmallWidths(t: BvType)
    ensures t.Unsigned? && t.width <= 8 ==> Span(t) <= 256
    ensures t.Unsigned? && t.width == 8 ==> Span(t) == 256
    ensures t.Unsigned? && t.width < 8 ==> Span(t) <= 128
    ensures t.Unsigned? && t.width >= 9 ==> Span(t) >= 512
    ensures t.Signed? && t.width <= 8 ==> Span(t) <= 128
    ensures t.Signed? && t.width == 9 ==> Span(t) == 256
    ensures t.Signed? && t.width >= 10 ==> Span(t) >= 512
  {
    assert Pow2(7) == 128 && Pow2(8) == 256 && Pow2(9) == 512;
    var w: int := t.width;
    if w <= 8 { Pow2Mono(w, 8); Pow2Mono(w - 1, 7); }
    if w < 8 { Pow2Mono(w, 7); }
    if w >= 9 { Pow2Mono(9, w); }
    if w >= 10 { Pow2Mono(9, w - 1); }
  }

  /** The constant 255 has all bits set at widths up to 8. */
  lemma Wrap255(t: BvType)
    requires t.width <= 8
    ensures Wrap(t, 255) == if t.Signed? then -1 else Largest(t)
  {
    var k := Split256(t.width);
    WrapPeriod(t, if t.Signed? then -1 else Largest(t), if t.Signed? then k else k - 1);
  }

  lemma Split256(w: Width) returns (k: nat)
    requires w <= 8
    ensures k > 0 && k * Pow2(w) == 256 && (k - 1) * Pow2(w) == 256 - Pow2(w)
  {
    k := Pow2(8 - w);
    Pow2Add(8 - w, w);
    assert Pow2(8) == 256;
    assert (k - 1) * Pow2(w) == k * Pow2(w) - Pow2(w);
  }

  lemma {:induction false} WrapPeriod(t: BvType, x: int, k: nat)
    requires InRange(t, x)
    ensures Wrap(t, x + k * Pow2(t.width)) == x
  {
    if k > 0 {
      WrapPeriod(t, x, k - 1);
      OnePeriodMore(t, x, (k - 1) * Pow2(t.width));
      assert k * Pow2(t.width) == (k - 1) * Pow2(t.width) + Pow2(t.width);
    }
  }

  lemma OnePeriodMore(t: BvType, x: int, d: nat)
    requires InRange(t, x)
    ensures Wrap(t, x + d + Pow2(t.width)) == Wrap(t, x + d)
  {
    assert x + d + Pow2(t.width) > Largest(t);
  }
}
