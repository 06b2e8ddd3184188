/** Width extension of integer expressions (src/domains/util.cpp): operands are cast to
    types wide enough that no operation wraps, and the casts of the input are dropped. */
module Widths {
  import opened Bitvectors

  datatype BinOp = Add | Sub | Mul | Div

  /** Names of symbols: program variables before and after an iteration, and the unknown
      coefficients of ranking templates. */
  datatype Name = Pre(n: nat) | Post(n: nat) | Coeff(row: nat, elm: nat, i: nat)

  /** Every node carries the type CPROVER gives it; a symbol's value is read from a valuation. */
  datatype Expr =
    | Const(value: int, ty: BvType)
    | Symbol(id: Name, ty: BvType)
    | Cast(arg: Expr, ty: BvType)
    | Neg(arg: Expr, ty: BvType)
    | Bin(op: BinOp, left: Expr, right: Expr, ty: BvType)

  type Valuation = Name -> int

  function Apply(op: BinOp, a: int, b: int): int {
    match op
    case Add => a + b
    case Sub => a - b
    case Mul => a * b
    case Div => TruncDiv(a, b)
  }

  /** The machine reading: every node wraps around at its own type. */
  function Machine(e: Expr, env: Valuation): (r: int)
    ensures InRange(e.ty, r)
  {
    match e
    case Const(v, t) => Wrap(t, v)
    case Symbol(id, t) => Wrap(t, env(id))
    case Cast(a, t) => Wrap(t, Machine(a, env))
    case Neg(a, t) => Wrap(t, -Machine(a, env))
    case Bin(op, l, r, t) => Wrap(t, Apply(op, Machine(l, env), Machine(r, env)))
  }

  /** The mathematical reading: exact integers, casts ignored. */
  function Exact(e: Expr, env: Valuation): int {
    match e
    case Const(v, t) => Wrap(t, v)
    case Symbol(id, t) => Wrap(t, env(id))
    case Cast(a, _) => Exact(a, env)
    case Neg(a, _) => -Exact(a, env)
    case Bin(op, l, r, _) => Apply(op, Exact(l, env), Exact(r, env))
  }

  function Max(a: nat, b: nat): nat {
    if a < b then b else a
  }

  /** Result type of a sum or difference. */
  function AdditiveType(op: BinOp, t0: BvType, t1: BvType): BvType {
    var w0, w1 := t0.width, t1.width;
    match (t0, t1)
    case (Signed(_), Signed(_)) => Signed(Max(w0, w1) + 1)
    case (Unsigned(_), Unsigned(_)) =>
      if op == Sub then Signed(Max(w0, w1) + 1) else Unsigned(Max(w0, w1) + 1)
    case (Signed(_), Unsigned(_)) => Signed(if w0 <= w1 then w1 + 2 else w0 + 1)
    case (Unsigned(_), Signed(_)) => Signed(if w1 <= w0 then w0 + 2 else w1 + 1)
  }

  /** Result type of a quotient. The source looks at the first operand's signedness twice, so
      the second operand's plays no part. */
  function QuotientType(t0: BvType, t1: BvType): BvType {
    var w0, w1 := t0.width, t1.width;
    if t0.Unsigned? then Unsigned(Max(w0, w1))
    else Signed(if w0 >= w1 then w0 + 1 else w1)
  }

  function ResultType(op: BinOp, t0: BvType, t1: BvType): BvType {
    match op
    case Add => AdditiveType(op, t0, t1)
    case Sub => AdditiveType(op, t0, t1)
    case Mul => Signed(t0.width + t1.width + 1)
    case Div => QuotientType(t0, t1)
  }

  function Extend(e: Expr): Expr {
    match e
    case Const(_, _) => e
    case Symbol(_, _) => e
    case Cast(a, _) => Extend(a)
    case Neg(a, _) =>
      var x := Extend(a);
      var t := Signed(x.ty.width + 1);
      Neg(Cast(x, t), t)
    case Bin(op, l, r, _) =>
      var x, y := Extend(l), Extend(r);
      var t := ResultType(op, x.ty, y.ty);
      Bin(op, Cast(x, t), Cast(y, t), t)
  }

  /** The operand types for which the quotient type holds both operands and the quotient. */
  predicate QuotientFits(t0: BvType, t1: BvType) {
    if t0.Unsigned? then t1.Unsigned?
    else t1.Signed? || t0.width >= t1.width
  }

  /** Every division of `e` divides operands whose extended types fit. */
  predicate DivisionsFit(e: Expr) {
    match e
    case Const(_, _) => true
    case Symbol(_, _) => true
    case Cast(a, _) => DivisionsFit(a)
    case Neg(a, _) => DivisionsFit(a)
    case Bin(op, l, r, _) =>
      DivisionsFit(l) && DivisionsFit(r) &&
      (op == Div ==> QuotientFits(Extend(l).ty, Extend(r).ty))
  }

  /** A node over fitting operands neither wraps its casts nor its result. */
  lemma NodeFits(op: BinOp, t0: BvType, t1: BvType, a: int, b: int)
    requires InRange(t0, a) && InRange(t1, b)
    requires op == Div ==> QuotientFits(t0, t1)
    ensures var t := ResultType(op, t0, t1); InRange(t, a) && InRange(t, b) && InRange(t, Apply(op, a, b))
  {
    MagnitudeBound(t0, a);
    MagnitudeBound(t1, b);
    match op
    case Mul =>
      FactorFits(t0.width, t1.width, a);
      FactorFits(t1.width, t0.width, b);
      ProductFits(a, b, t0.width, t1.width);
    case Div =>
      QuotientInRange(t0, t1, a, b);
    case _ =>
      SumFits(op, t0, t1, a, b);
  }

  /** Spans of different types compare as their widths do. */
  lemma SpanMono(t0: BvType, t1: BvType)
    ensures t0.width <= t1.width ==> Pow2(t0.width) <= Pow2(t1.width)
    ensures t0.width < t1.width ==> 2 * Pow2(t0.width) <= Pow2(t1.width)
  {
    if t0.width < t1.width {
      Pow2Mono(t0.width + 1, t1.width);
    }
  }

  lemma SumFits(op: BinOp, t0: BvType, t1: BvType, a: int, b: int)
    requires op == Add || op == Sub
    requires InRange(t0, a) && InRange(t1, b)
    ensures var t := AdditiveType(op, t0, t1); InRange(t, a) && InRange(t, b) && InRange(t, Apply(op, a, b))
  {
    if t0.Signed? == t1.Signed? {
      WidestSpan(op, t0, t1);
    } else if t0.Signed? {
      MixedSpan(t0, t1);
    } else {
      MixedSpan(t1, t0);
    }
  }

  lemma WidestSpan(op: BinOp, t0: BvType, t1: BvType)
    requires op == Add || op == Sub
    requires t0.Signed? == t1.Signed?
    ensures var m, s := Span(if t0.width < t1.width then t1 else t0), Span(AdditiveType(op, t0, t1));
      Span(t0) <= m && Span(t1) <= m && s == if t0.Unsigned? && op == Sub then m else 2 * m
  {
    if t0.width < t1.width {
      Pow2Mono(t0.width, t1.width);
      Pow2Mono(t0.width - 1, t1.width - 1);
    } else {
      Pow2Mono(t1.width, t0.width);
      Pow2Mono(t1.width - 1, t0.width - 1);
    }
  }

  /** The type chosen for mixed operands has room for both spans. */
  lemma MixedSpan(s: BvType, u: BvType)
    requires s.Signed? && u.Unsigned?
    ensures Span(AdditiveType(Add, s, u)) >= Span(s) + Span(u)
    ensures AdditiveType(Add, s, u).Signed? && AdditiveType(Sub, s, u) == AdditiveType(Add, s, u)
    ensures AdditiveType(Add, u, s) == AdditiveType(Sub, u, s) == AdditiveType(Add, s, u)
  {
    if s.width <= u.width {
      Pow2Mono(s.width - 1, u.width);
      assert Span(AdditiveType(Add, s, u)) == 2 * Span(u);
    } else {
      Pow2Mono(u.width, s.width - 1);
      assert Span(AdditiveType(Add, s, u)) == 2 * Span(s);
    }
  }

  lemma NegationFits(t: BvType, a: int)
    requires InRange(t, a)
    ensures var u := Signed(t.width + 1); InRange(u, a) && InRange(u, -a)
  {
  }

  lemma ProductFits(a: int, b: int, w0: Width, w1: Width)
    requires Abs(a) < Pow2(w0) && Abs(b) < Pow2(w1)
    ensures InRange(Signed(w0 + w1 + 1), a * b)
  {
    ProductMagnitude(a, b, w0, w1);
    MagnitudeFits(w0 + w1, a * b);
  }

  lemma FactorFits(w: Width, extra: Width, x: int)
    requires Abs(x) < Pow2(w)
    ensures InRange(Signed(w + extra + 1), x)
  {
    Pow2Mono(w, w + extra);
    MagnitudeFits(w + extra, x);
  }

  lemma ProductMagnitude(a: int, b: int, w0: nat, w1: nat)
    requires Abs(a) < Pow2(w0) && Abs(b) < Pow2(w1)
    ensures Abs(a * b) < Pow2(w0 + w1)
  {
    Pow2Add(w0, w1);
    ProductBound(a, b, Pow2(w0), Pow2(w1));
  }

  lemma MagnitudeFits(w: Width, x: int)
    requires Abs(x) < Pow2(w)
    ensures InRange(Signed(w + 1), x)
  {
  }

  lemma ProductBound(a: int, b: int, m: nat, n: nat)
    requires Abs(a) < m && Abs(b) < n
    ensures Abs(a * b) < m * n
  {
    MulSigns(a, b);
    NatProductBound(Abs(a), Abs(b), m, n);
  }

  lemma NatProductBound(p: nat, q: nat, m: nat, n: nat)
    requires p < m && q < n
    ensures p * q < m * n
  {
    assert p * (n - q) >= 0;
    assert (m - p) * n > 0;
  }

  lemma MulSigns(a: int, b: int)
    ensures Abs(a * b) == Abs(a) * Abs(b)
  {
    if a < 0 && b < 0 { assert a * b == (-a) * (-b); }
    else if a < 0 { assert a * b == -((-a) * b); }
    else if b < 0 { assert a * b == -(a * (-b)); }
  }

  lemma QuotientInRange(t0: BvType, t1: BvType, a: int, b: int)
    requires InRange(t0, a) && InRange(t1, b) && QuotientFits(t0, t1)
    ensures var t := QuotientType(t0, t1); InRange(t, a) && InRange(t, b) && InRange(t, TruncDiv(a, b))
  {
    var t := QuotientType(t0, t1);
    if t0.width >= t1.width {
      SpanMono(t1, t0);
    } else {
      SpanMono(t0, t1);
    }
  }

  /** Main result: when every division fits, the machine reading of the extended expression is
      the exact integer value of the original, for every valuation. */
  lemma {:induction false} ExtendIsExact(e: Expr, env: Valuation)
    requires DivisionsFit(e)
    ensures Machine(Extend(e), env) == Exact(e, env)
  {
    match e
    case Const(_, _) =>
    case Symbol(_, _) =>
    case Cast(a, _) =>
      ExtendIsExact(a, env);
    case Neg(a, _) =>
      ExtendIsExact(a, env);
      NegationFits(Extend(a).ty, Exact(a, env));
    case Bin(op, l, r, _) =>
      ExtendIsExact(l, env);
      ExtendIsExact(r, env);
      NodeFits(op, Extend(l).ty, Extend(r).ty, Exact(l, env), Exact(r, env));
  }

  /** Division is exact for all operand values precisely at the fitting types. */
  lemma QuotientExactIff(x: Expr, y: Expr, ty: BvType)
    requires x.Symbol? && y.Symbol? && x.id != y.id
    ensures QuotientFits(x.ty, y.ty) <==>
      (forall env: Valuation :: Exact(y, env) != 0 ==>
        Machine(Extend(Bin(Div, x, y, ty)), env) == Exact(Bin(Div, x, y, ty), env))
  {
    var e := Bin(Div, x, y, ty);
    if QuotientFits(x.ty, y.ty) {
      forall env: Valuation ensures Machine(Extend(e), env) == Exact(e, env) {
        ExtendIsExact(e, env);
      }
    } else {
      var a, b := QuotientWitness(x.ty, y.ty);
      var env: Valuation := i => if i == x.id then a else b;
      assert env(x.id) == a && env(y.id) == b;
      QuotientReadings(x, y, ty, env);
    }
  }

  lemma QuotientReadings(x: Expr, y: Expr, ty: BvType, env: Valuation)
    requires x.Symbol? && y.Symbol? && InRange(x.ty, env(x.id)) && InRange(y.ty, env(y.id))
    ensures var a, b, t := env(x.id), env(y.id), QuotientType(x.ty, y.ty);
      Exact(y, env) == b && Exact(Bin(Div, x, y, ty), env) == TruncDiv(a, b) &&
      Machine(Extend(Bin(Div, x, y, ty)), env) == Wrap(t, TruncDiv(Wrap(t, a), Wrap(t, b)))
  {
    var t := QuotientType(x.ty, y.ty);
    CastReading(x, t, env);
    CastReading(y, t, env);
    assert Extend(x) == x && Extend(y) == y;
    assert Extend(Bin(Div, x, y, ty)) == Bin(Div, Cast(x, t), Cast(y, t), t);
  }

  lemma CastReading(x: Expr, t: BvType, env: Valuation)
    requires x.Symbol? && InRange(x.ty, env(x.id))
    ensures Exact(x, env) == env(x.id) && Machine(Cast(x, t), env) == Wrap(t, env(x.id))
  {
    assert Machine(x, env) == env(x.id);
  }

  lemma QuotientWitness(t0: BvType, t1: BvType) returns (a: int, b: int)
    requires !QuotientFits(t0, t1)
    ensures InRange(t0, a) && InRange(t1, b) && b != 0
    ensures var t := QuotientType(t0, t1);
      Wrap(t, TruncDiv(Wrap(t, a), Wrap(t, b))) != TruncDiv(a, b)
  {
    var t := QuotientType(t0, t1);
    if t0.Unsigned? {
      a, b := 1, -1;
      // 1 / -1 is negative, which an unsigned type cannot hold.
      assert TruncDiv(a, b) == -1;
    } else {
      a, b := -1, Largest(t1);
      SpanMono(Signed(1), t);
      DivShrinks(1, b);
      assert TruncDiv(a, b) == 0;
      assert Wrap(t, a) == -1 && Wrap(t, b) == -1;
      assert TruncDiv(-1, -1) == 1;
    }
  }

  /** Extending twice changes nothing: the inserted casts are dropped and put back. */
  lemma {:induction false} ExtendIdempotent(e: Expr)
    ensures Extend(Extend(e)) == Extend(e)
  {
    match e
    case Const(_, _) =>
    case Symbol(_, _) =>
    case Cast(a, _) => ExtendIdempotent(a);
    case Neg(a, _) => ExtendIdempotent(a);
    case Bin(op, l, r, _) =>
      ExtendIdempotent(l);
      ExtendIdempotent(r);
  }

  datatype Failure = DivisionByZero | OutOfRange
  datatype Outcome<+T> = Ok(value: T) | Failed(why: Failure)

  /** Exact value of a constant expression; unsubstituted symbols count as 0. */
  function SimplifyConstInt(e: Expr): Outcome<int> {
    match e
    case Const(v, t) => Ok(Wrap(t, v))
    case Symbol(_, _) => Ok(0)
    case Cast(a, _) => SimplifyConstInt(a)
    case Neg(a, _) =>
      var r := SimplifyConstInt(a);
      if r.Ok? then Ok(-r.value) else r
    case Bin(op, l, r, _) =>
      var y := SimplifyConstInt(r);
      if y.Failed? then y
      else if op == Div && y.value == 0 then Failed(DivisionByZero)
      else
        var x := SimplifyConstInt(l);
        if x.Failed? then x else Ok(Apply(op, x.value, y.value))
  }

  function SimplifyConst(e: Expr): Outcome<Expr> {
    if e.Const? then Ok(e)
    else
      var r := SimplifyConstInt(e);
      if r.Failed? then Failed(r.why)
      else if !InRange(e.ty, r.value) then Failed(OutOfRange)
      else Ok(Const(r.value, e.ty))
  }

  const AllZero: Valuation := _ => 0

  /** Some division meets a zero divisor when all symbols are 0. */
  predicate DividesByZero(e: Expr) {
    match e
    case Const(_, _) => false
    case Symbol(_, _) => false
    case Cast(a, _) => DividesByZero(a)
    case Neg(a, _) => DividesByZero(a)
    case Bin(op, l, r, _) =>
      DividesByZero(l) || DividesByZero(r) || (op == Div && Exact(r, AllZero) == 0)
  }

  lemma {:induction false} SimplifyConstIntIsExact(e: Expr)
    ensures SimplifyConstInt(e) ==
      if DividesByZero(e) then Failed(DivisionByZero) else Ok(Exact(e, AllZero))
  {
    match e
    case Const(_, _) =>
    case Symbol(_, t) =>
      assert InRange(t, 0);
    case Cast(a, _) => SimplifyConstIntIsExact(a);
    case Neg(a, _) => SimplifyConstIntIsExact(a);
    case Bin(op, l, r, _) =>
      SimplifyConstIntIsExact(l);
      SimplifyConstIntIsExact(r);
  }

  lemma {:induction false} ExtendKeepsExact(e: Expr, env: Valuation)
    ensures Exact(Extend(e), env) == Exact(e, env)
    ensures DividesByZero(Extend(e)) == DividesByZero(e)
  {
    match e
    case Const(_, _) =>
    case Symbol(_, _) =>
    case Cast(a, _) => ExtendKeepsExact(a, env);
    case Neg(a, _) => ExtendKeepsExact(a, env);
    case Bin(op, l, r, _) =>
      ExtendKeepsExact(l, env);
      ExtendKeepsExact(r, env);
      ExtendKeepsExact(r, AllZero);
  }

  /** Constant folding of an extended expression never trips its range assertion: it yields the
      exact value, or stops at a division by zero. */
  lemma SimplifyExtendedNeverOverflows(e: Expr)
    requires DivisionsFit(e) && !e.Const?
    ensures DividesByZero(e) <==> SimplifyConst(Extend(e)).Failed?
    ensures DividesByZero(e) ==> SimplifyConst(Extend(e)) == Failed(DivisionByZero)
    ensures Extend(e).Const? ==> SimplifyConst(Extend(e)) == Ok(Extend(e))
    ensures !DividesByZero(e) && !Extend(e).Const? ==>
      SimplifyConst(Extend(e)) == Ok(Const(Exact(e, AllZero), Extend(e).ty))
  {
    ExtendIsExact(e, AllZero);
    ExtendKeepsExact(e, AllZero);
    SimplifyConstIntIsExact(Extend(e));
  }
}
