/** Fixed-width integer types and the arithmetic the source borrows from CPROVER:
    wrap-around constants and casts, and division that truncates toward zero. */
module Bitvectors {

  type Width = w: int | w > 0 witness 1

  datatype BvType = Signed(width: Width) | Unsigned(width: Width)

  function Pow2(n: nat): (p: nat)
    ensures p > 0
  {
    if n == 0 then 1 else 2 * Pow2(n - 1)
  }

  lemma DoubleProduct(x: int, y: int)
    ensures 2 * (x * y) == (2 * x) * y
  {
  }

  lemma {:induction false} Pow2Add(m: nat, n: nat)
    ensures Pow2(m + n) == Pow2(m) * Pow2(n)
  {
    if m > 0 {
      Pow2Add(m - 1, n);
      assert Pow2(m + n) == 2 * Pow2(m - 1 + n);
      DoubleProduct(Pow2(m - 1), Pow2(n));
    }
  }

  lemma {:induction false} Pow2Mono(m: nat, n: nat)
    requires m <= n
    ensures Pow2(m) <= Pow2(n)
  {
    if m < n {
      Pow2Mono(m, n - 1);
    }
  }

  /** Number of values of one sign: 2^(w-1) for a signed type, 2^w for an unsigned one. */
  function Span(t: BvType): (s: int)
    ensures s > 0
  {
    var w: int := t.width;
    if t.Signed? then Pow2(w - 1) else Pow2(w)
  }

  function Smallest(t: BvType): int {
    if t.Signed? then -Span(t) else 0
  }

  function Largest(t: BvType): int {
    Span(t) - 1
  }

  predicate InRange(t: BvType, x: int) {
    Smallest(t) <= x <= Largest(t)
  }

  /** The value read back from a constant, or from a cast, of type `t` built from `x`:
      the one value of `t` that differs from `x` by a multiple of 2^width. */
  function Wrap(t: BvType, x: int): (r: int)
    ensures InRange(t, r)
    ensures InRange(t, x) ==> r == x
    decreases if x > Largest(t) then x - Largest(t) else Smallest(t) - x
  {
    if x > Largest(t) then Wrap(t, x - Pow2(t.width))
    else if x < Smallest(t) then Wrap(t, x + Pow2(t.width))
    else x
  }

  lemma MulOrder(m: int, x: int, y: int)
    requires m >= 0
    ensures x <= y ==> m * x <= m * y
  {
    if x <= y {
      assert m * (y - x) >= 0;
    }
  }

  function Abs(x: int): nat {
    if x < 0 then -x else x
  }

  /** Division truncating toward zero; 0 stands for the undefined quotient by zero. */
  function TruncDiv(a: int, b: int): (q: int)
    ensures Abs(q) <= Abs(a)
    ensures a >= 0 && b >= 0 ==> q >= 0
  {
    if b == 0 then 0
    else
      DivShrinks(Abs(a), Abs(b));
      var q := Abs(a) / Abs(b);
      if (a < 0) == (b < 0) then q else -q
  }

  lemma DivShrinks(a: int, b: int)
    requires a >= 0 && b > 0
    ensures 0 <= a / b <= a
    ensures a < b ==> a / b == 0
  {
    var q := a / b;
    assert a == b * q + a % b;
    MulOrder(b, q, -1);
    MulOrder(b, 1, q);
    if q > 0 {
      MulOrder(q, 1, b);
    }
  }

  lemma MagnitudeBound(t: BvType, x: int)
    requires InRange(t, x)
    ensures Abs(x) < Pow2(t.width)
    ensures t.Signed? ==> Abs(x) <= Span(t)
  {
  }
}
