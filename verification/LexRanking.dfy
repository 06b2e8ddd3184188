/** Lexicographic linear ranking arguments (src/domains/lexlinrank_domain.cpp): the conditions the
    domain builds from coefficients, and why a verified row bounds every run of the loop. */
module LexRanking {
  import opened Bitvectors
  import opened Widths

  /** Pre- and post-state expression of one program variable. */
  datatype PrePost = PrePost(pre: Expr, post: Expr)

  /** `c * (pre - post)`, typed as CPROVER types products and differences. */
  function Term(c: Expr, p: PrePost): Expr {
    Bin(Mul, c, Bin(Sub, p.pre, p.post, p.pre.ty), c.ty)
  }

  /** Exact decrease of the linear expression with coefficients `c`. */
  function Decrease(c: seq<Expr>, vars: seq<PrePost>, env: Valuation): int
    requires |c| <= |vars|
  {
    if c == [] then 0
    else
      var n := |c| - 1;
      Decrease(c[..n], vars, env) +
        Exact(c[n], env) * (Exact(vars[n].pre, env) - Exact(vars[n].post, env))
  }

  lemma DecreaseOneMore(c: seq<Expr>, vars: seq<PrePost>, n: nat, env: Valuation)
    requires n < |c| <= |vars|
    ensures Decrease(c[..n + 1], vars, env) == Decrease(c[..n], vars, env) + Exact(Term(c[n], vars[n]), env)
  {
    assert c[..n + 1][..n] == c[..n];
  }

  predicate Leaf(e: Expr) {
    e.Const? || e.Symbol?
  }

  lemma TermFits(c: Expr, p: PrePost)
    requires Leaf(c) && Leaf(p.pre) && Leaf(p.post)
    ensures DivisionsFit(Term(c, p))
  {
    assert DivisionsFit(p.pre) && DivisionsFit(p.post) && DivisionsFit(c);
    assert DivisionsFit(Bin(Sub, p.pre, p.post, p.pre.ty));
  }

  /** The sum the domain builds for one element of a row. */
  method BuildSum(c: seq<Expr>, vars: seq<PrePost>) returns (sum: Expr)
    requires 1 <= |c| == |vars|
    requires forall i :: 0 <= i < |c| ==> Leaf(c[i]) && Leaf(vars[i].pre) && Leaf(vars[i].post)
    ensures DivisionsFit(sum)
    ensures forall env: Valuation :: Machine(Extend(sum), env) == Decrease(c, vars, env)
  {
    sum := Term(c[0], vars[0]);
    TermFits(c[0], vars[0]);
    forall env: Valuation ensures Exact(sum, env) == Decrease(c[..1], vars, env) {
      DecreaseOneMore(c, vars, 0, env);
    }
    for i := 1 to |c|
      invariant DivisionsFit(sum)
      invariant forall env: Valuation :: Exact(sum, env) == Decrease(c[..i], vars, env)
    {
      ghost var before := sum;
      sum := AddTerm(sum, Term(c[i], vars[i]));
      TermFits(c[i], vars[i]);
      forall env: Valuation ensures Exact(sum, env) == Decrease(c[..i + 1], vars, env) {
        assert Exact(before, env) == Decrease(c[..i], vars, env);
        DecreaseOneMore(c, vars, i, env);
      }
    }
    assert c[..|c|] == c;
    forall env: Valuation ensures Machine(Extend(sum), env) == Decrease(c, vars, env) {
      ExtendIsExact(sum, env);
    }
  }

  function AddTerm(sum: Expr, term: Expr): (e: Expr)
    ensures DivisionsFit(sum) && DivisionsFit(term) ==> DivisionsFit(e)
    ensures forall env: Valuation :: Exact(e, env) == Exact(sum, env) + Exact(term, env)
  {
    Bin(Add, sum, term, sum.ty)
  }

  /** A condition in disjunctive form over the signs of extended sums. */
  datatype Atom = Positive(sum: Expr) | NonNegative(sum: Expr)
  type Condition = seq<seq<Atom>>

  predicate AtomHolds(a: Atom, env: Valuation) {
    match a
    case Positive(sum) => Machine(sum, env) > 0
    case NonNegative(sum) => Machine(sum, env) >= 0
  }

  predicate AllHold(c: seq<Atom>, env: Valuation) {
    forall j :: 0 <= j < |c| ==> AtomHolds(c[j], env)
  }

  predicate ConditionHolds(cond: Condition, env: Valuation) {
    exists i :: 0 <= i < |cond| && AllHold(cond[i], env)
  }

  /** Row of coefficient vectors, one per lexicographic element, all of the variables' length. */
  predicate RowShape(row: seq<seq<Expr>>, vars: seq<PrePost>) {
    |vars| >= 1 &&
    (forall i :: 0 <= i < |vars| ==> Leaf(vars[i].pre) && Leaf(vars[i].post)) &&
    forall elm :: 0 <= elm < |row| ==> |row[elm]| == |vars| && forall i :: 0 <= i < |vars| ==> Leaf(row[elm][i])
  }

  /** Some element decreases and every element after it does not increase. */
  predicate LexDecreases(row: seq<seq<Expr>>, vars: seq<PrePost>, env: Valuation)
    requires RowShape(row, vars)
  {
    exists elm :: 0 <= elm < |row| && DecreasesAt(row, vars, env, elm)
  }

  predicate DecreasesAt(row: seq<seq<Expr>>, vars: seq<PrePost>, env: Valuation, elm: nat)
    requires RowShape(row, vars) && elm < |row|
  {
    DecreasesUpTo(row, vars, env, elm, |row|)
  }

  predicate DecreasesUpTo(row: seq<seq<Expr>>, vars: seq<PrePost>, env: Valuation, elm: nat, end: nat)
    requires RowShape(row, vars) && elm < end <= |row|
  {
    Decrease(row[elm], vars, env) > 0 &&
    forall later :: elm < later < end ==> Decrease(row[later], vars, env) >= 0
  }

  lemma AllHoldAppend(c: seq<Atom>, a: Atom, env: Valuation)
    ensures AllHold(c + [a], env) <==> AllHold(c, env) && AtomHolds(a, env)
  {
    assert (c + [a])[|c|] == a;
    assert forall j :: 0 <= j < |c| ==> (c + [a])[j] == c[j];
  }

  lemma FirstAtom(row: seq<seq<Expr>>, vars: seq<PrePost>, env: Valuation, elm: nat, sum: Expr)
    requires RowShape(row, vars) && elm < |row| && Machine(sum, env) == Decrease(row[elm], vars, env)
    ensures AllHold([Positive(sum)], env) <==> DecreasesUpTo(row, vars, env, elm, elm + 1)
  {
    AllHoldAppend([], Positive(sum), env);
    assert [] + [Positive(sum)] == [Positive(sum)];
  }

  lemma NextAtom(row: seq<seq<Expr>>, vars: seq<PrePost>, env: Valuation, elm: nat, end: nat, c: seq<Atom>, sum: Expr)
    requires RowShape(row, vars) && elm < end < |row| && Machine(sum, env) == Decrease(row[end], vars, env)
    requires AllHold(c, env) <==> DecreasesUpTo(row, vars, env, elm, end)
    ensures AllHold(c + [NonNegative(sum)], env) <==> DecreasesUpTo(row, vars, env, elm, end + 1)
  {
    AllHoldAppend(c, NonNegative(sum), env);
    OneLaterElement(row, vars, env, elm, end);
  }

  lemma OneLaterElement(row: seq<seq<Expr>>, vars: seq<PrePost>, env: Valuation, elm: nat, end: nat)
    requires RowShape(row, vars) && elm < end < |row|
    ensures DecreasesUpTo(row, vars, env, elm, end + 1) <==>
      DecreasesUpTo(row, vars, env, elm, end) && Decrease(row[end], vars, env) >= 0
  {
  }

  /** The conjunction for one element. */
  method BuildElement(row: seq<seq<Expr>>, vars: seq<PrePost>, elm: nat) returns (c: seq<Atom>)
    requires RowShape(row, vars) && elm < |row|
    ensures forall env: Valuation :: AllHold(c, env) <==> DecreasesAt(row, vars, env, elm)
  {
    var sum := BuildSum(row[elm], vars);
    c := [Positive(Extend(sum))];
    forall env: Valuation ensures AllHold(c, env) <==> DecreasesUpTo(row, vars, env, elm, elm + 1) {
      FirstAtom(row, vars, env, elm, Extend(sum));
    }
    for elm2 := elm + 1 to |row|
      invariant forall env: Valuation :: AllHold(c, env) <==> DecreasesUpTo(row, vars, env, elm, elm2)
    {
      ghost var before := c;
      var sum2 := BuildSum(row[elm2], vars);
      c := c + [NonNegative(Extend(sum2))];
      forall env: Valuation ensures AllHold(c, env) <==> DecreasesUpTo(row, vars, env, elm, elm2 + 1) {
        NextAtom(row, vars, env, elm, elm2, before, Extend(sum2));
      }
    }
  }

  /** The condition the outer solver checks on a row of constant coefficients: read in machine
      arithmetic, it is the exact lexicographic decrease. */
  method BuildRowCondition(row: seq<seq<Expr>>, vars: seq<PrePost>) returns (cond: Condition)
    requires RowShape(row, vars)
    ensures forall env: Valuation :: ConditionHolds(cond, env) <==> LexDecreases(row, vars, env)
  {
    cond := [];
    for elm := 0 to |row|
      invariant |cond| == elm
      invariant forall k, env: Valuation :: 0 <= k < elm ==>
        (AllHold(cond[k], env) <==> DecreasesAt(row, vars, env, k))
    {
      var c := BuildElement(row, vars, elm);
      cond := cond + [c];
    }
  }

  // ----- Integer meaning of the two conditions -----

  /** Values of the coefficients of a row, and of the program variables in a state. */
  type Coefficients = seq<seq<int>>
  type State = seq<int>

  const COEFF_TYPE := Signed(10)

  predicate CoefficientsFit(k: Coefficients, n: nat) {
    forall elm :: 0 <= elm < |k| ==> |k[elm]| == n && forall i :: 0 <= i < n ==> -512 <= k[elm][i] <= 511
  }

  predicate StateFits(tys: seq<BvType>, s: State) {
    |s| == |tys| && forall i :: 0 <= i < |tys| ==> InRange(tys[i], s[i])
  }

  /** Value of a linear expression in a state. */
  function Value(c: seq<int>, s: State): int
    requires |c| <= |s|
  {
    if c == [] then 0
    else var n := |c| - 1; Value(c[..n], s) + c[n] * s[n]
  }

  /** The lexicographic order in the integers: some element decreases from `s` to `s'` and no
      later element, which is more significant, increases. */
  predicate LexStep(k: Coefficients, s: State, s': State)
    requires CoefficientsFit(k, |s|) && |s| == |s'|
  {
    exists elm :: 0 <= elm < |k| && StepsAt(k, s, s', elm)
  }

  predicate StepsAt(k: Coefficients, s: State, s': State, elm: nat)
    requires CoefficientsFit(k, |s|) && |s| == |s'| && elm < |k|
  {
    Value(k[elm], s) > Value(k[elm], s') &&
    forall later :: elm < later < |k| ==> Value(k[later], s) >= Value(k[later], s')
  }

  /** Outer check: constant coefficients over program variables. */
  function ConstantRow(k: Coefficients): seq<seq<Expr>> {
    seq(|k|, e requires 0 <= e < |k| => seq(|k[e]|, i requires 0 <= i < |k[e]| => Const(k[e][i], COEFF_TYPE)))
  }

  function ProgramVars(tys: seq<BvType>): seq<PrePost> {
    seq(|tys|, i requires 0 <= i < |tys| => PrePost(Symbol(Pre(i), tys[i]), Symbol(Post(i), tys[i])))
  }

  /** Inner check: unknown coefficients over the values of a counterexample. */
  function SymbolicRow(row: nat, size: nat, n: nat): seq<seq<Expr>> {
    seq(size, e requires 0 <= e < size => seq(n, i requires 0 <= i < n => Symbol(Coeff(row, e, i), COEFF_TYPE)))
  }

  function ModelVars(tys: seq<BvType>, s: State, s': State): seq<PrePost>
    requires |s| == |s'| == |tys|
  {
    seq(|tys|, i requires 0 <= i < |tys| => PrePost(Const(s[i], tys[i]), Const(s'[i], tys[i])))
  }

  /** The valuation gives the program variables the values of a transition. */
  ghost predicate ReadsTransition(env: Valuation, s: State, s': State) {
    |s| == |s'| && forall i: nat :: i < |s| ==> env(Pre(i)) == s[i] && env(Post(i)) == s'[i]
  }

  /** The valuation gives the unknowns of a row these coefficients, read at their 10 bits. */
  ghost predicate ReadsCoefficients(env: Valuation, row: nat, k: Coefficients) {
    forall elm: nat, i: nat :: elm < |k| && i < |k[elm]| ==> Wrap(COEFF_TYPE, env(Coeff(row, elm, i))) == k[elm][i]
  }

  /** On the first `n` variables, the exact decrease is the difference of the integer values. */
  lemma {:induction false} DecreaseIsInteger(
    c: seq<Expr>, vars: seq<PrePost>, env: Valuation, k: seq<int>, s: State, s': State, n: nat)
    requires n <= |c| == |k| <= |s| == |s'| == |vars|
    requires forall i :: 0 <= i < |c| ==> Exact(c[i], env) == k[i]
    requires forall i :: 0 <= i < |c| ==> Exact(vars[i].pre, env) == s[i] && Exact(vars[i].post, env) == s'[i]
    ensures Decrease(c[..n], vars, env) == Value(k[..n], s) - Value(k[..n], s')
  {
    if n > 0 {
      var m := n - 1;
      DecreaseIsInteger(c, vars, env, k, s, s', m);
      DecreaseOneMore(c, vars, m, env);
      ValueOneMore(k, s, m);
      ValueOneMore(k, s', m);
      TermIsInteger(c[m], vars[m], env, k[m], s[m], s'[m]);
    }
  }

  lemma ValueOneMore(k: seq<int>, s: State, n: nat)
    requires n < |k| <= |s|
    ensures Value(k[..n + 1], s) == Value(k[..n], s) + k[n] * s[n]
  {
    assert k[..n + 1][..n] == k[..n];
  }

  lemma TermIsInteger(c: Expr, p: PrePost, env: Valuation, k: int, x: int, x': int)
    requires Exact(c, env) == k && Exact(p.pre, env) == x && Exact(p.post, env) == x'
    ensures Exact(Term(c, p), env) == k * x - k * x'
  {
    Distribute(k, x, x');
  }

  lemma Distribute(k: int, x: int, y: int)
    ensures k * (x - y) == k * x - k * y
  {
  }

  lemma LexIsInteger(row: seq<seq<Expr>>, vars: seq<PrePost>, env: Valuation, k: Coefficients, s: State, s': State)
    requires RowShape(row, vars) && |row| == |k| && |s| == |s'| == |vars| && CoefficientsFit(k, |s|)
    requires forall e, i :: 0 <= e < |k| && 0 <= i < |vars| ==> Exact(row[e][i], env) == k[e][i]
    requires forall i :: 0 <= i < |vars| ==> Exact(vars[i].pre, env) == s[i] && Exact(vars[i].post, env) == s'[i]
    ensures LexDecreases(row, vars, env) <==> LexStep(k, s, s')
  {
    forall e | 0 <= e < |k| ensures Decrease(row[e], vars, env) == Value(k[e], s) - Value(k[e], s') {
      DecreaseIsInteger(row[e], vars, env, k[e], s, s', |k[e]|);
      assert row[e][..|k[e]|] == row[e] && k[e][..|k[e]|] == k[e];
    }
    forall e | 0 <= e < |k| ensures DecreasesAt(row, vars, env, e) <==> StepsAt(k, s, s', e) {
    }
  }

  lemma CoefficientRange()
    ensures Smallest(COEFF_TYPE) == -512 && Largest(COEFF_TYPE) == 511
  {
    assert Pow2(9) == 512;
  }

  /** The outer check of a row with coefficients `k` speaks of `LexStep`. */
  lemma OuterCheckMeans(k: Coefficients, tys: seq<BvType>, s: State, s': State, env: Valuation)
    requires |tys| >= 1 && StateFits(tys, s) && StateFits(tys, s') && CoefficientsFit(k, |tys|)
    requires ReadsTransition(env, s, s')
    ensures RowShape(ConstantRow(k), ProgramVars(tys))
    ensures LexDecreases(ConstantRow(k), ProgramVars(tys), env) <==> LexStep(k, s, s')
  {
    CoefficientRange();
    LexIsInteger(ConstantRow(k), ProgramVars(tys), env, k, s, s');
  }

  /** The inner check on the counterexample `(s, s')` asks for coefficients with the same
      `LexStep`: the two encodings are dual. */
  lemma InnerCheckMeans(row: nat, k: Coefficients, tys: seq<BvType>, s: State, s': State, env: Valuation)
    requires |tys| >= 1 && StateFits(tys, s) && StateFits(tys, s') && CoefficientsFit(k, |tys|)
    requires ReadsCoefficients(env, row, k)
    ensures RowShape(SymbolicRow(row, |k|, |tys|), ModelVars(tys, s, s'))
    ensures LexDecreases(SymbolicRow(row, |k|, |tys|), ModelVars(tys, s, s'), env) <==> LexStep(k, s, s')
  {
    CoefficientRange();
    LexIsInteger(SymbolicRow(row, |k|, |tys|), ModelVars(tys, s, s'), env, k, s, s');
  }
}
