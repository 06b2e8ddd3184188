/** Why a verified row of a lexicographic ranking argument proves termination: with 10-bit
    coefficients over bit-vector states, every run of guarded iterations is shorter than an
    explicit bound (src/domains/lexlinrank_domain.cpp). */
module RankedRuns {
  import opened Bitvectors
  import opened Powers
  import opened Widths
  import opened LexRanking

  /** How far apart two values of one element can be: 512 * (2^width - 1) per variable. */
  function Spread(tys: seq<BvType>): nat {
    if tys == [] then 0
    else var n := |tys| - 1; Spread(tys[..n]) + 512 * (Pow2(tys[n].width) - 1)
  }

  lemma {:induction false} SpreadUniform(tys: seq<BvType>, w: Width)
    requires forall i :: 0 <= i < |tys| ==> tys[i].width == w
    ensures Spread(tys) == 512 * |tys| * (Pow2(w) - 1)
  {
    if tys != [] {
      var n := |tys| - 1;
      SpreadUniform(tys[..n], w);
      var m := Pow2(w) - 1;
      assert 512 * (n + 1) * m == 512 * n * m + 512 * m;
    }
  }

  /** Least value of a linear expression over all states. */
  function Floor(c: seq<int>, tys: seq<BvType>): int
    requires |c| <= |tys|
  {
    if c == [] then 0
    else
      var n := |c| - 1;
      Floor(c[..n], tys) + c[n] * (if c[n] >= 0 then Smallest(tys[n]) else Largest(tys[n]))
  }

  lemma TermInSpread(c: int, t: BvType, x: int)
    requires -512 <= c <= 511 && InRange(t, x)
    ensures 0 <= c * x - c * (if c >= 0 then Smallest(t) else Largest(t)) <= 512 * (Pow2(t.width) - 1)
  {
    var m := Pow2(t.width) - 1;
    assert Largest(t) - Smallest(t) == m;
    if c >= 0 {
      DistanceTerm(c, x, Smallest(t));
      ScaledDistance(c, x - Smallest(t), m);
    } else {
      DistanceTerm(c, x, Largest(t));
      ScaledDistance(-c, Largest(t) - x, m);
    }
  }

  lemma DistanceTerm(c: int, x: int, y: int)
    ensures c * x - c * y == c * (x - y) == -c * (y - x)
  {
  }

  lemma ScaledDistance(c: int, d: int, m: int)
    requires 0 <= c <= 512 && 0 <= d <= m
    ensures 0 <= c * d <= 512 * m
  {
    MulOrder(c, 0, d);
    MulOrder(d, c, 512);
  }

  lemma {:induction false} ValueInSpread(c: seq<int>, tys: seq<BvType>, s: State)
    requires |c| == |tys| && StateFits(tys, s)
    requires forall i :: 0 <= i < |c| ==> -512 <= c[i] <= 511
    ensures 0 <= Value(c, s) - Floor(c, tys) <= Spread(tys)
  {
    if c != [] {
      var n := |c| - 1;
      ValueInSpread(c[..n], tys[..n], s[..n]);
      PrefixValue(c[..n], s, tys);
      TermInSpread(c[n], tys[n], s[n]);
    }
  }

  lemma {:induction false} PrefixValue(c: seq<int>, s: State, tys: seq<BvType>)
    requires |c| < |s| == |tys|
    ensures Value(c, s[..|s| - 1]) == Value(c, s)
    ensures Floor(c, tys[..|tys| - 1]) == Floor(c, tys)
  {
    if c != [] {
      PrefixValue(c[..|c| - 1], s, tys);
    }
  }

  /** A state's tuple of element values as one number, the last element most significant. */
  function Code(k: Coefficients, tys: seq<BvType>, s: State): int
    requires CoefficientsFit(k, |tys|) && StateFits(tys, s)
  {
    if k == [] then 0
    else
      var n := |k| - 1;
      Code(k[..n], tys, s) + (Value(k[n], s) - Floor(k[n], tys)) * Power(Spread(tys) + 1, n)
  }

  lemma {:induction false} CodeBounded(k: Coefficients, tys: seq<BvType>, s: State)
    requires CoefficientsFit(k, |tys|) && StateFits(tys, s)
    ensures 0 <= Code(k, tys, s) < Power(Spread(tys) + 1, |k|)
  {
    if k != [] {
      var n := |k| - 1;
      var d, p := Value(k[n], s) - Floor(k[n], tys), Power(Spread(tys) + 1, n);
      CodeBounded(k[..n], tys, s);
      ValueInSpread(k[n], tys, s);
      DigitBounds(d, p, Spread(tys));
    }
  }

  lemma DigitBounds(d: int, p: nat, spread: nat)
    requires 0 <= d <= spread
    ensures 0 <= d * p <= spread * p
    ensures (spread + 1) * p == spread * p + p
  {
    MulOrder(p, 0, d);
    MulOrder(p, d, spread);
  }

  lemma PrefixSteps(k: Coefficients, s: State, s': State, elm: nat)
    requires |s| == |s'| && CoefficientsFit(k, |s|) && elm < |k| - 1 && StepsAt(k, s, s', elm)
    ensures StepsAt(k[..|k| - 1], s, s', elm)
  {
    assert forall later :: elm <= later < |k| - 1 ==> k[..|k| - 1][later] == k[later];
  }

  /** A lexicographic step lowers the code. */
  lemma {:induction false} StepLowersCode(k: Coefficients, tys: seq<BvType>, s: State, s': State, elm: nat)
    requires CoefficientsFit(k, |tys|) && StateFits(tys, s) && StateFits(tys, s')
    requires elm < |k| && StepsAt(k, s, s', elm)
    ensures Code(k, tys, s) > Code(k, tys, s')
  {
    var n := |k| - 1;
    var p := Power(Spread(tys) + 1, n);
    var d, d' := Value(k[n], s) - Floor(k[n], tys), Value(k[n], s') - Floor(k[n], tys);
    CodeBounded(k[..n], tys, s);
    CodeBounded(k[..n], tys, s');
    if elm < n {
      PrefixSteps(k, s, s', elm);
      StepLowersCode(k[..n], tys, s, s', elm);
    }
    assert d > d' || (d == d' && Code(k[..n], tys, s) > Code(k[..n], tys, s'));
    DigitsDescend(Code(k[..n], tys, s), Code(k[..n], tys, s'), d, d', p);
  }

  lemma DigitsDescend(lo: int, lo': int, d: int, d': int, p: nat)
    requires 0 <= lo && lo' < p
    requires d > d' || (d == d' && lo > lo')
    ensures lo + d * p > lo' + d' * p
  {
    MulOrder(p, d', d);
    MulOrder(p, d' + 1, d);
    assert p * (d' + 1) == p * d' + p;
  }

  ghost predicate IsChain(k: Coefficients, tys: seq<BvType>, chain: seq<State>) {
    CoefficientsFit(k, |tys|) &&
    (forall j :: 0 <= j < |chain| ==> StateFits(tys, chain[j])) &&
    forall j :: 0 < j < |chain| ==> LexStep(k, chain[j - 1], chain[j])
  }

  lemma {:induction false} ChainDescends(k: Coefficients, tys: seq<BvType>, chain: seq<State>)
    requires IsChain(k, tys, chain) && |chain| >= 1
    ensures Code(k, tys, chain[0]) >= Code(k, tys, chain[|chain| - 1]) + |chain| - 1
  {
    if |chain| > 1 {
      var m := |chain| - 1;
      ChainDescends(k, tys, chain[..m]);
      assert chain[..m][m - 1] == chain[m - 1];
      var elm :| 0 <= elm < |k| && StepsAt(k, chain[m - 1], chain[m], elm);
      StepLowersCode(k, tys, chain[m - 1], chain[m], elm);
    }
  }

  lemma ChainIsShort(k: Coefficients, tys: seq<BvType>, chain: seq<State>)
    requires IsChain(k, tys, chain) && |chain| >= 1
    ensures |chain| - 1 < Power(Spread(tys) + 1, |k|)
  {
    ChainDescends(k, tys, chain);
    CodeBounded(k, tys, chain[0]);
    CodeBounded(k, tys, chain[|chain| - 1]);
  }

  /** The row's condition over program variables, as `BuildRowCondition` expresses it. */
  predicate RowCondition(k: Coefficients, tys: seq<BvType>, env: Valuation)
    requires |tys| >= 1 && CoefficientsFit(k, |tys|)
  {
    LexDecreases(ConstantRow(k), ProgramVars(tys), env)
  }

  /** Some solver valuation that satisfies the SSA and the guards makes this iteration. */
  ghost predicate Iterates(guarded: Valuation -> bool, s: State, s': State) {
    exists env: Valuation :: guarded(env) && ReadsTransition(env, s, s')
  }

  /** A verified row bounds every run: when no guarded valuation violates the row's condition,
      consecutive iterations make fewer than (Spread + 1)^elements steps. */
  lemma VerifiedRowBoundsRuns(k: Coefficients, tys: seq<BvType>, guarded: Valuation -> bool, chain: seq<State>)
    requires |tys| >= 1 && CoefficientsFit(k, |tys|) && |chain| >= 1
    requires forall env: Valuation :: guarded(env) ==> RowCondition(k, tys, env)
    requires forall j :: 0 <= j < |chain| ==> StateFits(tys, chain[j])
    requires forall j :: 0 < j < |chain| ==> Iterates(guarded, chain[j - 1], chain[j])
    ensures |chain| - 1 < Power(Spread(tys) + 1, |k|)
  {
    forall j | 0 < j < |chain| ensures LexStep(k, chain[j - 1], chain[j]) {
      var env: Valuation :| guarded(env) && ReadsTransition(env, chain[j - 1], chain[j]);
      OuterCheckMeans(k, tys, chain[j - 1], chain[j], env);
    }
    ChainIsShort(k, tys, chain);
  }
}
