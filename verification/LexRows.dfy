/** Rows of a lexicographic ranking argument (src/domains/lexlinrank_domain.cpp): their values, what
    the outer check says of them, the edits a row can go through, and what a verified argument and a
    row given up mean. */
module LexRows {
  import opened Bitvectors
  import opened Powers
  import opened Widths
  import opened LexRanking
  import opened RankedRuns
  import opened InnerSolver
  import LoopRuns

  /** An element is a marker or a vector of coefficients. */
  datatype Element = TrueMark | FalseMark | Coefficients(c: seq<int>)
  type RowValue = seq<Element>

  const MAX_REFINEMENT: nat := 2

  predicate IsTrue(v: RowValue)
    requires |v| > 0
  {
    v[0].TrueMark?
  }

  predicate IsFalse(v: RowValue)
    requires |v| > 0
  {
    v[0].FalseMark?
  }

  function Coefs(v: RowValue): Coefficients
    requires forall e :: 0 <= e < |v| ==> v[e].Coefficients?
  {
    seq(|v|, e requires 0 <= e < |v| => v[e].c)
  }

  function FalseRow(size: nat): RowValue {
    seq(size, _ => FalseMark)
  }

  /** A row is marked true, marked false throughout, or holds coefficients throughout. */
  predicate RowFits(v: RowValue, n: nat) {
    v == [TrueMark] || (|v| > 0 && v == FalseRow(|v|)) ||
    IsCandidate(v, n)
  }

  /** What an environment says of a row: whether pre- and post-guard hold, and the states. */
  datatype View = View(guard: bool, s: State, s': State)

  predicate ViewFits(tys: seq<BvType>, x: View) {
    StateFits(tys, x.s) && StateFits(tys, x.s')
  }

  /** The negated condition of a row holds of a view. */
  predicate RowFails(tys: seq<BvType>, v: RowValue, x: View)
    requires RowFits(v, |tys|) && ViewFits(tys, x)
  {
    if IsTrue(v) then false
    else if IsFalse(v) then x.guard
    else x.guard && !LexStep(Coefs(v), x.s, x.s')
  }

  /** A row has one element more than its counter says, until it is given up at its largest size. */
  predicate RowValid(tys: seq<BvType>, v: RowValue, elements: nat, max: nat) {
    |tys| >= 1 && RowFits(v, |tys|) && elements < max &&
    if IsTrue(v) then elements == max - 1 else |v| == elements + 1
  }

  /** The row holds coefficients. */
  predicate IsCandidate(v: RowValue, n: nat) {
    |v| > 0 && (forall e :: 0 <= e < |v| ==> v[e].Coefficients?) && CoefficientsFit(Coefs(v), n)
  }

  /** A candidate meets the lexicographic step on a counterexample recorded for its row. */
  predicate RecordMet(row: nat, tys: seq<BvType>, v: RowValue, a: Assertion)
    requires IsCandidate(v, |tys|)
  {
    a.Lex? && a.row == row && |a.s| == |a.s'| == |tys| ==> LexStep(Coefs(v), a.s, a.s')
  }

  // ----- The outer check -----

  /** One solution of the SSA, seen through the rows of the template. */
  type Env = seq<View>

  predicate EnvFits(templ: seq<seq<BvType>>, e: Env) {
    |e| == |templ| && forall r :: 0 <= r < |templ| ==> ViewFits(templ[r], e[r])
  }

  predicate RanksFit(templ: seq<seq<BvType>>, rank: seq<RowValue>) {
    |rank| == |templ| && forall r :: 0 <= r < |templ| ==> |templ[r]| >= 1 && RowFits(rank[r], |templ[r]|)
  }

  predicate SomeRowFails(templ: seq<seq<BvType>>, rank: seq<RowValue>, e: Env)
    requires RanksFit(templ, rank) && EnvFits(templ, e)
  {
    exists r :: 0 <= r < |templ| && RowFails(templ[r], rank[r], e[r])
  }

  /** No environment violates a row: the outer check is UNSAT, and the projected argument of
      every row holds on all guarded transitions. */
  ghost predicate Verified(templ: seq<seq<BvType>>, rank: seq<RowValue>, ctx: seq<Env>)
    requires RanksFit(templ, rank) && forall i :: 0 <= i < |ctx| ==> EnvFits(templ, ctx[i])
  {
    forall i :: 0 <= i < |ctx| ==> !SomeRowFails(templ, rank, ctx[i])
  }

  predicate SomeRowGivenUp(rank: seq<RowValue>)
    requires forall r :: 0 <= r < |rank| ==> |rank[r]| > 0
  {
    exists r :: 0 <= r < |rank| && IsTrue(rank[r])
  }

  function TransitionValuation(s: State, s': State): Valuation {
    (name: Name) =>
      match name
      case Pre(n) => if n < |s| then s[n] else 0
      case Post(n) => if n < |s'| then s'[n] else 0
      case Coeff(_, _, _) => 0
  }

  /** Some solution of the SSA makes this iteration under the row's guards. */
  ghost predicate Observed(ctx: seq<Env>, row: nat, s: State, s': State)
    requires forall i :: 0 <= i < |ctx| ==> row < |ctx[i]|
  {
    exists i :: 0 <= i < |ctx| && ctx[i][row] == View(true, s, s')
  }

  /** The valuation makes an iteration that some solution makes under the row's guards. */
  ghost predicate GuardedBy(templ: seq<seq<BvType>>, ctx: seq<Env>, row: nat, env: Valuation)
    requires row < |templ|
  {
    exists i :: 0 <= i < |ctx| && EnvFits(templ, ctx[i]) && ctx[i][row].guard &&
      ReadsTransition(env, ctx[i][row].s, ctx[i][row].s')
  }

  lemma GuardedMeets(templ: seq<seq<BvType>>, rank: seq<RowValue>, ctx: seq<Env>, row: nat, env: Valuation)
    requires RanksFit(templ, rank) && forall i :: 0 <= i < |ctx| ==> EnvFits(templ, ctx[i])
    requires Verified(templ, rank, ctx) && row < |templ| && !IsTrue(rank[row]) && GuardedBy(templ, ctx, row, env)
    ensures IsCandidate(rank[row], |templ[row]|) && RowCondition(Coefs(rank[row]), templ[row], env)
  {
    var i :| 0 <= i < |ctx| && EnvFits(templ, ctx[i]) && ctx[i][row].guard &&
      ReadsTransition(env, ctx[i][row].s, ctx[i][row].s');
    assert !RowFails(templ[row], rank[row], ctx[i][row]);
    OuterCheckMeans(Coefs(rank[row]), templ[row], ctx[i][row].s, ctx[i][row].s', env);
  }

  lemma ObservedIterates(templ: seq<seq<BvType>>, ctx: seq<Env>, row: nat, s: State, s': State) returns (env: Valuation)
    requires row < |templ| && forall i :: 0 <= i < |ctx| ==> EnvFits(templ, ctx[i]) && row < |ctx[i]|
    requires Observed(ctx, row, s, s') && |s| == |s'|
    ensures GuardedBy(templ, ctx, row, env) && ReadsTransition(env, s, s')
  {
    env := TransitionValuation(s, s');
  }

  /** A verified argument bounds the chains of iterations that the SSA's solutions make under the
      guards of a row not given up: they have fewer than (Spread + 1)^elements steps. */
  lemma SynthesisBoundsRuns(
    templ: seq<seq<BvType>>, rank: seq<RowValue>, ctx: seq<Env>, row: nat, chain: seq<State>)
    requires RanksFit(templ, rank) && forall i :: 0 <= i < |ctx| ==> EnvFits(templ, ctx[i])
    requires Verified(templ, rank, ctx) && row < |templ| && !IsTrue(rank[row])
    requires |chain| >= 1 && forall j :: 0 <= j < |chain| ==> StateFits(templ[row], chain[j])
    requires forall j :: 0 < j < |chain| ==> Observed(ctx, row, chain[j - 1], chain[j])
    ensures |chain| - 1 < Power(Spread(templ[row]) + 1, |rank[row]|)
  {
    if |chain| == 1 {
      PowerPositive(Spread(templ[row]) + 1, |rank[row]|);
    } else {
      var env0 := ObservedIterates(templ, ctx, row, chain[0], chain[1]);
      GuardedMeets(templ, rank, ctx, row, env0);
      CandidateBoundsRuns(templ, rank, ctx, row, Coefs(rank[row]), chain);
    }
  }

  lemma CandidateBoundsRuns(
    templ: seq<seq<BvType>>, rank: seq<RowValue>, ctx: seq<Env>, row: nat, k: Coefficients, chain: seq<State>)
    requires RanksFit(templ, rank) && forall i :: 0 <= i < |ctx| ==> EnvFits(templ, ctx[i])
    requires Verified(templ, rank, ctx) && row < |templ|
    requires IsCandidate(rank[row], |templ[row]|) && k == Coefs(rank[row])
    requires |chain| >= 1 && forall j :: 0 <= j < |chain| ==> StateFits(templ[row], chain[j])
    requires forall j :: 0 < j < |chain| ==> Observed(ctx, row, chain[j - 1], chain[j])
    ensures |chain| - 1 < Power(Spread(templ[row]) + 1, |k|)
  {
    var guarded := (env: Valuation) => GuardedBy(templ, ctx, row, env);
    forall env: Valuation | guarded(env) ensures RowCondition(k, templ[row], env) {
      GuardedMeets(templ, rank, ctx, row, env);
    }
    forall j | 0 < j < |chain| ensures Iterates(guarded, chain[j - 1], chain[j]) {
      var env := ObservedIterates(templ, ctx, row, chain[j - 1], chain[j]);
      assert guarded(env);
    }
    VerifiedRowBoundsRuns(k, templ[row], guarded, chain);
  }

  /** What a solution of a loop's SSA shows the rows: the condition at the back edge, and the rows'
      variables at the loop head and at the back edge. Unlike the invariant templates, a ranking
      template reads the loop head's values themselves (src/domains/template_generator_ranking.cpp). */
  function ViewsOf<S(!new)>(vars: seq<S -> State>, head: S, post: S, again: bool): Env {
    seq(|vars|, r requires 0 <= r < |vars| => View(again, vars[r](head), vars[r](post)))
  }

  ghost predicate IsSsaOf<S(!new)>(ctx: seq<Env>, loop: LoopRuns.Loop<S>, vars: seq<S -> State>) {
    forall e :: e in ctx <==>
      exists gls, lb, x0, post, again ::
        loop.init(x0) && loop.body(LoopRuns.Phi(gls, lb, x0), post, again) &&
        e == ViewsOf(vars, LoopRuns.Phi(gls, lb, x0), post, again)
  }

  /** The loop terminates: for a verified argument with a row not given up, every run from every
      initial state has fewer than (Spread + 1)^elements iterations. */
  lemma VerifiedLoopTerminates<S(!new)>(
    templ: seq<seq<BvType>>, rank: seq<RowValue>, ctx: seq<Env>, loop: LoopRuns.Loop<S>, vars: seq<S -> State>,
    row: nat, run: seq<S>)
    requires RanksFit(templ, rank) && forall i :: 0 <= i < |ctx| ==> EnvFits(templ, ctx[i])
    requires Verified(templ, rank, ctx) && row < |templ| == |vars| && !IsTrue(rank[row])
    requires IsSsaOf(ctx, loop, vars) && LoopRuns.IsRun(loop, run)
    requires forall s: S :: StateFits(templ[row], vars[row](s))
    ensures |run| - 1 < Power(Spread(templ[row]) + 1, |rank[row]|)
  {
    var chain := seq(|run|, j requires 0 <= j < |run| => vars[row](run[j]));
    forall j | 0 < j < |chain| ensures Observed(ctx, row, chain[j - 1], chain[j]) {
      var e := ViewsOf(vars, LoopRuns.Phi(true, run[j - 1], run[0]), run[j], true);
      assert loop.init(run[0]) && loop.body(LoopRuns.Phi(true, run[j - 1], run[0]), run[j], true);
      assert e in ctx;
      var i :| 0 <= i < |ctx| && ctx[i] == e;
      assert ctx[i][row] == View(true, chain[j - 1], chain[j]);
    }
    SynthesisBoundsRuns(templ, rank, ctx, row, chain);
  }

  // ----- Termination budget -----

  /** Elements the rows not given up can still grow by. */
  function Growth(rank: seq<RowValue>, elements: seq<nat>, max: nat): nat
    requires |rank| == |elements| && forall r :: 0 <= r < |rank| ==> |rank[r]| > 0 && elements[r] < max
  {
    if rank == [] then 0
    else
      var n := |rank| - 1;
      Growth(rank[..n], elements[..n], max) + if IsTrue(rank[n]) then 0 else max - elements[n]
  }

  /** The product `g * q`. */
  function Times(g: nat, q: nat): nat {
    if g == 0 then 0 else Times(g - 1, q) + q
  }

  lemma {:induction false} TimesIsProduct(g: nat, q: nat)
    ensures Times(g, q) == g * q
  {
    if g > 0 {
      TimesIsProduct(g - 1, q);
      assert (g - 1) * q + q == g * q;
    }
  }

  /** What the refinement levels still to come are worth. */
  function LevelsLeft(level: nat, q: nat): nat {
    if level == 0 then 2 * q else if level == 1 then q else 0
  }

  /** One unit of growth pays for resetting the refinement level and the iteration count. */
  lemma {:induction false} GrowthPays(g: nat, g': nat, q: nat)
    requires g' < g
    ensures Times(g', q) + q <= Times(g, q)
  {
    if g' + 1 < g {
      GrowthPays(g - 1, g', q);
    }
  }

  lemma {:induction false} GrowthAt(rank: seq<RowValue>, elements: seq<nat>, max: nat, row: nat, v: RowValue, m: nat)
    requires |rank| == |elements| && forall r :: 0 <= r < |rank| ==> |rank[r]| > 0 && elements[r] < max
    requires row < |rank| && |v| > 0 && m < max
    ensures Growth(rank[row := v], elements[row := m], max) ==
      Growth(rank, elements, max) - (if IsTrue(rank[row]) then 0 else max - elements[row]) +
      (if IsTrue(v) then 0 else max - m)
  {
    var n := |rank| - 1;
    if row == n {
      assert rank[row := v][..n] == rank[..n] && elements[row := m][..n] == elements[..n];
    } else {
      assert rank[row := v][..n] == rank[..n][row := v] && elements[row := m][..n] == elements[..n][row := m];
      GrowthAt(rank[..n], elements[..n], max, row, v, m);
    }
  }

  lemma {:induction false} GrowthOfNew(rank: seq<RowValue>, elements: seq<nat>, max: nat)
    requires |rank| == |elements| && max > 0
    requires forall r :: 0 <= r < |rank| ==> rank[r] == [FalseMark] && elements[r] == 0
    ensures Growth(rank, elements, max) == |rank| * max
  {
    if rank != [] {
      var n := |rank| - 1;
      GrowthOfNew(rank[..n], elements[..n], max);
      assert n * max + max == |rank| * max;
    }
  }

  /** The domain between edits; `exhausted` are the rows given up when no inner iterations were left. */
  datatype DomainState = DomainState(
    rank: seq<RowValue>, refinementLevel: nat, numberInnerIterations: nat, numberElementsPerRow: seq<nat>,
    innerSolver: seq<seq<Assertion>>, exhausted: set<nat>)

  /** The row has new coefficients, at the price of one inner iteration. */
  predicate Accepted(was: DomainState, now: DomainState, row: nat) {
    row < |was.rank| == |now.rank| && |now.rank[row]| == |was.rank[row]| &&
    now == was.(rank := was.rank[row := now.rank[row]], numberInnerIterations := was.numberInnerIterations + 1)
  }

  /** The next refinement level is to be tried. */
  predicate Widened(was: DomainState, now: DomainState) {
    was.refinementLevel < MAX_REFINEMENT && now == was.(refinementLevel := was.refinementLevel + 1)
  }

  /** After the last level the row has grown by an element, and everything starts over. */
  predicate Grown(was: DomainState, now: DomainState, row: nat) {
    row < |was.rank| == |was.numberElementsPerRow| && was.refinementLevel == MAX_REFINEMENT &&
    now == DomainState(was.rank[row := FalseRow(|was.rank[row]| + 1)], 0, 0,
      was.numberElementsPerRow[row := was.numberElementsPerRow[row] + 1], [[]], was.exhausted)
  }

  /** After the last level the row, at its largest size, is marked true. */
  predicate GivenUp(was: DomainState, now: DomainState, row: nat, maxIterations: nat) {
    row < |was.rank| && was.refinementLevel == MAX_REFINEMENT &&
    now == was.(rank := was.rank[row := [TrueMark]], refinementLevel := 0,
      exhausted := was.exhausted + if was.numberInnerIterations < maxIterations then {} else {row})
  }

  predicate Rejected(was: DomainState, now: DomainState, row: nat, maxIterations: nat) {
    Widened(was, now) || Grown(was, now, row) || GivenUp(was, now, row, maxIterations)
  }

  /** Sizes of the rows, given up or not, from their counters. */
  function Sizes(numberElementsPerRow: seq<nat>): (sizes: seq<nat>)
    ensures |sizes| == |numberElementsPerRow|
  {
    seq(|numberElementsPerRow|, r requires 0 <= r < |numberElementsPerRow| => numberElementsPerRow[r] + 1)
  }

  // ----- What giving up means -----

  /** The counterexample was seen in a solution of the SSA. */
  predicate SeenIn(ctx: seq<Env>, a: Assertion) {
    a.Lex? && exists i :: 0 <= i < |ctx| && a.row < |ctx[i]| && ctx[i][a.row] == View(true, a.s, a.s')
  }

  predicate AllSeen(ctx: seq<Env>, records: seq<Assertion>) {
    forall a :: 0 <= a < |records| ==> SeenIn(ctx, records[a])
  }

  predicate Ranks(k: Coefficients, n: nat, x: View)
    requires CoefficientsFit(k, n)
  {
    |x.s| == |x.s'| == n && (x.guard ==> LexStep(k, x.s, x.s'))
  }

  /** The coefficients make the lexicographic step on all guarded iterations of the row. */
  predicate RanksAll(ctx: seq<Env>, row: nat, n: nat, k: Coefficients) {
    CoefficientsFit(k, n) && forall i :: 0 <= i < |ctx| ==> row < |ctx[i]| && Ranks(k, n, ctx[i][row])
  }

  /** No tuple of at most `size` elements ranks the row. */
  ghost predicate Hopeless(ctx: seq<Env>, row: nat, n: nat, size: nat) {
    forall k: Coefficients :: |k| <= size ==> !RanksAll(ctx, row, n, k)
  }

  /** Records of a row that cannot be met show that the row has no ranking of its size or less. */
  lemma UnmetIsHopeless(templ: seq<seq<BvType>>, sizes: seq<nat>, ctx: seq<Env>, records: seq<Assertion>, row: nat)
    requires RecordsFit(templ, sizes, records) && row < |templ| && AllSeen(ctx, records)
    requires !Rankable(records, row, sizes[row], |templ[row]|, FULL_RANGE)
    ensures Hopeless(ctx, row, |templ[row]|, sizes[row])
  {
    forall k: Coefficients | |k| <= sizes[row] ensures !RanksAll(ctx, row, |templ[row]|, k) {
      if RanksAll(ctx, row, |templ[row]|, k) {
        PaddedMeets(ctx, records, row, |templ[row]|, k, sizes[row]);
      }
    }
  }

  lemma PaddedMeets(ctx: seq<Env>, records: seq<Assertion>, row: nat, n: nat, k: Coefficients, size: nat)
    requires AllSeen(ctx, records) && RanksAll(ctx, row, n, k) && |k| <= size
    ensures Rankable(records, row, size, n, FULL_RANGE)
  {
    var p := Padded(k, n, size);
    forall a | 0 <= a < |records| ensures MeetsRecord(records[a], row, n, p) {
      assert SeenIn(ctx, records[a]);
      if records[a].row == row && |records[a].s| == |records[a].s'| == n {
        var i :| 0 <= i < |ctx| && row < |ctx[i]| && ctx[i][row] == View(true, records[a].s, records[a].s');
        assert Ranks(k, n, ctx[i][row]);
        PaddedSteps(k, size, records[a].s, records[a].s');
      }
    }
    assert MeetsRecords(records, row, n, p) && InRangeOf(p, FULL_RANGE);
  }

  /** A verified row that was not given up has a ranking of its size. */
  lemma VerifiedIsRanked(templ: seq<seq<BvType>>, rank: seq<RowValue>, ctx: seq<Env>, row: nat, size: nat)
    requires RanksFit(templ, rank) && forall i :: 0 <= i < |ctx| ==> EnvFits(templ, ctx[i])
    requires Verified(templ, rank, ctx) && row < |templ| && !IsTrue(rank[row]) && |rank[row]| <= size
    ensures !Hopeless(ctx, row, |templ[row]|, size)
  {
    var n := |templ[row]|;
    var k := if IsCandidate(rank[row], n) then Coefs(rank[row]) else [];
    forall i | 0 <= i < |ctx| ensures row < |ctx[i]| && Ranks(k, n, ctx[i][row]) {
      assert EnvFits(templ, ctx[i]) && !RowFails(templ[row], rank[row], ctx[i][row]);
    }
    assert RanksAll(ctx, row, n, k);
  }

  /** Why a row was given up: no inner iterations were left, or the row has no ranking with the elements
      it may have, or the solver kept records of another row that has none even of one element. */
  ghost predicate Explained(templ: seq<seq<BvType>>, ctx: seq<Env>, exhausted: set<nat>, maxElements: nat, r: nat)
    requires r < |templ|
  {
    r in exhausted || Hopeless(ctx, r, |templ[r]|, maxElements) || AnotherHopeless(templ, ctx, r)
  }

  ghost predicate AnotherHopeless(templ: seq<seq<BvType>>, ctx: seq<Env>, r: nat) {
    exists r': nat :: r' < |templ| && r' != r && Hopeless(ctx, r', |templ[r']|, 1)
  }

  /** All that the inner solver knows was seen, and for every row given up there is a reason. */
  ghost predicate Informed(
    templ: seq<seq<BvType>>, ctx: seq<Env>, st: DomainState, limits: Limits)
    requires StateFitsTempl(templ, st, limits)
  {
    AllSeen(ctx, st.innerSolver[0]) && AllExplained(templ, ctx, st.rank, st.exhausted, limits.elements) &&
    (forall r :: r in st.exhausted ==> r < |templ| && IsTrue(st.rank[r])) &&
    (|templ| == 1 && 0 in st.exhausted ==> st.numberInnerIterations >= limits.iterations)
  }

  ghost predicate AllExplained(
    templ: seq<seq<BvType>>, ctx: seq<Env>, rank: seq<RowValue>, exhausted: set<nat>, maxElements: nat)
    requires RanksFit(templ, rank)
  {
    forall r: nat :: r < |templ| && IsTrue(rank[r]) ==> Explained(templ, ctx, exhausted, maxElements, r)
  }

  /** Some row before `row` that the solution violated was edited and not given up. */
  predicate SomeKept(templ: seq<seq<BvType>>, e: Env, was: seq<RowValue>, now: seq<RowValue>, row: nat)
    requires RanksFit(templ, was) && RanksFit(templ, now) && EnvFits(templ, e) && row <= |templ|
  {
    exists r :: 0 <= r < row && RowFails(templ[r], was[r], e[r]) && !IsTrue(now[r])
  }

  lemma NextKept(templ: seq<seq<BvType>>, e: Env, was: seq<RowValue>, mid: seq<RowValue>, now: seq<RowValue>, row: nat)
    requires RanksFit(templ, was) && RanksFit(templ, mid) && RanksFit(templ, now) && EnvFits(templ, e)
    requires row < |templ| && now == mid[row := now[row]]
    ensures SomeKept(templ, e, was, now, row + 1) <==>
      SomeKept(templ, e, was, mid, row) || (RowFails(templ[row], was[row], e[row]) && !IsTrue(now[row]))
  {
    if SomeKept(templ, e, was, mid, row) {
      var r :| 0 <= r < row && RowFails(templ[r], was[r], e[r]) && !IsTrue(mid[r]);
      assert now[r] == mid[r];
    }
  }

  lemma StillSeen(ctx: seq<Env>, e: Env, row: nat, records: seq<Assertion>, asked: seq<Assertion>)
    requires AllSeen(ctx, records) && e in ctx && row < |e| && e[row].guard
    requires |asked| > 0 && asked[..|asked| - 1] == records
    requires var a := asked[|asked| - 1]; a.Lex? && a.row == row && a.s == e[row].s && a.s' == e[row].s'
    ensures AllSeen(ctx, asked) && AllSeen(ctx, [])
  {
    var i :| 0 <= i < |ctx| && ctx[i] == e;
    forall a | 0 <= a < |asked| ensures SeenIn(ctx, asked[a]) {
      if a < |asked| - 1 {
        assert asked[a] == records[a];
      } else {
        assert ctx[i][row] == View(true, asked[a].s, asked[a].s');
      }
    }
  }

  lemma OneRowChanges(was: DomainState, now: DomainState, row: nat, maxIterations: nat)
    requires row < |was.rank| && (Accepted(was, now, row) || Rejected(was, now, row, maxIterations))
    ensures |now.rank| == |was.rank| && now.rank == was.rank[row := now.rank[row]]
  {
  }

  // ----- Edits and iterations -----

  /** A counterexample to the row has joined the records. */
  predicate RecordedOn(asked: seq<Assertion>, records: seq<Assertion>, row: nat, x: View) {
    |asked| > 0 && asked[..|asked| - 1] == records &&
    var a := asked[|asked| - 1]; a.Lex? && a.row == row && a.s == x.s && a.s' == x.s'
  }

  /** The row's coefficients lie in the range and meet all records. */
  predicate NewCandidate(tys: seq<BvType>, asked: seq<Assertion>, row: nat, v: RowValue, range: (int, int)) {
    IsCandidate(v, |tys|) && InRangeOf(Coefs(v), range) &&
    forall a :: 0 <= a < |asked| ==> RecordMet(row, tys, v, asked[a])
  }

  /** One edit of a row, with these records: new coefficients exactly when inner iterations are left,
      the row's own records can be met in the range of the level, and those of every other row can be
      met at all. */
  ghost predicate Edit(templ: seq<seq<BvType>>, was: DomainState, now: DomainState, asked: seq<Assertion>, row: nat,
                       maxIterations: nat)
    requires row < |templ| == |was.rank| == |was.numberElementsPerRow|
  {
    var before, range := was.(innerSolver := [asked]), RefinementRange(was.refinementLevel);
    RecordsFit(templ, Sizes(was.numberElementsPerRow), asked) &&
    if was.numberInnerIterations < maxIterations &&
       AllRankable(templ, Sizes(was.numberElementsPerRow), asked, row, range, |templ|)
    then Accepted(before, now, row) && NewCandidate(templ[row], asked, row, now.rank[row], range)
    else Rejected(before, now, row, maxIterations)
  }

  /** How many elements a row, and how many iterations the inner solver, may have. */
  datatype Limits = Limits(elements: nat, iterations: nat)

  predicate StateFitsTempl(templ: seq<seq<BvType>>, st: DomainState, limits: Limits) {
    |st.rank| == |st.numberElementsPerRow| == |templ| && |st.innerSolver| >= 1 &&
    forall r :: 0 <= r < |templ| ==> RowValid(templ[r], st.rank[r], st.numberElementsPerRow[r], limits.elements)
  }

  /** One edit of a row on a counterexample. */
  ghost predicate EditStep(
    templ: seq<seq<BvType>>, was: DomainState, now: DomainState, row: nat, x: View, limits: Limits)
    requires StateFitsTempl(templ, was, limits) && row < |templ|
  {
    exists asked ::
      RecordedOn(asked, was.innerSolver[0], row, x) && Edit(templ, was, now, asked, row, limits.iterations)
  }

  ghost predicate StatesFit(templ: seq<seq<BvType>>, states: seq<DomainState>, limits: Limits) {
    |states| > 0 && forall j :: 0 <= j < |states| ==> StateFitsTempl(templ, states[j], limits)
  }

  /** What becomes of a row in an iteration that started from `steps[0]`: if the solution violates it, it
      is edited. */
  ghost predicate TurnAt(templ: seq<seq<BvType>>, e: Env, steps: seq<DomainState>, row: nat, limits: Limits)
    requires EnvFits(templ, e) && StatesFit(templ, steps, limits) && row + 1 < |steps| <= |templ| + 1
  {
    if RowFails(templ[row], steps[0].rank[row], e[row])
    then EditStep(templ, steps[row], steps[row + 1], row, e[row], limits)
    else steps[row + 1] == steps[row]
  }

  /** The rows that the solution violates are edited in turn. */
  ghost predicate EditsInTurn(templ: seq<seq<BvType>>, e: Env, steps: seq<DomainState>, limits: Limits)
    requires EnvFits(templ, e)
  {
    StatesFit(templ, steps, limits) && |steps| <= |templ| + 1 &&
    forall row: nat :: row + 1 < |steps| ==> TurnAt(templ, e, steps, row, limits)
  }

  lemma EditsGrow(templ: seq<seq<BvType>>, e: Env, steps: seq<DomainState>, now: DomainState, limits: Limits)
    requires EnvFits(templ, e) && EditsInTurn(templ, e, steps, limits) && |steps| <= |templ|
    requires StateFitsTempl(templ, now, limits)
    requires var row := |steps| - 1;
      if RowFails(templ[row], steps[0].rank[row], e[row])
      then EditStep(templ, steps[row], now, row, e[row], limits)
      else now == steps[row]
    ensures EditsInTurn(templ, e, steps + [now], limits)
  {
    forall row: nat | row + 1 < |steps| + 1 ensures TurnAt(templ, e, steps + [now], row, limits) {
      if row + 1 < |steps| {
        assert TurnAt(templ, e, steps, row, limits);
      }
    }
  }

  /** An iteration that has come to `row`, with an improvement if some row edited was not given up. */
  ghost predicate InProgress(templ: seq<seq<BvType>>, e: Env, was: DomainState, now: DomainState,
                             steps: seq<DomainState>, row: nat, improved: bool, limits: Limits)
    requires EnvFits(templ, e)
  {
    EditsInTurn(templ, e, steps, limits) && |steps| == row + 1 && steps[0] == was && steps[row] == now &&
    (improved <==> SomeKept(templ, e, was.rank, now.rank, row))
  }

  lemma NextInProgress(templ: seq<seq<BvType>>, e: Env, was: DomainState, mid: DomainState, now: DomainState,
                       steps: seq<DomainState>, row: nat, did: bool, improved: bool, limits: Limits)
    requires EnvFits(templ, e) && InProgress(templ, e, was, mid, steps, row, did, limits) && row < |templ|
    requires StateFitsTempl(templ, now, limits)
    requires if RowFails(templ[row], was.rank[row], e[row])
      then EditStep(templ, mid, now, row, e[row], limits) && (improved <==> did || !IsTrue(now.rank[row]))
      else now == mid && improved == did
    ensures InProgress(templ, e, was, now, steps + [now], row + 1, improved, limits)
  {
    EditsGrow(templ, e, steps, now, limits);
    if RowFails(templ[row], was.rank[row], e[row]) {
      EditChangesRow(templ, mid, now, row, e[row], limits);
    }
    NextKept(templ, e, was.rank, mid.rank, now.rank, row);
  }

  lemma NextUntouched(templ: seq<seq<BvType>>, e: Env, was: DomainState, mid: DomainState, steps: seq<DomainState>,
                      row: nat, did: bool, limits: Limits)
    requires EnvFits(templ, e) && InProgress(templ, e, was, mid, steps, row, did, limits) && row < |templ|
    ensures mid.rank[row] == was.rank[row]
  {
    OthersUntouched(templ, e, steps, row, limits, row);
  }

  /** One iteration: when the outer check is UNSAT only the level is reset; otherwise the rows that some
      solution violates are edited in turn, with an improvement if one of them was not given up. */
  ghost predicate Iteration(
    templ: seq<seq<BvType>>, ctx: seq<Env>, was: DomainState, now: DomainState, improved: bool, limits: Limits)
    requires StateFitsTempl(templ, was, limits) && forall i :: 0 <= i < |ctx| ==> EnvFits(templ, ctx[i])
  {
    if Verified(templ, was.rank, ctx) then now == was.(refinementLevel := 0) && !improved
    else exists i, steps :: 0 <= i < |ctx| && IterationOn(templ, ctx[i], was, now, steps, improved, limits)
  }

  ghost predicate IterationOn(templ: seq<seq<BvType>>, e: Env, was: DomainState, now: DomainState,
                              steps: seq<DomainState>, improved: bool, limits: Limits)
    requires EnvFits(templ, e)
  {
    InProgress(templ, e, was, now, steps, |templ|, improved, limits) && SomeRowFails(templ, was.rank, e)
  }

  ghost predicate IterationAt(
    templ: seq<seq<BvType>>, ctx: seq<Env>, run: seq<DomainState>, j: nat, improved: bool, limits: Limits)
    requires StatesFit(templ, run, limits) && (forall i :: 0 <= i < |ctx| ==> EnvFits(templ, ctx[i])) && j + 1 < |run|
  {
    Iteration(templ, ctx, run[j], run[j + 1], j + 2 < |run| || improved, limits)
  }

  /** The iterations of a synthesis, each with an improvement, up to the last that is told. */
  ghost predicate IsSynthesis(
    templ: seq<seq<BvType>>, ctx: seq<Env>, run: seq<DomainState>, improved: bool, limits: Limits)
    requires forall i :: 0 <= i < |ctx| ==> EnvFits(templ, ctx[i])
  {
    StatesFit(templ, run, limits) &&
    forall j: nat :: j + 1 < |run| ==> IterationAt(templ, ctx, run, j, improved, limits)
  }

  lemma SynthesisGrows(templ: seq<seq<BvType>>, ctx: seq<Env>, run: seq<DomainState>, now: DomainState, improved: bool,
                       limits: Limits)
    requires forall i :: 0 <= i < |ctx| ==> EnvFits(templ, ctx[i])
    requires IsSynthesis(templ, ctx, run, true, limits) && StateFitsTempl(templ, now, limits)
    requires Iteration(templ, ctx, run[|run| - 1], now, improved, limits)
    ensures IsSynthesis(templ, ctx, run + [now], improved, limits)
  {
    forall j: nat | j + 1 < |run| + 1 ensures IterationAt(templ, ctx, run + [now], j, improved, limits) {
      if j + 1 < |run| {
        assert IterationAt(templ, ctx, run, j, true, limits);
      }
    }
  }

  /** Rows that the solution does not violate, or that are still to come, are as they were. */
  lemma {:induction false} OthersUntouched(
    templ: seq<seq<BvType>>, e: Env, steps: seq<DomainState>, k: nat, limits: Limits, row: nat)
    requires EnvFits(templ, e) && EditsInTurn(templ, e, steps, limits) && k < |steps| && row < |templ|
    requires row >= k || !RowFails(templ[row], steps[0].rank[row], e[row])
    ensures steps[k].rank[row] == steps[0].rank[row]
  {
    if k > 0 {
      OthersUntouched(templ, e, steps, k - 1, limits, row);
      assert TurnAt(templ, e, steps, k - 1, limits);
      if RowFails(templ[k - 1], steps[0].rank[k - 1], e[k - 1]) {
        EditChangesRow(templ, steps[k - 1], steps[k], k - 1, e[k - 1], limits);
      }
    }
  }

  /** New coefficients make the lexicographic step on the counterexample. */
  lemma NewCoefficientsStep(
    templ: seq<seq<BvType>>, was: DomainState, now: DomainState, row: nat, x: View, limits: Limits)
    requires StateFitsTempl(templ, was, limits) && row < |templ| && ViewFits(templ[row], x)
    requires EditStep(templ, was, now, row, x, limits) && now.numberInnerIterations > was.numberInnerIterations
    ensures |now.rank| == |templ| && IsCandidate(now.rank[row], |templ[row]|)
    ensures LexStep(Coefs(now.rank[row]), x.s, x.s')
  {
    var asked :| RecordedOn(asked, was.innerSolver[0], row, x) &&
      Edit(templ, was, now, asked, row, limits.iterations);
    assert RecordMet(row, templ[row], now.rank[row], asked[|asked| - 1]);
  }

  lemma EditChangesRow(templ: seq<seq<BvType>>, was: DomainState, now: DomainState, row: nat, x: View, limits: Limits)
    requires StateFitsTempl(templ, was, limits) && StateFitsTempl(templ, now, limits) && row < |templ|
    requires EditStep(templ, was, now, row, x, limits)
    ensures now.rank == was.rank[row := now.rank[row]]
  {
    var asked :| RecordedOn(asked, was.innerSolver[0], row, x) &&
      Edit(templ, was, now, asked, row, limits.iterations);
    OneRowChanges(was.(innerSolver := [asked]), now, row, limits.iterations);
  }

  // ----- Why rows are given up -----

  lemma HopelessShorter(ctx: seq<Env>, row: nat, n: nat, size: nat, shorter: nat)
    requires Hopeless(ctx, row, n, size) && shorter <= size
    ensures Hopeless(ctx, row, n, shorter)
  {
  }

  /** A row rejected at its largest size, with inner iterations left, has a reason. */
  lemma UnmetIsExplained(templ: seq<seq<BvType>>, sizes: seq<nat>, ctx: seq<Env>, records: seq<Assertion>, row: nat,
                         exhausted: set<nat>)
    requires RecordsFit(templ, sizes, records) && row < |templ| && AllSeen(ctx, records)
    requires forall r :: 0 <= r < |sizes| ==> sizes[r] >= 1
    requires !AllRankable(templ, sizes, records, row, FULL_RANGE, |templ|)
    ensures Explained(templ, ctx, exhausted, sizes[row], row)
  {
    var r: nat :| r < |templ| && !Rankable(records, r, sizes[r], |templ[r]|, RangeFor(row, FULL_RANGE, r));
    UnmetIsHopeless(templ, sizes, ctx, records, r);
    HopelessShorter(ctx, r, |templ[r]|, sizes[r], 1);
  }

  lemma StaysInformed(templ: seq<seq<BvType>>, ctx: seq<Env>, was: DomainState, now: DomainState, row: nat, e: Env,
                      limits: Limits)
    requires StateFitsTempl(templ, was, limits) && StateFitsTempl(templ, now, limits) && row < |templ|
    requires Informed(templ, ctx, was, limits) && !IsTrue(was.rank[row])
    requires e in ctx && row < |e| && e[row].guard && EditStep(templ, was, now, row, e[row], limits)
    ensures Informed(templ, ctx, now, limits)
  {
    var asked :| RecordedOn(asked, was.innerSolver[0], row, e[row]) &&
      Edit(templ, was, now, asked, row, limits.iterations);
    StillSeen(ctx, e, row, was.innerSolver[0], asked);
    EditChangesRow(templ, was, now, row, e[row], limits);
    if IsTrue(now.rank[row]) {
      GiveUpIsExplained(templ, ctx, was, now, asked, row, limits);
    }
    OneMoreExplained(templ, ctx, was.rank, now.rank, was.exhausted, now.exhausted, limits.elements, row);
  }

  lemma OneMoreExplained(templ: seq<seq<BvType>>, ctx: seq<Env>, was: seq<RowValue>, now: seq<RowValue>,
                         before: set<nat>, exhausted: set<nat>, maxElements: nat, row: nat)
    requires RanksFit(templ, was) && RanksFit(templ, now) && row < |templ| && now == was[row := now[row]]
    requires AllExplained(templ, ctx, was, before, maxElements) && before <= exhausted
    requires IsTrue(now[row]) ==> Explained(templ, ctx, exhausted, maxElements, row)
    ensures AllExplained(templ, ctx, now, exhausted, maxElements)
  {
    forall r: nat | r < |templ| && r != row && IsTrue(now[r]) ensures Explained(templ, ctx, exhausted, maxElements, r) {
      assert Explained(templ, ctx, before, maxElements, r);
    }
  }

  lemma GiveUpIsExplained(templ: seq<seq<BvType>>, ctx: seq<Env>, was: DomainState, now: DomainState,
                          asked: seq<Assertion>, row: nat, limits: Limits)
    requires StateFitsTempl(templ, was, limits) && StateFitsTempl(templ, now, limits) && row < |templ|
    requires Edit(templ, was, now, asked, row, limits.iterations) && AllSeen(ctx, asked)
    requires !IsTrue(was.rank[row]) && IsTrue(now.rank[row])
    ensures GivenUp(was.(innerSolver := [asked]), now, row, limits.iterations)
    ensures Explained(templ, ctx, now.exhausted, limits.elements, row)
  {
    assert RowValid(templ[row], now.rank[row], now.numberElementsPerRow[row], limits.elements);
    if was.numberInnerIterations < limits.iterations {
      UnmetIsExplained(templ, Sizes(was.numberElementsPerRow), ctx, asked, row, now.exhausted);
    }
  }

  lemma {:induction false} TurnsStayInformed(
    templ: seq<seq<BvType>>, ctx: seq<Env>, e: Env, steps: seq<DomainState>, k: nat, limits: Limits)
    requires EnvFits(templ, e) && e in ctx && EditsInTurn(templ, e, steps, limits) && k < |steps|
    requires Informed(templ, ctx, steps[0], limits)
    ensures Informed(templ, ctx, steps[k], limits)
  {
    if k > 0 {
      TurnsStayInformed(templ, ctx, e, steps, k - 1, limits);
      assert TurnAt(templ, e, steps, k - 1, limits);
      if RowFails(templ[k - 1], steps[0].rank[k - 1], e[k - 1]) {
        OthersUntouched(templ, e, steps, k - 1, limits, k - 1);
        StaysInformed(templ, ctx, steps[k - 1], steps[k], k - 1, e, limits);
      }
    }
  }

  /** An iteration keeps what is known of the rows given up. */
  lemma IterationStaysInformed(
    templ: seq<seq<BvType>>, ctx: seq<Env>, was: DomainState, now: DomainState, improved: bool, limits: Limits)
    requires StateFitsTempl(templ, was, limits) && forall i :: 0 <= i < |ctx| ==> EnvFits(templ, ctx[i])
    requires Iteration(templ, ctx, was, now, improved, limits) && Informed(templ, ctx, was, limits)
    ensures StateFitsTempl(templ, now, limits) && Informed(templ, ctx, now, limits)
  {
    if !Verified(templ, was.rank, ctx) {
      var i, steps :| 0 <= i < |ctx| && IterationOn(templ, ctx[i], was, now, steps, improved, limits);
      TurnsStayInformed(templ, ctx, ctx[i], steps, |templ|, limits);
    }
  }

  lemma {:induction false} RunStaysInformed(
    templ: seq<seq<BvType>>, ctx: seq<Env>, run: seq<DomainState>, j: nat, improved: bool, limits: Limits)
    requires (forall i :: 0 <= i < |ctx| ==> EnvFits(templ, ctx[i])) && IsSynthesis(templ, ctx, run, improved, limits)
    requires Informed(templ, ctx, run[0], limits) && j < |run|
    ensures Informed(templ, ctx, run[j], limits)
  {
    if j > 0 {
      RunStaysInformed(templ, ctx, run, j - 1, improved, limits);
      assert IterationAt(templ, ctx, run, j - 1, improved, limits);
      IterationStaysInformed(templ, ctx, run[j - 1], run[j], j + 1 < |run| || improved, limits);
    }
  }

  /** Every row has a ranking of one element. */
  ghost predicate AllHaveRankings(templ: seq<seq<BvType>>, ctx: seq<Env>) {
    forall r: nat :: r < |templ| ==> !Hopeless(ctx, r, |templ[r]|, 1)
  }

  /** When all rows have a ranking of one element and inner iterations never ran out, none was given
      up. */
  lemma NoneGivenUp(
    templ: seq<seq<BvType>>, ctx: seq<Env>, st: DomainState, limits: Limits)
    requires StateFitsTempl(templ, st, limits) && limits.elements >= 1
    requires Informed(templ, ctx, st, limits) && st.exhausted == {} && AllHaveRankings(templ, ctx)
    ensures !SomeRowGivenUp(st.rank)
  {
    forall r: nat | r < |templ| ensures !IsTrue(st.rank[r]) {
      assert !Hopeless(ctx, r, |templ[r]|, 1);
    }
  }

  /** What the end of a synthesis shows: for every row given up there is a reason; when inner
      iterations never ran out and every row has a ranking of one element, the argument is verified
      with no row given up; and a single row is given up, with inner iterations left, exactly when it
      has no ranking with the elements it may have. */
  ghost predicate GiveUpsExplained(templ: seq<seq<BvType>>, ctx: seq<Env>, st: DomainState, limits: Limits)
    requires StateFitsTempl(templ, st, limits) && forall i :: 0 <= i < |ctx| ==> EnvFits(templ, ctx[i])
  {
    AllExplained(templ, ctx, st.rank, st.exhausted, limits.elements) &&
    (st.exhausted == {} && AllHaveRankings(templ, ctx) ==>
      Verified(templ, st.rank, ctx) && !SomeRowGivenUp(st.rank)) &&
    (|templ| == 1 && st.numberInnerIterations < limits.iterations ==>
      (SomeRowGivenUp(st.rank) <==> Hopeless(ctx, 0, |templ[0]|, limits.elements)))
  }

  lemma SynthesisIsExplained(
    templ: seq<seq<BvType>>, ctx: seq<Env>, run: seq<DomainState>, j: nat, limits: Limits)
    requires forall i :: 0 <= i < |ctx| ==> EnvFits(templ, ctx[i])
    requires IsSynthesis(templ, ctx, run, false, limits) && |run| == j + 2
    requires Informed(templ, ctx, run[0], limits) && limits.elements >= 1
    ensures GiveUpsExplained(templ, ctx, run[j + 1], limits)
  {
    RunStaysInformed(templ, ctx, run, j, false, limits);
    assert IterationAt(templ, ctx, run, j, false, limits);
    LastIsExplained(templ, ctx, run[j], run[j + 1], limits);
  }

  lemma LastIsExplained(templ: seq<seq<BvType>>, ctx: seq<Env>, was: DomainState, now: DomainState, limits: Limits)
    requires StateFitsTempl(templ, was, limits) && forall i :: 0 <= i < |ctx| ==> EnvFits(templ, ctx[i])
    requires Iteration(templ, ctx, was, now, false, limits) && Informed(templ, ctx, was, limits) && limits.elements >= 1
    ensures StateFitsTempl(templ, now, limits) && GiveUpsExplained(templ, ctx, now, limits)
  {
    IterationStaysInformed(templ, ctx, was, now, false, limits);
    NoImprovementMeans(templ, ctx, was, now, limits);
    EndIsExplained(templ, ctx, now, limits);
  }

  /** Without an improvement the check was UNSAT, or a row was given up. */
  lemma NoImprovementMeans(templ: seq<seq<BvType>>, ctx: seq<Env>, was: DomainState, now: DomainState, limits: Limits)
    requires StateFitsTempl(templ, was, limits) && forall i :: 0 <= i < |ctx| ==> EnvFits(templ, ctx[i])
    requires Iteration(templ, ctx, was, now, false, limits)
    ensures StateFitsTempl(templ, now, limits) && (Verified(templ, now.rank, ctx) || SomeRowGivenUp(now.rank))
    ensures forall r :: 0 <= r < |templ| ==> now.rank[r] == was.rank[r] || IsTrue(now.rank[r])
  {
    if !Verified(templ, was.rank, ctx) {
      var i, steps :| 0 <= i < |ctx| && IterationOn(templ, ctx[i], was, now, steps, false, limits);
      forall r | 0 <= r < |templ| ensures now.rank[r] == was.rank[r] || IsTrue(now.rank[r]) {
        if !RowFails(templ[r], was.rank[r], ctx[i][r]) {
          OthersUntouched(templ, ctx[i], steps, |templ|, limits, r);
        }
      }
    }
  }

  lemma EndIsExplained(templ: seq<seq<BvType>>, ctx: seq<Env>, st: DomainState, limits: Limits)
    requires StateFitsTempl(templ, st, limits) && forall i :: 0 <= i < |ctx| ==> EnvFits(templ, ctx[i])
    requires Verified(templ, st.rank, ctx) || SomeRowGivenUp(st.rank)
    requires Informed(templ, ctx, st, limits) && limits.elements >= 1
    ensures GiveUpsExplained(templ, ctx, st, limits)
  {
    if st.exhausted == {} && AllHaveRankings(templ, ctx) {
      NoneGivenUp(templ, ctx, st, limits);
    }
    if |templ| == 1 && st.numberInnerIterations < limits.iterations {
      assert IsTrue(st.rank[0]) ==> Explained(templ, ctx, st.exhausted, limits.elements, 0);
      assert RowValid(templ[0], st.rank[0], st.numberElementsPerRow[0], limits.elements);
      OneRowIff(templ, st.rank, ctx, limits.elements);
    }
  }

  lemma OneRowIff(templ: seq<seq<BvType>>, rank: seq<RowValue>, ctx: seq<Env>, maxElements: nat)
    requires RanksFit(templ, rank) && (forall i :: 0 <= i < |ctx| ==> EnvFits(templ, ctx[i])) && |templ| == 1
    requires Verified(templ, rank, ctx) || SomeRowGivenUp(rank)
    requires if IsTrue(rank[0]) then Hopeless(ctx, 0, |templ[0]|, maxElements) else |rank[0]| <= maxElements
    ensures SomeRowGivenUp(rank) <==> Hopeless(ctx, 0, |templ[0]|, maxElements)
  {
    if !IsTrue(rank[0]) {
      VerifiedIsRanked(templ, rank, ctx, 0, maxElements);
    }
  }
}
