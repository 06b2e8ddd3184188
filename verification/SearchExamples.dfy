/** Two loops over a 16-bit variable, under the rows `x` and `-x` of the interval template: one on
    which binary search passes the least inductive value, and one on which it is lost at every step
    (src/domains/strategy_solver_binsearch.cpp, tpolyhedra_domain.cpp). */
module SearchExamples {
  import opened Bitvectors
  import opened Widths
  import opened TemplateBounds
  import opened Templates
  import opened BinarySearch
  import opened StrategySolvers
  import opened LoopRuns

  type Short = x: int | -32768 <= x <= 32767

  /** `short x = start; while(stays(x) && *) x = next(x);` */
  datatype ShortLoop = ShortLoop(start: Short, next: Short -> Short, stays: Short -> bool)

  /** The row `x` or the row `-x`. */
  function RowOf(row: nat, x: int): int {
    if row == 0 then x else -x
  }

  lemma SpanOfShort()
    ensures Pow2(15) == 32768 && Pow2(16) == 65536
  {
    assert Pow2(8) == 256;
    Pow2Add(8, 8);
  }

  const INTERVAL_ROWS: seq<RowKind> := [Poly(Signed(16), 32767), Poly(Signed(17), 32768)]

  /** These are the rows the interval template builds, with their maxima. */
  lemma IntervalRowsOf(x: Expr, row: nat)
    requires x.Symbol? && x.ty == Signed(16) && row < 2
    ensures var e := IntervalRow(x, row == 1); INTERVAL_ROWS[row] == Poly(e.ty, MaxForExpr(e))
  {
    SpanOfShort();
    var e := IntervalRow(x, row == 1);
    assert Largest(Signed(16)) == 32767 && Smallest(Signed(16)) == -32768 && Largest(Signed(17)) == 65535;
    if row == 1 {
      assert Extend(x) == x;
      assert e == Extend(Neg(x, x.ty)) == Neg(Cast(x, Signed(17)), Signed(17));
      assert MaxForExpr(e) == Wrap(Signed(17), 32768) == 32768;
    }
  }

  function LoopOf(l: ShortLoop): Loop<Short> {
    Loop(x => x == l.start, (x, y, again) => y == l.next(x) && (again ==> l.stays(x)),
      [x => Number(x), x => Number(RowOf(1, x))])
  }

  function PostOf(l: ShortLoop, gls: bool, lb: Short): Short {
    l.next(Phi(gls, lb, l.start))
  }

  predicate Allowed(l: ShortLoop, gls: bool, lb: Short, again: bool) {
    again ==> l.stays(Phi(gls, lb, l.start))
  }

  /** A solution of the loop's SSA as the two rows see it. */
  function SolutionOf(l: ShortLoop, gls: bool, lb: Short, again: bool): Env {
    [RowEnv(gls, again, Number(lb), Number(PostOf(l, gls, lb))),
     RowEnv(gls, again, Number(RowOf(1, lb)), Number(RowOf(1, PostOf(l, gls, lb))))]
  }

  lemma SolutionArises(l: ShortLoop, gls: bool, lb: Short, again: bool)
    requires Allowed(l, gls, lb, again)
    ensures Arises(LoopOf(l), SolutionOf(l, gls, lb, again))
  {
    var loop, post := LoopOf(l), PostOf(l, gls, lb);
    assert loop.init(l.start) && loop.body(Phi(gls, lb, l.start), post, again);
    assert EnvOf(loop, gls, lb, post, again) == SolutionOf(l, gls, lb, again);
  }

  lemma SolutionShape(l: ShortLoop, e: Env) returns (gls: bool, lb: Short, again: bool)
    requires Arises(LoopOf(l), e)
    ensures Allowed(l, gls, lb, again) && e == SolutionOf(l, gls, lb, again)
  {
    var x0, post;
    gls, lb, x0, post, again := SolutionBehind(LoopOf(l), e);
    assert EnvOf(LoopOf(l), gls, lb, post, again) == SolutionOf(l, gls, lb, again);
  }

  function AllowedFrom(l: ShortLoop, gls: bool, again: bool, n: nat): (s: seq<Env>)
    requires n <= 65536
  {
    if n == 0 then []
    else
      var lb: Short := n - 1 - 32768;
      AllowedFrom(l, gls, again, n - 1) + if Allowed(l, gls, lb, again) then [SolutionOf(l, gls, lb, again)] else []
  }

  lemma {:induction false} AllowedMembers(l: ShortLoop, gls: bool, again: bool, n: nat, e: Env)
    requires n <= 65536
    ensures e in AllowedFrom(l, gls, again, n) <==>
      exists lb: Short :: lb < n - 32768 && Allowed(l, gls, lb, again) && e == SolutionOf(l, gls, lb, again)
  {
    if n > 0 {
      AllowedMembers(l, gls, again, n - 1, e);
    }
  }

  /** The solutions of such a loop's SSA can be listed. */
  lemma SolutionsListed(l: ShortLoop) returns (ctx: seq<Env>)
    ensures IsSsaOf(ctx, LoopOf(l))
  {
    ctx := AllowedFrom(l, false, false, 65536) + AllowedFrom(l, false, true, 65536) +
      AllowedFrom(l, true, false, 65536) + AllowedFrom(l, true, true, 65536);
    forall e ensures e in ctx <==> Arises(LoopOf(l), e) {
      ListedArises(l, e);
    }
  }

  lemma ListedArises(l: ShortLoop, e: Env)
    ensures Arises(LoopOf(l), e) <==>
      e in AllowedFrom(l, false, false, 65536) || e in AllowedFrom(l, false, true, 65536) ||
      e in AllowedFrom(l, true, false, 65536) || e in AllowedFrom(l, true, true, 65536)
  {
    forall gls, again ensures e in AllowedFrom(l, gls, again, 65536) ==> Arises(LoopOf(l), e) {
      AllowedMembers(l, gls, again, 65536, e);
      if lb: Short :| Allowed(l, gls, lb, again) && e == SolutionOf(l, gls, lb, again) {
        SolutionArises(l, gls, lb, again);
      }
    }
    if Arises(LoopOf(l), e) {
      var gls, lb, again := SolutionShape(l, e);
      AllowedMembers(l, gls, again, 65536, e);
    }
  }

  function Values(a: Bound, b: Bound): seq<RowValue> {
    [Interval(a), Interval(b)]
  }

  predicate BoundFits(row: nat, b: Bound) {
    b.Fin? ==> if row == 0 then -32768 <= b.n <= 32767 else -32768 <= b.n <= 32768
  }

  lemma RowsFit(l: ShortLoop, ctx: seq<Env>, a: Bound, b: Bound)
    requires IsSsaOf(ctx, LoopOf(l)) && BoundFits(0, a) && BoundFits(1, b)
    ensures ContextFits(INTERVAL_ROWS, ctx) && AllPoly(INTERVAL_ROWS) && ValuesFit(INTERVAL_ROWS, Values(a, b))
  {
    SpanOfShort();
    forall j | 0 <= j < |ctx| ensures EnvFits(INTERVAL_ROWS, ctx[j]) {
      assert ctx[j] in ctx;
      var gls, lb, again := SolutionShape(l, ctx[j]);
    }
  }

  /** A symbolic bound is feasible through an iteration from `lb`. */
  predicate Through(l: ShortLoop, v: seq<RowValue>, row: nat, gls: bool, lb: Short, s: int)
    requires |v| == 2 && row < 2
  {
    Allowed(l, gls, lb, true) && FeasibleAt(v, SolutionOf(l, gls, lb, true), row, s)
  }

  lemma FeasibleThrough(l: ShortLoop, ctx: seq<Env>, a: Bound, b: Bound, row: nat, s: int)
    requires IsSsaOf(ctx, LoopOf(l)) && BoundFits(0, a) && BoundFits(1, b) && row < 2
    requires ContextFits(INTERVAL_ROWS, ctx) && ValuesFit(INTERVAL_ROWS, Values(a, b))
    ensures Feasible(INTERVAL_ROWS, ctx, Values(a, b), row, s) <==>
      exists gls, lb: Short :: Through(l, Values(a, b), row, gls, lb, s)
  {
    var v := Values(a, b);
    if i :| 0 <= i < |ctx| && FeasibleAt(v, ctx[i], row, s) {
      assert ctx[i] in ctx;
      var gls, lb, again := SolutionShape(l, ctx[i]);
      assert Through(l, v, row, gls, lb, s);
    }
    if gls, lb: Short :| Through(l, v, row, gls, lb, s) {
      SolutionArises(l, gls, lb, true);
      var i :| 0 <= i < |ctx| && ctx[i] == SolutionOf(l, gls, lb, true);
      assert EnvFits(INTERVAL_ROWS, ctx[i]);
    }
  }

  /** The iteration of the loop that refutes the value in an iteration of binary search. */
  lemma RefutedBy(
    l: ShortLoop, ctx: seq<Env>, a: Bound, b: Bound, w: seq<RowValue>, i: nat, row: nat, n: int, gaps: seq<Gap>)
    returns (gls: bool, lb: Short)
    requires IsSsaOf(ctx, LoopOf(l)) && ContextFits(INTERVAL_ROWS, ctx)
    requires ValuesFit(INTERVAL_ROWS, Values(a, b)) && AllPoly(INTERVAL_ROWS)
    requires RaisedBySearch(INTERVAL_ROWS, ctx, Values(a, b), w, i, row, n, gaps)
    ensures row < 2 && Allowed(l, gls, lb, true) && ctx[i] == SolutionOf(l, gls, lb, true)
  {
    assert ctx[i] in ctx;
    var again;
    gls, lb, again := SolutionShape(l, ctx[i]);
  }

  lemma ThroughMeans(l: ShortLoop, a: Bound, b: Bound, row: nat, gls: bool, lb: Short, s: int)
    requires row < 2
    ensures Through(l, Values(a, b), row, gls, lb, s) <==>
      (Allowed(l, gls, lb, true) && RowOf(row, PostOf(l, gls, lb)) >= s && s != RowOf(row, lb) &&
       (gls ==> RowOf(row, lb) <= s && RowHolds(Values(a, b)[1 - row], Number(RowOf(1 - row, lb)))))
  {
    var v, e := Values(a, b), SolutionOf(l, gls, lb, true);
    assert OthersMet(v, e, row) <==> PreHolds(v[1 - row], e[1 - row]);
  }

  ghost function ThroughBounds(l: ShortLoop, v: seq<RowValue>, row: nat): iset<int>
    requires |v| == 2 && row < 2
  {
    iset s | ThroughSome(l, v, row, s)
  }

  ghost predicate ThroughSome(l: ShortLoop, v: seq<RowValue>, row: nat, s: int)
    requires |v| == 2 && row < 2
  {
    exists gls, lb: Short :: Through(l, v, row, gls, lb, s)
  }

  lemma FeasibleAre(l: ShortLoop, ctx: seq<Env>, a: Bound, b: Bound, row: nat)
    requires IsSsaOf(ctx, LoopOf(l)) && BoundFits(0, a) && BoundFits(1, b) && row < 2
    requires ContextFits(INTERVAL_ROWS, ctx) && ValuesFit(INTERVAL_ROWS, Values(a, b))
    ensures FeasibleBounds(INTERVAL_ROWS, ctx, Values(a, b), row) == ThroughBounds(l, Values(a, b), row)
  {
    forall s
      ensures s in FeasibleBounds(INTERVAL_ROWS, ctx, Values(a, b), row) <==> s in ThroughBounds(l, Values(a, b), row)
    {
      FeasibleThrough(l, ctx, a, b, row, s);
    }
  }

  /** What one iteration of binary search makes of a value, in terms of the loop: some iteration
      `(gls, lb)` of it refutes the value, and the first row that it fails rises to its value, or to
      a bound feasible through another iteration: from -128 on, to the largest such bound; from a
      trapped value, not above it. */
  ghost predicate RaisedThrough(
    l: ShortLoop, v: seq<RowValue>, w: seq<RowValue>, gls: bool, lb: Short, row: nat, n: int)
    requires |v| == 2
  {
    var e := SolutionOf(l, gls, lb, true);
    row < 2 && Allowed(l, gls, lb, true) && AllPre(v, e) && PostFails(v[row], e[row]) &&
    (row == 1 ==> !PostFails(v[0], e[0])) && w == v[row := Interval(Fin(n))] &&
    e[row].post.n <= n && (n == e[row].post.n || n in ThroughBounds(l, v, row)) &&
    (e[row].post.n >= -128 ==> NothingAbove(ThroughBounds(l, v, row), n)) &&
    (row == 0 && Trapped(e[row].post.n) && NothingFrom(ThroughBounds(l, v, row), 255) ==> n == e[row].post.n)
  }

  lemma SearchRaisesThrough(
    l: ShortLoop, ctx: seq<Env>, a: Bound, b: Bound, w: seq<RowValue>, i: nat, row: nat, n: int, gaps: seq<Gap>)
    returns (gls: bool, lb: Short)
    requires IsSsaOf(ctx, LoopOf(l)) && BoundFits(0, a) && BoundFits(1, b) && ContextFits(INTERVAL_ROWS, ctx)
    requires ValuesFit(INTERVAL_ROWS, Values(a, b)) && AllPoly(INTERVAL_ROWS)
    requires RaisedBySearch(INTERVAL_ROWS, ctx, Values(a, b), w, i, row, n, gaps)
    ensures RaisedThrough(l, Values(a, b), w, gls, lb, row, n)
  {
    gls, lb := RefutedBy(l, ctx, a, b, w, i, row, n, gaps);
    FeasibleAre(l, ctx, a, b, row);
    SearchFrom(ThroughBounds(l, Values(a, b), row), row, ctx[i][row].post.n, n);
  }

  /** What the row rises to from `start`. */
  lemma SearchFrom(feasible: iset<int>, row: nat, start: int, n: int)
    requires row < 2 && InRange(INTERVAL_ROWS[row].ty, start) && InRange(INTERVAL_ROWS[row].ty, INTERVAL_ROWS[row].max)
    requires Fits(INTERVAL_ROWS[row].ty, INTERVAL_ROWS[row].max, feasible)
    requires SearchEnds(INTERVAL_ROWS[row].ty, feasible, start, INTERVAL_ROWS[row].max, n)
    ensures start >= -128 ==> NothingAbove(feasible, n)
    ensures row == 0 && Trapped(start) && NothingFrom(feasible, 255) ==> n == start
  {
    if start >= -128 {
      SearchIsExact(INTERVAL_ROWS[row].ty, INTERVAL_ROWS[row].max, feasible, start, INTERVAL_ROWS[row].max, n);
    }
    if row == 0 && Trapped(start) && NothingFrom(feasible, 255) {
      SpanOfShort();
      FullSearchIsStuck(Signed(16), feasible, start, n);
    }
  }

  /** The value is not inductive, and one iteration of binary search makes this of it, whatever the
      solver picks. */
  ghost predicate AlwaysRaisesTo(l: ShortLoop, ctx: seq<Env>, a: Bound, b: Bound, w: seq<RowValue>)
    requires ContextFits(INTERVAL_ROWS, ctx) && ValuesFit(INTERVAL_ROWS, Values(a, b)) && AllPoly(INTERVAL_ROWS)
  {
    !Inductive(ctx, Values(a, b)) &&
    forall u, i, row, n, gaps :: RaisedBySearch(INTERVAL_ROWS, ctx, Values(a, b), u, i, row, n, gaps) ==> u == w
  }

  lemma AlwaysRaises(l: ShortLoop, ctx: seq<Env>, a: Bound, b: Bound, w: seq<RowValue>, gls: bool, lb: Short)
    requires IsSsaOf(ctx, LoopOf(l)) && BoundFits(0, a) && BoundFits(1, b) && Allowed(l, gls, lb, true)
    requires var e := SolutionOf(l, gls, lb, true); AllPre(Values(a, b), e) && SomePostFails(Values(a, b), e)
    requires forall u, gls', lb': Short, row, n :: RaisedThrough(l, Values(a, b), u, gls', lb', row, n) ==> u == w
    ensures ContextFits(INTERVAL_ROWS, ctx) && AllPoly(INTERVAL_ROWS) && ValuesFit(INTERVAL_ROWS, Values(a, b))
    ensures AlwaysRaisesTo(l, ctx, a, b, w)
  {
    RowsFit(l, ctx, a, b);
    SolutionArises(l, gls, lb, true);
    var k :| 0 <= k < |ctx| && ctx[k] == SolutionOf(l, gls, lb, true);
    forall u, i, row, n, gaps | RaisedBySearch(INTERVAL_ROWS, ctx, Values(a, b), u, i, row, n, gaps) ensures u == w {
      var gls', lb' := SearchRaisesThrough(l, ctx, a, b, u, i, row, n, gaps);
    }
  }

  lemma SatisfiesIff(l: ShortLoop, a: int, b: int, x: Short)
    ensures Satisfies(LoopOf(l), Values(Fin(a), Fin(b)), x) <==> -b <= x <= a
  {
    var loop, v := LoopOf(l), Values(Fin(a), Fin(b));
    assert RowHolds(v[0], loop.rows[0](x)) <==> x <= a;
    assert RowHolds(v[1], loop.rows[1](x)) <==> RowOf(1, x) <= b;
  }

  lemma EstablishedIff(l: ShortLoop, a: int, b: int)
    ensures Established(LoopOf(l), Values(Fin(a), Fin(b))) <==> (l.stays(l.start) ==> -b <= l.next(l.start) <= a)
  {
    SatisfiesIff(l, a, b, l.next(l.start));
    assert LoopOf(l).init(l.start);
    assert l.stays(l.start) ==> LoopOf(l).body(l.start, l.next(l.start), true);
  }

  lemma KeptIff(l: ShortLoop, a: int, b: int)
    ensures Kept(LoopOf(l), Values(Fin(a), Fin(b))) <==>
      forall x: Short :: -b <= x <= a && l.stays(x) ==> -b <= l.next(x) <= a
  {
    forall x: Short ensures Satisfies(LoopOf(l), Values(Fin(a), Fin(b)), x) <==> -b <= x <= a {
      SatisfiesIff(l, a, b, x);
    }
    assert LoopOf(l).init(l.start);
    assert forall x: Short :: l.stays(x) ==> LoopOf(l).body(x, l.next(x), true);
  }

  /** Which values are inductive for such a loop. */
  lemma ShortInductiveIff(l: ShortLoop, ctx: seq<Env>, a: int, b: int)
    requires IsSsaOf(ctx, LoopOf(l)) && ContextFits(INTERVAL_ROWS, ctx)
    ensures Inductive(ctx, Values(Fin(a), Fin(b))) <==>
      (l.stays(l.start) ==> -b <= l.next(l.start) <= a) &&
      forall x: Short :: -b <= x <= a && l.stays(x) ==> -b <= l.next(x) <= a
  {
    InductiveIff(LoopOf(l), ctx, Values(Fin(a), Fin(b)));
    EstablishedIff(l, a, b);
    KeptIff(l, a, b);
  }

  // ----- A loop on which binary search passes the least inductive value -----

  function Climb(x: Short): Short {
    if x == 0 then 1 else if x == 1 then 2 else if x == 50 then 100 else x
  }

  function ClimbingLoop(): ShortLoop {
    ShortLoop(0, Climb, _ => true)
  }

  lemma ClimbingBounds(a: Bound, b: Bound, row: nat, s: int)
    requires row < 2
    ensures b.NegInf? && row == 0 && s in ThroughBounds(ClimbingLoop(), Values(a, b), 0) ==> s <= 1
    ensures a == Fin(1) && row == 1 && s in ThroughBounds(ClimbingLoop(), Values(a, b), 1) ==> s <= -1
    ensures b == Fin(-1) && row == 0 && s > 2 ==>
      (s in ThroughBounds(ClimbingLoop(), Values(a, b), 0) <==> 50 < s <= 100)
  {
    forall gls, lb: Short ensures Through(ClimbingLoop(), Values(a, b), row, gls, lb, s) ==>
      (b.NegInf? && row == 0 ==> s <= 1) && (a == Fin(1) && row == 1 ==> s <= -1) &&
      (b == Fin(-1) && row == 0 && s > 2 ==> 50 < s <= 100)
    {
      ThroughMeans(ClimbingLoop(), a, b, row, gls, lb, s);
    }
    ThroughMeans(ClimbingLoop(), a, b, 0, true, 50, s);
  }

  lemma ClimbingSteps(w: seq<RowValue>, gls: bool, lb: Short, row: nat, n: int)
    ensures RaisedThrough(ClimbingLoop(), Values(NegInf, NegInf), w, gls, lb, row, n) ==> w == Values(Fin(1), NegInf)
    ensures RaisedThrough(ClimbingLoop(), Values(Fin(1), NegInf), w, gls, lb, row, n) ==> w == Values(Fin(1), Fin(-1))
    ensures RaisedThrough(ClimbingLoop(), Values(Fin(1), Fin(-1)), w, gls, lb, row, n) ==>
      w == Values(Fin(100), Fin(-1))
  {
    if row < 2 {
      ClimbingBounds(NegInf, NegInf, row, n);
      ClimbingBounds(Fin(1), NegInf, row, n);
      ClimbingBounds(Fin(1), Fin(-1), row, n);
    }
    ClimbingBounds(Fin(1), Fin(-1), 0, 100);
    if RaisedThrough(ClimbingLoop(), Values(Fin(1), NegInf), w, gls, lb, row, n) {
      assert PreHolds(Values(Fin(1), NegInf)[1], SolutionOf(ClimbingLoop(), gls, lb, true)[1]);
      assert !gls && row == 1;
    }
    if RaisedThrough(ClimbingLoop(), Values(Fin(1), Fin(-1)), w, gls, lb, row, n) {
      assert PreHolds(Values(Fin(1), Fin(-1))[0], SolutionOf(ClimbingLoop(), gls, lb, true)[0]);
      assert PreHolds(Values(Fin(1), Fin(-1))[1], SolutionOf(ClimbingLoop(), gls, lb, true)[1]);
      assert gls && lb == 1 && row == 0;
    }
  }

  lemma ClimbingRaise(ctx: seq<Env>, a: Bound, b: Bound, a': int, b': Bound)
    requires IsSsaOf(ctx, LoopOf(ClimbingLoop()))
    requires (a, b, a', b') in
      {(NegInf, NegInf, 1, NegInf), (Fin(1), NegInf, 1, Fin(-1)), (Fin(1), Fin(-1), 100, Fin(-1))}
    ensures ContextFits(INTERVAL_ROWS, ctx) && AllPoly(INTERVAL_ROWS) && ValuesFit(INTERVAL_ROWS, Values(a, b))
    ensures AlwaysRaisesTo(ClimbingLoop(), ctx, a, b, Values(Fin(a'), b'))
  {
    forall u, gls, lb: Short, row, n | RaisedThrough(ClimbingLoop(), Values(a, b), u, gls, lb, row, n)
      ensures u == Values(Fin(a'), b')
    {
      ClimbingSteps(u, gls, lb, row, n);
    }
    var v, e := Values(a, b), SolutionOf(ClimbingLoop(), a' == 100, 1, true);
    assert PostFails(v[if a' == 1 && b'.Fin? then 1 else 0], e[if a' == 1 && b'.Fin? then 1 else 0]);
    AlwaysRaises(ClimbingLoop(), ctx, a, b, Values(Fin(a'), b'), a' == 100, 1);
  }

  lemma ClimbingInductive(ctx: seq<Env>, a: int)
    requires IsSsaOf(ctx, LoopOf(ClimbingLoop())) && ContextFits(INTERVAL_ROWS, ctx)
    ensures Inductive(ctx, Values(Fin(a), Fin(-1))) <==> 2 <= a < 50 || a >= 100
  {
    ShortInductiveIff(ClimbingLoop(), ctx, a, -1);
    assert ClimbingLoop().stays(50) && ClimbingLoop().stays(1) && ClimbingLoop().stays(0);
    assert Climb(50) == 100 && Climb(1) == 2;
  }

  /** `1 <= x <= 2` is inductive for the loop, yet binary search comes to `1 <= x <= 100` in three
      iterations whatever the solver picks: the last one goes through the state 50, which meets the
      row `-x` but is never reached. */
  lemma BinarySearchPasses(ctx: seq<Env>)
    requires IsSsaOf(ctx, LoopOf(ClimbingLoop()))
    ensures ContextFits(INTERVAL_ROWS, ctx) && AllPoly(INTERVAL_ROWS)
    ensures ValuesFit(INTERVAL_ROWS, Values(NegInf, NegInf)) && ValuesFit(INTERVAL_ROWS, Values(Fin(1), NegInf))
    ensures ValuesFit(INTERVAL_ROWS, Values(Fin(1), Fin(-1)))
    ensures AlwaysRaisesTo(ClimbingLoop(), ctx, NegInf, NegInf, Values(Fin(1), NegInf))
    ensures AlwaysRaisesTo(ClimbingLoop(), ctx, Fin(1), NegInf, Values(Fin(1), Fin(-1)))
    ensures AlwaysRaisesTo(ClimbingLoop(), ctx, Fin(1), Fin(-1), Values(Fin(100), Fin(-1)))
    ensures Inductive(ctx, Values(Fin(2), Fin(-1))) && Inductive(ctx, Values(Fin(100), Fin(-1)))
  {
    ClimbingRaise(ctx, NegInf, NegInf, 1, NegInf);
    ClimbingRaise(ctx, Fin(1), NegInf, 1, Fin(-1));
    ClimbingRaise(ctx, Fin(1), Fin(-1), 100, Fin(-1));
    ClimbingInductive(ctx, 2);
    ClimbingInductive(ctx, 100);
  }

  // ----- A loop on which binary search is lost at every step -----

  function CountUp(x: Short): Short {
    if x < 0 then x + 1 else x
  }

  /** `short x = -200; while(x < 0) x = x + 1;` */
  function CountingLoop(): ShortLoop {
    ShortLoop(-200, CountUp, x => x < 0)
  }

  lemma CountingBounds(c: int, row: nat, s: int)
    requires row < 2 && -200 <= c <= 0
    ensures row == 0 && s in ThroughBounds(CountingLoop(), Values(Fin(c), Fin(199)), 0) ==> s <= 0
    ensures -199 <= s <= 0 ==> s in ThroughBounds(CountingLoop(), Values(Fin(c), Fin(199)), 0)
  {
    forall gls, lb: Short
      ensures Through(CountingLoop(), Values(Fin(c), Fin(199)), row, gls, lb, s) && row == 0 ==> s <= 0
    {
      ThroughMeans(CountingLoop(), Fin(c), Fin(199), row, gls, lb, s);
    }
    if -199 < s <= 0 {
      ThroughMeans(CountingLoop(), Fin(c), Fin(199), 0, true, s - 1, s);
    }
    if s == -199 {
      ThroughMeans(CountingLoop(), Fin(c), Fin(199), 0, false, 0, s);
    }
  }

  lemma CountingStep(c: int, u: seq<RowValue>, gls: bool, lb: Short, row: nat, n: int)
    requires -199 <= c <= -129 && RaisedThrough(CountingLoop(), Values(Fin(c), Fin(199)), u, gls, lb, row, n)
    ensures u == Values(Fin(if c < -129 then c + 1 else 0), Fin(199))
  {
    var v, e := Values(Fin(c), Fin(199)), SolutionOf(CountingLoop(), gls, lb, true);
    assert PreHolds(v[0], e[0]) && PreHolds(v[1], e[1]);
    assert row == 0 && gls && lb == c;
    forall s ensures s in ThroughBounds(CountingLoop(), v, 0) ==> s <= 0 {
      CountingBounds(c, 0, s);
    }
    CountingBounds(c, 0, n);
    CountingBounds(c, 0, 0);
  }

  /** From -199 to -130 every iteration of binary search raises the row `x` by one, although all
      bounds up to 0 are feasible; from -129 it goes to 0 at once, which ends the loop. */
  lemma BinarySearchCrawls(ctx: seq<Env>, c: int)
    requires IsSsaOf(ctx, LoopOf(CountingLoop())) && -199 <= c <= -129
    ensures ContextFits(INTERVAL_ROWS, ctx) && AllPoly(INTERVAL_ROWS)
    ensures ValuesFit(INTERVAL_ROWS, Values(Fin(c), Fin(199)))
    ensures AlwaysRaisesTo(CountingLoop(), ctx, Fin(c), Fin(199), Values(Fin(if c < -129 then c + 1 else 0), Fin(199)))
    ensures forall s :: -199 <= s <= 0 ==> Feasible(INTERVAL_ROWS, ctx, Values(Fin(c), Fin(199)), 0, s)
    ensures Inductive(ctx, Values(Fin(0), Fin(199)))
  {
    var l, v := CountingLoop(), Values(Fin(c), Fin(199));
    forall u, gls, lb: Short, row, n | RaisedThrough(l, v, u, gls, lb, row, n)
      ensures u == Values(Fin(if c < -129 then c + 1 else 0), Fin(199))
    {
      CountingStep(c, u, gls, lb, row, n);
    }
    var e := SolutionOf(l, true, c, true);
    assert PostFails(v[0], e[0]) && AllPre(v, e);
    AlwaysRaises(l, ctx, Fin(c), Fin(199), Values(Fin(if c < -129 then c + 1 else 0), Fin(199)), true, c);
    FeasibleAre(l, ctx, Fin(c), Fin(199), 0);
    forall s | -199 <= s <= 0 ensures Feasible(INTERVAL_ROWS, ctx, v, 0, s) {
      CountingBounds(c, 0, s);
      assert s in FeasibleBounds(INTERVAL_ROWS, ctx, v, 0);
    }
    ShortInductiveIff(l, ctx, 0, 199);
  }
}
