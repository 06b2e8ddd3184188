/** What an inductive template value says of one loop. The SSA of a loop head is
    `phi = gls ? lb : x0` (src/domains/template_generator_base.cpp), so a single UNSAT check over
    the environments below covers the entry of the loop and every further iteration. */
module LoopRuns {
  import opened Templates

  /** A loop over states `S`: the states on entry, the body from the loop head to the back edge
      with the outcome of the loop condition there, and the template's row expressions. */
  datatype Loop<!S(!new)> = Loop(
    init: S -> bool,
    body: (S, S, bool) -> bool,
    rows: seq<S -> Reading>)

  function Phi<S>(gls: bool, lb: S, x0: S): S {
    if gls then lb else x0
  }

  /** A LOOP row's guards and expressions: the pre-guard is the loop-select guard (with the loop
      head reached), the post-guard the condition at the back edge; renaming turns the loop-back
      variables into the values at the back edge. */
  function EnvOf<S(!new)>(loop: Loop<S>, gls: bool, lb: S, post: S, again: bool): (e: Env) {
    seq(|loop.rows|, r requires 0 <= r < |loop.rows| => RowEnv(gls, again, loop.rows[r](lb), loop.rows[r](post)))
  }

  /** The SSA has a solution with this view: the loop is entered at some `x0`, and the body takes
      the loop head's value to `post`. */
  ghost predicate Arises<S(!new)>(loop: Loop<S>, e: Env) {
    exists gls, lb, x0, post, again ::
      loop.init(x0) && loop.body(Phi(gls, lb, x0), post, again) && e == EnvOf(loop, gls, lb, post, again)
  }

  lemma SolutionBehind<S(!new)>(loop: Loop<S>, e: Env) returns (gls: bool, lb: S, x0: S, post: S, again: bool)
    requires Arises(loop, e)
    ensures loop.init(x0) && loop.body(Phi(gls, lb, x0), post, again) && e == EnvOf(loop, gls, lb, post, again)
  {
    gls, lb, x0, post, again :| loop.init(x0) && loop.body(Phi(gls, lb, x0), post, again) &&
      e == EnvOf(loop, gls, lb, post, again);
  }

  /** `ctx` lists exactly the environments of the loop's SSA. */
  ghost predicate IsSsaOf<S(!new)>(ctx: seq<Env>, loop: Loop<S>) {
    forall e :: e in ctx <==> Arises(loop, e)
  }

  /** All rows of a value hold in a state. */
  ghost predicate Satisfies<S(!new)>(loop: Loop<S>, v: seq<RowValue>, s: S)
    requires |v| == |loop.rows|
  {
    forall r :: 0 <= r < |v| ==> RowHolds(v[r], loop.rows[r](s))
  }

  /** `run[0]` enters the loop and each further state reaches the back edge from the one before. */
  ghost predicate IsRun<S(!new)>(loop: Loop<S>, run: seq<S>) {
    |run| > 0 && loop.init(run[0]) &&
    forall i :: 0 < i < |run| ==> loop.body(run[i - 1], run[i], true)
  }

  lemma EnvReads<S(!new)>(loop: Loop<S>, v: seq<RowValue>, gls: bool, lb: S, post: S, again: bool)
    requires |v| == |loop.rows|
    ensures var e := EnvOf(loop, gls, lb, post, again);
      |e| == |v| &&
      (AllPre(v, e) <==> (gls ==> Satisfies(loop, v, lb))) &&
      (!SomePostFails(v, e) <==> (again ==> Satisfies(loop, v, post)))
  {
    var e := EnvOf(loop, gls, lb, post, again);
    if gls {
      assert AllPre(v, e) <==> forall r :: 0 <= r < |v| ==> RowHolds(v[r], e[r].pre);
    }
    if again && !Satisfies(loop, v, post) {
      var r :| 0 <= r < |v| && !RowHolds(v[r], loop.rows[r](post));
      assert PostFails(v[r], e[r]);
    }
  }

  /** The value holds at the first arrival at the back edge. */
  ghost predicate Established<S(!new)>(loop: Loop<S>, v: seq<RowValue>)
    requires |v| == |loop.rows|
  {
    forall x0, post :: loop.init(x0) && loop.body(x0, post, true) ==> Satisfies(loop, v, post)
  }

  /** Every iteration of an enterable loop keeps the value. */
  ghost predicate Kept<S(!new)>(loop: Loop<S>, v: seq<RowValue>)
    requires |v| == |loop.rows|
  {
    (exists x0 :: loop.init(x0)) ==>
      forall lb, post :: Satisfies(loop, v, lb) && loop.body(lb, post, true) ==> Satisfies(loop, v, post)
  }

  /** Being inductive for the SSA is being established on entry and kept by every iteration. */
  lemma InductiveIff<S(!new)>(loop: Loop<S>, ctx: seq<Env>, v: seq<RowValue>)
    requires IsSsaOf(ctx, loop) && |v| == |loop.rows|
    requires forall i :: 0 <= i < |ctx| ==> |ctx[i]| == |v|
    ensures Inductive(ctx, v) <==> Established(loop, v) && Kept(loop, v)
  {
    if Inductive(ctx, v) {
      forall x0, post | loop.init(x0) && loop.body(x0, post, true) ensures Satisfies(loop, v, post) {
        ArrivalSatisfies(loop, ctx, v, false, x0, x0, post);
      }
      if x0 :| loop.init(x0) {
        forall lb, post | Satisfies(loop, v, lb) && loop.body(lb, post, true)
          ensures Satisfies(loop, v, post)
        {
          ArrivalSatisfies(loop, ctx, v, true, lb, x0, post);
        }
      }
    }
    if Established(loop, v) && Kept(loop, v) {
      forall i | 0 <= i < |ctx| && AllPre(v, ctx[i]) ensures !SomePostFails(v, ctx[i]) {
        assert ctx[i] in ctx;
        EnvKeeps(loop, v, ctx[i]);
      }
    }
  }

  lemma ArrivalSatisfies<S(!new)>(loop: Loop<S>, ctx: seq<Env>, v: seq<RowValue>, gls: bool, lb: S, x0: S, post: S)
    requires IsSsaOf(ctx, loop) && |v| == |loop.rows|
    requires forall i :: 0 <= i < |ctx| ==> |ctx[i]| == |v|
    requires Inductive(ctx, v) && loop.init(x0) && loop.body(Phi(gls, lb, x0), post, true)
    requires gls ==> Satisfies(loop, v, lb)
    ensures Satisfies(loop, v, post)
  {
    EnvReads(loop, v, gls, lb, post, true);
    assert Arises(loop, EnvOf(loop, gls, lb, post, true));
    assert EnvOf(loop, gls, lb, post, true) in ctx;
  }

  lemma EnvKeeps<S(!new)>(loop: Loop<S>, v: seq<RowValue>, e: Env)
    requires |v| == |loop.rows| && Established(loop, v) && Kept(loop, v)
    requires |e| == |v| && Arises(loop, e) && AllPre(v, e)
    ensures !SomePostFails(v, e)
  {
    var gls, lb, x0, post, again := SolutionBehind(loop, e);
    EnvReads(loop, v, gls, lb, post, again);
  }

  /** Every state that reaches the back edge, in every run from every initial state, satisfies an
      inductive value. */
  lemma {:induction false} RunsSatisfyInductive<S(!new)>(
    loop: Loop<S>, ctx: seq<Env>, v: seq<RowValue>, run: seq<S>, i: nat)
    requires IsSsaOf(ctx, loop) && |v| == |loop.rows|
    requires forall k :: 0 <= k < |ctx| ==> |ctx[k]| == |v|
    requires Inductive(ctx, v) && IsRun(loop, run) && 0 < i < |run|
    ensures Satisfies(loop, v, run[i])
  {
    InductiveIff(loop, ctx, v);
    assert loop.body(run[i - 1], run[i], true);
    if i > 1 {
      RunsSatisfyInductive(loop, ctx, v, run, i - 1);
    }
  }

  /** Points-to facts of a loop: at the back edge, in every run, the targets of a heap row's pointers
      are in the may-point-to set of an inductive value, unless its row is nondeterministic. */
  lemma RunsPointWithin<S(!new)>(loop: Loop<S>, ctx: seq<Env>, v: seq<RowValue>, run: seq<S>, i: nat, r: nat)
    requires IsSsaOf(ctx, loop) && |v| == |loop.rows| && r < |v| && v[r].PointsTo?
    requires forall k :: 0 <= k < |ctx| ==> |ctx[k]| == |v|
    requires Inductive(ctx, v) && IsRun(loop, run) && 0 < i < |run|
    requires loop.rows[r](run[i]).Pointers? && OneValue(loop.rows[r](run[i]))
    ensures v[r].nondet ||
      (AllReported(loop.rows[r](run[i])) && Targets(loop.rows[r](run[i]).dests) in v[r].may)
  {
    RunsSatisfyInductive(loop, ctx, v, run, i);
    HeapRowMeans(v[r], loop.rows[r](run[i]));
  }
}
