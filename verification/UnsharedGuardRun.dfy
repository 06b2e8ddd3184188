/** A run of the equality domain whose rows do not share a guard, and which ends with a row joined
    that was refuted (src/domains/equality_domain.cpp). */
module UnsharedGuardRun {
  import opened EqualityDomain

  /** Rows 0-1 and 1-2 have their post-guards off in both solutions; row 0-2 has its on, and is
      refuted by the first solution, its disequality by the second. */
  const CHAIN_ROWS := [Row(0, 1), Row(1, 2), Row(0, 2)]

  function UnsharedGuards(): seq<Env> {
    [Env([true, true, true], [false, false, true], _ => 0, x => x),
     Env([false, false, false], [false, false, true], _ => 0, _ => 0)]
  }

  function ChainState(todoEqus: set<nat>, todoDisequs: set<nat>, equs: seq<nat>, facts: seq<Fact>): WorkState {
    WorkState(todoEqus, todoDisequs, equs, {}, facts, |facts|)
  }

  predicate AboutChain(facts: seq<Fact>, todo: set<nat>) {
    (forall k :: 0 <= k < |facts| ==> facts[k].row < 2 && !facts[k].dis) && forall r :: r in todo ==> r < 3
  }

  lemma ChainRowProved(row: nat, todo: set<nat>, equs: seq<nat>, facts: seq<Fact>)
    requires row < 2 && |equs| == 3 && row in todo && AboutChain(facts, todo)
    ensures StepTaken(CHAIN_ROWS, 3, UnsharedGuards(), ChainState(todo, {}, equs, facts), Fact(row, false),
      ChainState(todo - {row}, {}, MakeUnion(equs, row, row + 1), facts + [Fact(row, false)]))
  {
    assert !Refutable(CHAIN_ROWS, UnsharedGuards(), facts, Fact(row, false));
    assert todo + {} - {row} == todo - {row};
  }

  lemma ChainStart()
    ensures var f0, f1 := Fact(0, false), Fact(1, false);
      var s1, s2 := ChainState({1, 2}, {}, [0, 0, 2], [f0]), ChainState({2}, {}, [0, 0, 0], [f0, f1]);
      StepTaken(CHAIN_ROWS, 3, UnsharedGuards(), InitialState(CHAIN_ROWS, 3), f0, s1) &&
      StepTaken(CHAIN_ROWS, 3, UnsharedGuards(), s1, f1, s2)
  {
    var f0, f1 := Fact(0, false), Fact(1, false);
    ChainRowProved(0, {0, 1, 2}, [0, 1, 2], []);
    ChainRowProved(1, {1, 2}, [0, 0, 2], [f0]);
    assert InitialState(CHAIN_ROWS, 3) == ChainState({0, 1, 2}, {}, [0, 1, 2], []) by {
      assert Indices(3) == {0, 1, 2};
    }
    assert {0, 1, 2} - {0} == {1, 2} && {1, 2} - {1} == {2};
    assert MakeUnion([0, 1, 2], 0, 1) == [0, 0, 2] && MakeUnion([0, 0, 2], 1, 2) == [0, 0, 0];
    assert [] + [f0] == [f0] && [f0] + [f1] == [f0, f1];
  }

  lemma ChainRowRefuted(facts: seq<Fact>, dis: bool)
    requires AboutChain(facts, {})
    ensures Refutable(CHAIN_ROWS, UnsharedGuards(), facts, Fact(2, dis))
  {
    assert Refutes(CHAIN_ROWS, facts, Fact(2, dis), UnsharedGuards()[if dis then 1 else 0]);
  }

  lemma ChainRowDropped(equs: seq<nat>, facts: seq<Fact>)
    requires |equs| == 3 && AboutChain(facts, {})
    ensures StepTaken(CHAIN_ROWS, 3, UnsharedGuards(),
      ChainState({2}, {}, equs, facts), Fact(2, false), ChainState({}, {2}, equs, facts))
    ensures StepTaken(CHAIN_ROWS, 3, UnsharedGuards(),
      ChainState({}, {2}, equs, facts), Fact(2, true), ChainState({}, {}, equs, facts))
  {
    ChainRowRefuted(facts, false);
    ChainRowRefuted(facts, true);
  }

  lemma ChainEnd(facts: seq<Fact>)
    requires AboutChain(facts, {})
    ensures var joined: seq<nat> := [0, 0, 0];
      RunsTo(CHAIN_ROWS, 3, UnsharedGuards(), ChainState({2}, {}, joined, facts),
        [Fact(2, false)] + ([Fact(2, true)] + []), ChainState({}, {}, joined, facts))
  {
    var rows, ctx, joined := CHAIN_ROWS, UnsharedGuards(), [0, 0, 0];
    var waiting, last := ChainState({}, {2}, joined, facts), ChainState({}, {}, joined, facts);
    ChainRowDropped(joined, facts);
    OneStepBefore(rows, 3, ctx, waiting, Fact(2, true), last, [], last);
    OneStepBefore(rows, 3, ctx, ChainState({2}, {}, joined, facts), Fact(2, false), waiting,
      [Fact(2, true)] + [], last);
  }

  lemma ChainProjection(facts: seq<Fact>)
    requires AboutChain(facts, {})
    ensures StateFits(CHAIN_ROWS, 3, ChainState({}, {}, [0, 0, 0], facts))
    ensures !Inductive(CHAIN_ROWS, UnsharedGuards(), Projected(CHAIN_ROWS, 3, ChainState({}, {}, [0, 0, 0], facts)))
  {
    var projected := Projected(CHAIN_ROWS, 3, ChainState({}, {}, [0, 0, 0], facts));
    assert 2 in Indices(3) && Fact(2, false) in projected;
    var e := UnsharedGuards()[0];
    assert PostFails(CHAIN_ROWS, Fact(2, false), e);
    assert forall f :: f in projected ==> PreHolds(CHAIN_ROWS, f, e);
  }

  lemma TwoStepsBefore(templ: seq<Row>, ctx: seq<Env>, st: WorkState, f: Fact, mid: WorkState, g: Fact, next: WorkState,
                       rest: seq<Fact>, last: WorkState)
    requires EnvsFit(templ, ctx) && RowsFit(templ, 3)
    requires StepTaken(templ, 3, ctx, st, f, mid) && StepTaken(templ, 3, ctx, mid, g, next)
    requires RunsTo(templ, 3, ctx, next, rest, last)
    ensures RunsTo(templ, 3, ctx, st, [f] + ([g] + rest), last)
  {
    OneStepBefore(templ, 3, ctx, mid, g, next, rest, last);
    OneStepBefore(templ, 3, ctx, st, f, mid, [g] + rest, last);
  }

  lemma ChainRun(facts: seq<Fact>) returns (tried: seq<Fact>)
    requires facts == [Fact(0, false), Fact(1, false)]
    ensures RunsTo(CHAIN_ROWS, 3, UnsharedGuards(), InitialState(CHAIN_ROWS, 3), tried,
      ChainState({}, {}, [0, 0, 0], facts))
  {
    var f0, f1, rows := facts[0], facts[1], CHAIN_ROWS;
    var s1, s2 := ChainState({1, 2}, {}, [0, 0, 2], [f0]), ChainState({2}, {}, [0, 0, 0], [f0, f1]);
    var rest, last := [Fact(2, false)] + ([Fact(2, true)] + []), ChainState({}, {}, [0, 0, 0], facts);
    ChainStart();
    ChainEnd(facts);
    TwoStepsBefore(rows, UnsharedGuards(), InitialState(rows, 3), f0, s1, f1, s2, rest, last);
    tried := [f0] + ([f1] + rest);
  }

  /** Without a shared guard the last step fails: rows 0-1 and 1-2 are established where their own
      guards are on, the run ends with 0 and 2 in one class, and yet row 0-2, guarded differently,
      was refuted: the projected invariant is not inductive. */
  lemma SharedGuardIsNeeded() returns (tried: seq<Fact>, last: WorkState)
    ensures RunsTo(CHAIN_ROWS, 3, UnsharedGuards(), InitialState(CHAIN_ROWS, 3), tried, last)
    ensures last.todoEqus == last.todoDisequs == {} && StateFits(CHAIN_ROWS, 3, last)
    ensures SameSet(CHAIN_ROWS, last.equs, 2) && Fact(2, false) !in last.permanent
    ensures !Inductive(CHAIN_ROWS, UnsharedGuards(), Projected(CHAIN_ROWS, 3, last))
  {
    var facts := [Fact(0, false), Fact(1, false)];
    last := ChainState({}, {}, [0, 0, 0], facts);
    tried := ChainRun(facts);
    ChainProjection(facts);
  }
}
