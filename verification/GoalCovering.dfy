/** Goal covering with a spuriousness check (src/2ls/cover_goals_ext.cpp) and the verdicts drawn
    from it (src/2ls/summary_checker_base.cpp). */
module GoalCovering {

  datatype Status = NotChecked | Unknown | Pass | Fail

  /** A model of the SSA and its invariants: the value of every conjunct of every property, and
      which loop-select guards are true, that is, which loops it enters through an invariant. */
  datatype Model = Model(conjuncts: seq<seq<bool>>, selects: seq<bool>)

  predicate ModelsFit(models: seq<Model>, goals: nat) {
    forall i :: 0 <= i < |models| ==> |models[i].conjuncts| == goals
  }

  /** A goal is to violate its property: some conjunct is false. */
  predicate Violates(m: Model, g: nat)
    requires g < |m.conjuncts|
  {
    exists j :: 0 <= j < |m.conjuncts[g]| && !m.conjuncts[g][j]
  }

  predicate InvariantsInvolved(m: Model) {
    exists l :: 0 <= l < |m.selects| && m.selects[l]
  }

  ghost predicate Violated(models: seq<Model>, goals: nat, g: nat)
    requires ModelsFit(models, goals) && g < goals
  {
    exists i :: 0 <= i < |models| && Violates(models[i], g)
  }

  /** Some model violates the goal, on a path through no invariant if that is asked for. */
  ghost predicate ReallyViolated(models: seq<Model>, goals: nat, g: nat, spuriousCheck: bool)
    requires ModelsFit(models, goals) && g < goals
  {
    exists i :: 0 <= i < |models| && Violates(models[i], g) && (spuriousCheck ==> !InvariantsInvolved(models[i]))
  }

  function Count(covered: seq<bool>): (n: nat)
    ensures n <= |covered|
    ensures n == |covered| <==> forall g :: 0 <= g < |covered| ==> covered[g]
  {
    if covered == [] then 0
    else
      var n := |covered| - 1;
      Count(covered[..n]) + if covered[n] then 1 else 0
  }

  lemma {:induction false} CountSet(covered: seq<bool>, g: nat)
    requires g < |covered| && !covered[g]
    ensures Count(covered[g := true]) == Count(covered) + 1
  {
    var n := |covered| - 1;
    if g < n {
      CountSet(covered[..n], g);
      assert covered[g := true][..n] == covered[..n][g := true];
    } else {
      assert covered[g := true][..n] == covered[..n];
    }
  }

  lemma {:induction false} CountNone(covered: seq<bool>)
    requires forall g :: 0 <= g < |covered| ==> !covered[g]
    ensures Count(covered) == 0
  {
    if covered != [] {
      CountNone(covered[..|covered| - 1]);
    }
  }

  // ----- One round under the spuriousness check -----

  /** Every clause asks for one of its goals to be violated. */
  predicate ClausesMet(clauses: seq<set<nat>>, m: Model) {
    forall c :: 0 <= c < |clauses| ==> exists g :: g in clauses[c] && g < |m.conjuncts| && Violates(m, g)
  }

  /** A model that goes through no invariant and satisfies the clauses. */
  predicate Genuine(models: seq<Model>, clauses: seq<set<nat>>, j: nat) {
    j < |models| && ClausesMet(clauses, models[j]) && !InvariantsInvolved(models[j])
  }

  function GoalsLeft(covered: seq<bool>, constFalse: seq<bool>): set<nat>
    requires |covered| == |constFalse|
  {
    set g: nat | g < |covered| && !covered[g] && !constFalse[g]
  }

  datatype CoverState = CoverState(covered: seq<bool>, status: seq<Status>, clauses: seq<set<nat>>)

  predicate CoverStateFits(st: CoverState, goals: nat) {
    |st.covered| == |st.status| == goals
  }

  predicate Failed(models: seq<Model>, j: nat, was: seq<Status>, now: seq<Status>)
    requires j < |models| && |models[j].conjuncts| == |was|
  {
    |now| == |was| && forall g :: 0 <= g < |was| ==> now[g] == if Violates(models[j], g) then Fail else was[g]
  }

  /** Verdicts are drawn from the genuine model `j`, which is the model `i` itself if that is one;
      without any genuine model there are no verdicts. */
  ghost predicate Verdicts(models: seq<Model>, clauses: seq<set<nat>>, i: nat, was: seq<Status>, now: seq<Status>)
    requires i < |models| && ModelsFit(models, |was|)
  {
    if exists j: nat :: Genuine(models, clauses, j)
    then
      exists j: nat ::
        Genuine(models, clauses, j) && (InvariantsInvolved(models[i]) || j == i) && Failed(models, j, was, now)
    else now == was
  }

  /** One round in which the solver answers with the model `i`, all properties being wanted. */
  ghost predicate Round(models: seq<Model>, constFalse: seq<bool>, was: CoverState, now: CoverState, i: nat)
    requires ModelsFit(models, |constFalse|) && CoverStateFits(was, |constFalse|)
  {
    i < |models| && CoverStateFits(now, |constFalse|) && ClausesMet(now.clauses, models[i]) &&
    now.clauses == was.clauses + [GoalsLeft(was.covered, constFalse)] &&
    (forall g :: 0 <= g < |constFalse| ==> (now.covered[g] <==> was.covered[g] || Violates(models[i], g))) &&
    Verdicts(models, now.clauses, i, was.status, now.status)
  }

  /** No model through an invariant violates the goal, or else every genuine model that violates any
      goal violates this one. */
  ghost predicate Undistracted(models: seq<Model>, goals: nat, g: nat)
    requires ModelsFit(models, goals) && g < goals
  {
    (forall i :: 0 <= i < |models| && Violates(models[i], g) ==> !InvariantsInvolved(models[i])) ||
    forall i, h :: 0 <= i < |models| && 0 <= h < goals && !InvariantsInvolved(models[i]) && Violates(models[i], h) ==>
      Violates(models[i], g)
  }

  /** Under the spuriousness check: the goal is really violated, and nothing distracts from it. */
  ghost predicate SureToFail(models: seq<Model>, goals: nat, g: nat)
    requires ModelsFit(models, goals) && g < goals
  {
    ReallyViolated(models, goals, g, true) && Undistracted(models, goals, g)
  }

  /** A round that covers a really violated goal which nothing distracts from fails it. */
  lemma UndistractedFails(models: seq<Model>, constFalse: seq<bool>, was: CoverState, now: CoverState, i: nat, g: nat)
    requires ModelsFit(models, |constFalse|) && CoverStateFits(was, |constFalse|) && g < |constFalse|
    requires Round(models, constFalse, was, now, i) && !was.covered[g] && now.covered[g]
    requires SureToFail(models, |constFalse|, g)
    requires forall k :: 0 <= k < |models| && Violates(models[k], g) ==> ClausesMet(now.clauses, models[k])
    ensures now.status[g] == Fail
  {
    assert Violates(models[i], g);
    var k: nat :| k < |models| && Violates(models[k], g) && !InvariantsInvolved(models[k]);
    assert Genuine(models, now.clauses, k);
    var j: nat :| Genuine(models, now.clauses, j) && (InvariantsInvolved(models[i]) || j == i) &&
      Failed(models, j, was.status, now.status);
    var h := ClauseViolated(now.clauses, models[j], |now.clauses| - 1);
  }

  lemma ClauseViolated(clauses: seq<set<nat>>, m: Model, c: nat) returns (h: nat)
    requires ClausesMet(clauses, m) && c < |clauses|
    ensures h in clauses[c] && h < |m.conjuncts| && Violates(m, h)
  {
    h :| h in clauses[c] && h < |m.conjuncts| && Violates(m, h);
  }

  /** Every model of a goal not covered satisfies the clauses. */
  predicate LeftMeet(models: seq<Model>, covered: seq<bool>, clauses: seq<set<nat>>)
    requires ModelsFit(models, |covered|)
  {
    forall g, k :: 0 <= g < |covered| && 0 <= k < |models| && !covered[g] && Violates(models[k], g) ==>
      ClausesMet(clauses, models[k])
  }

  lemma NoGenuineLeft(models: seq<Model>, covered: seq<bool>, clauses: seq<set<nat>>, spuriousCheck: bool)
    requires ModelsFit(models, |covered|) && LeftMeet(models, covered, clauses) && spuriousCheck
    requires forall j :: 0 <= j < |models| && ClausesMet(clauses, models[j]) ==> InvariantsInvolved(models[j])
    ensures forall g :: 0 <= g < |covered| && !covered[g] ==> !ReallyViolated(models, |covered|, g, spuriousCheck)
  {
  }

  lemma NewlyCoveredFail(models: seq<Model>, constFalse: seq<bool>, was: CoverState, now: CoverState, i: nat)
    requires ModelsFit(models, |constFalse|) && CoverStateFits(was, |constFalse|)
    requires Round(models, constFalse, was, now, i)
    requires LeftMeet(models, was.covered, now.clauses)
    ensures forall g :: 0 <= g < |constFalse| && SureToFail(models, |constFalse|, g) ==>
      now.covered[g] && !was.covered[g] ==> now.status[g] == Fail
  {
    forall g | 0 <= g < |constFalse| && now.covered[g] && !was.covered[g] && SureToFail(models, |constFalse|, g)
      ensures now.status[g] == Fail
    {
      UndistractedFails(models, constFalse, was, now, i, g);
    }
  }

  class CoverGoals {
    /** All models of the SSA, and the goals whose literal is the constant false. */
    const models: seq<Model>
    const constFalse: seq<bool>
    const spuriousCheck: bool
    const allProperties: bool
    const buildErrorTrace: bool

    var covered: seq<bool>
    var numberCovered: nat
    var status: seq<Status>
    /** Clauses given to the solver for good: one of these goals is to be violated. */
    var clauses: seq<set<nat>>

    function Size(): nat {
      |constFalse|
    }

    ghost predicate SomeFailed()
      reads this`status
    {
      exists g :: 0 <= g < |status| && status[g] == Fail
    }

    ghost predicate Valid()
      reads this
    {
      ModelsFit(models, Size()) && |covered| == |status| == Size() && numberCovered == Count(covered) &&
      (forall g :: 0 <= g < Size() && constFalse[g] ==> !Violated(models, Size(), g)) &&
      (forall g :: 0 <= g < Size() && covered[g] ==> Violated(models, Size(), g)) &&
      (forall g :: 0 <= g < Size() && status[g] == Fail ==> ReallyViolated(models, Size(), g, spuriousCheck)) &&
      (forall g :: 0 <= g < Size() ==> status[g] == Fail || status[g] == Unknown) &&
      (forall c, g :: 0 <= c < |clauses| && 0 <= g < Size() && !covered[g] && !constFalse[g] ==> g in clauses[c])
    }

    constructor (models: seq<Model>, constFalse: seq<bool>, spuriousCheck: bool, allProperties: bool,
                 buildErrorTrace: bool)
      requires ModelsFit(models, |constFalse|)
      requires forall g :: 0 <= g < |constFalse| && constFalse[g] ==> !Violated(models, |constFalse|, g)
      ensures Valid() && this.models == models && this.constFalse == constFalse
      ensures this.spuriousCheck == spuriousCheck && this.allProperties == allProperties && clauses == []
      ensures this.buildErrorTrace == buildErrorTrace
      ensures forall g :: 0 <= g < Size() ==> !covered[g] && status[g] == Unknown
    {
      this.models, this.constFalse := models, constFalse;
      this.spuriousCheck, this.allProperties, this.buildErrorTrace := spuriousCheck, allProperties, buildErrorTrace;
      covered := seq(|constFalse|, _ => false);
      numberCovered := 0;
      status := seq(|constFalse|, _ => Unknown);
      clauses := [];
      new;
      CountNone(covered);
    }

    predicate Satisfies(m: Model)
      reads this`clauses
    {
      ClausesMet(clauses, m)
    }

    ghost function Snapshot(): CoverState
      reads this`covered, this`status, this`clauses
    {
      CoverState(covered, status, clauses)
    }

    /** A model of a goal still uncovered satisfies every clause so far. */
    lemma UncoveredSatisfies(i: nat, g: nat)
      requires Valid() && i < |models| && g < Size() && !covered[g] && Violates(models[i], g)
      ensures Satisfies(models[i])
    {
      forall c | 0 <= c < |clauses| ensures g in clauses[c] {
        assert !constFalse[g];
      }
    }

    lemma LeftSatisfy()
      requires Valid()
      ensures LeftMeet(models, covered, clauses)
    {
      forall g, i | 0 <= g < Size() && 0 <= i < |models| && !covered[g] && Violates(models[i], g)
        ensures Satisfies(models[i])
      {
        UncoveredSatisfies(i, g);
      }
    }

    /** Asks for one of the goals left. */
    method Constraint()
      requires Valid()
      modifies this`clauses
      ensures Valid() && clauses == old(clauses) + [GoalsLeft(covered, constFalse)]
    {
      var disjuncts: set<nat> := {};
      for g := 0 to Size()
        invariant forall k :: k in disjuncts <==> 0 <= k < g && !covered[k] && !constFalse[k]
      {
        if !covered[g] && !constFalse[g] {
          disjuncts := disjuncts + {g};
        }
      }
      assert disjuncts == GoalsLeft(covered, constFalse);
      clauses := clauses + [disjuncts];
    }

    /** Marks the goals the model covers. */
    method Mark(i: nat)
      requires Valid() && i < |models|
      modifies this`covered, this`numberCovered
      ensures Valid() && Count(covered) >= Count(old(covered))
      ensures forall g :: 0 <= g < Size() ==> (covered[g] <==> old(covered)[g] || Violates(models[i], g))
      ensures (exists g :: 0 <= g < Size() && !old(covered)[g] && Violates(models[i], g)) ==>
        Count(covered) > Count(old(covered))
    {
      ghost var was := covered;
      for g := 0 to Size()
        invariant Valid() && Count(covered) >= Count(was)
        invariant forall k :: 0 <= k < g ==> (covered[k] <==> was[k] || Violates(models[i], k))
        invariant forall k :: g <= k < Size() ==> covered[k] == was[k]
        invariant (exists k :: 0 <= k < g && !was[k] && Violates(models[i], k)) ==> Count(covered) > Count(was)
      {
        if !covered[g] && Violates(models[i], g) {
          CoverGoal(g, i);
        }
      }
    }

    method CoverGoal(g: nat, i: nat)
      requires Valid() && i < |models| && g < Size() && !covered[g] && Violates(models[i], g)
      modifies this`covered, this`numberCovered
      ensures Valid() && covered == old(covered)[g := true] && Count(covered) == Count(old(covered)) + 1
    {
      CountSet(covered, g);
      covered := covered[g := true];
      numberCovered := numberCovered + 1;
    }

    /** Fails the undecided properties the model violates; one is enough when a trace is built
        and not all properties are wanted. */
    method FailViolated(i: nat)
      requires Valid() && i < |models| && (spuriousCheck ==> !InvariantsInvolved(models[i]))
      modifies this`status
      ensures Valid()
      ensures forall g :: 0 <= g < Size() ==>
        status[g] == old(status)[g] || (status[g] == Fail && Violates(models[i], g))
      ensures allProperties || !buildErrorTrace ==>
        forall g :: 0 <= g < Size() && Violates(models[i], g) ==> status[g] == Fail
      ensures (exists g :: 0 <= g < Size() && Violates(models[i], g)) ==> SomeFailed()
    {
      var g := 0;
      var stopped := false;
      while g < Size() && !stopped
        invariant 0 <= g <= Size() && Valid()
        invariant stopped ==> !allProperties && buildErrorTrace && SomeFailed()
        invariant forall k :: 0 <= k < Size() ==>
          status[k] == old(status)[k] || (status[k] == Fail && Violates(models[i], k))
        invariant forall k :: 0 <= k < g && Violates(models[i], k) ==> status[k] == Fail
      {
        if (status[g] == Unknown || status[g] == NotChecked) && Violates(models[i], g) {
          status := status[g := Fail];
          assert status[g] == Fail;
          if buildErrorTrace && !allProperties {
            stopped := true;
          }
        }
        g := g + 1;
      }
    }

    /** Draws verdicts from a model, after replacing one that goes through an invariant by one
        that does not, if there is such a model. */
    method Assignment(i: nat)
      requires Valid() && i < |models| && |clauses| > 0 && Satisfies(models[i])
      modifies this`status
      ensures Valid()
      ensures forall g :: 0 <= g < Size() && old(status)[g] == Fail ==> status[g] == Fail
      ensures SomeFailed() ||
        (spuriousCheck && forall j :: 0 <= j < |models| && Satisfies(models[j]) ==> InvariantsInvolved(models[j]))
      ensures !spuriousCheck && allProperties ==>
        forall g :: 0 <= g < Size() && Violates(models[i], g) ==> status[g] == Fail
      ensures spuriousCheck && allProperties ==> Verdicts(models, clauses, i, old(status), status)
    {
      var invariantsInvolved := false;
      if spuriousCheck {
        var l := 0;
        while l < |models[i].selects| && !invariantsInvolved
          invariant 0 <= l <= |models[i].selects|
          invariant invariantsInvolved <==> exists k :: 0 <= k < l && models[i].selects[k]
        {
          invariantsInvolved := models[i].selects[l];
          l := l + 1;
        }
      }
      assert exists g :: g in clauses[0] && g < Size() && Violates(models[i], g);
      if !invariantsInvolved || !spuriousCheck {
        FailViolated(i);
        assert spuriousCheck ==> Genuine(models, clauses, i);
        return;
      }
      if j :| 0 <= j < |models| && Satisfies(models[j]) && !InvariantsInvolved(models[j]) {
        assert Genuine(models, clauses, j);
        assert exists g :: g in clauses[0] && g < Size() && Violates(models[j], g);
        FailViolated(j);
      }
    }

    /** One round: asks for a model of some goal left, and draws verdicts from it. */
    method CoverOnce() returns (satisfiable: bool)
      requires Valid()
      modifies this
      ensures Valid()
      ensures !satisfiable ==> covered == old(covered) && status == old(status)
      ensures !satisfiable ==> forall g :: 0 <= g < Size() && !covered[g] ==> !Violated(models, Size(), g)
      ensures satisfiable ==> numberCovered > old(numberCovered)
      ensures forall g :: 0 <= g < Size() && old(status)[g] == Fail ==> status[g] == Fail
      ensures !spuriousCheck && allProperties ==>
        forall g :: 0 <= g < Size() && covered[g] && !old(covered)[g] ==> status[g] == Fail
      ensures satisfiable && spuriousCheck && allProperties ==>
        exists i: nat :: Round(models, constFalse, old(Snapshot()), Snapshot(), i)
      ensures spuriousCheck && allProperties ==>
        forall g :: 0 <= g < Size() && covered[g] && !old(covered)[g] && SureToFail(models, Size(), g) ==>
          status[g] == Fail
      ensures satisfiable && !SomeFailed() ==>
        forall g :: 0 <= g < Size() && !old(covered)[g] ==> !ReallyViolated(models, Size(), g, spuriousCheck)
    {
      Constraint();
      LeftSatisfy();
      if i :| 0 <= i < |models| && Satisfies(models[i]) {
        ghost var was := CoverState(covered, status, clauses[..|clauses| - 1]);
        assert was == old(Snapshot());
        Answered(i, was);
        satisfiable := true;
        if spuriousCheck && allProperties {
          NewlyCoveredFail(models, constFalse, was, Snapshot(), i);
        }
        if !SomeFailed() {
          NoGenuineLeft(models, was.covered, clauses, spuriousCheck);
        }
      } else {
        satisfiable := false;
      }
    }

    /** Marks the goals a model covers and draws verdicts from it. */
    method Answered(i: nat, ghost was: CoverState)
      requires Valid() && i < |models| && |clauses| > 0 && Satisfies(models[i])
      requires was == CoverState(covered, status, clauses[..|clauses| - 1])
      requires clauses[|clauses| - 1] == GoalsLeft(covered, constFalse)
      modifies this`covered, this`numberCovered, this`status
      ensures Valid() && numberCovered > old(numberCovered)
      ensures forall g :: 0 <= g < Size() ==> (covered[g] <==> old(covered)[g] || Violates(models[i], g))
      ensures forall g :: 0 <= g < Size() && old(status)[g] == Fail ==> status[g] == Fail
      ensures !spuriousCheck && allProperties ==>
        forall g :: 0 <= g < Size() && Violates(models[i], g) ==> status[g] == Fail
      ensures spuriousCheck && allProperties ==> Round(models, constFalse, was, Snapshot(), i)
      ensures SomeFailed() ||
        (spuriousCheck && forall j :: 0 <= j < |models| && Satisfies(models[j]) ==> InvariantsInvolved(models[j]))
    {
      var h := ClauseViolated(clauses, models[i], |clauses| - 1);
      Mark(i);
      Assignment(i);
      assert clauses == was.clauses + [GoalsLeft(was.covered, constFalse)];
    }

    /** Covers goals until none is left or the solver finds no further model. */
    method Cover() returns (answers: nat)
      requires Valid() && clauses == [] && forall g :: 0 <= g < Size() ==> !covered[g] && status[g] == Unknown
      modifies this
      ensures Valid() && answers <= numberCovered <= Size()
      ensures allProperties || answers == 0 ==>
        forall g :: 0 <= g < Size() ==> (covered[g] <==> Violated(models, Size(), g))
      ensures !spuriousCheck && allProperties ==> forall g :: 0 <= g < Size() && covered[g] ==> status[g] == Fail
      ensures spuriousCheck && allProperties ==>
        forall g :: 0 <= g < Size() && SureToFail(models, Size(), g) ==> status[g] == Fail
      ensures SomeFailed() <==> exists g :: 0 <= g < Size() && ReallyViolated(models, Size(), g, spuriousCheck)
    {
      answers := 0;
      var satisfiable := true;
      CountNone(covered);
      while satisfiable && (answers == 0 || numberCovered < Size())
        invariant Valid() && answers <= numberCovered
        invariant !satisfiable ==> forall g :: 0 <= g < Size() && !covered[g] ==> !Violated(models, Size(), g)
        invariant answers > 0 ==> allProperties
        invariant answers > 0 ==> SomeFailed() || NoneReallyViolated()
        invariant answers == 0 ==> forall g :: 0 <= g < Size() ==> !covered[g]
        invariant !spuriousCheck ==> forall g :: 0 <= g < Size() && covered[g] ==> status[g] == Fail
        invariant spuriousCheck && allProperties ==>
          forall g :: 0 <= g < Size() && covered[g] && SureToFail(models, Size(), g) ==> status[g] == Fail
        decreases satisfiable, Size() - numberCovered
      {
        satisfiable := CoverOnce();
        if satisfiable {
          answers := answers + 1;
          if !allProperties {
            return;
          }
        }
      }
      forall g | 0 <= g < Size() && ReallyViolated(models, Size(), g, spuriousCheck)
        ensures Violated(models, Size(), g)
      {
      }
    }

    ghost predicate NoneReallyViolated()
      requires ModelsFit(models, Size())
    {
      forall g :: 0 <= g < Size() ==> !ReallyViolated(models, Size(), g, spuriousCheck)
    }
  }

  /** Without that a really violated goal can stay UNKNOWN: the first round takes a model of goal 0
      through an invariant, draws its verdict from a genuine model of goal 1 instead, and does not
      come back to goal 0, which a third model really violates. */
  lemma DistractedGoalStaysUnknown(models: seq<Model>, constFalse: seq<bool>)
    returns (st0: CoverState, st1: CoverState, st2: CoverState)
    requires models == [Model([[false], [true]], [true]), Model([[true], [false]], [false]),
                        Model([[false], [true]], [false])]
    requires constFalse == [false, false]
    ensures st0 == CoverState([false, false], [Unknown, Unknown], [])
    ensures Round(models, constFalse, st0, st1, 0) && Round(models, constFalse, st1, st2, 1)
    ensures st2.covered == [true, true] && st2.status == [Unknown, Fail]
    ensures ReallyViolated(models, 2, 0, true)
  {
    st0 := CoverState([false, false], [Unknown, Unknown], []);
    st1 := CoverState([true, false], [Unknown, Fail], [{0, 1}]);
    st2 := CoverState([true, true], [Unknown, Fail], [{0, 1}, {1}]);
    assert GoalsLeft(st0.covered, constFalse) == {0, 1} && GoalsLeft(st1.covered, constFalse) == {1};
    assert st1.clauses == [] + [{0, 1}] && st2.clauses == [{0, 1}] + [{1}];
    assert !models[0].conjuncts[0][0] && !models[1].conjuncts[1][0] && !models[2].conjuncts[0][0];
    assert Violates(models[0], 0) && Violates(models[1], 1) && models[0].selects[0];
    assert Genuine(models, st1.clauses, 1) && Genuine(models, st2.clauses, 1);
    assert Failed(models, 1, st0.status, st1.status) && Failed(models, 1, st1.status, st2.status);
    assert Violates(models[2], 0);
  }

  /** The verdicts on the goals of a function, none of them decided before. With all properties
      wanted, PASS goes exactly to the goals no model violates, FAIL only to goals violated, on a
      path through no invariant when spurious counterexamples are checked for; the other violated
      goals stay UNKNOWN, which only happens under that check. In every mode some verdict is FAIL if
      some goal is really violated: a genuine counterexample is never lost altogether. */
  method CheckProperties(models: seq<Model>, constFalse: seq<bool>, spuriousCheck: bool, allProperties: bool,
                         buildErrorTrace: bool) returns (verdicts: seq<Status>)
    requires ModelsFit(models, |constFalse|)
    requires forall g :: 0 <= g < |constFalse| && constFalse[g] ==> !Violated(models, |constFalse|, g)
    ensures |verdicts| == |constFalse|
    ensures forall g :: 0 <= g < |verdicts| && verdicts[g] == Pass ==> !Violated(models, |constFalse|, g)
    ensures forall g :: 0 <= g < |verdicts| && verdicts[g] == Fail ==>
      ReallyViolated(models, |constFalse|, g, spuriousCheck)
    ensures forall g :: 0 <= g < |verdicts| ==> verdicts[g] != NotChecked
    ensures allProperties ==>
      forall g :: 0 <= g < |verdicts| && !Violated(models, |constFalse|, g) ==> verdicts[g] == Pass
    ensures (exists g :: 0 <= g < |verdicts| && verdicts[g] == Fail) <==>
      (exists g :: 0 <= g < |verdicts| && ReallyViolated(models, |constFalse|, g, spuriousCheck))
    ensures (forall g :: 0 <= g < |verdicts| ==> !Violated(models, |constFalse|, g)) ==>
      forall g :: 0 <= g < |verdicts| ==> verdicts[g] == Pass
    ensures allProperties && !spuriousCheck ==>
      forall g :: 0 <= g < |verdicts| ==> (verdicts[g] == Fail <==> Violated(models, |constFalse|, g))
    ensures allProperties && spuriousCheck ==>
      forall g :: 0 <= g < |verdicts| && Undistracted(models, |constFalse|, g) ==>
        (verdicts[g] == Fail <==> ReallyViolated(models, |constFalse|, g, true))
  {
    var goals := new CoverGoals(models, constFalse, spuriousCheck, allProperties, buildErrorTrace);
    var answers := goals.Cover();
    verdicts := goals.status;
    if forall g :: 0 <= g < |constFalse| ==> !goals.covered[g] {
      CountNone(goals.covered);
    }
    if allProperties || goals.numberCovered == 0 {
      for g := 0 to |constFalse|
        invariant |verdicts| == |constFalse|
        invariant forall k :: 0 <= k < |constFalse| ==>
          verdicts[k] == if k < g && !goals.covered[k] then Pass else goals.status[k]
      {
        if !goals.covered[g] {
          verdicts := verdicts[g := Pass];
        }
      }
    }
  }
}
