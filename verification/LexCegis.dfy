/** Synthesis of lexicographic linear ranking arguments (src/domains/lexlinrank_domain.cpp): each
    counterexample to a row is handed to an inner solver that looks for new coefficients, under
    ranges that widen before the row grows by an element, until the row is given up. */
module LexCegis {
  import opened Bitvectors
  import opened Widths
  import opened LexRanking
  import opened InnerSolver
  import opened LexRows

  class LexLinRankDomain {
    /** Variable types of each template row. */
    const templ: seq<seq<BvType>>
    const maxElements: nat
    const maxInnerIterations: nat
    const innerOracle: (nat, seq<seq<Assertion>>) -> Answer

    var rank: seq<RowValue>
    var refinementLevel: nat
    var numberInnerIterations: nat
    var numberElementsPerRow: seq<nat>
    var innerSolver: seq<seq<Assertion>>
    var innerCalls: nat
    /** Rows given up when no inner iterations were left. */
    ghost var exhausted: set<nat>

    /** Valid between edits, when the inner solver is back to its bottom context. */
    ghost predicate Valid()
      reads this
    {
      ValidState() && |innerSolver| == 1
    }

    ghost predicate ValidState()
      reads this
    {
      maxElements >= 1 && refinementLevel <= MAX_REFINEMENT && numberInnerIterations <= maxInnerIterations &&
      |rank| == |numberElementsPerRow| == |templ| && Answers(innerOracle) &&
      (forall r :: 0 <= r < |templ| ==> RowValid(templ[r], rank[r], numberElementsPerRow[r], maxElements)) &&
      |innerSolver| >= 1 && RecordsFit(templ, Sizes(numberElementsPerRow), innerSolver[0])
    }

    ghost predicate IterationsLeft()
      reads this`numberInnerIterations
    {
      numberInnerIterations < maxInnerIterations
    }

    ghost function TheLimits(): Limits {
      Limits(maxElements, maxInnerIterations)
    }

    ghost function Snapshot(): DomainState
      reads this
    {
      DomainState(rank, refinementLevel, numberInnerIterations, numberElementsPerRow, innerSolver, exhausted)
    }

    /** Bound on the number of edits still to come. */
    ghost function Budget(): nat
      requires ValidState()
      reads this
    {
      Times(Growth(rank, numberElementsPerRow, maxElements), 3 * (maxInnerIterations + 1)) +
      LevelsLeft(refinementLevel, maxInnerIterations + 1) + (maxInnerIterations - numberInnerIterations)
    }

    constructor (templ: seq<seq<BvType>>, maxElements: nat, maxInnerIterations: nat,
                 innerOracle: (nat, seq<seq<Assertion>>) -> Answer)
      requires maxElements >= 1 && Answers(innerOracle)
      requires forall r :: 0 <= r < |templ| ==> |templ[r]| >= 1
      ensures Valid() && this.templ == templ && this.maxElements == maxElements
      ensures this.maxInnerIterations == maxInnerIterations && this.innerOracle == innerOracle
      ensures forall r :: 0 <= r < |templ| ==> rank[r] == [FalseMark] && numberElementsPerRow[r] == 0
      ensures Budget() == |templ| * maxElements * (3 * (maxInnerIterations + 1)) + 3 * maxInnerIterations + 2
      ensures numberInnerIterations == refinementLevel == 0 && exhausted == {} && forall ctx :: InformedBy(ctx)
    {
      this.templ := templ;
      this.maxElements := maxElements;
      this.maxInnerIterations := maxInnerIterations;
      this.innerOracle := innerOracle;
      rank := seq(|templ|, _ => [FalseMark]);
      refinementLevel, numberInnerIterations := 0, 0;
      numberElementsPerRow := seq(|templ|, _ => 0);
      innerSolver, innerCalls, exhausted := [[]], 0, {};
      new;
      GrowthOfNew(rank, numberElementsPerRow, maxElements);
      TimesIsProduct(|templ| * maxElements, 3 * (maxInnerIterations + 1));
    }

    method Refine() returns (possible: bool)
      modifies this`refinementLevel
      ensures possible <==> old(refinementLevel) < MAX_REFINEMENT
      ensures refinementLevel == old(refinementLevel) + if possible then 1 else 0
    {
      possible := refinementLevel < MAX_REFINEMENT;
      if possible {
        refinementLevel := refinementLevel + 1;
      }
    }

    method ResetRefinements()
      modifies this`refinementLevel
      ensures refinementLevel == 0
    {
      refinementLevel := 0;
    }

    /** The candidate of a row meets the records, within a range. */
    ghost predicate HasCandidate(row: nat, range: (int, int))
      requires |rank| == |templ| && |innerSolver| >= 1 && row < |templ|
      reads this
    {
      NewCandidate(templ[row], innerSolver[0], row, rank[row], range)
    }

    /** Records the counterexample in the inner solver. */
    method RecordCounterexample(row: nat, x: View) returns (ghost a: Assertion)
      requires Valid() && row < |templ| && ViewFits(templ[row], x) && !IsTrue(rank[row])
      modifies this`innerSolver
      ensures Valid() && Budget() == old(Budget())
      ensures innerSolver == [old(innerSolver)[0] + [a]]
      ensures a.Lex? && a.row == row && a.size == |rank[row]| && a.s == x.s && a.s' == x.s'
    {
      var formula := BuildSymbolicCondition(row, |rank[row]|, templ[row], x.s, x.s');
      a := Lex(row, |rank[row]|, x.s, x.s', formula);
      innerSolver := [innerSolver[0] + [Lex(row, |rank[row]|, x.s, x.s', formula)]];
    }

    /** Solves under the range of the present refinement level, in a context of its own unless
        the level leaves the coefficients free. */
    method SolveRefined(row: nat) returns (answer: Answer, ghost base: seq<seq<Assertion>>)
      requires Valid() && row < |templ|
      modifies this`innerSolver, this`innerCalls
      ensures ValidState() && Budget() == old(Budget()) && base == old(innerSolver)
      ensures 1 <= |innerSolver| <= 2 && innerSolver[..1] == base
      ensures |innerSolver| == 2 <==> refinementLevel < MAX_REFINEMENT
      ensures answer.Sat? ==> AllAsserted(base, answer.model)
      ensures answer.Sat? ==>
        ModelInRange(row, |rank[row]|, |templ[row]|, answer.model, RefinementRange(refinementLevel))
      ensures answer.Unsat? ==> NoCandidate(row, |rank[row]|, |templ[row]|, base, RefinementRange(refinementLevel))
    {
      base := innerSolver;
      var size, n := |rank[row]|, |templ[row]|;
      var (lo, hi) := RefinementRange(refinementLevel);
      if refinementLevel < MAX_REFINEMENT {
        innerSolver := innerSolver + [[Range(row, size, n, lo, hi)]];
      }
      answer := innerOracle(innerCalls, innerSolver);
      innerCalls := innerCalls + 1;
      if answer.Sat? {
        assert AllAsserted(innerSolver, answer.model);
        assert forall c :: 0 <= c < |base| ==> innerSolver[c] == base[c];
        if refinementLevel < MAX_REFINEMENT {
          assert AssertionHolds(innerSolver[1][0], answer.model);
        }
      } else {
        forall m: Valuation | AllAsserted(base, m) 
          ensures !ModelInRange(row, size, n, m, RefinementRange(refinementLevel))
        {
          assert !AllAsserted(innerSolver, m);
        }
      }
    }

    /** Takes the model's coefficients as the row's new value. */
    method Accept(row: nat, m: Valuation, ghost range: (int, int))
      requires Valid() && row < |templ| && !IsTrue(rank[row]) && numberInnerIterations < maxInnerIterations
      requires AllAsserted(innerSolver, m) && ModelInRange(row, |rank[row]|, |templ[row]|, m, range)
      modifies this`rank, this`numberInnerIterations
      ensures Valid() && Budget() == old(Budget()) - 1
      ensures Accepted(old(Snapshot()), Snapshot(), row) && !IsTrue(rank[row])
      ensures HasCandidate(row, range)
    {
      var v := ReadModel(row, m);
      ModelRowRange(m, row, |rank[row]|, |templ[row]|, range);
      SameGrowth(row, v);
      ModelMeetsRecorded(row, m, v);
      numberInnerIterations := numberInnerIterations + 1;
      rank := rank[row := v];
    }

    lemma SameGrowth(row: nat, v: RowValue)
      requires ValidState() && row < |templ| && !IsTrue(rank[row]) && |v| > 0 && !IsTrue(v)
      ensures Growth(rank[row := v], numberElementsPerRow, maxElements) ==
        Growth(rank, numberElementsPerRow, maxElements)
    {
      GrowthAt(rank, numberElementsPerRow, maxElements, row, v, numberElementsPerRow[row]);
      assert numberElementsPerRow[row := numberElementsPerRow[row]] == numberElementsPerRow;
    }

    /** The coefficients a model gives the elements of a row. */
    method ReadModel(row: nat, m: Valuation) returns (v: RowValue)
      requires row < |rank| && row < |templ|
      ensures |v| == |rank[row]|
      ensures forall e :: 0 <= e < |v| ==> v[e] == Coefficients(ModelRow(m, row, |rank[row]|, |templ[row]|)[e])
      ensures Coefs(v) == ModelRow(m, row, |rank[row]|, |templ[row]|)
      ensures |v| > 0 ==> IsCandidate(v, |templ[row]|)
    {
      var size, n := |rank[row]|, |templ[row]|;
      v := [];
      for e := 0 to size
        invariant |v| == e && forall k :: 0 <= k < e ==> v[k] == Coefficients(ModelRow(m, row, size, n)[k])
      {
        v := v + [Coefficients(ModelRow(m, row, size, n)[e])];
      }
    }

    lemma ModelMeetsRecorded(row: nat, m: Valuation, v: RowValue)
      requires Valid() && row < |templ| && !IsTrue(rank[row]) && AllAsserted(innerSolver, m)
      requires IsCandidate(v, |templ[row]|) && Coefs(v) == ModelRow(m, row, |rank[row]|, |templ[row]|)
      ensures forall a :: 0 <= a < |innerSolver[0]| ==> RecordMet(row, templ[row], v, innerSolver[0][a])
    {
      forall a | 0 <= a < |innerSolver[0]| && innerSolver[0][a].row == row
        ensures RecordMet(row, templ[row], v, innerSolver[0][a])
      {
        assert AssertionHolds(innerSolver[0][a], m);
      }
    }

    /** No element can be added: the row is marked true. */
    method GiveUp(row: nat)
      requires Valid() && row < |templ| && !IsTrue(rank[row])
      requires numberElementsPerRow[row] == maxElements - 1 && refinementLevel == MAX_REFINEMENT
      modifies this`rank, this`refinementLevel, this`exhausted
      ensures Valid() && Budget() < old(Budget())
      ensures GivenUp(old(Snapshot()), Snapshot(), row, maxInnerIterations)
    {
      GrowthAt(rank, numberElementsPerRow, maxElements, row, [TrueMark], numberElementsPerRow[row]);
      assert numberElementsPerRow[row := numberElementsPerRow[row]] == numberElementsPerRow;
      GrowthPays(Growth(rank, numberElementsPerRow, maxElements),
        Growth(rank[row := [TrueMark]], numberElementsPerRow, maxElements), 3 * (maxInnerIterations + 1));
      rank := rank[row := [TrueMark]];
      exhausted := exhausted + if IterationsLeft() then {} else {row};
      ResetRefinements();
    }

    /** The row gets one more element and starts over with a fresh inner solver. */
    method AddElement(row: nat)
      requires Valid() && row < |templ| && !IsTrue(rank[row])
      requires numberElementsPerRow[row] < maxElements - 1 && refinementLevel == MAX_REFINEMENT
      modifies this
      ensures Valid() && Budget() < old(Budget())
      ensures Grown(old(Snapshot()), Snapshot(), row)
    {
      var v, m := FalseRow(|rank[row]| + 1), numberElementsPerRow[row] + 1;
      GrowthAt(rank, numberElementsPerRow, maxElements, row, v, m);
      GrowthPays(Growth(rank, numberElementsPerRow, maxElements),
        Growth(rank[row := v], numberElementsPerRow[row := m], maxElements), 3 * (maxInnerIterations + 1));
      numberElementsPerRow := numberElementsPerRow[row := m];
      innerSolver := [[]];
      ResetRefinements();
      rank := rank[row := v];
      numberInnerIterations := 0;
    }

    /** No candidate at this level, or the iterations are used up: widen the range, or else grow
        the row, or else give it up. */
    method Reject(row: nat, improved: bool) returns (improved': bool)
      requires ValidState() && row < |templ| && !IsTrue(rank[row])
      requires |innerSolver| == if refinementLevel < MAX_REFINEMENT then 2 else 1
      modifies this
      ensures Valid() && Budget() < old(Budget())
      ensures improved' <==> improved || !IsTrue(rank[row])
      ensures var was := old(Snapshot()).(innerSolver := old(innerSolver)[..1]);
        Rejected(was, Snapshot(), row, maxInnerIterations)
    {
      improved' := improved;
      ghost var was := Snapshot().(innerSolver := innerSolver[..1]);
      assert innerSolver[..|innerSolver| - 1] == innerSolver[..1] || was == Snapshot();
      var possible := Refine();
      if possible {
        improved' := true;
        innerSolver := innerSolver[..|innerSolver| - 1];
        assert Widened(was, Snapshot());
      } else if numberElementsPerRow[row] == maxElements - 1 {
        GiveUp(row);
      } else {
        AddElement(row);
        improved' := true;
      }
    }

    /** One counterexample-driven edit of a row. Every path leaves the inner solver's contexts
        balanced and uses up budget; `improved` is left as it was only when the row is given up.
        The row gets new coefficients exactly when iterations are left, its own records, this one
        included, can be met in the range of the refinement level, and those of every other row can
        be met at all; the coefficients then meet the records. */
    method EditRow(row: nat, x: View, improved: bool) returns (improved': bool)
      requires Valid() && row < |templ| && ViewFits(templ[row], x) && RowFails(templ[row], rank[row], x)
      modifies this
      ensures Valid() && Budget() < old(Budget())
      ensures |rank| == |old(rank)| && rank == old(rank)[row := rank[row]]
      ensures improved' <==> improved || !IsTrue(rank[row])
      ensures EditStep(templ, old(Snapshot()), Snapshot(), row, x, TheLimits())
    {
      ghost var was := Snapshot();
      ghost var a := RecordCounterexample(row, x);
      ghost var asked, before := innerSolver[0], Snapshot();
      NoCandidateIff(templ, Sizes(numberElementsPerRow), asked, row, RefinementRange(refinementLevel));
      improved' := Resolve(row, improved);
      OneRowChanges(before, Snapshot(), row, maxInnerIterations);
      assert Edit(templ, was, Snapshot(), asked, row, maxInnerIterations);
    }

    /** Puts the records to the inner solver and takes its answer. */
    method Resolve(row: nat, improved: bool) returns (improved': bool)
      requires Valid() && row < |templ| && !IsTrue(rank[row])
      modifies this
      ensures Valid() && Budget() < old(Budget())
      ensures improved' <==> improved || !IsTrue(rank[row])
      ensures var was, range := old(Snapshot()), RefinementRange(old(refinementLevel));
        if was.numberInnerIterations < maxInnerIterations &&
           !NoCandidate(row, |was.rank[row]|, |templ[row]|, was.innerSolver, range)
        then Accepted(was, Snapshot(), row) && HasCandidate(row, range)
        else Rejected(was, Snapshot(), row, maxInnerIterations)
    {
      var answer, base := SolveRefined(row);
      if answer.Sat? && numberInnerIterations < maxInnerIterations {
        innerSolver := innerSolver[..1];
        Accept(row, answer.model, RefinementRange(refinementLevel));
        improved' := true;
      } else {
        improved' := Reject(row, improved);
      }
    }

    /** Which rows' negated conditions the model satisfies, read off the formulas built for them. */
    method CondLiterals(e: Env) returns (literals: seq<bool>)
      requires Valid() && EnvFits(templ, e)
      ensures |literals| == |templ|
      ensures forall r :: 0 <= r < |templ| ==> (literals[r] <==> RowFails(templ[r], rank[r], e[r]))
    {
      literals := [];
      for row := 0 to |templ|
        invariant |literals| == row
        invariant forall r :: 0 <= r < row ==> (literals[r] <==> RowFails(templ[r], rank[r], e[r]))
      {
        var fails := false;
        if IsFalse(rank[row]) {
          fails := e[row].guard;
        } else if !IsTrue(rank[row]) {
          var k, tys, env := Coefs(rank[row]), templ[row], TransitionValuation(e[row].s, e[row].s');
          OuterCheckMeans(k, tys, e[row].s, e[row].s', env);
          var cond := BuildRowCondition(ConstantRow(k), ProgramVars(tys));
          fails := e[row].guard && !ConditionHolds(cond, env);
        }
        literals := literals + [fails];
      }
    }

    method HandleUnsat(improved: bool) returns (improved': bool)
      modifies this`refinementLevel
      ensures improved' == improved && refinementLevel == 0
    {
      ResetRefinements();
      improved' := improved;
    }

    /** One iteration. A violated row uses up budget; without improvement either the check was
        UNSAT, or every row edited in this iteration was given up. */
    method Iterate(ctx: seq<Env>) returns (improved: bool)
      requires Valid() && forall i :: 0 <= i < |ctx| ==> EnvFits(templ, ctx[i])
      modifies this
      ensures Valid()
      ensures Iteration(templ, ctx, old(Snapshot()), Snapshot(), improved, TheLimits())
      ensures !old(Verified(templ, rank, ctx)) ==> Budget() < old(Budget())
      ensures !improved ==> Verified(templ, rank, ctx) || SomeRowGivenUp(rank)
      ensures !improved ==> forall r :: 0 <= r < |rank| ==> rank[r] == old(rank)[r] || IsTrue(rank[r])
    {
      improved := false;
      ghost var was := Snapshot();
      if i :| 0 <= i < |ctx| && SomeRowFails(templ, rank, ctx[i]) {
        ghost var steps;
        improved, steps := EditFailedRows(ctx[i]);
        assert IterationOn(templ, ctx[i], was, Snapshot(), steps, improved, TheLimits());
      } else {
        improved := HandleUnsat(improved);
      }
      if !improved {
        NoImprovementMeans(templ, ctx, was, Snapshot(), TheLimits());
      }
    }

    ghost predicate InformedBy(ctx: seq<Env>)
      requires Valid()
      reads this
    {
      Informed(templ, ctx, Snapshot(), TheLimits())
    }

    method EditFailedRows(e: Env) returns (improved: bool, ghost steps: seq<DomainState>)
      requires Valid() && EnvFits(templ, e) && SomeRowFails(templ, rank, e)
      modifies this
      ensures Valid() && Budget() < old(Budget())
      ensures IterationOn(templ, e, old(Snapshot()), Snapshot(), steps, improved, TheLimits())
    {
      var literals := CondLiterals(e);
      improved, steps := false, [Snapshot()];
      ghost var was, budget, edited := Snapshot(), Budget(), false;
      for row := 0 to |templ|
        invariant Valid() && Budget() <= budget && (edited ==> Budget() < budget)
        invariant !edited ==> forall r :: 0 <= r < row ==> !literals[r]
        invariant InProgress(templ, e, was, Snapshot(), steps, row, improved, TheLimits())
      {
        ghost var mid, did := Snapshot(), improved;
        NextUntouched(templ, e, was, mid, steps, row, did, TheLimits());
        if literals[row] {
          improved := EditRow(row, e[row], improved);
          edited := true;
        }
        NextInProgress(templ, e, was, mid, Snapshot(), steps, row, did, improved, TheLimits());
        steps := steps + [Snapshot()];
      }
    }
  }

  /** The analyzer loop on a ranking domain: it ends whatever the counterexamples, and unless a
      row was given up the argument it stops with is verified. From an informed start no row is given
      up without a reason. */
  method Synthesize(domain: LexLinRankDomain, ctx: seq<Env>) returns (improvements: nat, ghost run: seq<DomainState>)
    requires domain.Valid() && forall i :: 0 <= i < |ctx| ==> EnvFits(domain.templ, ctx[i])
    modifies domain
    ensures domain.Valid()
    ensures IsSynthesis(domain.templ, ctx, run, false, domain.TheLimits()) && |run| == improvements + 2
    ensures run[0] == old(domain.Snapshot()) && run[improvements + 1] == domain.Snapshot()
    ensures Verified(domain.templ, domain.rank, ctx) || SomeRowGivenUp(domain.rank)
    ensures old(domain.InformedBy(ctx)) ==> GiveUpsExplained(domain.templ, ctx, domain.Snapshot(), domain.TheLimits())
    ensures improvements <= old(domain.Budget())
  {
    ghost var budget, informed := domain.Budget(), domain.InformedBy(ctx);
    var improved := true;
    improvements, run := 0, [domain.Snapshot()];
    while improved
      invariant domain.Valid()
      invariant IsSynthesis(domain.templ, ctx, run, improved, domain.TheLimits())
      invariant |run| == improvements + if improved then 1 else 2
      invariant run[0] == old(domain.Snapshot()) && run[|run| - 1] == domain.Snapshot()
      invariant improvements + (if improved then domain.Budget() else 0) <= budget
      invariant !improved ==> Verified(domain.templ, domain.rank, ctx) || SomeRowGivenUp(domain.rank)
      decreases improved, if improved then domain.Budget() else 0
    {
      improved := domain.Iterate(ctx);
      SynthesisGrows(domain.templ, ctx, run, domain.Snapshot(), improved, domain.TheLimits());
      run := run + [domain.Snapshot()];
      if improved {
        improvements := improvements + 1;
      }
    }
    if informed {
      SynthesisIsExplained(domain.templ, ctx, run, improvements, domain.TheLimits());
    }
  }
}
