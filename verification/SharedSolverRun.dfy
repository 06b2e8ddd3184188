/** Two rows that share the inner solver of the ranking synthesis: the first has no ranking, and once
    it was given up the second is given up too, although it has one
    (src/domains/lexlinrank_domain.cpp). */
module SharedSolverRun {
  import opened Bitvectors
  import opened LexRanking
  import opened InnerSolver
  import opened LexCegis
  import opened LexRows

  const TWO_ROWS: seq<seq<BvType>> := [[Signed(8)], [Signed(8)]]

  /** One solution: the first row's variable stays at 0, the second's goes from 1 to 0. */
  const BOTH_FAIL: Env := [View(true, [0], [0]), View(true, [1], [0])]

  /** A record that no coefficients can meet. */
  predicate Stuck(records: seq<Assertion>) {
    exists a :: 0 <= a < |records| && records[a].Lex? && records[a].row == 0 && records[a].s == records[a].s' == [0]
  }

  lemma StuckIsUnmet(records: seq<Assertion>, sizes: seq<nat>, row: nat, range: (int, int))
    requires Stuck(records) && |sizes| == 2 && row < 2
    ensures !AllRankable(TWO_ROWS, sizes, records, row, range, 2)
  {
    var a :| 0 <= a < |records| && records[a].Lex? && records[a].row == 0 && records[a].s == records[a].s' == [0];
    forall k ensures !MeetsRecords(records, 0, 1, k) {
      assert CoefficientsFit(k, 1) ==> !MeetsRecord(records[a], 0, 1, k);
    }
    var r: nat := 0;
    assert !Rankable(records, r, sizes[r], |TWO_ROWS[r]|, RangeFor(row, range, r));
  }

  ghost predicate Running(domain: LexLinRankDomain)
    reads domain
  {
    domain.Valid() && domain.templ == TWO_ROWS && domain.maxElements == 1 && domain.maxInnerIterations > 0 &&
    domain.numberInnerIterations == 0 && domain.exhausted == {}
  }

  /** With a stuck record the next edit of either row is rejected: the range is widened, or at the
      last level the row given up. */
  method RejectedEdit(domain: LexLinRankDomain, row: nat)
    requires Running(domain) && row < 2 && domain.rank[row] == [FalseMark]
    requires row == 0 || Stuck(domain.innerSolver[0])
    modifies domain
    ensures Running(domain) && Stuck(domain.innerSolver[0])
    ensures if old(domain.refinementLevel) < MAX_REFINEMENT
      then domain.rank == old(domain.rank) && domain.refinementLevel == old(domain.refinementLevel) + 1
      else domain.rank == old(domain.rank)[row := [TrueMark]] && domain.refinementLevel == 0
  {
    ghost var was := domain.Snapshot();
    var improved := domain.EditRow(row, BOTH_FAIL[row], false);
    StuckStep(was, domain.Snapshot(), row, domain.TheLimits());
  }

  lemma StuckStep(was: DomainState, now: DomainState, row: nat, limits: Limits)
    requires StateFitsTempl(TWO_ROWS, was, limits) && StateFitsTempl(TWO_ROWS, now, limits)
    requires row < 2 && was.rank[row] == [FalseMark] && (row == 0 || Stuck(was.innerSolver[0]))
    requires was.refinementLevel <= MAX_REFINEMENT && limits.elements == 1
    requires was.numberInnerIterations < limits.iterations
    requires EditStep(TWO_ROWS, was, now, row, BOTH_FAIL[row], limits)
    ensures Stuck(now.innerSolver[0]) && now.exhausted == was.exhausted
    ensures now.numberInnerIterations == was.numberInnerIterations
    ensures if was.refinementLevel < MAX_REFINEMENT
      then now.rank == was.rank && now.refinementLevel == was.refinementLevel + 1
      else now.rank == was.rank[row := [TrueMark]] && now.refinementLevel == 0
  {
    var asked :| RecordedOn(asked, was.innerSolver[0], row, BOTH_FAIL[row]) &&
      Edit(TWO_ROWS, was, now, asked, row, limits.iterations);
    StillStuck(was.innerSolver[0], asked, row);
    StuckIsUnmet(asked, Sizes(was.numberElementsPerRow), row, RefinementRange(was.refinementLevel));
    assert RowValid(TWO_ROWS[row], now.rank[row], now.numberElementsPerRow[row], 1);
  }

  lemma StillStuck(before: seq<Assertion>, asked: seq<Assertion>, row: nat)
    requires row < 2 && RecordedOn(asked, before, row, BOTH_FAIL[row]) && (row == 0 || Stuck(before))
    ensures Stuck(asked)
  {
    if row == 0 {
      assert asked[|asked| - 1].s == [0];
    } else {
      var a :| 0 <= a < |before| && before[a].Lex? && before[a].row == 0 && before[a].s == before[a].s' == [0];
      assert asked[a] == before[a];
    }
  }

  /** The edits of the outer iterations, all on the same solution: rows that it still violates are
      edited in turn. The second row is given up with all its inner iterations left. */
  method GivesUpBoth(oracle: (nat, seq<seq<Assertion>>) -> Answer, maxInnerIterations: nat)
    returns (domain: LexLinRankDomain)
    requires Answers(oracle) && maxInnerIterations > 0
    ensures fresh(domain) && domain.Valid() && domain.templ == TWO_ROWS && domain.maxElements == 1
    ensures domain.rank == [[TrueMark], [TrueMark]] && domain.IterationsLeft() && domain.exhausted == {}
  {
    domain := new LexLinRankDomain(TWO_ROWS, 1, maxInnerIterations, oracle);
    RejectedEdit(domain, 0);
    RejectedEdit(domain, 1);
    RejectedEdit(domain, 0);
    RejectedEdit(domain, 1);
    RejectedEdit(domain, 1);
    RejectedEdit(domain, 1);
  }

  /** Yet the second row has a ranking of one element, and only the first has none. */
  lemma SecondRowHasRanking()
    ensures !Hopeless([BOTH_FAIL], 1, 1, 1)
    ensures Hopeless([BOTH_FAIL], 0, 1, 1)
  {
    var k := [[1]];
    assert Value([1], [1]) == 1 && Value([1], [0]) == 0 by {
      assert [1][..0] == [];
    }
    assert StepsAt(k, [1], [0], 0);
    assert Ranks(k, 1, BOTH_FAIL[1]);
    assert RanksAll([BOTH_FAIL], 1, 1, k);
    forall k: Coefficients ensures !RanksAll([BOTH_FAIL], 0, 1, k) {
      assert CoefficientsFit(k, 1) ==> !Ranks(k, 1, [BOTH_FAIL][0][0]);
    }
  }
}
