/** The inner solver of the ranking synthesis (src/domains/lexlinrank_domain.cpp): what it is told
    of the counterexamples, what its answers mean, and when it has none to give. */
module InnerSolver {
  import opened Bitvectors
  import opened Widths
  import opened LexRanking

  /** Asserted formulas: the lexicographic condition on one counterexample to a row, and the
      range its coefficients may take. */
  datatype Assertion =
    | Lex(row: nat, size: nat, s: State, s': State, formula: Condition)
    | Range(row: nat, size: nat, n: nat, lo: int, hi: int)

  datatype Answer = Sat(model: Valuation) | Unsat

  /** Coefficients the model gives a row. */
  function ModelRow(m: Valuation, row: nat, size: nat, n: nat): (k: Coefficients)
    ensures |k| == size && CoefficientsFit(k, n)
  {
    seq(size, e requires 0 <= e < size => seq(n, i requires 0 <= i < n => ModelCoefficient(m, row, e, i)))
  }

  function ModelCoefficient(m: Valuation, row: nat, elm: nat, i: nat): (c: int)
    ensures -512 <= c <= 511
  {
    CoefficientRange();
    Wrap(COEFF_TYPE, m(Coeff(row, elm, i)))
  }

  predicate AssertionHolds(a: Assertion, m: Valuation) {
    match a
    case Lex(_, _, _, _, formula) => ConditionHolds(formula, m)
    case Range(row, size, n, lo, hi) =>
      forall e, i :: 0 <= e < size && 0 <= i < n ==> lo <= ModelRow(m, row, size, n)[e][i] <= hi
  }

  /** The model keeps the row's coefficients in a range. */
  predicate ModelInRange(row: nat, size: nat, n: nat, m: Valuation, range: (int, int)) {
    AssertionHolds(Range(row, size, n, range.0, range.1), m)
  }

  /** No model of the asserted formulas keeps the row's coefficients in the range. */
  ghost predicate NoCandidate(row: nat, size: nat, n: nat, stack: seq<seq<Assertion>>, range: (int, int)) {
    forall m: Valuation :: AllAsserted(stack, m) ==> !ModelInRange(row, size, n, m, range)
  }

  predicate AllAsserted(stack: seq<seq<Assertion>>, m: Valuation) {
    forall c, a :: 0 <= c < |stack| && 0 <= a < |stack[c]| ==> AssertionHolds(stack[c][a], m)
  }

  /** The inner solver answers correctly on every stack of contexts, however it picks models from
      one call to the next. */
  ghost predicate Answers(oracle: (nat, seq<seq<Assertion>>) -> Answer) {
    forall call, stack ::
      match oracle(call, stack)
      case Sat(m) => AllAsserted(stack, m)
      case Unsat => forall m: Valuation :: !AllAsserted(stack, m)
  }

  ghost function SomeAnswer(stack: seq<seq<Assertion>>): Answer {
    if exists m: Valuation :: AllAsserted(stack, m) then
      var m: Valuation :| AllAsserted(stack, m);
      Sat(m)
    else Unsat
  }

  /** Such solvers exist. */
  lemma AnswersPossible()
    ensures exists oracle: (nat, seq<seq<Assertion>>) -> Answer :: Answers(oracle)
  {
    var oracle := (call: nat, stack: seq<seq<Assertion>>) => SomeAnswer(stack);
    assert Answers(oracle);
  }

  /** The formula of a `Lex` assertion, read in machine arithmetic under any model, is the
      lexicographic step with the model's coefficients on the recorded transition. */
  ghost predicate FormulaMeans(tys: seq<BvType>, a: Assertion) {
    a.Lex? && |a.s| == |a.s'| == |tys| &&
    forall m: Valuation :: ConditionHolds(a.formula, m) <==> LexStep(ModelRow(m, a.row, a.size, |tys|), a.s, a.s')
  }

  /** Coefficient range of a refinement level; the last level leaves the 10-bit range. */
  function RefinementRange(level: nat): (int, int) {
    if level == 0 then (-1, 1)
    else if level == 1 then (-10, 10)
    else FULL_RANGE
  }

  /** The inner formula: elements are visited from the last to the first. */
  method BuildSymbolicCondition(row: nat, size: nat, tys: seq<BvType>, s: State, s': State)
    returns (cond: Condition)
    requires |tys| >= 1 && StateFits(tys, s) && StateFits(tys, s')
    ensures forall m: Valuation :: ConditionHolds(cond, m) <==> LexStep(ModelRow(m, row, size, |tys|), s, s')
  {
    var symbols, vars := SymbolicRow(row, size, |tys|), ModelVars(tys, s, s');
    cond := [];
    var elm := size;
    while elm > 0
      invariant 0 <= elm <= size && |cond| == size - elm
      invariant forall k, m: Valuation :: 0 <= k < |cond| ==>
        (AllHold(cond[k], m) <==> DecreasesAt(symbols, vars, m, size - 1 - k))
    {
      elm := elm - 1;
      var c := BuildElement(symbols, vars, elm);
      cond := cond + [c];
    }
    forall m: Valuation ensures ConditionHolds(cond, m) <==> LexStep(ModelRow(m, row, size, |tys|), s, s') {
      ReversedElements(symbols, vars, cond, m);
      InnerCheckMeans(row, ModelRow(m, row, size, |tys|), tys, s, s', m);
    }
  }

  /** The order of the elements' conjunctions does not matter. */
  lemma ReversedElements(row: seq<seq<Expr>>, vars: seq<PrePost>, cond: Condition, m: Valuation)
    requires RowShape(row, vars) && |cond| == |row|
    requires forall k :: 0 <= k < |cond| ==> (AllHold(cond[k], m) <==> DecreasesAt(row, vars, m, |row| - 1 - k))
    ensures ConditionHolds(cond, m) <==> LexDecreases(row, vars, m)
  {
    if LexDecreases(row, vars, m) {
      var e :| 0 <= e < |row| && DecreasesAt(row, vars, m, e);
      assert AllHold(cond[|row| - 1 - e], m);
    }
    if ConditionHolds(cond, m) {
      var k :| 0 <= k < |cond| && AllHold(cond[k], m);
      assert DecreasesAt(row, vars, m, |row| - 1 - k);
    }
  }

  // ----- When the records can be met -----

  /** Records of counterexamples to the rows, each about a row of its present size. */
  ghost predicate RecordsFit(templ: seq<seq<BvType>>, sizes: seq<nat>, records: seq<Assertion>) {
    |sizes| == |templ| && forall a :: 0 <= a < |records| ==> RecordFits(templ, sizes, records[a])
  }

  ghost predicate RecordFits(templ: seq<seq<BvType>>, sizes: seq<nat>, a: Assertion)
    requires |sizes| == |templ|
  {
    a.Lex? && a.row < |templ| && FormulaMeans(templ[a.row], a) && a.size == sizes[a.row]
  }

  predicate InRangeOf(k: Coefficients, range: (int, int)) {
    forall e, i :: 0 <= e < |k| && 0 <= i < |k[e]| ==> range.0 <= k[e][i] <= range.1
  }

  /** These coefficients make the lexicographic step on every counterexample recorded for the row. */
  ghost predicate MeetsRecords(records: seq<Assertion>, row: nat, n: nat, k: Coefficients) {
    CoefficientsFit(k, n) &&
    forall a :: 0 <= a < |records| ==> MeetsRecord(records[a], row, n, k)
  }

  predicate MeetsRecord(a: Assertion, row: nat, n: nat, k: Coefficients)
    requires CoefficientsFit(k, n)
  {
    a.Lex? && a.row == row && |a.s| == |a.s'| == n ==> LexStep(k, a.s, a.s')
  }

  ghost predicate Rankable(records: seq<Assertion>, row: nat, size: nat, n: nat, range: (int, int)) {
    exists k :: |k| == size && MeetsRecords(records, row, n, k) && InRangeOf(k, range)
  }

  const FULL_RANGE: (int, int) := (-512, 511)

  /** No coefficient exceeds the bound in magnitude. */
  predicate BoundedBy(k: Coefficients, bound: nat) {
    forall e, i :: 0 <= e < |k| && 0 <= i < |k[e]| ==> Abs(k[e][i]) <= bound
  }

  /** Magnitudes up to 1 at the first level, up to 10 at the next and all coefficients at the last;
      so a row that has a candidate at one level has one at the next. */
  lemma RefinementWidens(records: seq<Assertion>, row: nat, size: nat, n: nat, level: nat)
    ensures Rankable(records, row, size, n, RefinementRange(level)) <==>
      exists k :: |k| == size && MeetsRecords(records, row, n, k) &&
        (level == 0 ==> BoundedBy(k, 1)) && (level == 1 ==> BoundedBy(k, 10))
    ensures Rankable(records, row, size, n, RefinementRange(level)) ==>
      Rankable(records, row, size, n, RefinementRange(level + 1))
  {
    forall k | |k| == size && MeetsRecords(records, row, n, k)
      ensures InRangeOf(k, RefinementRange(level)) <==>
        (level == 0 ==> BoundedBy(k, 1)) && (level == 1 ==> BoundedBy(k, 10))
      ensures InRangeOf(k, RefinementRange(level)) ==> InRangeOf(k, RefinementRange(level + 1))
    {
    }
  }

  /** The model that gives each row its own coefficients. */
  function JoinedModel(ks: seq<Coefficients>): Valuation {
    (name: Name) =>
      match name
      case Coeff(r, e, i) => if r < |ks| && e < |ks[r]| && i < |ks[r][e]| then ks[r][e][i] else 0
      case _ => 0
  }

  lemma JoinedModelRow(ks: seq<Coefficients>, row: nat, n: nat)
    requires row < |ks| && CoefficientsFit(ks[row], n)
    ensures ModelRow(JoinedModel(ks), row, |ks[row]|, n) == ks[row]
  {
    CoefficientRange();
    var k, m := ks[row], ModelRow(JoinedModel(ks), row, |ks[row]|, n);
    forall e | 0 <= e < |k| ensures m[e] == k[e] {
      forall i | 0 <= i < n ensures m[e][i] == k[e][i] {
      }
    }
  }

  /** A model meets the records exactly when its coefficients do, row by row. */
  lemma ModelMeetsIff(templ: seq<seq<BvType>>, sizes: seq<nat>, records: seq<Assertion>, m: Valuation)
    requires RecordsFit(templ, sizes, records)
    ensures AllAsserted([records], m) <==>
      forall r: nat :: r < |templ| ==> MeetsRecords(records, r, |templ[r]|, ModelRow(m, r, sizes[r], |templ[r]|))
  {
    forall a | 0 <= a < |records|
      ensures AssertionHolds(records[a], m) <==>
        LexStep(ModelRow(m, records[a].row, records[a].size, |templ[records[a].row]|), records[a].s, records[a].s')
    {
      assert RecordFits(templ, sizes, records[a]);
    }
    if AllAsserted([records], m) {
      assert forall a :: 0 <= a < |records| ==> AssertionHolds([records][0][a], m);
    }
    if forall r: nat :: r < |templ| ==> MeetsRecords(records, r, |templ[r]|, ModelRow(m, r, sizes[r], |templ[r]|)) {
      forall a | 0 <= a < |records| ensures AssertionHolds(records[a], m) {
        assert RecordFits(templ, sizes, records[a]);
        assert MeetsRecords(records, records[a].row, |templ[records[a].row]|,
          ModelRow(m, records[a].row, sizes[records[a].row], |templ[records[a].row]|));
      }
    }
  }

  function RangeFor(row: nat, range: (int, int), r: nat): (int, int) {
    if r == row then range else FULL_RANGE
  }

  ghost predicate AllRankable(
    templ: seq<seq<BvType>>, sizes: seq<nat>, records: seq<Assertion>, row: nat, range: (int, int), end: nat)
    requires |sizes| == |templ| && end <= |templ|
  {
    forall r: nat :: r < end ==> Rankable(records, r, sizes[r], |templ[r]|, RangeFor(row, range, r))
  }

  lemma {:induction false} ChooseCoefficients(
    templ: seq<seq<BvType>>, sizes: seq<nat>, records: seq<Assertion>, row: nat, range: (int, int), end: nat)
    returns (ks: seq<Coefficients>)
    requires |sizes| == |templ| && end <= |templ| && AllRankable(templ, sizes, records, row, range, end)
    ensures |ks| == end
    ensures forall r :: 0 <= r < end ==>
      |ks[r]| == sizes[r] && MeetsRecords(records, r, |templ[r]|, ks[r]) && InRangeOf(ks[r], RangeFor(row, range, r))
  {
    if end == 0 {
      ks := [];
    } else {
      var r: nat := end - 1;
      ks := ChooseCoefficients(templ, sizes, records, row, range, r);
      assert Rankable(records, r, sizes[r], |templ[r]|, RangeFor(row, range, r));
      var k :| |k| == sizes[r] && MeetsRecords(records, r, |templ[r]|, k) && InRangeOf(k, RangeFor(row, range, r));
      ks := ks + [k];
    }
  }

  lemma ModelRowRange(m: Valuation, row: nat, size: nat, n: nat, range: (int, int))
    ensures ModelInRange(row, size, n, m, range) <==> InRangeOf(ModelRow(m, row, size, n), range)
    ensures InRangeOf(ModelRow(m, row, size, n), FULL_RANGE)
  {
  }

  /** The rows' unknowns are independent: the solver has no candidate for a row exactly when the
      records of that row cannot be met in the range, or those of some other row cannot be met at
      all. */
  lemma NoCandidateIff(templ: seq<seq<BvType>>, sizes: seq<nat>, records: seq<Assertion>, row: nat, range: (int, int))
    requires RecordsFit(templ, sizes, records) && row < |templ|
    ensures NoCandidate(row, sizes[row], |templ[row]|, [records], range) <==>
      !AllRankable(templ, sizes, records, row, range, |templ|)
  {
    var n := |templ[row]|;
    if AllRankable(templ, sizes, records, row, range, |templ|) {
      var ks := ChooseCoefficients(templ, sizes, records, row, range, |templ|);
      var m := JoinedModel(ks);
      forall r: nat | r < |templ| ensures ModelRow(m, r, sizes[r], |templ[r]|) == ks[r] {
        JoinedModelRow(ks, r, |templ[r]|);
      }
      ModelMeetsIff(templ, sizes, records, m);
      ModelRowRange(m, row, sizes[row], n, range);
      assert InRangeOf(ks[row], RangeFor(row, range, row));
    }
    if m: Valuation :| AllAsserted([records], m) && ModelInRange(row, sizes[row], n, m, range) {
      ModelMeetsIff(templ, sizes, records, m);
      forall r: nat | r < |templ| ensures Rankable(records, r, sizes[r], |templ[r]|, RangeFor(row, range, r)) {
        ModelRowRange(m, r, sizes[r], |templ[r]|, range);
      }
    }
  }

  /** Once the records of one row cannot be met, every later query fails, for every row and in every
      range, as long as the solver is not replaced. */
  lemma UnmetRecordsStay(
    templ: seq<seq<BvType>>, sizes: seq<nat>, records: seq<Assertion>, r: nat, more: seq<Assertion>,
    rest: seq<seq<Assertion>>, m: Valuation)
    requires RecordsFit(templ, sizes, records) && r < |templ|
    requires !Rankable(records, r, sizes[r], |templ[r]|, FULL_RANGE)
    ensures !AllAsserted([records + more] + rest, m)
  {
    if AllAsserted([records + more] + rest, m) {
      var stack := [records + more] + rest;
      assert forall a :: 0 <= a < |records| ==> stack[0][a] == records[a];
      assert AllAsserted([records], m);
      ModelMeetsIff(templ, sizes, records, m);
      ModelRowRange(m, r, sizes[r], |templ[r]|, FULL_RANGE);
    }
  }

  /** A longer tuple can do what a shorter one does: an element of zeros never changes. */
  function Padded(k: Coefficients, n: nat, size: nat): (p: Coefficients)
    requires |k| <= size
    ensures |p| == size && p[..|k|] == k
    ensures CoefficientsFit(k, n) ==> CoefficientsFit(p, n)
  {
    k + seq(size - |k|, _ => seq(n, _ => 0))
  }

  lemma {:induction false} ZeroValue(n: nat, s: State)
    requires n <= |s|
    ensures Value(seq(n, _ => 0), s) == 0
  {
    if n > 0 {
      ZeroValue(n - 1, s);
      assert seq(n, _ => 0)[..n - 1] == seq(n - 1, _ => 0);
    }
  }

  lemma PaddedSteps(k: Coefficients, size: nat, s: State, s': State)
    requires |k| <= size && |s| == |s'| && CoefficientsFit(k, |s|) && LexStep(k, s, s')
    ensures LexStep(Padded(k, |s|, size), s, s')
  {
    var p := Padded(k, |s|, size);
    var elm :| 0 <= elm < |k| && StepsAt(k, s, s', elm);
    assert forall e :: 0 <= e < |k| ==> p[e] == k[e];
    ZeroValue(|s|, s);
    ZeroValue(|s|, s');
    assert StepsAt(p, s, s', elm);
  }
}
