/** The strategy solvers (src/domains/strategy_solver_simple.cpp, strategy_solver_binsearch.cpp)
    and the analyzer loop around them (src/domains/ssa_analyzer.cpp). The SAT solver is an
    arbitrary choice of an environment that meets the asserted constraints. */
module StrategySolvers {
  import opened Bitvectors
  import opened Tuples
  import opened TemplateBounds
  import opened Templates
  import opened BinarySearch

  /** The pre-constraints of all rows but one hold. */
  predicate OthersMet(v: seq<RowValue>, e: Env, row: nat)
    requires |v| == |e|
  {
    forall other :: 0 <= other < |v| && other != row ==> PreHolds(v[other], e[other])
  }

  /** A symbolic bound `s` of a row is feasible when some environment meets the other rows'
      pre-constraints and this row's with bound `s`, and leaves the row at `s` or above, starting
      from a value other than `s`. */
  predicate FeasibleAt(v: seq<RowValue>, e: Env, row: nat, s: int)
    requires |v| == |e| && row < |v|
    requires e[row].pre.Number? && e[row].post.Number?
  {
    OthersMet(v, e, row) && (e[row].preGuard ==> e[row].pre.n <= s) &&
    e[row].postGuard && e[row].post.n >= s && s != e[row].pre.n
  }

  ghost predicate Feasible(templ: seq<RowKind>, ctx: seq<Env>, v: seq<RowValue>, row: nat, s: int)
    requires ValuesFit(templ, v) && ContextFits(templ, ctx)
    requires row < |templ| && templ[row].Poly?
  {
    exists i :: 0 <= i < |ctx| && ReadingFits(templ[row], ctx[i][row].pre) &&
      ReadingFits(templ[row], ctx[i][row].post) && FeasibleAt(v, ctx[i], row, s)
  }

  /** One row rises to a number, no higher than its maximum; the others keep their values. */
  predicate RaisesOneRow(templ: seq<RowKind>, v: seq<RowValue>, w: seq<RowValue>, row: nat, n: int)
    requires ValuesFit(templ, v)
  {
    row < |templ| && templ[row].Poly? && InRange(templ[row].ty, n) && n <= templ[row].max &&
    !BoundLeq(Fin(n), v[row].bound) && w == v[row := Interval(Fin(n))]
  }

  lemma RaiseUsesSlack(templ: seq<RowKind>, v: seq<RowValue>, w: seq<RowValue>, row: nat, n: int)
    requires ValuesFit(templ, v) && RaisesOneRow(templ, v, w, row, n)
    ensures ValuesFit(templ, w) && Slack(templ, w) < Slack(templ, v)
  {
    SlackAt(templ, v, row, Interval(Fin(n)));
  }

  ghost function FeasibleBounds(templ: seq<RowKind>, ctx: seq<Env>, v: seq<RowValue>, row: nat): iset<int>
    requires ValuesFit(templ, v) && ContextFits(templ, ctx)
    requires row < |templ| && templ[row].Poly?
  {
    iset s | Feasible(templ, ctx, v, row, s)
  }

  /** One iteration of binary search: on the counterexample `ctx[i]` the first row it fails rises
      to the outcome of a search from its reading. */
  ghost predicate RaisedBySearch(templ: seq<RowKind>, ctx: seq<Env>, v: seq<RowValue>, w: seq<RowValue>,
                                 i: nat, row: nat, n: int, gaps: seq<Gap>)
    requires ValuesFit(templ, v) && ContextFits(templ, ctx) && AllPoly(templ)
  {
    i < |ctx| && row < |templ| && AllPre(v, ctx[i]) && PostFails(v[row], ctx[i][row]) &&
    (forall r :: 0 <= r < row ==> !PostFails(v[r], ctx[i][r])) &&
    ReadingFits(templ[row], ctx[i][row].post) &&
    SearchOutcome(templ[row].ty, templ[row].max, FeasibleBounds(templ, ctx, v, row), ctx[i][row].post.n, n, gaps) &&
    w == v[row := Interval(Fin(n))]
  }

  /** The iteration takes the row further up from a value that already lies above `n`. */
  predicate Climbs(k: RowKind, e: RowEnv, n: int) {
    k.Poly? && ReadingFits(k, e.pre) && ReadingFits(k, e.post) && e.preGuard && e.postGuard && n < e.pre.n < e.post.n
  }

  /** Some iteration that meets the other rows' pre-constraints climbs from above `n`. */
  ghost predicate SomeClimbs(templ: seq<RowKind>, ctx: seq<Env>, v: seq<RowValue>, row: nat, n: int)
    requires ContextFits(templ, ctx) && |v| == |templ| && row < |templ|
  {
    exists i :: 0 <= i < |ctx| && OthersMet(v, ctx[i], row) && Climbs(templ[row], ctx[i][row], n)
  }

  /** Binary search asks about symbolic bounds, not about values that are reached. Starting below
      an inductive value, a bound above it is feasible exactly when some iteration climbs from
      above it. */
  lemma OvershootIff(templ: seq<RowKind>, ctx: seq<Env>, v: seq<RowValue>, w: seq<RowValue>, row: nat)
    requires ValuesFit(templ, v) && ValuesFit(templ, w) && ContextFits(templ, ctx) && AllPoly(templ)
    requires Below(v, w) && Inductive(ctx, w) && row < |templ| && w[row].bound.Fin?
    ensures !NothingAbove(FeasibleBounds(templ, ctx, v, row), w[row].bound.n) <==>
      SomeClimbs(templ, ctx, v, row, w[row].bound.n)
  {
    var n := w[row].bound.n;
    if SomeClimbs(templ, ctx, v, row, n) {
      var i :| 0 <= i < |ctx| && OthersMet(v, ctx[i], row) && Climbs(templ[row], ctx[i][row], n);
      assert FeasibleAt(v, ctx[i], row, ctx[i][row].post.n);
      assert ctx[i][row].post.n in FeasibleBounds(templ, ctx, v, row);
    }
    forall s | s > n && s in FeasibleBounds(templ, ctx, v, row) ensures SomeClimbs(templ, ctx, v, row, n) {
      var i :| 0 <= i < |ctx| && ReadingFits(templ[row], ctx[i][row].pre) &&
        ReadingFits(templ[row], ctx[i][row].post) && FeasibleAt(v, ctx[i], row, s);
      if !Climbs(templ[row], ctx[i][row], n) {
        PreHoldsAbove(templ, v, w, ctx[i], row);
        assert !PostFails(w[row], ctx[i][row]);
      }
    }
  }

  /** Pre-constraints met under a value are met under every value above it. */
  lemma PreHoldsAbove(templ: seq<RowKind>, v: seq<RowValue>, w: seq<RowValue>, e: Env, row: nat)
    requires EnvFits(templ, e) && AllPoly(templ) && |templ| == |v| && Below(v, w) && row < |w|
    requires OthersMet(v, e, row) && PreHolds(w[row], e[row])
    ensures AllPre(w, e)
  {
    forall other | 0 <= other < |w| ensures PreHolds(w[other], e[other]) {
      assert ReadingFits(templ[other], e[other].pre);
      assert other != row ==> PreHolds(v[other], e[other]);
    }
  }

  /** An iteration of binary search that started below an inductive value stays below it unless
      some iteration climbs from above it; and then it passes the value, unless `between` missed. */
  lemma SearchStaysBelowIff(templ: seq<RowKind>, ctx: seq<Env>, v: seq<RowValue>, w: seq<RowValue>, u: seq<RowValue>,
                            i: nat, row: nat, n: int, gaps: seq<Gap>)
    requires ValuesFit(templ, v) && ValuesFit(templ, w) && ContextFits(templ, ctx) && AllPoly(templ)
    requires Below(v, w) && Inductive(ctx, w) && RaisedBySearch(templ, ctx, v, u, i, row, n, gaps)
    ensures !w[row].bound.NegInf?
    ensures w[row].bound.PosInf? ==> Below(u, w)
    ensures w[row].bound.Fin? && !SomeClimbs(templ, ctx, v, row, w[row].bound.n) ==> Below(u, w)
    ensures w[row].bound.Fin? && (forall g :: g in gaps ==> !Missed(templ[row].ty, g)) ==>
      (Below(u, w) <==> !SomeClimbs(templ, ctx, v, row, w[row].bound.n))
  {
    var start := ctx[i][row].post.n;
    PreHoldsAbove(templ, v, w, ctx[i], row);
    assert !PostFails(w[row], ctx[i][row]);
    if w[row].bound.Fin? {
      OvershootIff(templ, ctx, v, w, row);
      assert start <= w[row].bound.n;
      assert Below(u, w) <==> n <= w[row].bound.n;
    }
  }

  /** An inductive value such that no iteration climbs from above one of its bounds while meeting
      the others. */
  ghost predicate Barrier(templ: seq<RowKind>, ctx: seq<Env>, w: seq<RowValue>)
    requires ContextFits(templ, ctx) && AllPoly(templ)
  {
    ValuesFit(templ, w) && Inductive(ctx, w) &&
    forall row :: 0 <= row < |templ| && w[row].bound.Fin? ==> !SomeClimbs(templ, ctx, w, row, w[row].bound.n)
  }

  /** What climbs while meeting a value climbs while meeting every value above it. */
  lemma ClimbsAbove(templ: seq<RowKind>, ctx: seq<Env>, v: seq<RowValue>, w: seq<RowValue>, row: nat)
    requires ValuesFit(templ, v) && ValuesFit(templ, w) && ContextFits(templ, ctx) && AllPoly(templ)
    requires Below(v, w) && row < |templ|
    ensures forall n :: SomeClimbs(templ, ctx, v, row, n) ==> SomeClimbs(templ, ctx, w, row, n)
  {
    forall i | 0 <= i < |ctx| && OthersMet(v, ctx[i], row) ensures OthersMet(w, ctx[i], row) {
      forall other | 0 <= other < |w| && other != row ensures PreHolds(w[other], ctx[i][other]) {
        assert PreHolds(v[other], ctx[i][other]) && ReadingFits(templ[other], ctx[i][other].pre);
      }
    }
  }

  // ----- Iterations -----

  /** One improving iteration: a step on a counterexample, or one search on it. */
  ghost predicate Improves(
    templ: seq<RowKind>, binSearch: bool, ctx: seq<Env>, v: seq<RowValue>, w: seq<RowValue>)
    requires ValuesFit(templ, v) && ContextFits(templ, ctx) && (binSearch ==> AllPoly(templ))
  {
    if binSearch then exists i, row, n, gaps :: RaisedBySearch(templ, ctx, v, w, i, row, n, gaps)
    else exists i :: 0 <= i < |ctx| && AllPre(v, ctx[i]) && SomePostFails(v, ctx[i]) && w == Step(v, ctx[i])
  }

  /** The values of improving iterations, one after the other. */
  ghost predicate IsImprovingRun(
    templ: seq<RowKind>, binSearch: bool, ctx: seq<Env>, run: seq<seq<RowValue>>)
    requires ContextFits(templ, ctx) && (binSearch ==> AllPoly(templ))
  {
    (forall j :: 0 <= j < |run| ==> ValuesFit(templ, run[j])) &&
    forall j :: 0 < j < |run| ==> Improves(templ, binSearch, ctx, run[j - 1], run[j])
  }

  lemma RunGrows(
    templ: seq<RowKind>, binSearch: bool, ctx: seq<Env>, run: seq<seq<RowValue>>, v: seq<RowValue>, w: seq<RowValue>)
    requires ContextFits(templ, ctx) && (binSearch ==> AllPoly(templ)) && IsImprovingRun(templ, binSearch, ctx, run)
    requires |run| > 0 && run[|run| - 1] == v && ValuesFit(templ, v) && ValuesFit(templ, w)
    requires Improves(templ, binSearch, ctx, v, w)
    ensures IsImprovingRun(templ, binSearch, ctx, run + [w])
  {
    var all := run + [w];
    forall j | 0 < j < |all| ensures Improves(templ, binSearch, ctx, all[j - 1], all[j]) {
      assert all[j - 1] == run[j - 1];
    }
  }

  lemma BottomsBelow(templ: seq<RowKind>, w: seq<RowValue>)
    requires ValuesFit(templ, w)
    ensures Below(Bottoms(templ), w)
  {
    forall row | 0 <= row < |templ| ensures RowBelow(Bottoms(templ)[row], w[row]) {
      assert ValueFits(templ[row], w[row]);
    }
  }

  /** Enumeration stays below every inductive value it started below. */
  lemma {:induction false} EnumerationStaysBelow(
    templ: seq<RowKind>, ctx: seq<Env>, run: seq<seq<RowValue>>, j: nat, w: seq<RowValue>)
    requires ContextFits(templ, ctx) && PointersHaveOneValue(ctx) && ValuesFit(templ, w) && Inductive(ctx, w)
    requires j < |run| && IsImprovingRun(templ, false, ctx, run) && Below(run[0], w)
    ensures Below(run[j], w)
  {
    if j > 0 {
      EnumerationStaysBelow(templ, ctx, run, j - 1, w);
      var v := run[j - 1];
      assert Improves(templ, false, ctx, v, run[j]);
      var i :| 0 <= i < |ctx| && AllPre(v, ctx[i]) && SomePostFails(v, ctx[i]) && run[j] == Step(v, ctx[i]);
      StepStaysBelow(templ, ctx, v, w, i);
    }
  }

  /** Binary search stays below every inductive value above which nothing climbs. */
  lemma {:induction false} SearchStaysBelow(
    templ: seq<RowKind>, ctx: seq<Env>, run: seq<seq<RowValue>>, j: nat, w: seq<RowValue>)
    requires ContextFits(templ, ctx) && AllPoly(templ) && Barrier(templ, ctx, w)
    requires j < |run| && IsImprovingRun(templ, true, ctx, run) && Below(run[0], w)
    ensures Below(run[j], w)
  {
    if j > 0 {
      SearchStaysBelow(templ, ctx, run, j - 1, w);
      var v := run[j - 1];
      assert Improves(templ, true, ctx, v, run[j]);
      var i, row, m, gaps :| RaisedBySearch(templ, ctx, v, run[j], i, row, m, gaps);
      ClimbsAbove(templ, ctx, v, w, row);
      SearchStaysBelowIff(templ, ctx, v, w, run[j], i, row, m, gaps);
    }
  }

  class StrategySolver {
    const templ: seq<RowKind>
    /** The strategy of a polyhedra domain: binary search, or enumeration as for heap rows. */
    const binSearch: bool
    var inv: seq<RowValue>

    ghost predicate Valid()
      reads this
    {
      ValuesFit(templ, inv) && (binSearch ==> AllPoly(templ))
    }

    /** All rows start at their bottom markers. */
    constructor (templ: seq<RowKind>, binSearch: bool)
      requires forall row :: 0 <= row < |templ| ==> KindFits(templ[row])
      requires binSearch ==> AllPoly(templ)
      ensures Valid() && this.templ == templ && this.binSearch == binSearch
      ensures |inv| == |templ| && forall row :: 0 <= row < |templ| ==> inv[row] == Bottom(templ[row])
    {
      this.templ := templ;
      this.binSearch := binSearch;
      inv := seq(|templ|, row requires 0 <= row < |templ| => Bottom(templ[row]));
    }

    /** Which rows' post-constraints the model fails. */
    method CondLiterals(e: Env) returns (literals: seq<bool>)
      requires Valid() && EnvFits(templ, e)
      ensures |literals| == |templ|
      ensures forall row :: 0 <= row < |templ| ==> (literals[row] <==> PostFails(inv[row], e[row]))
    {
      literals := [];
      for row := 0 to |templ|
        invariant |literals| == row
        invariant forall r :: 0 <= r < row ==> (literals[r] <==> PostFails(inv[r], e[r]))
      {
        literals := literals + [PostFails(inv[row], e[row])];
      }
    }

    /** Targets of a heap row's pointers, or `None` at the first pointer without one. */
    method PointsToDestinations(r: Reading) returns (destinations: Option<Tuple>)
      requires r.Pointers?
      ensures destinations.None? <==> exists i :: 0 <= i < |r.dests| && r.dests[i].None?
      ensures destinations.Some? ==> |destinations.value| == |r.dests|
      ensures destinations.Some? ==>
        forall i :: 0 <= i < |r.dests| ==> r.dests[i] == Option.Some(destinations.value[i])
    {
      var found: Tuple := [];
      for i := 0 to |r.dests|
        invariant |found| == i
        invariant forall j :: 0 <= j < i ==> r.dests[j] == Option.Some(found[j])
      {
        if r.dests[i].None? {
          return Option.None;
        }
        found := found + [r.dests[i].value];
      }
      return Option.Some(found);
    }

    method EditRow(row: nat, e: RowEnv, improved: bool) returns (improved': bool)
      requires Valid() && row < |templ| && ReadingFits(templ[row], e.post)
      requires PostFails(inv[row], e)
      modifies this
      ensures Valid() && improved'
      ensures inv == old(inv)[row := Edited(old(inv)[row], e.post)]
      ensures Slack(templ, inv) < old(Slack(templ, inv))
    {
      EditWeakens(templ[row], inv[row], e);
      SlackAt(templ, inv, row, Edited(inv[row], e.post));
      ghost var next := Edited(inv[row], e.post);
      match e.post
      case Number(n) =>
        inv := inv[row := Interval(Fin(n))];
        improved' := true;
      case Pointers(dests, _) =>
        var may, nondet := inv[row].may, inv[row].nondet;
        var destinations := PointsToDestinations(e.post);
        if destinations.Some? && destinations.value !in may {
          assert destinations.value == Targets(dests);
          inv := inv[row := PointsTo(may + {destinations.value}, nondet)];
          improved' := true;
        } else {
          assert destinations.Some? ==> destinations.value == Targets(dests);
          inv := inv[row := PointsTo(may, true)];
          improved' := improved || !nondet;
        }
    }

    /** One iteration of the generic solver. */
    method IterateSimple(ctx: seq<Env>) returns (improved: bool)
      requires Valid() && ContextFits(templ, ctx)
      modifies this
      ensures Valid()
      ensures improved <==> !Inductive(ctx, old(inv))
      ensures !improved ==> inv == old(inv)
      ensures improved ==> Improves(templ, false, ctx, old(inv), inv)
      ensures improved ==> Slack(templ, inv) < old(Slack(templ, inv))
    {
      improved := false;
      if i :| 0 <= i < |ctx| && AllPre(inv, ctx[i]) && SomePostFails(inv, ctx[i]) {
        improved := EditFailedRows(ctx[i]);
      }
    }

    /** Edits every row the model fails. */
    method EditFailedRows(e: Env) returns (improved: bool)
      requires Valid() && EnvFits(templ, e) && SomePostFails(inv, e)
      modifies this
      ensures Valid() && improved && inv == Step(old(inv), e)
      ensures Slack(templ, inv) < old(Slack(templ, inv))
    {
      improved := false;
      ghost var was := inv;
      var literals := CondLiterals(e);
      for row := 0 to |templ|
        invariant Valid()
        invariant forall r :: 0 <= r < row ==> inv[r] == if literals[r] then Edited(was[r], e[r].post) else was[r]
        invariant forall r :: row <= r < |templ| ==> inv[r] == was[r]
        invariant !improved ==> inv == was && forall r :: 0 <= r < row ==> !literals[r]
        invariant improved ==> Slack(templ, inv) < Slack(templ, was)
      {
        if literals[row] {
          improved := EditRow(row, e[row], improved);
        }
      }
      assert inv == Step(was, e);
    }

    /** Asks for a symbolic bound of the row, `middle` or larger. */
    method SolveFrom(ctx: seq<Env>, row: nat, middle: int) returns (sat: bool, bound: int)
      requires Valid() && ContextFits(templ, ctx) && row < |templ| && templ[row].Poly?
      ensures sat ==> middle <= bound <= templ[row].max && Feasible(templ, ctx, inv, row, bound)
      ensures !sat ==> NothingFrom(FeasibleBounds(templ, ctx, inv, row), middle)
    {
      if i, s :| 0 <= i < |ctx| && middle <= s <= Largest(templ[row].ty) && FeasibleAt(inv, ctx[i], row, s) {
        assert ReadingFits(templ[row], ctx[i][row].post);
        return true, s;
      }
      return false, 0;
    }

    /** Binary search for the largest feasible bound of a row, from a value already reached. It
        ends whatever `between` returns, as one of the searches that `SearchEnds` allows, and finds
        that bound unless a call of `between` it made on a gap of two or more missed. The solver is
        called at most six times more than the row's type has bits. */
    method SearchBound(ctx: seq<Env>, row: nat, start: int) returns (lower: int, ghost gaps: seq<Gap>, ghost calls: nat)
      requires Valid() && ContextFits(templ, ctx)
      requires row < |templ| && templ[row].Poly?
      requires InRange(templ[row].ty, start) && start <= templ[row].max
      ensures start <= lower <= templ[row].max && (lower == start || Feasible(templ, ctx, inv, row, lower))
      ensures SearchEnds(templ[row].ty, FeasibleBounds(templ, ctx, inv, row), start, templ[row].max, lower)
      ensures SearchOutcome(templ[row].ty, templ[row].max, FeasibleBounds(templ, ctx, inv, row), start, lower, gaps)
      ensures (forall g :: g in gaps ==> !Missed(templ[row].ty, g)) ==>
        NothingAbove(FeasibleBounds(templ, ctx, inv, row), lower)
      ensures CannotLose(templ[row].ty, templ[row].max, FeasibleBounds(templ, ctx, inv, row), start) ==>
        NothingAbove(FeasibleBounds(templ, ctx, inv, row), lower)
      ensures calls <= templ[row].ty.width + 6
    {
      var ty, max := templ[row].ty, templ[row].max;
      ghost var feasible := FeasibleBounds(templ, ctx, inv, row);
      var upper := max;
      lower, gaps, calls := start, [], 0;
      while lower < upper
        invariant start <= lower <= max && start <= upper <= max
        invariant lower == start || Feasible(templ, ctx, inv, row, lower)
        invariant feasible == FeasibleBounds(templ, ctx, inv, row) && Fits(ty, max, feasible)
        invariant OnTheWay(ty, max, feasible, start, lower, upper, gaps)
        invariant calls <= |gaps| + if lower < upper then 0 else 1
        decreases upper - lower
      {
        var middle := Between(ty, lower, upper);
        if middle <= lower {
          middle := upper;
        }
        ghost var was, before := Gap(lower, upper), gaps;
        gaps := if lower + 2 <= upper then gaps + [was] else gaps;
        var sat, bound := SolveFrom(ctx, row, middle);
        calls := calls + 1;
        if sat {
          lower := bound;
        } else {
          if middle >= upper {
            middle := lower;
          }
          upper := middle;
        }
        NextStep(ty, max, feasible, start, was, lower, upper, before);
      }
      PathIsShort(ty, start, max, gaps);
      if CannotLose(ty, max, feasible, start) {
        SearchIsExact(ty, max, feasible, start, max, lower);
      }
    }

    /** One iteration of the binary search solver: the first row the model fails is raised. */
    method IterateBinSearch(ctx: seq<Env>) returns (improved: bool)
      requires Valid() && ContextFits(templ, ctx) && AllPoly(templ)
      modifies this
      ensures Valid()
      ensures improved <==> !Inductive(ctx, old(inv))
      ensures !improved ==> inv == old(inv)
      ensures improved ==> exists row, n :: RaisesOneRow(templ, old(inv), inv, row, n)
      ensures improved ==> exists i, row, n, gaps :: RaisedBySearch(templ, ctx, old(inv), inv, i, row, n, gaps)
      ensures improved ==> Slack(templ, inv) < old(Slack(templ, inv))
    {
      improved := false;
      if i :| 0 <= i < |ctx| && AllPre(inv, ctx[i]) && SomePostFails(inv, ctx[i]) {
        var e := ctx[i];
        var literals := CondLiterals(e);
        var row := 0;
        while row < |literals| && !literals[row]
          invariant row <= |literals|
          invariant forall r :: 0 <= r < row ==> !literals[r]
        {
          row := row + 1;
        }
        assert ReadingFits(templ[row], e[row].post);
        var n;
        ghost var gaps, calls;
        n, gaps, calls := SearchBound(ctx, row, e[row].post.n);
        RaiseUsesSlack(templ, inv, inv[row := Interval(Fin(n))], row, n);
        inv := inv[row := Interval(Fin(n))];
        improved := true;
        assert RaisesOneRow(templ, old(inv), inv, row, n);
        assert RaisedBySearch(templ, ctx, old(inv), inv, i, row, n, gaps);
      }
    }

    /** Whatever the strategy: the value changes, and uses up slack, exactly when it was not
        inductive. */
    method Iterate(ctx: seq<Env>) returns (improved: bool)
      requires Valid() && ContextFits(templ, ctx)
      modifies this
      ensures Valid()
      ensures improved <==> !Inductive(ctx, old(inv))
      ensures !improved ==> inv == old(inv)
      ensures improved ==> Slack(templ, inv) < old(Slack(templ, inv))
      ensures improved ==> Improves(templ, binSearch, ctx, old(inv), inv)
    {
      if binSearch {
        improved := IterateBinSearch(ctx);
      } else {
        improved := IterateSimple(ctx);
      }
    }
  }

  /** The value lies below every inductive one. */
  ghost predicate BelowInductive(templ: seq<RowKind>, ctx: seq<Env>, v: seq<RowValue>)
    requires ValuesFit(templ, v) && ContextFits(templ, ctx)
  {
    forall w :: ValuesFit(templ, w) && Inductive(ctx, w) ==> Below(v, w)
  }

  /** The value lies below every inductive one above which nothing climbs. */
  ghost predicate BelowBarriers(templ: seq<RowKind>, ctx: seq<Env>, v: seq<RowValue>)
    requires ValuesFit(templ, v) && ContextFits(templ, ctx) && AllPoly(templ)
  {
    forall w :: Barrier(templ, ctx, w) ==> Below(v, w)
  }

  /** The analyzer: iterate from bottom until nothing improves. */
  class SsaAnalyzer {
    var result: seq<RowValue>

    constructor ()
      ensures result == []
    {
      result := [];
    }

    /** The loop ends within the template's slack, on an inductive value that the counted iterations
        lead to from bottom; with enumeration it is the least inductive one when each pointer has one
        value, with binary search it lies below every inductive value above which nothing climbs. */
    method Analyze(templ: seq<RowKind>, binSearch: bool, ctx: seq<Env>)
      returns (improvements: nat, ghost run: seq<seq<RowValue>>)
      requires forall row :: 0 <= row < |templ| ==> KindFits(templ[row])
      requires binSearch ==> AllPoly(templ)
      requires ContextFits(templ, ctx)
      modifies this
      ensures ValuesFit(templ, result) && Inductive(ctx, result)
      ensures IsImprovingRun(templ, binSearch, ctx, run) && |run| == improvements + 1
      ensures run[0] == Bottoms(templ) && run[improvements] == result
      ensures !binSearch && (AllPoly(templ) || PointersHaveOneValue(ctx)) ==> BelowInductive(templ, ctx, result)
      ensures binSearch ==> BelowBarriers(templ, ctx, result)
      ensures ValuesFit(templ, Bottoms(templ)) && improvements <= Slack(templ, Bottoms(templ))
    {
      var solver := new StrategySolver(templ, binSearch);
      assert solver.inv == Bottoms(templ);
      var improved := true;
      improvements, run := 0, [solver.inv];
      while improved
        invariant solver.Valid() && fresh(solver) && solver.templ == templ && solver.binSearch == binSearch
        invariant !improved ==> Inductive(ctx, solver.inv)
        invariant IsImprovingRun(templ, binSearch, ctx, run) && |run| == improvements + 1
        invariant run[0] == Bottoms(templ) && run[improvements] == solver.inv
        invariant improvements + Slack(templ, solver.inv) <= Slack(templ, Bottoms(templ))
        decreases Slack(templ, solver.inv), improved
      {
        ghost var was := solver.inv;
        improved := solver.Iterate(ctx);
        if improved {
          improvements := improvements + 1;
          RunGrows(templ, binSearch, ctx, run, was, solver.inv);
          run := run + [solver.inv];
        }
      }
      result := solver.inv;
      StaysBelow(templ, binSearch, ctx, run);
    }
  }

  lemma StaysBelow(templ: seq<RowKind>, binSearch: bool, ctx: seq<Env>, run: seq<seq<RowValue>>)
    requires ContextFits(templ, ctx) && (binSearch ==> AllPoly(templ))
    requires |run| > 0 && run[0] == Bottoms(templ) && IsImprovingRun(templ, binSearch, ctx, run)
    ensures !binSearch && (AllPoly(templ) || PointersHaveOneValue(ctx)) ==>
      BelowInductive(templ, ctx, run[|run| - 1])
    ensures binSearch ==> BelowBarriers(templ, ctx, run[|run| - 1])
  {
    if AllPoly(templ) {
      PolyHasOneValue(templ, ctx);
    }
    if !binSearch && PointersHaveOneValue(ctx) {
      forall w | ValuesFit(templ, w) && Inductive(ctx, w) ensures Below(run[|run| - 1], w) {
        BottomsBelow(templ, w);
        EnumerationStaysBelow(templ, ctx, run, |run| - 1, w);
      }
    }
    if binSearch {
      forall w | Barrier(templ, ctx, w) ensures Below(run[|run| - 1], w) {
        BottomsBelow(templ, w);
        SearchStaysBelow(templ, ctx, run, |run| - 1, w);
      }
    }
  }

  function Bottoms(templ: seq<RowKind>): (v: seq<RowValue>) {
    seq(|templ|, row requires 0 <= row < |templ| => Bottom(templ[row]))
  }
}
