/** Template rows and their values: bounds of polyhedra rows and may-point-to sets of heap rows,
    with the pre- and post-constraints every strategy solver asks about
    (src/domains/simple_domain.cpp, tpolyhedra_domain.h, heap_domain.cpp). */
module Templates {
  import opened Bitvectors
  import opened Powers
  import opened Tuples

  datatype Option<+T> = None | Some(value: T)

  /** `NegInf` stands for the marker `false`, `PosInf` for the marker `true`. */
  datatype Bound = NegInf | Fin(n: int) | PosInf

  datatype RowKind = Poly(ty: BvType, max: int) | Heap(arity: nat, targets: set<nat>)

  datatype RowValue = Interval(bound: Bound) | PointsTo(may: set<Tuple>, nondet: bool)

  /** What an environment says of a row's expressions: a number, or for each pointer the object
      reported for it (`None` when it is none) and the targets its equality holds with. */
  datatype Reading = Number(n: int) | Pointers(dests: seq<Option<nat>>, equal: seq<set<nat>>)

  datatype RowEnv = RowEnv(preGuard: bool, postGuard: bool, pre: Reading, post: Reading)

  /** One solution of the SSA, seen through the rows of a template. */
  type Env = seq<RowEnv>

  predicate ReadingFits(k: RowKind, r: Reading) {
    match k
    case Poly(t, max) => r.Number? && InRange(t, r.n) && r.n <= max
    case Heap(arity, targets) =>
      r.Pointers? && |r.dests| == |r.equal| == arity &&
      forall i :: 0 <= i < arity && r.dests[i].Some? ==> r.dests[i].value in targets
  }

  predicate KindFits(k: RowKind) {
    k.Poly? ==> InRange(k.ty, k.max)
  }

  predicate ValueFits(k: RowKind, v: RowValue) {
    match k
    case Poly(t, max) => v.Interval? && (v.bound.Fin? ==> InRange(t, v.bound.n) && v.bound.n <= max)
    case Heap(arity, targets) => v.PointsTo? && v.may <= AllTuples(targets, arity)
  }

  predicate EnvFits(templ: seq<RowKind>, e: Env) {
    |e| == |templ| &&
    forall row :: 0 <= row < |templ| ==> ReadingFits(templ[row], e[row].pre) && ReadingFits(templ[row], e[row].post)
  }

  predicate ValuesFit(templ: seq<RowKind>, v: seq<RowValue>) {
    |v| == |templ| &&
    forall row :: 0 <= row < |templ| ==> KindFits(templ[row]) && ValueFits(templ[row], v[row])
  }

  predicate ContextFits(templ: seq<RowKind>, ctx: seq<Env>) {
    forall i :: 0 <= i < |ctx| ==> EnvFits(templ, ctx[i])
  }

  /** The row expression of a value, read in an environment. */
  predicate RowHolds(v: RowValue, r: Reading) {
    match v
    case Interval(NegInf) => false
    case Interval(PosInf) => true
    case Interval(Fin(k)) => r.Number? && r.n <= k
    case PointsTo(may, nondet) => nondet || (r.Pointers? && exists t :: t in may && TupleHolds(t, r))
  }

  /** All pointer equalities of one points-to relation hold. */
  predicate TupleHolds(t: Tuple, r: Reading)
    requires r.Pointers?
  {
    |t| == |r.equal| && forall i :: 0 <= i < |t| ==> t[i] in r.equal[i]
  }

  predicate AllReported(r: Reading)
    requires r.Pointers?
  {
    forall i :: 0 <= i < |r.dests| ==> r.dests[i].Some?
  }

  /** A pointer has one value, so its equality holds with no target but the reported one. The
      equality may also fail there, since it includes the loop guard of a dynamic object. */
  predicate OneValue(r: Reading) {
    r.Pointers? ==>
      (|r.dests| == |r.equal| &&
       forall i :: 0 <= i < |r.dests| ==> r.equal[i] <= if r.dests[i].Some? then {r.dests[i].value} else {})
  }

  /** The equalities of all pointers with their reported targets hold. */
  predicate Guarded(r: Reading)
    requires OneValue(r) && r.Pointers?
  {
    forall i :: 0 <= i < |r.dests| ==> r.equal[i] != {}
  }

  /** What a heap row says of pointers with one value each: all of them have the targets of one of its
      relations, and their equalities hold, or the row is nondeterministic. */
  lemma HeapRowMeans(v: RowValue, r: Reading)
    requires v.PointsTo? && r.Pointers? && OneValue(r)
    ensures RowHolds(v, r) <==> v.nondet || (AllReported(r) && Guarded(r) && Targets(r.dests) in v.may)
  {
    if t :| t in v.may && TupleHolds(t, r) {
      assert forall i :: 0 <= i < |t| ==> r.equal[i] <= if r.dests[i].Some? then {r.dests[i].value} else {};
      assert t == Targets(r.dests);
    }
    if AllReported(r) && Guarded(r) && Targets(r.dests) in v.may {
      forall i | 0 <= i < |r.dests| ensures Targets(r.dests)[i] in r.equal[i] {
        assert r.equal[i] == {r.dests[i].value};
      }
      assert TupleHolds(Targets(r.dests), r);
    }
  }

  predicate PreHolds(v: RowValue, e: RowEnv) {
    e.preGuard ==> RowHolds(v, e.pre)
  }

  predicate PostFails(v: RowValue, e: RowEnv) {
    e.postGuard && !RowHolds(v, e.post)
  }

  predicate AllPre(v: seq<RowValue>, e: Env)
    requires |v| == |e|
  {
    forall row :: 0 <= row < |v| ==> PreHolds(v[row], e[row])
  }

  predicate SomePostFails(v: seq<RowValue>, e: Env)
    requires |v| == |e|
  {
    exists row :: 0 <= row < |v| && PostFails(v[row], e[row])
  }

  /** A value is inductive when no environment meets all its pre-constraints and fails one of
      its post-constraints, that is when the solver answers UNSAT. */
  ghost predicate Inductive(ctx: seq<Env>, v: seq<RowValue>)
    requires forall i :: 0 <= i < |ctx| ==> |ctx[i]| == |v|
  {
    forall i :: 0 <= i < |ctx| && AllPre(v, ctx[i]) ==> !SomePostFails(v, ctx[i])
  }

  predicate BoundLeq(a: Bound, b: Bound) {
    a.NegInf? || b.PosInf? || (a.Fin? && b.Fin? && a.n <= b.n)
  }

  predicate RowBelow(v: RowValue, w: RowValue) {
    match (v, w)
    case (Interval(a), Interval(b)) => BoundLeq(a, b)
    case (PointsTo(may, nondet), PointsTo(may', nondet')) => nondet' || (!nondet && may <= may')
    case _ => false
  }

  /** `v` is at least as strong as `w` on every row. */
  predicate Below(v: seq<RowValue>, w: seq<RowValue>) {
    |v| == |w| && forall row :: 0 <= row < |v| ==> RowBelow(v[row], w[row])
  }

  /** What holds of a row value holds of every value above it. */
  lemma BelowHolds(v: RowValue, w: RowValue, r: Reading)
    requires RowBelow(v, w) && RowHolds(v, r)
    ensures RowHolds(w, r)
  {
  }

  lemma BelowAllPre(v: seq<RowValue>, w: seq<RowValue>, e: Env)
    requires Below(v, w) && |v| == |e| && AllPre(v, e)
    ensures AllPre(w, e)
  {
    forall row | 0 <= row < |w| ensures PreHolds(w[row], e[row]) {
      assert PreHolds(v[row], e[row]) && RowBelow(v[row], w[row]);
      if e[row].preGuard {
        BelowHolds(v[row], w[row], e[row].pre);
      }
    }
  }

  /** In every solution each pointer has one value. */
  predicate PointersHaveOneValue(ctx: seq<Env>) {
    forall i, row :: 0 <= i < |ctx| && 0 <= row < |ctx[i]| ==> OneValue(ctx[i][row].post)
  }

  lemma PolyHasOneValue(templ: seq<RowKind>, ctx: seq<Env>)
    requires AllPoly(templ) && ContextFits(templ, ctx)
    ensures PointersHaveOneValue(ctx)
  {
    forall i, row | 0 <= i < |ctx| && 0 <= row < |ctx[i]| ensures OneValue(ctx[i][row].post) {
      assert EnvFits(templ, ctx[i]) && ReadingFits(templ[row], ctx[i][row].post);
    }
  }

  predicate AllPoly(templ: seq<RowKind>) {
    forall row :: 0 <= row < |templ| ==> templ[row].Poly?
  }

  function Bottom(k: RowKind): RowValue {
    if k.Poly? then Interval(NegInf) else PointsTo({}, false)
  }

  function Targets(dests: seq<Option<nat>>): Tuple
    requires forall i :: 0 <= i < |dests| ==> dests[i].Some?
  {
    seq(|dests|, i requires 0 <= i < |dests| => dests[i].value)
  }

  /** Edit of a row on the reading of a counterexample: a polyhedra row takes the model's value;
      a heap row gains the model's targets, or becomes nondeterministic when some pointer has no
      target or the targets are already there. */
  function Edited(v: RowValue, r: Reading): RowValue
    requires v.Interval? <==> r.Number?
  {
    match v
    case Interval(_) => Interval(Fin(r.n))
    case PointsTo(may, nondet) =>
      if exists i :: 0 <= i < |r.dests| && r.dests[i].None? then PointsTo(may, true)
      else if Targets(r.dests) in may then PointsTo(may, true)
      else PointsTo(may + {Targets(r.dests)}, nondet)
  }

  /** How many times a row can still be edited. */
  function RowSlack(k: RowKind, v: RowValue): nat
    requires KindFits(k) && ValueFits(k, v)
  {
    match k
    case Poly(t, max) =>
      (match v.bound
       case NegInf => max - Smallest(t) + 2
       case Fin(n) => max - n + 1
       case PosInf => 0)
    case Heap(arity, targets) =>
      if v.nondet then 0 else |AllTuples(targets, arity) - v.may| + 1
  }

  function Slack(templ: seq<RowKind>, v: seq<RowValue>): nat
    requires ValuesFit(templ, v)
  {
    if templ == [] then 0
    else RowSlack(templ[0], v[0]) + Slack(templ[1..], v[1..])
  }

  /** Editing a row on a counterexample keeps it well formed, weakens it and uses up slack. */
  lemma EditWeakens(k: RowKind, v: RowValue, e: RowEnv)
    requires KindFits(k) && ValueFits(k, v) && ReadingFits(k, e.post) && PostFails(v, e)
    ensures ValueFits(k, Edited(v, e.post))
    ensures RowSlack(k, Edited(v, e.post)) < RowSlack(k, v)
    ensures forall r: Reading :: RowHolds(v, r) ==> RowHolds(Edited(v, e.post), r)
  {
    if k.Heap? && forall i :: 0 <= i < |e.post.dests| ==> e.post.dests[i].Some? {
      if Targets(e.post.dests) !in v.may {
        NewTargets(k, v, e.post);
      }
    }
  }

  /** A polyhedra row admits the reading it was edited on; a heap row does at the latest after the
      second edit, which falls back to nondeterminism. */
  lemma EditsAdmit(v: RowValue, r: Reading)
    requires v.Interval? <==> r.Number?
    ensures v.Interval? ==> RowHolds(Edited(v, r), r)
    ensures RowHolds(Edited(Edited(v, r), r), r)
  {
    if v.PointsTo? && forall i :: 0 <= i < |r.dests| ==> r.dests[i].Some? {
      assert Targets(r.dests) in v.may + {Targets(r.dests)};
    }
  }

  lemma NewTargets(k: RowKind, v: RowValue, r: Reading)
    requires k.Heap? && ValueFits(k, v) && ReadingFits(k, r) && !v.nondet
    requires forall i :: 0 <= i < |r.dests| ==> r.dests[i].Some?
    requires Targets(r.dests) !in v.may
    ensures ValueFits(k, Edited(v, r))
    ensures RowSlack(k, Edited(v, r)) == RowSlack(k, v) - 1
    ensures forall r': Reading :: RowHolds(v, r') ==> RowHolds(Edited(v, r), r')
  {
    var t := Targets(r.dests);
    TupleMember(k.targets, k.arity, t);
    OneFewerLeft(AllTuples(k.targets, k.arity), v.may, t);
    assert Edited(v, r) == PointsTo(v.may + {t}, false);
  }

  lemma OneFewerLeft(all: set<Tuple>, may: set<Tuple>, t: Tuple)
    requires t in all && t !in may
    ensures |all - (may + {t})| == |all - may| - 1
  {
    assert all - (may + {t}) == (all - may) - {t};
  }

  /** A row edited on one counterexample after the other, each of which it fails when its turn
      comes. */
  predicate IsEditRun(k: RowKind, v: RowValue, edits: seq<RowEnv>)
    requires KindFits(k)
    decreases |edits|
  {
    ValueFits(k, v) &&
    (edits == [] ||
     (ReadingFits(k, edits[0].post) && PostFails(v, edits[0]) && IsEditRun(k, Edited(v, edits[0].post), edits[1..])))
  }

  /** A row is edited no more often than its slack says. */
  lemma {:induction false} EditRunBounded(k: RowKind, v: RowValue, edits: seq<RowEnv>)
    requires KindFits(k) && IsEditRun(k, v, edits)
    ensures |edits| <= RowSlack(k, v)
    decreases |edits|
  {
    if edits != [] {
      EditWeakens(k, v, edits[0]);
      EditRunBounded(k, Edited(v, edits[0].post), edits[1..]);
    }
  }

  /** From bottom, a heap row is edited at most #targets^arity + 1 times in any run. */
  lemma HeapRowEdits(arity: nat, targets: set<nat>, edits: seq<RowEnv>)
    requires IsEditRun(Heap(arity, targets), Bottom(Heap(arity, targets)), edits)
    ensures |edits| <= Power(|targets|, arity) + 1
  {
    EditRunBounded(Heap(arity, targets), Bottom(Heap(arity, targets)), edits);
    TupleCount(targets, arity);
    assert AllTuples(targets, arity) - {} == AllTuples(targets, arity);
  }

  lemma {:induction false} SlackAt(templ: seq<RowKind>, v: seq<RowValue>, row: nat, x: RowValue)
    requires ValuesFit(templ, v) && row < |templ| && ValueFits(templ[row], x)
    ensures ValuesFit(templ, v[row := x])
    ensures Slack(templ, v[row := x]) == Slack(templ, v) - RowSlack(templ[row], v[row]) + RowSlack(templ[row], x)
  {
    var u := v[row := x];
    if row == 0 {
      assert u[1..] == v[1..];
    } else {
      SlackAt(templ[1..], v[1..], row - 1, x);
      assert u[1..] == v[1..][row - 1 := x];
    }
  }

  /** The counterexample-driven step on one model: every row whose post-constraint the model
      fails is edited. */
  function Step(v: seq<RowValue>, e: Env): (w: seq<RowValue>)
    requires |v| == |e|
    requires forall row :: 0 <= row < |v| ==> (v[row].Interval? <==> e[row].post.Number?)
    ensures |w| == |v|
    ensures forall row :: 0 <= row < |v| ==>
      w[row] == if PostFails(v[row], e[row]) then Edited(v[row], e[row].post) else v[row]
  {
    seq(|v|, row requires 0 <= row < |v| =>
      if PostFails(v[row], e[row]) then Edited(v[row], e[row].post) else v[row])
  }

  /** A step stays below every inductive value it started below: the enumeration never
      overshoots the least inductive value. */
  lemma StepStaysBelow(templ: seq<RowKind>, ctx: seq<Env>, v: seq<RowValue>, w: seq<RowValue>, i: nat)
    requires i < |ctx| && ContextFits(templ, ctx) && ValuesFit(templ, v) && ValuesFit(templ, w)
    requires Below(v, w) && Inductive(ctx, w) && AllPre(v, ctx[i]) && PointersHaveOneValue(ctx)
    ensures Below(Step(v, ctx[i]), w)
  {
    var e, u := ctx[i], Step(v, ctx[i]);
    BelowAllPre(v, w, e);
    assert !SomePostFails(w, e);
    forall row | 0 <= row < |u| ensures RowBelow(u[row], w[row]) {
      assert !PostFails(w[row], e[row]) && RowBelow(v[row], w[row]);
      if PostFails(v[row], e[row]) {
        EditStaysBelow(v[row], w[row], e[row].post);
      }
    }
  }

  /** The edit of a row on a reading that it fails stays below every row value that admits it. */
  lemma EditStaysBelow(v: RowValue, w: RowValue, r: Reading)
    requires RowBelow(v, w) && (v.Interval? <==> r.Number?) && OneValue(r)
    requires !RowHolds(v, r) && RowHolds(w, r)
    ensures RowBelow(Edited(v, r), w)
  {
    if v.PointsTo? {
      HeapRowMeans(v, r);
      HeapRowMeans(w, r);
    }
  }
}

/** Tuples of pointer targets and how many there are. */
module Tuples {
  import opened Powers

  type Tuple = seq<nat>

  function Prefixed(heads: set<nat>, tails: set<Tuple>): set<Tuple> {
    set x, t | x in heads && t in tails :: [x] + t
  }

  /** All tuples of the given arity over `targets`. */
  function AllTuples(targets: set<nat>, arity: nat): set<Tuple> {
    if arity == 0 then {[]} else Prefixed(targets, AllTuples(targets, arity - 1))
  }

  lemma PrefixedMember(heads: set<nat>, tails: set<Tuple>, p: Tuple)
    ensures p in Prefixed(heads, tails) <==> p != [] && p[0] in heads && p[1..] in tails
  {
    if p != [] {
      assert p == [p[0]] + p[1..];
    }
    forall x, t | x in heads && t in tails && p == [x] + t ensures p[0] == x && p[1..] == t {
    }
  }

  lemma {:induction false} TupleMember(targets: set<nat>, arity: nat, t: Tuple)
    ensures t in AllTuples(targets, arity) <==>
      |t| == arity && forall i :: 0 <= i < |t| ==> t[i] in targets
  {
    if arity > 0 {
      PrefixedMember(targets, AllTuples(targets, arity - 1), t);
      if t != [] {
        TupleMember(targets, arity - 1, t[1..]);
      }
    }
  }

  lemma SplitTails(x: nat, tails: set<Tuple>, t: Tuple)
    requires t in tails
    ensures Prefixed({x}, tails) == Prefixed({x}, tails - {t}) + {[x] + t}
    ensures [x] + t !in Prefixed({x}, tails - {t})
  {
    assert ([x] + t)[1..] == t;
    PrefixedMember({x}, tails - {t}, [x] + t);
    forall p ensures p in Prefixed({x}, tails) <==> p in Prefixed({x}, tails - {t}) + {[x] + t} {
      PrefixedMember({x}, tails, p);
      PrefixedMember({x}, tails - {t}, p);
      if p != [] && p[0] == x && p[1..] == t {
        assert p == [x] + t;
      }
    }
  }

  lemma {:induction false} PrefixOne(x: nat, tails: set<Tuple>)
    ensures |Prefixed({x}, tails)| == |tails|
  {
    if tails == {} {
      assert Prefixed({x}, tails) == {};
    } else {
      var t :| t in tails;
      PrefixOne(x, tails - {t});
      SplitTails(x, tails, t);
    }
  }

  lemma {:induction false} PrefixedCount(heads: set<nat>, tails: set<Tuple>)
    ensures |Prefixed(heads, tails)| == |heads| * |tails|
  {
    if heads == {} {
      assert Prefixed(heads, tails) == {};
    } else {
      var x :| x in heads;
      PrefixedCount(heads - {x}, tails);
      PrefixOne(x, tails);
      SplitHeads(heads, tails, x);
      assert (|heads| - 1) * |tails| + |tails| == |heads| * |tails|;
    }
  }

  lemma SplitHeads(heads: set<nat>, tails: set<Tuple>, x: nat)
    requires x in heads
    ensures |Prefixed(heads, tails)| == |Prefixed(heads - {x}, tails)| + |Prefixed({x}, tails)|
  {
    var rest, one := Prefixed(heads - {x}, tails), Prefixed({x}, tails);
    forall p ensures p in Prefixed(heads, tails) <==> p in rest + one
      ensures !(p in rest && p in one)
    {
      PrefixedMember(heads, tails, p);
      PrefixedMember(heads - {x}, tails, p);
      PrefixedMember({x}, tails, p);
    }
    assert Prefixed(heads, tails) == rest + one && rest !! one;
  }

  lemma {:induction false} TupleCount(targets: set<nat>, arity: nat)
    ensures |AllTuples(targets, arity)| == Power(|targets|, arity)
  {
    if arity > 0 {
      TupleCount(targets, arity - 1);
      PrefixedCount(targets, AllTuples(targets, arity - 1));
    }
  }
}
