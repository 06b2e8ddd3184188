/** The equality domain (src/domains/equality_domain.cpp, equality_domain.h) under the generic
    solver: a worklist of candidate equalities, retried after each success because of
    transitivity, then a worklist of disequalities. What is proved is asserted for good. */
module EqualityDomain {

  /** A template row compares two variables. */
  datatype Row = Row(first: nat, second: nat)

  /** One solution of the SSA: the rows' guards, and the variables' values before and after. */
  datatype Env = Env(preGuard: seq<bool>, postGuard: seq<bool>, pre: nat -> int, post: nat -> int)

  /** A row claimed equal, or claimed different. */
  datatype Fact = Fact(row: nat, dis: bool)

  function Indices(n: nat): (s: set<nat>)
    ensures forall r: nat :: r in s <==> r < n
  {
    if n == 0 then {} else Indices(n - 1) + {n - 1}
  }

  predicate RowsFit(templ: seq<Row>, vars: nat) {
    forall r :: 0 <= r < |templ| ==> templ[r].first < vars && templ[r].second < vars
  }

  predicate EnvsFit(templ: seq<Row>, ctx: seq<Env>) {
    forall i :: 0 <= i < |ctx| ==> |ctx[i].preGuard| == |ctx[i].postGuard| == |templ|
  }

  predicate ValueHolds(templ: seq<Row>, f: Fact, value: nat -> int)
    requires f.row < |templ|
  {
    (value(templ[f.row].first) == value(templ[f.row].second)) != f.dis
  }

  predicate PreHolds(templ: seq<Row>, f: Fact, e: Env)
    requires f.row < |templ| == |e.preGuard|
  {
    e.preGuard[f.row] ==> ValueHolds(templ, f, e.pre)
  }

  predicate PostFails(templ: seq<Row>, f: Fact, e: Env)
    requires f.row < |templ| == |e.postGuard|
  {
    e.postGuard[f.row] && !ValueHolds(templ, f, e.post)
  }

  predicate FactsFit(templ: seq<Row>, facts: seq<Fact>) {
    forall k :: 0 <= k < |facts| ==> facts[k].row < |templ|
  }

  predicate AllPre(templ: seq<Row>, facts: seq<Fact>, e: Env)
    requires FactsFit(templ, facts) && |e.preGuard| == |templ|
  {
    forall k :: 0 <= k < |facts| ==> PreHolds(templ, facts[k], e)
  }

  /** The environment meets all facts and the candidate before the iteration, and violates the
      candidate after it. */
  predicate Refutes(templ: seq<Row>, facts: seq<Fact>, f: Fact, e: Env)
    requires FactsFit(templ, facts) && f.row < |templ| == |e.preGuard| == |e.postGuard|
  {
    AllPre(templ, facts, e) && PreHolds(templ, f, e) && PostFails(templ, f, e)
  }

  ghost predicate Refutable(templ: seq<Row>, ctx: seq<Env>, facts: seq<Fact>, f: Fact)
    requires EnvsFit(templ, ctx) && FactsFit(templ, facts) && f.row < |templ|
  {
    exists i :: 0 <= i < |ctx| && Refutes(templ, facts, f, ctx[i])
  }

  /** Each fact was proved relative to those before it. */
  ghost predicate ProvedInOrder(templ: seq<Row>, ctx: seq<Env>, facts: seq<Fact>)
    requires EnvsFit(templ, ctx) && FactsFit(templ, facts)
  {
    forall k :: 0 <= k < |facts| ==> !Refutable(templ, ctx, facts[..k], facts[k])
  }

  /** The conjunction of the facts is inductive. */
  ghost predicate Inductive(templ: seq<Row>, ctx: seq<Env>, facts: set<Fact>)
    requires EnvsFit(templ, ctx) && forall f :: f in facts ==> f.row < |templ|
  {
    forall i :: 0 <= i < |ctx| && (forall f :: f in facts ==> PreHolds(templ, f, ctx[i])) ==>
      forall f :: f in facts ==> !PostFails(templ, f, ctx[i])
  }

  /** Facts proved one relative to the other are inductive together. */
  lemma OrderedProofsAreInductive(templ: seq<Row>, ctx: seq<Env>, facts: seq<Fact>)
    requires EnvsFit(templ, ctx) && FactsFit(templ, facts) && ProvedInOrder(templ, ctx, facts)
    ensures Inductive(templ, ctx, set f | f in facts)
  {
    forall i, k | 0 <= i < |ctx| && AllPre(templ, facts, ctx[i]) && 0 <= k < |facts|
      ensures !PostFails(templ, facts[k], ctx[i])
    {
      assert AllPre(templ, facts[..k], ctx[i]);
      assert !Refutes(templ, facts[..k], facts[k], ctx[i]);
    }
  }

  /** The classes join no more than the established equalities force: any assignment of values
      that satisfies those gives equal values to the members of a class. */
  ghost predicate ClassesForced(templ: seq<Row>, facts: seq<Fact>, root: seq<nat>)
    requires FactsFit(templ, facts)
  {
    forall value: nat -> int, a, b ::
      SatisfiesEqualities(templ, facts, value) && 0 <= a < |root| && 0 <= b < |root| && root[a] == root[b] ==>
      value(a) == value(b)
  }

  ghost predicate SatisfiesEqualities(templ: seq<Row>, facts: seq<Fact>, value: nat -> int)
    requires FactsFit(templ, facts)
  {
    forall f :: f in facts && !f.dis ==> ValueHolds(templ, f, value)
  }

  /** The facts whose rows' guards are on force the row: values that satisfy those facts satisfy
      the row. */
  ghost predicate GuardedForced(templ: seq<Row>, facts: seq<Fact>, guards: seq<bool>, row: nat)
    requires FactsFit(templ, facts) && |guards| == |templ| && row < |templ|
  {
    forall value: nat -> int ::
      SatisfiesGuarded(templ, facts, guards, value) ==> ValueHolds(templ, Fact(row, false), value)
  }

  ghost predicate SatisfiesGuarded(templ: seq<Row>, facts: seq<Fact>, guards: seq<bool>, value: nat -> int)
    requires FactsFit(templ, facts) && |guards| == |templ|
  {
    forall f :: f in facts && guards[f.row] ==> ValueHolds(templ, f, value)
  }

  /** Wherever the row's post-guard is on, so are the guards of facts that force the row. */
  ghost predicate CarriesOver(templ: seq<Row>, ctx: seq<Env>, facts: seq<Fact>, row: nat)
    requires EnvsFit(templ, ctx) && FactsFit(templ, facts) && row < |templ|
  {
    forall i :: 0 <= i < |ctx| && ctx[i].postGuard[row] ==> GuardedForced(templ, facts, ctx[i].postGuard, row)
  }

  predicate SameGuards(ctx: seq<Env>, other: seq<Env>) {
    |ctx| == |other| &&
    forall i :: 0 <= i < |ctx| ==> ctx[i].preGuard == other[i].preGuard && ctx[i].postGuard == other[i].postGuard
  }

  predicate AllEqualities(facts: seq<Fact>) {
    forall k :: 0 <= k < |facts| ==> !facts[k].dis
  }

  lemma CarriedRowUnrefuted(templ: seq<Row>, ctx: seq<Env>, facts: seq<Fact>, row: nat)
    requires EnvsFit(templ, ctx) && FactsFit(templ, facts) && row < |templ|
    requires ProvedInOrder(templ, ctx, facts) && CarriesOver(templ, ctx, facts, row)
    ensures !Refutable(templ, ctx, facts, Fact(row, false))
  {
    OrderedProofsAreInductive(templ, ctx, facts);
    forall i | 0 <= i < |ctx| ensures !Refutes(templ, facts, Fact(row, false), ctx[i]) {
      if AllPre(templ, facts, ctx[i]) && ctx[i].postGuard[row] {
        forall f | f in facts && ctx[i].postGuard[f.row] ensures ValueHolds(templ, f, ctx[i].post) {
          assert !PostFails(templ, f, ctx[i]);
        }
      }
    }
  }

  /** Which row guards make a joined row safe: established equalities leave the row unrefuted,
      whatever the values in the solutions, if and only if wherever its guard is on the equalities
      guarded there force it. */
  lemma UnrefutedIff(templ: seq<Row>, ctx: seq<Env>, facts: seq<Fact>, row: nat)
    requires EnvsFit(templ, ctx) && FactsFit(templ, facts) && AllEqualities(facts) && row < |templ|
    ensures CarriesOver(templ, ctx, facts, row) <==>
      forall other :: SameGuards(ctx, other) && ProvedInOrder(templ, other, facts) ==>
        !Refutable(templ, other, facts, Fact(row, false))
  {
    forall other | CarriesOver(templ, ctx, facts, row) && SameGuards(ctx, other) && ProvedInOrder(templ, other, facts)
      ensures !Refutable(templ, other, facts, Fact(row, false))
    {
      assert CarriesOver(templ, other, facts, row);
      CarriedRowUnrefuted(templ, other, facts, row);
    }
    if !CarriesOver(templ, ctx, facts, row) {
      var i :| 0 <= i < |ctx| && ctx[i].postGuard[row] && !GuardedForced(templ, facts, ctx[i].postGuard, row);
      var other := SeparatingContext(templ, ctx, facts, row, i);
    }
  }

  /** Values for the solutions under which all facts are proved and the row is refuted: 0 before,
      and after the iteration behind `ctx[i]` values that the row tells apart. */
  lemma SeparatingContext(templ: seq<Row>, ctx: seq<Env>, facts: seq<Fact>, row: nat, i: nat) returns (other: seq<Env>)
    requires EnvsFit(templ, ctx) && FactsFit(templ, facts) && AllEqualities(facts) && row < |templ| && i < |ctx|
    requires ctx[i].postGuard[row] && !GuardedForced(templ, facts, ctx[i].postGuard, row)
    ensures SameGuards(ctx, other) && ProvedInOrder(templ, other, facts)
    ensures Refutable(templ, other, facts, Fact(row, false))
  {
    var value: nat -> int :| SatisfiesGuarded(templ, facts, ctx[i].postGuard, value) &&
      !ValueHolds(templ, Fact(row, false), value);
    var zero: nat -> int := _ => 0;
    other := seq(|ctx|, j requires 0 <= j < |ctx| =>
      Env(ctx[j].preGuard, ctx[j].postGuard, zero, if j == i then value else zero));
    assert Refutes(templ, facts, Fact(row, false), other[i]);
    forall k, j | 0 <= k < |facts| && 0 <= j < |other| ensures !Refutes(templ, facts[..k], facts[k], other[j]) {
      assert facts[k] in facts;
    }
  }

  /** Under a guard shared by all rows, a row forced by the facts carries over. */
  lemma SharedGuardCarriesOver(templ: seq<Row>, ctx: seq<Env>, facts: seq<Fact>, root: seq<nat>, row: nat)
    requires EnvsFit(templ, ctx) && FactsFit(templ, facts) && RowsFit(templ, |root|) && row < |templ|
    requires UniformPostGuards(ctx) && ClassesForced(templ, facts, root)
    requires root[templ[row].first] == root[templ[row].second]
    ensures CarriesOver(templ, ctx, facts, row)
  {
    forall i, value: nat -> int |
      0 <= i < |ctx| && ctx[i].postGuard[row] && SatisfiesGuarded(templ, facts, ctx[i].postGuard, value)
      ensures ValueHolds(templ, Fact(row, false), value)
    {
      assert SatisfiesEqualities(templ, facts, value);
    }
  }

  /** Under a guard shared by all rows, a refuted row's sides are in different classes: had they
      been joined, the facts that joined them would carry over to the row. */
  lemma RefutedRowsApart(templ: seq<Row>, ctx: seq<Env>, facts: seq<Fact>, root: seq<nat>, row: nat)
    requires EnvsFit(templ, ctx) && FactsFit(templ, facts) && RowsFit(templ, |root|) && row < |templ|
    requires UniformPostGuards(ctx) && ProvedInOrder(templ, ctx, facts) && ClassesForced(templ, facts, root)
    requires Refutable(templ, ctx, facts, Fact(row, false))
    ensures root[templ[row].first] != root[templ[row].second]
  {
    if root[templ[row].first] == root[templ[row].second] {
      SharedGuardCarriesOver(templ, ctx, facts, root, row);
      CarriedRowUnrefuted(templ, ctx, facts, row);
    }
  }

  predicate UniformPostGuards(ctx: seq<Env>) {
    forall i, r, s :: 0 <= i < |ctx| && 0 <= r < s < |ctx[i].postGuard| ==>
      ctx[i].postGuard[r] == ctx[i].postGuard[s]
  }

  /** Joins the classes of two variables (the union-find itself is CPROVER's). */
  function MakeUnion(root: seq<nat>, a: nat, b: nat): (r: seq<nat>)
    requires a < |root| && b < |root|
    ensures |r| == |root|
    ensures forall x, y :: 0 <= x < |root| && 0 <= y < |root| ==> (r[x] == r[y] <==>
      root[x] == root[y] || (root[x] == root[a] && root[y] == root[b]) || (root[x] == root[b] && root[y] == root[a]))
  {
    seq(|root|, x requires 0 <= x < |root| => if root[x] == root[b] then root[a] else root[x])
  }

  lemma UnionStaysForced(templ: seq<Row>, facts: seq<Fact>, root: seq<nat>, row: nat)
    requires FactsFit(templ, facts) && RowsFit(templ, |root|) && row < |templ| && ClassesForced(templ, facts, root)
    ensures ClassesForced(templ, facts + [Fact(row, false)], MakeUnion(root, templ[row].first, templ[row].second))
  {
    var all, next := facts + [Fact(row, false)], MakeUnion(root, templ[row].first, templ[row].second);
    forall value: nat -> int, a, b |
      SatisfiesEqualities(templ, all, value) && 0 <= a < |next| && 0 <= b < |next| && next[a] == next[b]
      ensures value(a) == value(b)
    {
      assert Fact(row, false) in all;
      assert ValueHolds(templ, Fact(row, false), value);
      forall f | f in facts && !f.dis ensures ValueHolds(templ, f, value) {
        assert f in all;
      }
    }
  }

  // ----- Worklists -----

  /** The worklists, the value, and the facts told to the solver for good; the first `equCount`
      facts are the equalities. */
  datatype WorkState = WorkState(
    todoEqus: set<nat>, todoDisequs: set<nat>, equs: seq<nat>, disequs: set<nat>, permanent: seq<Fact>, equCount: nat)

  predicate StateFits(templ: seq<Row>, vars: nat, st: WorkState) {
    |st.equs| == vars && FactsFit(templ, st.permanent) && st.equCount <= |st.permanent| &&
    (forall r :: r in st.todoEqus ==> r < |templ|) &&
    (forall r :: r in st.todoDisequs ==> r < |templ|) &&
    (forall r :: r in st.disequs ==> r < |templ|) &&
    st.todoEqus !! st.todoDisequs
  }

  predicate SameSet(templ: seq<Row>, equs: seq<nat>, row: nat)
    requires RowsFit(templ, |equs|) && row < |templ|
  {
    equs[templ[row].first] == equs[templ[row].second]
  }

  function EquFacts(st: WorkState): seq<Fact>
    requires st.equCount <= |st.permanent|
  {
    st.permanent[..st.equCount]
  }

  /** What the worklists keep between iterations: facts are proved in order, equalities first;
      the value records exactly the facts; every row is still to be tried, established, or
      refuted relative to the equalities; and while equalities are left to try, the rows that
      failed wait on the other list. */
  ghost predicate Progress(templ: seq<Row>, vars: nat, ctx: seq<Env>, st: WorkState)
    requires EnvsFit(templ, ctx) && RowsFit(templ, vars) && StateFits(templ, vars, st)
  {
    ProvedInOrder(templ, ctx, st.permanent) && ValueRecords(templ, vars, st) &&
    (forall r: nat :: r in Indices(|templ|) ==> RowDone(templ, ctx, st, r)) &&
    (forall r: nat :: r in Indices(|templ|) ==> RowSettled(templ, ctx, st, r)) &&
    (st.todoEqus != {} ==> NothingDropped(templ, st))
  }

  ghost predicate ValueRecords(templ: seq<Row>, vars: nat, st: WorkState)
    requires RowsFit(templ, vars) && StateFits(templ, vars, st)
  {
    ClassesForced(templ, EquFacts(st), st.equs) &&
    (forall k :: 0 <= k < |st.permanent| ==> (st.permanent[k].dis <==> k >= st.equCount)) &&
    (forall r :: r in st.disequs <==> Fact(r, true) in st.permanent) &&
    (forall f :: f in EquFacts(st) ==> SameSet(templ, st.equs, f.row))
  }

  ghost predicate NothingDropped(templ: seq<Row>, st: WorkState)
    requires st.equCount <= |st.permanent|
  {
    st.equCount == |st.permanent| &&
    forall r: nat :: r in Indices(|templ|) ==> r in st.todoEqus + st.todoDisequs || Fact(r, false) in EquFacts(st)
  }

  ghost predicate RowDone(templ: seq<Row>, ctx: seq<Env>, st: WorkState, r: nat)
    requires EnvsFit(templ, ctx) && FactsFit(templ, st.permanent) && st.equCount <= |st.permanent| && r < |templ|
  {
    r in st.todoEqus || Fact(r, false) in EquFacts(st) || Refutable(templ, ctx, EquFacts(st), Fact(r, false))
  }

  /** The row is still on a list, established as an equality or as a disequality, or its disequality
      was refuted relative to the equalities and some of the disequalities. */
  ghost predicate RowSettled(templ: seq<Row>, ctx: seq<Env>, st: WorkState, r: nat)
    requires EnvsFit(templ, ctx) && FactsFit(templ, st.permanent) && st.equCount <= |st.permanent| && r < |templ|
  {
    r in st.todoEqus + st.todoDisequs || Fact(r, false) in st.permanent || Fact(r, true) in st.permanent ||
    DisequalityRefuted(templ, ctx, st, r)
  }

  ghost predicate DisequalityRefuted(templ: seq<Row>, ctx: seq<Env>, st: WorkState, r: nat)
    requires EnvsFit(templ, ctx) && FactsFit(templ, st.permanent) && st.equCount <= |st.permanent| && r < |templ|
  {
    exists k: nat :: st.equCount <= k <= |st.permanent| && RefutedAfter(templ, ctx, st.permanent, k, r)
  }

  /** The disequality was refuted when the first `k` facts were known. */
  ghost predicate RefutedAfter(templ: seq<Row>, ctx: seq<Env>, permanent: seq<Fact>, k: nat, r: nat)
    requires EnvsFit(templ, ctx) && FactsFit(templ, permanent) && k <= |permanent| && r < |templ|
  {
    Refutable(templ, ctx, permanent[..k], Fact(r, true))
  }

  /** The candidate tried first: an equality while there is one, then a disequality. */
  predicate IsCandidate(st: WorkState, f: Fact) {
    if f.dis then st.todoEqus == {} && f.row in st.todoDisequs else f.row in st.todoEqus
  }

  /** A refuted equality moves to the list of disequalities; a refuted disequality is dropped. */
  function AfterRefutation(st: WorkState, f: Fact): WorkState {
    if f.dis then st.(todoDisequs := st.todoDisequs - {f.row})
    else st.(todoEqus := st.todoEqus - {f.row}, todoDisequs := st.todoDisequs + {f.row})
  }

  /** A proved equality joins two classes, and every failed equality is to be tried again; a
      proved disequality is recorded. */
  function AfterProof(templ: seq<Row>, st: WorkState, f: Fact): WorkState
    requires f.row < |templ| && templ[f.row].first < |st.equs| && templ[f.row].second < |st.equs|
  {
    if f.dis then
      st.(todoDisequs := st.todoDisequs - {f.row}, disequs := st.disequs + {f.row}, permanent := st.permanent + [f])
    else
      st.(todoEqus := st.todoEqus + st.todoDisequs - {f.row}, todoDisequs := {},
          equs := MakeUnion(st.equs, templ[f.row].first, templ[f.row].second),
          permanent := st.permanent + [f], equCount := st.equCount + 1)
  }

  /** The work left, compared lexicographically. */
  ghost predicate LessWork(next: WorkState, st: WorkState) {
    var m, n := |next.todoEqus + next.todoDisequs|, |st.todoEqus + st.todoDisequs|;
    m < n || (m == n && |next.todoEqus| < |st.todoEqus|)
  }

  lemma RefutationKeepsProgress(templ: seq<Row>, vars: nat, ctx: seq<Env>, st: WorkState, f: Fact)
    requires EnvsFit(templ, ctx) && RowsFit(templ, vars) && StateFits(templ, vars, st) && Progress(templ, vars, ctx, st)
    requires IsCandidate(st, f) && Refutable(templ, ctx, st.permanent, f)
    ensures var next := AfterRefutation(st, f);
      StateFits(templ, vars, next) && Progress(templ, vars, ctx, next) && LessWork(next, st)
  {
    if f.dis {
      DisequalityFailed(templ, vars, ctx, st, f.row);
    } else {
      EqualityFailed(templ, vars, ctx, st, f.row);
    }
  }

  lemma EqualityFailed(templ: seq<Row>, vars: nat, ctx: seq<Env>, st: WorkState, row: nat)
    requires EnvsFit(templ, ctx) && RowsFit(templ, vars) && StateFits(templ, vars, st) && Progress(templ, vars, ctx, st)
    requires row in st.todoEqus && Refutable(templ, ctx, st.permanent, Fact(row, false))
    ensures var next := st.(todoEqus := st.todoEqus - {row}, todoDisequs := st.todoDisequs + {row});
      StateFits(templ, vars, next) && Progress(templ, vars, ctx, next) && LessWork(next, st)
  {
    var next := st.(todoEqus := st.todoEqus - {row}, todoDisequs := st.todoDisequs + {row});
    assert EquFacts(st) == EquFacts(next) == st.permanent;
    assert next.todoEqus + next.todoDisequs == st.todoEqus + st.todoDisequs;
    forall r: nat | r in Indices(|templ|) ensures RowDone(templ, ctx, next, r) && RowSettled(templ, ctx, next, r) {
      FailedWaits(templ, ctx, st, next, row, r);
    }
  }

  lemma FailedWaits(templ: seq<Row>, ctx: seq<Env>, st: WorkState, next: WorkState, row: nat, r: nat)
    requires EnvsFit(templ, ctx) && FactsFit(templ, st.permanent) && st.equCount == |st.permanent|
    requires row < |templ| && r < |templ| && Refutable(templ, ctx, EquFacts(st), Fact(row, false))
    requires next == st.(todoEqus := st.todoEqus - {row}, todoDisequs := next.todoDisequs)
    requires next.todoEqus + next.todoDisequs == st.todoEqus + st.todoDisequs
    requires RowDone(templ, ctx, st, r) && RowSettled(templ, ctx, st, r)
    ensures RowDone(templ, ctx, next, r) && RowSettled(templ, ctx, next, r)
  {
    SettledOnEither(templ, ctx, st, next, r);
  }

  lemma SettledOnEither(templ: seq<Row>, ctx: seq<Env>, st: WorkState, next: WorkState, r: nat)
    requires EnvsFit(templ, ctx) && FactsFit(templ, st.permanent) && st.equCount <= |st.permanent| && r < |templ|
    requires next.permanent == st.permanent && next.equCount == st.equCount
    requires next.todoEqus + next.todoDisequs == st.todoEqus + st.todoDisequs
    ensures RowSettled(templ, ctx, next, r) <==> RowSettled(templ, ctx, st, r)
  {
    assert DisequalityRefuted(templ, ctx, st, r) <==> DisequalityRefuted(templ, ctx, next, r);
  }

  lemma DisequalityFailed(templ: seq<Row>, vars: nat, ctx: seq<Env>, st: WorkState, row: nat)
    requires EnvsFit(templ, ctx) && RowsFit(templ, vars) && StateFits(templ, vars, st) && Progress(templ, vars, ctx, st)
    requires st.todoEqus == {} && row in st.todoDisequs && Refutable(templ, ctx, st.permanent, Fact(row, true))
    ensures var next := st.(todoDisequs := st.todoDisequs - {row});
      StateFits(templ, vars, next) && Progress(templ, vars, ctx, next) && LessWork(next, st)
  {
    var next := st.(todoDisequs := st.todoDisequs - {row});
    assert next.todoEqus + next.todoDisequs == (st.todoEqus + st.todoDisequs) - {row};
    assert st.permanent[..|st.permanent|] == st.permanent;
    assert RefutedAfter(templ, ctx, st.permanent, |st.permanent|, row);
    forall r: nat | r in Indices(|templ|) ensures RowDone(templ, ctx, next, r) && RowSettled(templ, ctx, next, r) {
      assert RowDone(templ, ctx, st, r) && RowSettled(templ, ctx, st, r);
      StaysSettled(templ, ctx, st, next, row, r);
    }
  }

  /** A row off the lists stays settled as facts are added, and so does one still on a list. */
  lemma StaysSettled(templ: seq<Row>, ctx: seq<Env>, st: WorkState, next: WorkState, row: nat, r: nat)
    requires EnvsFit(templ, ctx) && FactsFit(templ, st.permanent) && FactsFit(templ, next.permanent)
    requires st.equCount == next.equCount <= |st.permanent| && st.permanent <= next.permanent && r < |templ|
    requires next.todoEqus + next.todoDisequs == st.todoEqus + st.todoDisequs - {row}
    requires RowSettled(templ, ctx, st, r)
    requires r == row ==> Fact(r, true) in next.permanent || DisequalityRefuted(templ, ctx, next, r)
    ensures RowSettled(templ, ctx, next, r)
  {
    if DisequalityRefuted(templ, ctx, st, r) {
      var k: nat :| st.equCount <= k <= |st.permanent| && RefutedAfter(templ, ctx, st.permanent, k, r);
      assert next.permanent[..k] == st.permanent[..k];
      assert RefutedAfter(templ, ctx, next.permanent, k, r);
    }
  }

  lemma ProofKeepsProgress(templ: seq<Row>, vars: nat, ctx: seq<Env>, st: WorkState, f: Fact)
    requires EnvsFit(templ, ctx) && RowsFit(templ, vars) && StateFits(templ, vars, st) && Progress(templ, vars, ctx, st)
    requires IsCandidate(st, f) && !Refutable(templ, ctx, st.permanent, f)
    ensures var next := AfterProof(templ, st, f);
      StateFits(templ, vars, next) && Progress(templ, vars, ctx, next) && LessWork(next, st)
  {
    var next := AfterProof(templ, st, f);
    assert next.todoEqus + next.todoDisequs == (st.todoEqus + st.todoDisequs) - {f.row};
    if f.dis {
      DisequalityProved(templ, vars, ctx, st, next, f.row);
    } else {
      EqualityProved(templ, vars, ctx, st, next, f.row);
    }
  }

  lemma EqualityProved(templ: seq<Row>, vars: nat, ctx: seq<Env>, st: WorkState, next: WorkState, row: nat)
    requires EnvsFit(templ, ctx) && RowsFit(templ, vars) && StateFits(templ, vars, st) && Progress(templ, vars, ctx, st)
    requires row in st.todoEqus && !Refutable(templ, ctx, st.permanent, Fact(row, false))
    requires next == AfterProof(templ, st, Fact(row, false))
    ensures StateFits(templ, vars, next) && Progress(templ, vars, ctx, next)
  {
    var f := Fact(row, false);
    assert EquFacts(st) == st.permanent && next.permanent == EquFacts(next) == st.permanent + [f];
    OneMoreProof(templ, ctx, st.permanent, f);
    JoinedRecords(templ, vars, st, next, row);
    NothingLost(templ, st, next, row);
  }

  lemma NothingLost(templ: seq<Row>, st: WorkState, next: WorkState, row: nat)
    requires st.equCount <= |st.permanent| && NothingDropped(templ, st)
    requires next.todoEqus == st.todoEqus + st.todoDisequs - {row} && next.todoDisequs == {}
    requires next.permanent == st.permanent + [Fact(row, false)] && next.equCount == st.equCount + 1
    ensures NothingDropped(templ, next)
    ensures forall r: nat :: r in Indices(|templ|) ==> r in next.todoEqus || Fact(r, false) in EquFacts(next)
  {
    assert EquFacts(st) == st.permanent && EquFacts(next) == next.permanent;
    assert next.permanent[|st.permanent|] == Fact(row, false);
    forall r: nat | r in Indices(|templ|) ensures r in next.todoEqus || Fact(r, false) in next.permanent {
      assert r in st.todoEqus + st.todoDisequs || Fact(r, false) in st.permanent;
    }
  }

  lemma JoinedRecords(templ: seq<Row>, vars: nat, st: WorkState, next: WorkState, row: nat)
    requires RowsFit(templ, vars) && StateFits(templ, vars, st) && row < |templ| && StateFits(templ, vars, next)
    requires ValueRecords(templ, vars, st) && EquFacts(st) == st.permanent && st.equCount == |st.permanent|
    requires next.equs == MakeUnion(st.equs, templ[row].first, templ[row].second) && next.disequs == st.disequs
    requires next.permanent == st.permanent + [Fact(row, false)] && next.equCount == |next.permanent|
    ensures ValueRecords(templ, vars, next)
  {
    assert EquFacts(next) == next.permanent;
    UnionStaysForced(templ, st.permanent, st.equs, row);
    forall k | 0 <= k < |next.permanent| ensures !next.permanent[k].dis {
      assert k < |st.permanent| ==> next.permanent[k] == st.permanent[k];
    }
    forall f | f in EquFacts(next) ensures SameSet(templ, next.equs, f.row) {
      assert f.row != row ==> f in EquFacts(st) && SameSet(templ, st.equs, f.row);
    }
  }

  lemma DisequalityRecords(templ: seq<Row>, vars: nat, st: WorkState, next: WorkState, row: nat)
    requires RowsFit(templ, vars) && StateFits(templ, vars, st) && row < |templ| && StateFits(templ, vars, next)
    requires ValueRecords(templ, vars, st) && next.equs == st.equs && next.disequs == st.disequs + {row}
    requires next.permanent == st.permanent + [Fact(row, true)] && next.equCount == st.equCount
    ensures ValueRecords(templ, vars, next)
  {
    assert EquFacts(next) == EquFacts(st);
    assert next.permanent[|st.permanent|] == Fact(row, true);
    forall k | 0 <= k < |next.permanent| ensures next.permanent[k].dis <==> k >= next.equCount {
      assert k < |st.permanent| ==> next.permanent[k] == st.permanent[k];
    }
  }

  lemma DisequalityProved(templ: seq<Row>, vars: nat, ctx: seq<Env>, st: WorkState, next: WorkState, row: nat)
    requires EnvsFit(templ, ctx) && RowsFit(templ, vars) && StateFits(templ, vars, st) && Progress(templ, vars, ctx, st)
    requires st.todoEqus == {} && row in st.todoDisequs && !Refutable(templ, ctx, st.permanent, Fact(row, true))
    requires next == AfterProof(templ, st, Fact(row, true))
    ensures StateFits(templ, vars, next) && Progress(templ, vars, ctx, next)
  {
    OneMoreProof(templ, ctx, st.permanent, Fact(row, true));
    assert EquFacts(next) == EquFacts(st);
    DisequalityRecords(templ, vars, st, next, row);
    assert next.permanent[|st.permanent|] == Fact(row, true);
    assert next.todoEqus + next.todoDisequs == (st.todoEqus + st.todoDisequs) - {row};
    forall r: nat | r in Indices(|templ|) ensures RowDone(templ, ctx, next, r) && RowSettled(templ, ctx, next, r) {
      assert RowDone(templ, ctx, st, r) && RowSettled(templ, ctx, st, r);
      StaysSettled(templ, ctx, st, next, row, r);
    }
  }

  ghost function Outcome(templ: seq<Row>, vars: nat, st: WorkState, ctx: seq<Env>, f: Fact): WorkState
    requires EnvsFit(templ, ctx) && RowsFit(templ, vars) && StateFits(templ, vars, st) && IsCandidate(st, f)
  {
    if Refutable(templ, ctx, st.permanent, f) then AfterRefutation(st, f) else AfterProof(templ, st, f)
  }

  /** Whatever the answer, an iteration keeps the worklists' promises and leaves less work. */
  lemma OutcomeKeepsProgress(templ: seq<Row>, vars: nat, ctx: seq<Env>, st: WorkState, f: Fact)
    requires EnvsFit(templ, ctx) && RowsFit(templ, vars) && StateFits(templ, vars, st) && Progress(templ, vars, ctx, st)
    requires IsCandidate(st, f)
    ensures var next := Outcome(templ, vars, st, ctx, f);
      StateFits(templ, vars, next) && Progress(templ, vars, ctx, next) && LessWork(next, st)
  {
    if Refutable(templ, ctx, st.permanent, f) {
      RefutationKeepsProgress(templ, vars, ctx, st, f);
    } else {
      ProofKeepsProgress(templ, vars, ctx, st, f);
    }
  }

  lemma OneMoreProof(templ: seq<Row>, ctx: seq<Env>, facts: seq<Fact>, f: Fact)
    requires EnvsFit(templ, ctx) && FactsFit(templ, facts) && f.row < |templ|
    requires ProvedInOrder(templ, ctx, facts) && !Refutable(templ, ctx, facts, f)
    ensures ProvedInOrder(templ, ctx, facts + [f])
  {
    var all := facts + [f];
    forall k | 0 <= k < |all| ensures !Refutable(templ, ctx, all[..k], all[k]) {
      assert all[..k] == facts[..k];
      assert k == |facts| ==> facts[..k] == facts;
    }
  }

  /** What the domain projects once both worklists are empty: equalities of rows within a class
      and the recorded disequalities. */
  ghost function Projected(templ: seq<Row>, vars: nat, st: WorkState): set<Fact>
    requires RowsFit(templ, vars) && StateFits(templ, vars, st)
  {
    (set r: nat | r in Indices(|templ|) && SameSet(templ, st.equs, r) :: Fact(r, false)) +
    (set r | r in st.disequs :: Fact(r, true))
  }

  /** The guards let every row whose sides were joined carry over. */
  ghost predicate JoinsCarryOver(templ: seq<Row>, vars: nat, ctx: seq<Env>, st: WorkState)
    requires EnvsFit(templ, ctx) && RowsFit(templ, vars) && StateFits(templ, vars, st)
  {
    forall row: nat :: row in Indices(|templ|) && SameSet(templ, st.equs, row) ==>
      CarriesOver(templ, ctx, EquFacts(st), row)
  }

  lemma SharedGuardJoins(templ: seq<Row>, vars: nat, ctx: seq<Env>, st: WorkState)
    requires EnvsFit(templ, ctx) && RowsFit(templ, vars) && StateFits(templ, vars, st)
    requires ClassesForced(templ, EquFacts(st), st.equs) && UniformPostGuards(ctx)
    ensures JoinsCarryOver(templ, vars, ctx, st)
  {
    forall row: nat | row in Indices(|templ|) && SameSet(templ, st.equs, row)
      ensures CarriesOver(templ, ctx, EquFacts(st), row)
    {
      SharedGuardCarriesOver(templ, ctx, EquFacts(st), st.equs, row);
    }
  }

  /** At the end, when joined rows carry over, a row's sides are in one class exactly when the row
      itself was established, exactly when the equalities leave it unrefuted. */
  lemma ClassesAreEstablished(templ: seq<Row>, vars: nat, ctx: seq<Env>, st: WorkState, row: nat)
    requires EnvsFit(templ, ctx) && RowsFit(templ, vars) && StateFits(templ, vars, st) && Progress(templ, vars, ctx, st)
    requires JoinsCarryOver(templ, vars, ctx, st) && st.todoEqus == {} && row < |templ|
    ensures SameSet(templ, st.equs, row) <==> Fact(row, false) in st.permanent
    ensures SameSet(templ, st.equs, row) <==> !Refutable(templ, ctx, EquFacts(st), Fact(row, false))
  {
    var equ := EquFacts(st);
    assert forall k :: 0 <= k < |equ| ==> equ[..k] == st.permanent[..k];
    assert Fact(row, false) in st.permanent <==> Fact(row, false) in equ;
    assert row in Indices(|templ|) && RowDone(templ, ctx, st, row);
    if SameSet(templ, st.equs, row) {
      CarriedRowUnrefuted(templ, ctx, equ, row);
    }
  }

  /** The projected invariant is the conjunction of the facts, and inductive. */
  lemma ProjectionIsInductive(templ: seq<Row>, vars: nat, ctx: seq<Env>, st: WorkState)
    requires EnvsFit(templ, ctx) && RowsFit(templ, vars) && StateFits(templ, vars, st) && Progress(templ, vars, ctx, st)
    requires JoinsCarryOver(templ, vars, ctx, st) && st.todoEqus == {}
    ensures Projected(templ, vars, st) == set f | f in st.permanent
    ensures Inductive(templ, ctx, Projected(templ, vars, st))
  {
    var facts := set f | f in st.permanent;
    forall f ensures f in Projected(templ, vars, st) <==> f in facts {
      if f.row < |templ| && !f.dis {
        ClassesAreEstablished(templ, vars, ctx, st, f.row);
      }
    }
    OrderedProofsAreInductive(templ, ctx, st.permanent);
  }

  /** Under a guard shared by all rows: exactly the joined rows are established, and the projected
      invariant is inductive. */
  ghost predicate Sound(templ: seq<Row>, vars: nat, ctx: seq<Env>, st: WorkState)
    requires EnvsFit(templ, ctx) && RowsFit(templ, vars) && StateFits(templ, vars, st)
  {
    (forall row: nat :: row in Indices(|templ|) ==>
      (SameSet(templ, st.equs, row) <==> Fact(row, false) in st.permanent)) &&
    Inductive(templ, ctx, Projected(templ, vars, st))
  }

  lemma SharedGuardIsSound(templ: seq<Row>, vars: nat, ctx: seq<Env>, st: WorkState)
    requires EnvsFit(templ, ctx) && RowsFit(templ, vars) && StateFits(templ, vars, st) && Progress(templ, vars, ctx, st)
    requires UniformPostGuards(ctx) && st.todoEqus == {}
    ensures Sound(templ, vars, ctx, st)
  {
    SharedGuardJoins(templ, vars, ctx, st);
    forall row: nat | row in Indices(|templ|)
      ensures SameSet(templ, st.equs, row) <==> Fact(row, false) in st.permanent
    {
      ClassesAreEstablished(templ, vars, ctx, st, row);
    }
    ProjectionIsInductive(templ, vars, ctx, st);
  }

  function InitialState(templ: seq<Row>, vars: nat): WorkState {
    WorkState(Indices(|templ|), {}, seq(vars, (x: nat) => x), {}, [], 0)
  }

  ghost predicate StepTaken(templ: seq<Row>, vars: nat, ctx: seq<Env>, st: WorkState, f: Fact, next: WorkState)
    requires EnvsFit(templ, ctx) && RowsFit(templ, vars)
  {
    StateFits(templ, vars, st) && StateFits(templ, vars, next) && IsCandidate(st, f) &&
    next == Outcome(templ, vars, st, ctx, f)
  }

  /** Trying these candidates one after the other takes the worklists from `st` to `last`. */
  ghost predicate RunsTo(templ: seq<Row>, vars: nat, ctx: seq<Env>, st: WorkState, tried: seq<Fact>, last: WorkState)
    requires EnvsFit(templ, ctx) && RowsFit(templ, vars)
    decreases |tried|
  {
    StateFits(templ, vars, st) &&
    if tried == [] then st == last
    else
      IsCandidate(st, tried[0]) && RunsTo(templ, vars, ctx, Outcome(templ, vars, st, ctx, tried[0]), tried[1..], last)
  }

  lemma OneStepBefore(
    templ: seq<Row>, vars: nat, ctx: seq<Env>, st: WorkState, f: Fact, next: WorkState,
    rest: seq<Fact>, last: WorkState)
    requires EnvsFit(templ, ctx) && RowsFit(templ, vars)
    requires StepTaken(templ, vars, ctx, st, f, next) && RunsTo(templ, vars, ctx, next, rest, last)
    ensures RunsTo(templ, vars, ctx, st, [f] + rest, last)
  {
    assert ([f] + rest)[1..] == rest;
  }

  lemma {:induction false} RunsOn(
    templ: seq<Row>, vars: nat, ctx: seq<Env>, st: WorkState, tried: seq<Fact>, now: WorkState,
    f: Fact, next: WorkState)
    requires EnvsFit(templ, ctx) && RowsFit(templ, vars)
    requires RunsTo(templ, vars, ctx, st, tried, now) && StepTaken(templ, vars, ctx, now, f, next)
    ensures RunsTo(templ, vars, ctx, st, tried + [f], next)
    decreases |tried|
  {
    if tried == [] {
      assert [f][1..] == [];
    } else {
      assert (tried + [f])[1..] == tried[1..] + [f];
      RunsOn(templ, vars, ctx, Outcome(templ, vars, st, ctx, tried[0]), tried[1..], now, f, next);
    }
  }

  class EqualityDomain {
    const templ: seq<Row>
    const vars: nat

    var todoEqus: set<nat>
    var todoDisequs: set<nat>
    var eIt: nat
    var checkDis: bool
    var unsatisfiable: bool

    /** The value: classes of the union-find, and rows known to differ. */
    var equs: seq<nat>
    var disequs: set<nat>

    /** What the outer solver was told for good, and how much of it is about equalities. */
    var permanent: seq<Fact>
    ghost var equCount: nat

    ghost function Snapshot(): WorkState
      reads this
    {
      WorkState(todoEqus, todoDisequs, equs, disequs, permanent, equCount)
    }

    ghost predicate Valid()
      reads this
    {
      RowsFit(templ, vars) && StateFits(templ, vars, Snapshot())
    }

    ghost predicate Progressing(ctx: seq<Env>)
      requires Valid() && EnvsFit(templ, ctx)
      reads this
    {
      Progress(templ, vars, ctx, Snapshot())
    }

    /** Every row is a candidate equality, each variable a class of its own. */
    constructor (templ: seq<Row>, vars: nat)
      requires RowsFit(templ, vars)
      ensures Valid() && this.templ == templ && this.vars == vars
      ensures Snapshot() == InitialState(templ, vars)
      ensures forall ctx :: EnvsFit(templ, ctx) ==> Progressing(ctx)
    {
      this.templ, this.vars := templ, vars;
      todoEqus := Indices(|templ|);
      todoDisequs, disequs := {}, {};
      eIt, checkDis, unsatisfiable := 0, false, false;
      equs := seq(vars, (x: nat) => x);
      permanent, equCount := [], 0;
    }

    method InitValueSolverIteration()
      modifies this`unsatisfiable
      ensures !unsatisfiable
    {
      unsatisfiable := false;
    }

    /** Picks the first candidate: an equality while there is one, then a disequality. */
    method HasSomethingToSolve() returns (some: bool)
      requires Valid()
      modifies this`eIt, this`checkDis
      ensures some <==> todoEqus + todoDisequs != {}
      ensures some ==> checkDis == (todoEqus == {})
      ensures some ==> eIt in (if checkDis then todoDisequs else todoEqus)
      ensures some && !checkDis ==> forall r :: r in todoEqus ==> eIt <= r
      ensures some && checkDis ==> forall r :: r in todoDisequs ==> eIt <= r
      ensures !some ==> eIt == old(eIt) && checkDis == old(checkDis)
    {
      if todoEqus != {} {
        eIt := Least(todoEqus);
        checkDis := false;
        some := true;
      } else if todoDisequs != {} {
        eIt := Least(todoDisequs);
        checkDis := true;
        some := true;
      } else {
        some := false;
      }
    }

    /** A refuted equality waits on the list of disequalities. */
    method EditRow()
      modifies this`todoDisequs
      ensures todoDisequs == if old(checkDis) then old(todoDisequs) else old(todoDisequs) + {eIt}
    {
      if !checkDis {
        todoDisequs := todoDisequs + {eIt};
      }
    }

    method HandleUnsat()
      modifies this`disequs, this`unsatisfiable
      ensures disequs == (if checkDis then old(disequs) + {eIt} else old(disequs)) && unsatisfiable
    {
      if checkDis {
        disequs := disequs + {eIt};
      }
      unsatisfiable := true;
    }

    /** A proved equality joins classes and puts every failed equality back on the list. */
    method GetPermanentExpr()
      requires RowsFit(templ, vars) && |equs| == vars && eIt < |templ| && equCount <= |permanent|
      modifies this`equs, this`todoEqus, this`todoDisequs, this`permanent, this`equCount
      ensures !unsatisfiable ==> permanent == old(permanent)
      ensures unsatisfiable ==> permanent == old(permanent) + [Fact(eIt, checkDis)]
      ensures unsatisfiable && !checkDis ==>
        (equs == MakeUnion(old(equs), templ[eIt].first, templ[eIt].second) &&
         todoEqus == old(todoEqus) + old(todoDisequs) && todoDisequs == {} && equCount == old(equCount) + 1)
      ensures !unsatisfiable || checkDis ==>
        (equs == old(equs) && todoEqus == old(todoEqus) && todoDisequs == old(todoDisequs) && equCount == old(equCount))
    {
      if unsatisfiable {
        if !checkDis {
          equs := MakeUnion(equs, templ[eIt].first, templ[eIt].second);
          todoEqus := todoEqus + todoDisequs;
          todoDisequs := {};
          equCount := equCount + 1;
        }
        permanent := permanent + [Fact(eIt, checkDis)];
      }
    }

    method FinalizeSolverIteration()
      modifies this`todoEqus, this`todoDisequs
      ensures todoEqus == if checkDis then old(todoEqus) else old(todoEqus) - {eIt}
      ensures todoDisequs == if checkDis then old(todoDisequs) - {eIt} else old(todoDisequs)
    {
      if checkDis {
        todoDisequs := todoDisequs - {eIt};
      } else {
        todoEqus := todoEqus - {eIt};
      }
    }

    /** One iteration of the generic solver on this domain: it takes a candidate from the lists
        and concludes as the solver's answer says. */
    method Iterate(ctx: seq<Env>) returns (improved: bool)
      requires Valid() && EnvsFit(templ, ctx)
      modifies this
      ensures improved <==> old(todoEqus + todoDisequs) != {}
      ensures !improved ==> Snapshot() == old(Snapshot())
      ensures improved ==>
        exists f :: IsCandidate(old(Snapshot()), f) && Snapshot() == Outcome(templ, vars, old(Snapshot()), ctx, f)
    {
      InitValueSolverIteration();
      improved := HasSomethingToSolve();
      if improved {
        ghost var st, f := Snapshot(), Fact(eIt, checkDis);
        assert IsCandidate(st, f);
        Decide(ctx);
      }
    }

    /** Asks the solver about the candidate and concludes. */
    method Decide(ctx: seq<Env>)
      requires Valid() && EnvsFit(templ, ctx) && !unsatisfiable && IsCandidate(Snapshot(), Fact(eIt, checkDis))
      modifies this
      ensures Snapshot() == Outcome(templ, vars, old(Snapshot()), ctx, old(Fact(eIt, checkDis)))
    {
      if i :| 0 <= i < |ctx| && Refutes(templ, permanent, Fact(eIt, checkDis), ctx[i]) {
        Conclude(true);
      } else {
        Conclude(false);
      }
    }

    /** The calls the solver makes once it has its answer on the candidate. */
    method Conclude(refuted: bool)
      requires Valid() && !unsatisfiable && IsCandidate(Snapshot(), Fact(eIt, checkDis))
      modifies this
      ensures eIt == old(eIt) && checkDis == old(checkDis)
      ensures Snapshot() == if refuted then AfterRefutation(old(Snapshot()), Fact(eIt, checkDis))
                            else AfterProof(templ, old(Snapshot()), Fact(eIt, checkDis))
    {
      if refuted {
        EditRow();
      } else {
        HandleUnsat();
      }
      GetPermanentExpr();
      FinalizeSolverIteration();
    }

    /** The worklists run empty whatever the solver answers, one candidate concluded after the
        other, and under a shared guard the result is sound. */
    method Analyze(ctx: seq<Env>)
      requires Valid() && EnvsFit(templ, ctx) && Progressing(ctx)
      modifies this
      ensures Valid() && Progressing(ctx) && todoEqus == todoDisequs == {}
      ensures exists tried :: RunsTo(templ, vars, ctx, old(Snapshot()), tried, Snapshot())
      ensures forall r: nat :: r in Indices(|templ|) ==>
        Fact(r, false) in permanent || Fact(r, true) in permanent || DisequalityRefuted(templ, ctx, Snapshot(), r)
      ensures UniformPostGuards(ctx) ==> Sound(templ, vars, ctx, Snapshot())
    {
      var improved := true;
      ghost var tried := [];
      while improved
        invariant Valid() && Progressing(ctx)
        invariant RunsTo(templ, vars, ctx, old(Snapshot()), tried, Snapshot())
        invariant !improved ==> todoEqus + todoDisequs == {}
        decreases |todoEqus + todoDisequs|, |todoEqus|, improved
      {
        ghost var st := Snapshot();
        improved := Iterate(ctx);
        if improved {
          ghost var f :| IsCandidate(st, f) && Snapshot() == Outcome(templ, vars, st, ctx, f);
          OutcomeKeepsProgress(templ, vars, ctx, st, f);
          RunsOn(templ, vars, ctx, old(Snapshot()), tried, st, f, Snapshot());
          tried := tried + [f];
        }
      }
      assert forall r: nat :: r in Indices(|templ|) ==> RowSettled(templ, ctx, Snapshot(), r);
      if UniformPostGuards(ctx) {
        SharedGuardIsSound(templ, vars, ctx, Snapshot());
      }
    }
  }

  method Least(s: set<nat>) returns (m: nat)
    requires s != {}
    ensures m in s && forall x :: x in s ==> m <= x
  {
    var x :| x in s;
    m := x;
    var rest := s - {x};
    while rest != {}
      invariant m in s && rest <= s && forall y :: y in s ==> y in rest || m <= y
      decreases rest
    {
      var y :| y in rest;
      if y < m {
        m := y;
      }
      rest := rest - {y};
    }
  }
}
