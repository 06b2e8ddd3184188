/** Product of domains (src/domains/strategy_solver_product.cpp): each component iterates in the
    context of the candidate invariants of all the others. */
module ProductSolvers {
  import opened Templates
  import opened StrategySolvers

  /** One solution of the SSA, seen through the template of every component. */
  type ProductEnv = seq<Env>
  type ProductValue = seq<seq<RowValue>>

  predicate ProductFits(templs: seq<seq<RowKind>>, ctx: seq<ProductEnv>) {
    (forall j :: 0 <= j < |ctx| ==> |ctx[j]| == |templs|) &&
    forall i, j :: 0 <= j < |ctx| && 0 <= i < |templs| ==> EnvFits(templs[i], ctx[j][i])
  }

  predicate ValueFitsProduct(templs: seq<seq<RowKind>>, v: ProductValue) {
    |v| == |templs| && forall i :: 0 <= i < |templs| ==> ValuesFit(templs[i], v[i])
  }

  /** The projections of all components except `i` hold. */
  predicate OthersHold(v: ProductValue, e: ProductEnv, i: nat)
    requires |v| == |e| && forall k :: 0 <= k < |v| ==> |v[k]| == |e[k]|
  {
    forall k :: 0 <= k < |v| && k != i ==> AllPre(v[k], e[k])
  }

  /** The conjunction of all components is inductive. */
  ghost predicate ProductInductive(templs: seq<seq<RowKind>>, ctx: seq<ProductEnv>, v: ProductValue)
    requires ProductFits(templs, ctx) && ValueFitsProduct(templs, v)
  {
    forall j :: 0 <= j < |ctx| && (forall k :: 0 <= k < |v| ==> AllPre(v[k], ctx[j][k])) ==>
      forall k :: 0 <= k < |v| ==> !SomePostFails(v[k], ctx[j][k])
  }

  function ContextOf(templs: seq<seq<RowKind>>, ctx: seq<ProductEnv>, v: ProductValue, i: nat): (r: seq<Env>)
    requires ProductFits(templs, ctx) && ValueFitsProduct(templs, v) && i < |templs|
    ensures ContextFits(templs[i], r)
  {
    if ctx == [] then []
    else
      var rest := ContextOf(templs, ctx[..|ctx| - 1], v, i);
      var e := ctx[|ctx| - 1];
      if OthersHold(v, e, i) then rest + [e[i]] else rest
  }

  lemma {:induction false} ContextMembers(
    templs: seq<seq<RowKind>>, ctx: seq<ProductEnv>, v: ProductValue, i: nat, x: Env)
    requires ProductFits(templs, ctx) && ValueFitsProduct(templs, v) && i < |templs|
    ensures x in ContextOf(templs, ctx, v, i) <==>
      exists j :: 0 <= j < |ctx| && OthersHold(v, ctx[j], i) && ctx[j][i] == x
  {
    if ctx != [] {
      var init := ctx[..|ctx| - 1];
      ContextMembers(templs, init, v, i, x);
      assert forall j :: 0 <= j < |init| ==> init[j] == ctx[j];
    }
  }

  /** A value is inductive for the product exactly when each component is inductive in the
      context of the others. */
  lemma ProductInductiveIff(templs: seq<seq<RowKind>>, ctx: seq<ProductEnv>, v: ProductValue)
    requires ProductFits(templs, ctx) && ValueFitsProduct(templs, v)
    ensures ProductInductive(templs, ctx, v) <==>
      forall i :: 0 <= i < |v| ==> Inductive(ContextOf(templs, ctx, v, i), v[i])
  {
    if ProductInductive(templs, ctx, v) {
      forall i | 0 <= i < |v| ensures Inductive(ContextOf(templs, ctx, v, i), v[i]) {
        ComponentInductive(templs, ctx, v, i);
      }
    } else {
      var j, k :| 0 <= j < |ctx| && (forall i :: 0 <= i < |v| ==> AllPre(v[i], ctx[j][i])) &&
        0 <= k < |v| && SomePostFails(v[k], ctx[j][k]);
      ContextMembers(templs, ctx, v, k, ctx[j][k]);
      var c := ContextOf(templs, ctx, v, k);
      assert OthersHold(v, ctx[j], k);
      assert ctx[j][k] in c;
      assert !Inductive(c, v[k]);
    }
  }

  lemma ComponentInductive(templs: seq<seq<RowKind>>, ctx: seq<ProductEnv>, v: ProductValue, i: nat)
    requires ProductFits(templs, ctx) && ValueFitsProduct(templs, v) && i < |v|
    requires ProductInductive(templs, ctx, v)
    ensures Inductive(ContextOf(templs, ctx, v, i), v[i])
  {
    var c := ContextOf(templs, ctx, v, i);
    forall n | 0 <= n < |c| && AllPre(v[i], c[n]) ensures !SomePostFails(v[i], c[n]) {
      ContextMembers(templs, ctx, v, i, c[n]);
      var j :| 0 <= j < |ctx| && OthersHold(v, ctx[j], i) && ctx[j][i] == c[n];
      assert forall k :: 0 <= k < |v| ==> AllPre(v[k], ctx[j][k]);
    }
  }

  function TotalSlack(templs: seq<seq<RowKind>>, v: ProductValue): nat
    requires ValueFitsProduct(templs, v)
  {
    if templs == [] then 0 else Slack(templs[0], v[0]) + TotalSlack(templs[1..], v[1..])
  }

  lemma {:induction false} TotalSlackAt(templs: seq<seq<RowKind>>, v: ProductValue, i: nat, x: seq<RowValue>)
    requires ValueFitsProduct(templs, v) && i < |templs| && ValuesFit(templs[i], x)
    ensures ValueFitsProduct(templs, v[i := x])
    ensures TotalSlack(templs, v[i := x]) == TotalSlack(templs, v) - Slack(templs[i], v[i]) + Slack(templs[i], x)
  {
    if i > 0 {
      TotalSlackAt(templs[1..], v[1..], i - 1, x);
      assert v[i := x][1..] == v[1..][i - 1 := x];
    } else {
      assert v[i := x][1..] == v[1..];
    }
  }

  // ----- Passes -----

  /** The component `k` moves by one improving iteration in the context of the others, or stays when
      it is inductive there; the other components stay. */
  ghost predicate ComponentMoves(templs: seq<seq<RowKind>>, binSearch: seq<bool>, ctx: seq<ProductEnv>,
                                 v: ProductValue, k: nat, w: ProductValue)
    requires ProductFits(templs, ctx) && ValueFitsProduct(templs, v) && k < |templs| == |binSearch|
    requires binSearch[k] ==> AllPoly(templs[k])
  {
    var context := ContextOf(templs, ctx, v, k);
    |w| == |v| && w == v[k := w[k]] &&
    if Inductive(context, v[k]) then w == v else Improves(templs[k], binSearch[k], context, v[k], w[k])
  }

  predicate StrategiesFit(templs: seq<seq<RowKind>>, binSearch: seq<bool>) {
    |templs| == |binSearch| && forall k :: 0 <= k < |templs| && binSearch[k] ==> AllPoly(templs[k])
  }

  /** The values of a pass over the components, each moving in turn. */
  ghost predicate IsPass(templs: seq<seq<RowKind>>, binSearch: seq<bool>, ctx: seq<ProductEnv>, pass: seq<ProductValue>)
    requires ProductFits(templs, ctx) && StrategiesFit(templs, binSearch)
  {
    0 < |pass| <= |templs| + 1 &&
    (forall k :: 0 <= k < |pass| ==> ValueFitsProduct(templs, pass[k])) &&
    forall k :: 0 < k < |pass| ==> ComponentMoves(templs, binSearch, ctx, pass[k - 1], k - 1, pass[k])
  }

  lemma PassGrows(templs: seq<seq<RowKind>>, binSearch: seq<bool>, ctx: seq<ProductEnv>, pass: seq<ProductValue>,
                  v: ProductValue, w: ProductValue)
    requires ProductFits(templs, ctx) && StrategiesFit(templs, binSearch) && IsPass(templs, binSearch, ctx, pass)
    requires |pass| <= |templs| && pass[|pass| - 1] == v && ValueFitsProduct(templs, v) && ValueFitsProduct(templs, w)
    requires ComponentMoves(templs, binSearch, ctx, v, |pass| - 1, w)
    ensures IsPass(templs, binSearch, ctx, pass + [w])
  {
    var all := pass + [w];
    forall k | 0 < k < |all| ensures ComponentMoves(templs, binSearch, ctx, all[k - 1], k - 1, all[k]) {
      assert all[k - 1] == pass[k - 1];
    }
  }

  /** Full passes, each starting where the one before it ended. */
  ghost predicate ArePasses(
    templs: seq<seq<RowKind>>, binSearch: seq<bool>, ctx: seq<ProductEnv>, passes: seq<seq<ProductValue>>)
    requires ProductFits(templs, ctx) && StrategiesFit(templs, binSearch)
  {
    (forall j :: 0 <= j < |passes| ==> |passes[j]| == |templs| + 1 && IsPass(templs, binSearch, ctx, passes[j])) &&
    forall j :: 0 < j < |passes| ==> passes[j][0] == passes[j - 1][|templs|]
  }

  predicate ProductBelow(v: ProductValue, w: ProductValue) {
    |v| == |w| && forall k :: 0 <= k < |v| ==> Below(v[k], w[k])
  }

  predicate AllPointersHaveOneValue(ctx: seq<ProductEnv>) {
    forall j :: 0 <= j < |ctx| ==> PointersHaveOneValue(ctx[j])
  }

  /** Weaker components leave more environments in the context of the one between them. */
  lemma ContextGrows(templs: seq<seq<RowKind>>, ctx: seq<ProductEnv>, v: ProductValue, w: ProductValue, k: nat, x: Env)
    requires ProductFits(templs, ctx) && ValueFitsProduct(templs, v) && ValueFitsProduct(templs, w) && k < |templs|
    requires ProductBelow(v, w) && x in ContextOf(templs, ctx, v, k)
    ensures x in ContextOf(templs, ctx, w, k)
  {
    ContextMembers(templs, ctx, v, k, x);
    ContextMembers(templs, ctx, w, k, x);
    var j :| 0 <= j < |ctx| && OthersHold(v, ctx[j], k) && ctx[j][k] == x;
    forall other | 0 <= other < |w| && other != k ensures AllPre(w[other], ctx[j][other]) {
      BelowAllPre(v[other], w[other], ctx[j][other]);
    }
  }

  /** A component that moves by enumeration stays below every inductive conjunction. */
  lemma ComponentStaysBelow(templs: seq<seq<RowKind>>, binSearch: seq<bool>, ctx: seq<ProductEnv>,
                            v: ProductValue, k: nat, u: ProductValue, w: ProductValue)
    requires ProductFits(templs, ctx) && ValueFitsProduct(templs, v) && ValueFitsProduct(templs, w)
    requires k < |templs| == |binSearch| && !binSearch[k] && AllPointersHaveOneValue(ctx)
    requires ComponentMoves(templs, binSearch, ctx, v, k, u)
    requires ProductInductive(templs, ctx, w) && ProductBelow(v, w)
    ensures ProductBelow(u, w)
  {
    var context := ContextOf(templs, ctx, v, k);
    if !Inductive(context, v[k]) {
      ComponentInductive(templs, ctx, w, k);
      forall n | 0 <= n < |context| ensures AllPre(w[k], context[n]) ==> !SomePostFails(w[k], context[n]) {
        ContextGrows(templs, ctx, v, w, k, context[n]);
      }
      ContextHasOneValue(templs, ctx, v, k);
      var i :| 0 <= i < |context| && AllPre(v[k], context[i]) && SomePostFails(v[k], context[i]) &&
        u[k] == Step(v[k], context[i]);
      StepStaysBelow(templs[k], context, v[k], w[k], i);
    }
  }

  lemma ContextHasOneValue(templs: seq<seq<RowKind>>, ctx: seq<ProductEnv>, v: ProductValue, k: nat)
    requires ProductFits(templs, ctx) && ValueFitsProduct(templs, v) && k < |templs| && AllPointersHaveOneValue(ctx)
    ensures PointersHaveOneValue(ContextOf(templs, ctx, v, k))
  {
    var context: seq<Env> := ContextOf(templs, ctx, v, k);
    forall i: nat, row: nat | 0 <= i < |context| && 0 <= row < |context[i]| ensures OneValue(context[i][row].post) {
      ContextMembers(templs, ctx, v, k, context[i]);
      var j :| 0 <= j < |ctx| && OthersHold(v, ctx[j], k) && ctx[j][k] == context[i];
    }
  }

  /** A pass by enumeration stays below every inductive conjunction it started below. */
  lemma {:induction false} PassStaysBelow(
    templs: seq<seq<RowKind>>, binSearch: seq<bool>, ctx: seq<ProductEnv>, pass: seq<ProductValue>, k: nat,
    w: ProductValue)
    requires ProductFits(templs, ctx) && StrategiesFit(templs, binSearch) && IsPass(templs, binSearch, ctx, pass)
    requires (forall i :: 0 <= i < |templs| ==> !binSearch[i]) && AllPointersHaveOneValue(ctx)
    requires ValueFitsProduct(templs, w) && ProductInductive(templs, ctx, w) && k < |pass| && ProductBelow(pass[0], w)
    ensures ProductBelow(pass[k], w)
  {
    if k > 0 {
      PassStaysBelow(templs, binSearch, ctx, pass, k - 1, w);
      var v, u := pass[k - 1], pass[k];
      assert ValueFitsProduct(templs, v) && ComponentMoves(templs, binSearch, ctx, v, k - 1, u);
      ComponentStaysBelow(templs, binSearch, ctx, v, k - 1, u, w);
    }
  }

  ghost function ProductBottoms(templs: seq<seq<RowKind>>): ProductValue {
    seq(|templs|, k requires 0 <= k < |templs| => Bottoms(templs[k]))
  }

  lemma {:induction false} PassesStayBelowOne(templs: seq<seq<RowKind>>, binSearch: seq<bool>, ctx: seq<ProductEnv>,
                                              passes: seq<seq<ProductValue>>, j: nat, w: ProductValue)
    requires ProductFits(templs, ctx) && StrategiesFit(templs, binSearch) && ArePasses(templs, binSearch, ctx, passes)
    requires (forall i :: 0 <= i < |templs| ==> !binSearch[i]) && AllPointersHaveOneValue(ctx) && j < |passes|
    requires ValueFitsProduct(templs, w) && ProductInductive(templs, ctx, w) && ProductBelow(passes[0][0], w)
    ensures ProductBelow(passes[j][|templs|], w)
  {
    if j > 0 {
      PassesStayBelowOne(templs, binSearch, ctx, passes, j - 1, w);
    }
    PassStaysBelow(templs, binSearch, ctx, passes[j], |templs|, w);
  }

  /** An inductive conjunction that the start lies below; bottom lies below all of them. */
  ghost predicate InductiveAbove(templs: seq<seq<RowKind>>, ctx: seq<ProductEnv>, start: ProductValue, w: ProductValue)
    requires ProductFits(templs, ctx)
  {
    ValueFitsProduct(templs, w) && ProductInductive(templs, ctx, w) &&
    (ProductBelow(start, w) || start == ProductBottoms(templs))
  }

  /** The end lies below every inductive conjunction above the start. */
  ghost predicate LeastAbove(templs: seq<seq<RowKind>>, ctx: seq<ProductEnv>, start: ProductValue, end: ProductValue)
    requires ProductFits(templs, ctx)
  {
    forall w :: InductiveAbove(templs, ctx, start, w) ==> ProductBelow(end, w)
  }

  lemma PassesStayBelow(
    templs: seq<seq<RowKind>>, binSearch: seq<bool>, ctx: seq<ProductEnv>, passes: seq<seq<ProductValue>>)
    requires ProductFits(templs, ctx) && StrategiesFit(templs, binSearch) && ArePasses(templs, binSearch, ctx, passes)
    requires (forall i :: 0 <= i < |templs| ==> !binSearch[i]) && AllPointersHaveOneValue(ctx) && passes != []
    ensures LeastAbove(templs, ctx, passes[0][0], passes[|passes| - 1][|templs|])
  {
    forall w | InductiveAbove(templs, ctx, passes[0][0], w) ensures ProductBelow(passes[|passes| - 1][|templs|], w) {
      if passes[0][0] == ProductBottoms(templs) {
        forall k | 0 <= k < |templs| ensures Below(Bottoms(templs[k]), w[k]) {
          BottomsBelow(templs[k], w[k]);
        }
      }
      PassesStayBelowOne(templs, binSearch, ctx, passes, |passes| - 1, w);
    }
  }

  lemma PassesGrow(templs: seq<seq<RowKind>>, binSearch: seq<bool>, ctx: seq<ProductEnv>,
                   passes: seq<seq<ProductValue>>, pass: seq<ProductValue>)
    requires ProductFits(templs, ctx) && StrategiesFit(templs, binSearch) && ArePasses(templs, binSearch, ctx, passes)
    requires |pass| == |templs| + 1 && IsPass(templs, binSearch, ctx, pass)
    requires passes != [] ==> pass[0] == passes[|passes| - 1][|templs|]
    ensures ArePasses(templs, binSearch, ctx, passes + [pass])
  {
    var all := passes + [pass];
    forall j | 0 <= j < |all| ensures |all[j]| == |templs| + 1 && IsPass(templs, binSearch, ctx, all[j]) {
      assert all[j] == if j < |passes| then passes[j] else pass;
    }
  }

  class ProductSolver {
    const solvers: seq<StrategySolver>

    ghost predicate Valid()
      reads this, solvers
    {
      (forall i, j :: 0 <= i < j < |solvers| ==> solvers[i] != solvers[j]) &&
      forall i :: 0 <= i < |solvers| ==> solvers[i].Valid()
    }

    ghost function Templates(): (t: seq<seq<RowKind>>) {
      seq(|solvers|, i requires 0 <= i < |solvers| => solvers[i].templ)
    }

    ghost function Strategies(): (b: seq<bool>) {
      seq(|solvers|, i requires 0 <= i < |solvers| => solvers[i].binSearch)
    }

    /** The vector of component values. */
    function Values(): (v: ProductValue)
      reads this, solvers
      ensures |v| == |solvers| && forall i :: 0 <= i < |solvers| ==> v[i] == solvers[i].inv
    {
      seq(|solvers|, i requires 0 <= i < |solvers| reads this, solvers => solvers[i].inv)
    }

    constructor (solvers: seq<StrategySolver>)
      requires forall i, j :: 0 <= i < j < |solvers| ==> solvers[i] != solvers[j]
      requires forall i :: 0 <= i < |solvers| ==> solvers[i].Valid()
      ensures Valid() && this.solvers == solvers
    {
      this.solvers := solvers;
    }

    /** The environments that meet the candidate invariants of all components but `i`. */
    method Context(ctx: seq<ProductEnv>, i: nat) returns (r: seq<Env>)
      requires Valid() && ProductFits(Templates(), ctx) && i < |solvers|
      ensures ValueFitsProduct(Templates(), Values()) && r == ContextOf(Templates(), ctx, Values(), i)
    {
      var v := Values();
      r := [];
      for n := 0 to |ctx|
        invariant r == ContextOf(Templates(), ctx[..n], v, i)
      {
        assert ctx[..n + 1][..n] == ctx[..n];
        assert forall k :: 0 <= k < |v| ==> EnvFits(Templates()[k], ctx[n][k]);
        if OthersHold(v, ctx[n], i) {
          r := r + [ctx[n][i]];
        }
      }
      assert ctx[..|ctx|] == ctx;
    }

    /** One component iterates in the context of the others. */
    method IterateComponent(ctx: seq<ProductEnv>, i: nat) returns (better: bool)
      requires Valid() && ProductFits(Templates(), ctx) && i < |solvers|
      requires ValueFitsProduct(Templates(), Values())
      modifies solvers[i]
      ensures Valid() && ValueFitsProduct(Templates(), Values())
      ensures Values() == old(Values())[i := Values()[i]]
      ensures better <==> !Inductive(ContextOf(Templates(), ctx, old(Values()), i), old(Values())[i])
      ensures !better ==> Values() == old(Values())
      ensures StrategiesFit(Templates(), Strategies()) && ValueFitsProduct(Templates(), old(Values()))
      ensures ComponentMoves(Templates(), Strategies(), ctx, old(Values()), i, Values())
      ensures better ==> TotalSlack(Templates(), Values()) < TotalSlack(Templates(), old(Values()))
    {
      ghost var before := Values();
      var context := Context(ctx, i);
      better := solvers[i].Iterate(context);
      assert Values() == before[i := solvers[i].inv];
      assert Templates()[i] == solvers[i].templ && Strategies()[i] == solvers[i].binSearch;
      TotalSlackAt(Templates(), before, i, solvers[i].inv);
    }

    /** A full pass moves every component in turn, and improves one exactly when the conjunction was
        not inductive. */
    method Iterate(ctx: seq<ProductEnv>) returns (improved: bool, ghost pass: seq<ProductValue>)
      requires Valid() && ProductFits(Templates(), ctx)
      modifies solvers
      ensures StrategiesFit(Templates(), Strategies()) && IsPass(Templates(), Strategies(), ctx, pass)
      ensures |pass| == |solvers| + 1 && pass[0] == old(Values()) && pass[|solvers|] == Values()
      ensures Valid() && ValueFitsProduct(Templates(), Values()) && ValueFitsProduct(Templates(), old(Values()))
      ensures improved <==> !ProductInductive(Templates(), ctx, old(Values()))
      ensures !improved ==> Values() == old(Values())
      ensures improved ==> TotalSlack(Templates(), Values()) < TotalSlack(Templates(), old(Values()))
    {
      improved := false;
      ghost var templs, was := Templates(), Values();
      pass := [was];
      for i := 0 to |solvers|
        invariant |pass| == i + 1 && IsPass(templs, Strategies(), ctx, pass) && pass[0] == was && pass[i] == Values()
        invariant Valid() && ValueFitsProduct(templs, Values())
        invariant !improved ==> Values() == was
        invariant !improved ==> forall k :: 0 <= k < i ==> Inductive(ContextOf(templs, ctx, was, k), was[k])
        invariant improved ==> exists k :: 0 <= k < |was| && !Inductive(ContextOf(templs, ctx, was, k), was[k])
        invariant improved ==> TotalSlack(templs, Values()) < TotalSlack(templs, was)
      {
        ghost var before := Values();
        var better := IterateComponent(ctx, i);
        PassGrows(templs, Strategies(), ctx, pass, before, Values());
        pass := pass + [Values()];
        if better {
          improved := true;
        }
      }
      ProductInductiveIff(templs, ctx, was);
    }

    /** Repeated passes end, on an inductive conjunction; with enumeration it lies below every
        inductive one that the passes started below, and from bottom is the least. */
    method Analyze(ctx: seq<ProductEnv>) returns (ghost passes: seq<seq<ProductValue>>)
      requires Valid() && ProductFits(Templates(), ctx)
      modifies solvers
      ensures Valid() && ValueFitsProduct(Templates(), Values()) && StrategiesFit(Templates(), Strategies())
      ensures ArePasses(Templates(), Strategies(), ctx, passes) && passes != []
      ensures passes[0][0] == old(Values()) && passes[|passes| - 1][|solvers|] == Values()
      ensures ByEnumeration() && AllPointersHaveOneValue(ctx) ==>
        LeastAbove(Templates(), ctx, old(Values()), Values())
      ensures ProductInductive(Templates(), ctx, Values())
    {
      var improved := true;
      passes := [];
      ghost var was := Values();
      while improved
        invariant Valid() && ValueFitsProduct(Templates(), Values()) && StrategiesFit(Templates(), Strategies())
        invariant ArePasses(Templates(), Strategies(), ctx, passes) && (passes == [] ==> improved && Values() == was)
        invariant passes != [] ==> passes[0][0] == was && passes[|passes| - 1][|solvers|] == Values()
        invariant !improved ==> ProductInductive(Templates(), ctx, Values())
        decreases TotalSlack(Templates(), Values()), improved
      {
        ghost var pass;
        improved, pass := Iterate(ctx);
        PassesGrow(Templates(), Strategies(), ctx, passes, pass);
        passes := passes + [pass];
      }
      if ByEnumeration() && AllPointersHaveOneValue(ctx) {
        PassesStayBelow(Templates(), Strategies(), ctx, passes);
      }
    }

    ghost predicate ByEnumeration() {
      forall i :: 0 <= i < |solvers| ==> !solvers[i].binSearch
    }
  }
}
