/** The converged must analyses ordered by precision: a policy that guarantees more never reports more cost. */
module SolverPrecision {
  import opened AgeDomain
  import opened CacheGeometry
  import opened ReplacementPolicy
  import opened CacheStates
  import opened CacheAnalysis
  import opened Hardware
  import opened Traces
  import opened Fixpoint
  import opened SolverTheory
  import opened PolicyChain

  lemma JoinBelow(a: Ages, b: Ages, c: Ages, d: Ages)
    requires Below(a, c) && Below(b, d)
    ensures Below(Join(Must, a, b), Join(Must, c, d))
  {}

  lemma {:induction false} JoinAllBelow(su: Setup, tu: Setup, low: States, top: States, preds: seq<nat>)
    requires AtLeastAsPrecise(su, tu) && BelowStates(low, top) && preds != [] && forall i :: 0 <= i < |preds| ==> preds[i] < |low|
    requires forall n :: 0 <= n < |low| ==> |low[n]| == su.geo.numSets && |top[n]| == su.geo.numSets
    ensures BelowValue(JoinAll(su, low, preds), JoinAll(tu, top, preds))
    decreases |preds|
  {
    var p := preds[|preds| - 1];
    assert BelowValue(low[p], top[p]);
    if |preds| > 1 {
      JoinAllBelow(su, tu, low, top, preds[..|preds| - 1]);
      var a, b := JoinAll(su, low, preds[..|preds| - 1]), JoinAll(tu, top, preds[..|preds| - 1]);
      forall i | 0 <= i < su.geo.numSets ensures Below(Join(Must, a[i], low[p][i]), Join(Must, b[i], top[p][i])) {
        JoinBelow(a[i], low[p][i], b[i], top[p][i]);
      }
    }
  }

  lemma InBelow(su: Setup, tu: Setup, f: Function, low: States, top: States, n: nat)
    requires AtLeastAsPrecise(su, tu) && Fits(su, low, f) && Fits(tu, top, f) && BelowStates(low, top) && n < |f|
    ensures BelowValue(In(su, f, low, n), In(tu, f, top, n))
  {
    PredsInRange(f, n);
    if Preds(f, n) != [] { JoinAllBelow(su, tu, low, top, Preds(f, n)); }
  }

  /** One block: the more precise value stays above, and charges no more. */
  lemma OutBelow(su: Setup, tu: Setup, f: Function, low: States, top: States, n: nat)
    requires AtLeastAsPrecise(su, tu) && Solvable(su) && Fits(su, low, f) && ShapedStates(su, low) && Fits(tu, top, f)
    requires BelowStates(low, top) && n < |f|
    ensures BelowValue(Out(su, f, low, n), Out(tu, f, top, n)) && BlockCharge(tu, f, top, n) <= BlockCharge(su, f, low, n)
  {
    InBelow(su, tu, f, low, top, n);
    OutShape(su, f, low, n);
    hide In, Transfer, Charge, Preds;
    PreciseCostsLess(su, tu, In(su, f, low, n), In(tu, f, top, n), EventsOf(f, n));
  }

  lemma ActiveEither(su: Setup, tu: Setup, f: Function, st: States, n: nat)
    requires su.geo.numSets == tu.geo.numSets && Fits(su, st, f) && Fits(tu, st, f)
    ensures Active(su, f, st, n) <==> Active(tu, f, st, n)
  {
    forall path ensures IsActivePath(su, f, st, path) <==> IsActivePath(tu, f, st, path) {}
  }

  /** Where the more precise analysis ends is a bound the other cannot get past. */
  lemma PreciseIsCeiling(su: Setup, tu: Setup, f: Function, top: States, cost: seq<nat>)
    requires AtLeastAsPrecise(su, tu) && Solvable(su) && Solved(tu, f, top, cost)
    ensures IsCeiling(su, f, top)
  {
    SolvedFitsBoth(su, tu, f, top, cost);
    forall low: States, n: nat | Fits(su, low, f) && ShapedStates(su, low) && BelowStates(low, top) && n < |f| && Active(su, f, top, n)
      ensures BelowValue(Out(su, f, low, n), top[n])
    {
      ActiveEither(su, tu, f, top, n);
      assert Settled(tu, f, top, cost, n);
      hide Out, BlockCharge, Active, Solved;
      OutBelow(su, tu, f, low, top, n);
    }
  }

  lemma SolvedFitsBoth(su: Setup, tu: Setup, f: Function, top: States, cost: seq<nat>)
    requires AtLeastAsPrecise(su, tu) && Solved(tu, f, top, cost)
    ensures Fits(su, top, f) && Fits(tu, top, f) && |cost| == |f|
  {}

  /** For every function: each block the less precise analysis explores is explored by the more precise
      one too, and costs no more there. */
  lemma PreciseSolverCostsLess(su: Setup, tu: Setup, f: Function, st: States, cost: seq<nat>, top: States, less: seq<nat>, n: nat)
    requires AtLeastAsPrecise(su, tu)
    requires Solved(su, f, st, cost) && UnderCeilings(su, f, st) && Solved(tu, f, top, less)
    requires n < |f| && Active(su, f, st, n)
    ensures Active(tu, f, top, n) && less[n] <= cost[n]
  {
    PreciseIsCeiling(su, tu, f, top, less);
    SolvedFitsBoth(su, tu, f, top, less);
    ActiveGrows(su, f, st, top, n);
    ActiveEither(su, tu, f, top, n);
    assert Settled(su, f, st, cost, n) && Settled(tu, f, top, less, n);
    OutBelow(su, tu, f, st, top, n);
  }
}
