/** Exactly when the maximum exists: no circulation of the rows carries cost. */
module Circulations {
  import opened ReplacementPolicy
  import opened AbstractStateGraph
  import opened WcetModel
  import opened Runs
  import opened IpetSoundness
  import opened HighsModel
  import opened FiniteWcet
  import opened Walks

  /** Flow that satisfies every row without starting anywhere. */
  ghost predicate IsCirculation(g: Asg, d: Point) {
    && NonNegative(g, d)
    && (forall u :: u in g.nodes ==> CirculatesAt(g, d, u))
    && (forall i :: 0 <= i < |g.callSites| ==> MatchingHolds(g, d, g.callSites[i]))
  }

  ghost predicate CirculatesAt(g: Asg, d: Point, u: nat)
    requires u in g.nodes
  {
    && (!g.nodes[u].isEntry ==> InflowHolds(g, d, u))
    && (!g.nodes[u].isExit ==> OutflowHolds(g, d, u))
    && (g.nodes[u].isEntry ==> d(NodeVar(u)) == 0)
    && (IsBoundedHeader(g, u) ==> LoopBoundHolds(g, d, u))
  }

  // ---------------------------------------------------------------- linearity

  /** `x` plus `t` times `d`. */
  function Plus(x: Point, t: int, d: Point): Point { (v: Var) => x(v) + t * d(v) }

  lemma Distribute(a: int, t: int, b: int, c: int)
    ensures (a + t * b) * c == a * c + t * (b * c)
    ensures a + t * b + t * c == a + t * (b + c)
  {
    assert (t * b) * c == t * (b * c);
  }

  lemma {:induction false} InSumPlus(x: Point, t: int, d: Point, list: seq<nat>, u: nat)
    ensures InSum(Plus(x, t, d), list, u) == InSum(x, list, u) + t * InSum(d, list, u)
  {
    if list != [] {
      InSumPlus(x, t, d, list[..|list| - 1], u);
      Distribute(0, t, InSum(d, list[..|list| - 1], u), d(EdgeVar(list[|list| - 1], u)));
    }
  }

  lemma {:induction false} OutSumPlus(x: Point, t: int, d: Point, list: seq<nat>, u: nat)
    ensures OutSum(Plus(x, t, d), list, u) == OutSum(x, list, u) + t * OutSum(d, list, u)
  {
    if list != [] {
      OutSumPlus(x, t, d, list[..|list| - 1], u);
      Distribute(0, t, OutSum(d, list[..|list| - 1], u), d(EdgeVar(u, list[|list| - 1])));
    }
  }

  lemma {:induction false} BackSumPlus(g: Asg, x: Point, t: int, d: Point, list: seq<nat>, u: nat)
    ensures BackSum(g, Plus(x, t, d), list, u) == BackSum(g, x, list, u) + t * BackSum(g, d, list, u)
  {
    if list != [] {
      BackSumPlus(g, x, t, d, list[..|list| - 1], u);
      Distribute(0, t, BackSum(g, d, list[..|list| - 1], u), d(EdgeVar(list[|list| - 1], u)));
    }
  }

  lemma {:induction false} CostSumPlus(g: Asg, x: Point, t: int, d: Point, order: seq<nat>)
    ensures CostSum(g, Plus(x, t, d), order) == CostSum(g, x, order) + t * CostSum(g, d, order)
  {
    if order != [] {
      var u := order[|order| - 1];
      CostSumPlus(g, x, t, d, order[..|order| - 1]);
      if u in g.nodes {
        var c := g.nodes[u].cost;
        Distribute(x(NodeVar(u)), t, d(NodeVar(u)), c);
        Distribute(0, t, CostSum(g, d, order[..|order| - 1]), c * d(NodeVar(u)));
      }
    }
  }

  /** What the loop row of `u` leaves unused. */
  function Slack(g: Asg, x: Point, u: nat): int
    requires u in g.nodes
  {
    var b := g.nodes[u].upperLoopBound;
    (b - 1) * x(NodeVar(u)) - b * BackSum(g, x, PredList(g, u), u)
  }

  lemma SlackPlus(g: Asg, x: Point, t: int, d: Point, u: nat)
    requires u in g.nodes
    ensures Slack(g, Plus(x, t, d), u) == Slack(g, x, u) + t * Slack(g, d, u)
  {
    var b, preds := g.nodes[u].upperLoopBound, PredList(g, u);
    BackSumPlus(g, x, t, d, preds, u);
    hide *;
    SlackArithmetic(b, x(NodeVar(u)), d(NodeVar(u)), BackSum(g, x, preds, u), BackSum(g, d, preds, u), t);
  }

  lemma SlackArithmetic(b: int, n: int, m: int, f: int, h: int, t: int)
    ensures (b - 1) * (n + t * m) - b * (f + t * h) == ((b - 1) * n - b * f) + t * ((b - 1) * m - b * h)
  {
    Distribute(n, t, m, b - 1);
    Distribute(f, t, h, b);
    assert t * ((b - 1) * m - b * h) == t * (m * (b - 1)) - t * (h * b);
  }

  lemma RowsPlus(g: Asg, x: Point, t: int, d: Point, u: nat)
    ensures InSum(Plus(x, t, d), PredList(g, u), u) == InSum(x, PredList(g, u), u) + t * InSum(d, PredList(g, u), u)
    ensures OutSum(Plus(x, t, d), SuccList(g, u), u) == OutSum(x, SuccList(g, u), u) + t * OutSum(d, SuccList(g, u), u)
    ensures u in g.nodes ==> Slack(g, Plus(x, t, d), u) == Slack(g, x, u) + t * Slack(g, d, u)
  {
    InSumPlus(x, t, d, PredList(g, u), u);
    OutSumPlus(x, t, d, SuccList(g, u), u);
    if u in g.nodes { SlackPlus(g, x, t, d, u); }
  }

  lemma MatchingPlus(g: Asg, x: Point, t: int, d: Point, cs: CallSite)
    requires MatchingHolds(g, x, cs) && (t == 0 || MatchingHolds(g, d, cs))
    ensures MatchingHolds(g, Plus(x, t, d), cs)
  {
    InSumPlus(x, t, d, ReturnEdges(g, ReturnsOf(g, cs.callee), cs.returnNode), cs.returnNode);
  }

  /** A circulation can be added to any feasible point as often as one likes. */
  lemma AddCirculation(g: Asg, x: Point, t: nat, d: Point)
    requires Feasible(g, x) && IsCirculation(g, d)
    ensures Feasible(g, Plus(x, t, d)) && Objective(g, Plus(x, t, d)) == Objective(g, x) + t * Objective(g, d)
  {
    forall u | u in g.nodes ensures NodeRowsHold(g, Plus(x, t, d), u) {
      assert NodeRowsHold(g, x, u) && CirculatesAt(g, d, u);
      AddAtNode(g, x, t, d, u);
    }
    forall i | 0 <= i < |g.callSites| ensures MatchingHolds(g, Plus(x, t, d), g.callSites[i]) {
      MatchingPlus(g, x, t, d, g.callSites[i]);
    }
    CostSumPlus(g, x, t, d, Ascending(g.nodes.Keys));
  }

  lemma AddAtNode(g: Asg, x: Point, t: nat, d: Point, u: nat)
    requires u in g.nodes && NodeRowsHold(g, x, u) && CirculatesAt(g, d, u)
    ensures NodeRowsHold(g, Plus(x, t, d), u)
  {
    hide InSum, OutSum, BackSum, PredList, SuccList;
    RowsPlus(g, x, t, d, u);
    assert g.nodes[u].isEntry ==> t * d(NodeVar(u)) == 0;
    assert IsBoundedHeader(g, u) ==> Slack(g, x, u) >= 0 && Slack(g, d, u) >= 0;
  }

  /** One point below another, in every count and in what every loop row leaves unused. */
  ghost predicate BelowPoint(g: Asg, x: Point, y: Point) {
    && (forall u :: u in g.nodes ==> x(NodeVar(u)) <= y(NodeVar(u)))
    && (forall u: nat, v: nat :: g.HasEdge(u, v) ==> x(EdgeVar(u, v)) <= y(EdgeVar(u, v)))
    && (forall u :: IsBoundedHeader(g, u) ==> Slack(g, x, u) <= Slack(g, y, u))
  }

  /** The difference of two such points circulates. */
  lemma DifferenceCirculates(g: Asg, x: Point, y: Point)
    requires Feasible(g, x) && Feasible(g, y) && BelowPoint(g, x, y)
    ensures IsCirculation(g, Plus(y, -1, x)) && Objective(g, Plus(y, -1, x)) == Objective(g, y) - Objective(g, x)
  {
    var d := Plus(y, -1, x);
    forall u | u in g.nodes ensures CirculatesAt(g, d, u) {
      assert NodeRowsHold(g, x, u) && NodeRowsHold(g, y, u);
      hide InSum, OutSum, BackSum, PredList, SuccList;
      RowsPlus(g, y, -1, x, u);
    }
    forall i | 0 <= i < |g.callSites| ensures MatchingHolds(g, d, g.callSites[i]) {
      MatchingPlus(g, y, -1, x, g.callSites[i]);
    }
    CostSumPlus(g, y, -1, x, Ascending(g.nodes.Keys));
  }

  // ---------------------------------------------------------------- rising subsequences

  /** Some index from `from` on holds the least value from there on. */
  lemma {:induction false} LeastExists(s: nat -> nat, from: nat, i: nat)
    requires from <= i
    ensures exists k :: IsLeastFrom(s, from, k)
    decreases s(i)
  {
    if j: nat :| from <= j && s(j) < s(i) {
      LeastExists(s, from, j);
    } else {
      assert IsLeastFrom(s, from, i);
    }
  }

  ghost predicate IsLeastFrom(s: nat -> nat, from: nat, k: nat) { from <= k && forall j: nat :: from <= j ==> s(k) <= s(j) }

  ghost function LeastFrom(s: nat -> nat, from: nat): (k: nat)
    ensures IsLeastFrom(s, from, k)
  {
    LeastExists(s, from, from);
    var k: nat :| IsLeastFrom(s, from, k);
    k
  }

  /** Indices of ever later least values. */
  ghost function Climb(s: nat -> nat, n: nat): nat {
    if n == 0 then LeastFrom(s, 0) else LeastFrom(s, Climb(s, n - 1) + 1)
  }

  lemma {:induction false} ClimbRises(s: nat -> nat, m: nat, n: nat)
    requires m <= n
    ensures n <= Climb(s, n) && Climb(s, m) + (n - m) <= Climb(s, n) && s(Climb(s, m)) <= s(Climb(s, n))
    decreases n
  {
    if m < n {
      ClimbRises(s, m, n - 1);
      var from := if m == 0 then 0 else Climb(s, m - 1) + 1;
      assert IsLeastFrom(s, from, Climb(s, m));
    } else if n > 0 {
      ClimbRises(s, n - 1, n - 1);
    }
  }

  // ---------------------------------------------------------------- among endless points two are comparable

  datatype Measure = CountOf(v: Var) | SlackOf(u: nat)

  ghost function Measured(g: Asg, c: Measure, x: Point): int {
    match c
    case CountOf(v) => x(v)
    case SlackOf(u) => if u in g.nodes then Slack(g, x, u) else 0
  }

  /** The counts and slacks of the graph. */
  ghost function Measures(g: Asg): set<Measure> {
    (set u | u in g.nodes :: CountOf(NodeVar(u)))
    + (set u, v | u in g.succs && v in g.succs[u] :: CountOf(EdgeVar(u, v)))
    + (set u | u in g.nodes && IsBoundedHeader(g, u) :: SlackOf(u))
  }

  lemma MeasuresNonNegative(g: Asg, x: Point, c: Measure)
    requires Feasible(g, x) && c in Measures(g)
    ensures Measured(g, c, x) >= 0
  {
    match c {
      case CountOf(NodeVar(u)) =>
      case CountOf(EdgeVar(u, v)) => assert g.HasEdge(u, v);
      case SlackOf(u) => assert NodeRowsHold(g, x, u);
    }
  }

  ghost predicate Increasing(f: nat -> nat) { forall i: nat, j: nat :: i < j ==> f(i) < f(j) }

  ghost predicate RisesAlong(g: Asg, xs: nat -> Point, f: nat -> nat, c: Measure) {
    forall i: nat, j: nat :: i <= j ==> Measured(g, c, xs(f(i))) <= Measured(g, c, xs(f(j)))
  }

  /** A subsequence of endless feasible points along which each of finitely many measures rises. */
  lemma {:induction false} RisingSubsequence(g: Asg, xs: nat -> Point, cs: set<Measure>) returns (f: nat -> nat)
    requires (forall n: nat :: Feasible(g, xs(n))) && cs <= Measures(g)
    ensures Increasing(f) && forall c :: c in cs ==> RisesAlong(g, xs, f, c)
    decreases |cs|
  {
    if cs == {} {
      f := n => n;
    } else {
      hide Feasible, Measures, Measured;
      var c :| c in cs;
      var e := RisingSubsequence(g, xs, cs - {c});
      forall n: nat ensures Measured(g, c, xs(n)) >= 0 { MeasuresNonNegative(g, xs(n), c); }
      f := RiseOneMore(g, xs, e, cs - {c}, c);
    }
  }

  lemma RiseOneMore(g: Asg, xs: nat -> Point, e: nat -> nat, cs: set<Measure>, c: Measure) returns (f: nat -> nat)
    requires Increasing(e) && (forall b :: b in cs ==> RisesAlong(g, xs, e, b)) && forall n: nat :: Measured(g, c, xs(n)) >= 0
    ensures Increasing(f) && RisesAlong(g, xs, f, c) && forall b :: b in cs ==> RisesAlong(g, xs, f, b)
  {
    hide Measured, RisesAlong, Climb, Increasing;
    var s: nat -> nat := n => Clip(Measured(g, c, xs(e(n))));
    f := n => e(Climb(s, n));
    ClimbIncreases(e, s, f);
    forall b | b in cs ensures RisesAlong(g, xs, f, b) { KeepsRising(g, xs, e, s, f, b); }
    ClimbedRises(g, xs, e, s, f, c);
  }

  lemma ClimbIncreases(e: nat -> nat, s: nat -> nat, f: nat -> nat)
    requires Increasing(e) && forall n: nat :: f(n) == e(Climb(s, n))
    ensures Increasing(f)
  {
    forall i: nat, j: nat | i < j ensures f(i) < f(j) {
      ClimbRises(s, i, j);
    }
  }

  lemma KeepsRising(g: Asg, xs: nat -> Point, e: nat -> nat, s: nat -> nat, f: nat -> nat, b: Measure)
    requires RisesAlong(g, xs, e, b) && forall n: nat :: f(n) == e(Climb(s, n))
    ensures RisesAlong(g, xs, f, b)
  {
    hide Measured;
    forall i: nat, j: nat | i <= j ensures Measured(g, b, xs(f(i))) <= Measured(g, b, xs(f(j))) {
      ClimbRises(s, i, j);
    }
  }

  lemma ClimbedRises(g: Asg, xs: nat -> Point, e: nat -> nat, s: nat -> nat, f: nat -> nat, c: Measure)
    requires (forall n: nat :: s(n) == Clip(Measured(g, c, xs(e(n))))) && forall n: nat :: Measured(g, c, xs(n)) >= 0
    requires forall n: nat :: f(n) == e(Climb(s, n))
    ensures RisesAlong(g, xs, f, c)
  {
    hide Measured, Climb;
    forall i: nat, j: nat | i <= j ensures Measured(g, c, xs(f(i))) <= Measured(g, c, xs(f(j))) {
      ClimbRises(s, i, j);
    }
  }

  function Clip(n: int): nat { if n >= 0 then n else 0 }

  lemma {:induction false} AtLeastIndex(f: nat -> nat, n: nat)
    requires Increasing(f)
    ensures n <= f(n)
  {
    if n > 0 { AtLeastIndex(f, n - 1); }
  }

  lemma RisingIsBelow(g: Asg, x: Point, y: Point)
    requires g.Valid() && forall c :: c in Measures(g) ==> Measured(g, c, x) <= Measured(g, c, y)
    ensures BelowPoint(g, x, y)
  {
    forall u | u in g.nodes ensures x(NodeVar(u)) <= y(NodeVar(u)) { assert CountOf(NodeVar(u)) in Measures(g); }
    forall u: nat, v: nat | g.HasEdge(u, v) ensures x(EdgeVar(u, v)) <= y(EdgeVar(u, v)) {
      assert u in g.succs && v in g.succs[u];
      assert CountOf(EdgeVar(u, v)) in Measures(g);
    }
    forall u | IsBoundedHeader(g, u) ensures Slack(g, x, u) <= Slack(g, y, u) { assert SlackOf(u) in Measures(g); }
  }

  /** Of feasible points with ever higher objective, two differ by a circulation that carries cost. */
  lemma UnboundedCirculates(g: Asg, xs: nat -> Point) returns (d: Point)
    requires g.Valid() && forall n: nat :: Feasible(g, xs(n)) && Objective(g, xs(n)) >= n
    ensures IsCirculation(g, d) && Objective(g, d) > 0
  {
    hide Feasible, Measured, Measures, Objective, BelowPoint, IsCirculation;
    var f := RisingSubsequence(g, xs, Measures(g));
    var a, high := xs(f(0)), Clip(Objective(g, xs(f(0)))) + 1;
    AtLeastIndex(f, high);
    var b := xs(f(high));
    assert Objective(g, xs(f(high))) >= f(high);
    forall c | c in Measures(g) ensures Measured(g, c, a) <= Measured(g, c, b) { assert RisesAlong(g, xs, f, c); }
    RisingIsBelow(g, a, b);
    DifferenceCirculates(g, a, b);
    d := Plus(b, -1, a);
  }

  // ---------------------------------------------------------------- the theorem

  ghost predicate CirculationsAreFree(g: Asg) { forall d: Point :: IsCirculation(g, d) ==> Objective(g, d) <= 0 }

  ghost predicate AtMost(g: Asg, cap: int) { forall x: Point :: Feasible(g, x) ==> Objective(g, x) <= cap }

  ghost function PointAbove(g: Asg, n: nat): Point {
    if x: Point :| Feasible(g, x) && Objective(g, x) >= n then x else (v: Var) => 0
  }

  /** The objective is bounded exactly when no circulation carries cost. */
  lemma BoundedIff(g: Asg, x: Point)
    requires g.Valid() && Feasible(g, x)
    ensures (exists cap :: AtMost(g, cap)) <==> CirculationsAreFree(g)
  {
    hide Feasible, Objective, IsCirculation;
    if cap :| AtMost(g, cap) {
      forall d: Point | IsCirculation(g, d) ensures Objective(g, d) <= 0 {
        if Objective(g, d) > 0 { Overflows(g, x, d, cap); }
      }
    }
    if CirculationsAreFree(g) && !exists cap :: AtMost(g, cap) {
      var xs: nat -> Point := n => PointAbove(g, n);
      forall n: nat ensures Feasible(g, xs(n)) && Objective(g, xs(n)) >= n { assert !AtMost(g, n); }
      var d := UnboundedCirculates(g, xs);
    }
  }

  lemma Overflows(g: Asg, x: Point, d: Point, cap: int)
    requires Feasible(g, x) && IsCirculation(g, d) && Objective(g, d) > 0
    ensures !AtMost(g, cap)
  {
    var t := Clip(cap - Objective(g, x)) + 1;
    AddCirculation(g, x, t, d);
    assert t * Objective(g, d) >= t;
    assert Objective(g, Plus(x, t, d)) > cap;
  }

  /** When some counts satisfy the rows, the solver has an optimum exactly when no circulation of the
      rows carries cost. */
  lemma OptimumExistsIff(g: Asg, x: Point, m: Model, cols: Columns)
    requires g.Valid() && Feasible(g, x) && Encodes(m, cols, g)
    ensures (exists best: Values :: IsOptimal(m, best)) <==> CirculationsAreFree(g)
  {
    hide Feasible, Objective, CirculationsAreFree;
    BoundedIff(g, x);
    if best: Values :| IsOptimal(m, best) {
      OptimumCaps(g, m, cols, best);
    }
    if cap :| AtMost(g, cap) { CappedHasOptimum(g, x, m, cols, cap); }
  }

  lemma OptimumCaps(g: Asg, m: Model, cols: Columns, best: Values)
    requires g.Valid() && Encodes(m, cols, g) && IsOptimal(m, best)
    ensures AtMost(g, ColumnCost(m.colCost, best))
  {
    forall x: Point | Feasible(g, x) ensures Objective(g, x) <= ColumnCost(m.colCost, best) {
      OptimumIsMaximum(g, m, cols, best, x);
    }
  }
}
