/** The rows keep the maximum finite: every feasible point stays below an explicit bound. */
module FiniteWcet {
  import opened ReplacementPolicy
  import opened AbstractStateGraph
  import opened WcetModel
  import opened Runs
  import opened IpetSoundness
  import opened HighsModel

  /** The graph has no other edges than the program's, all kept sites with a landing are carried over,
      exits have no successors, and flagged back edges lead into bounded headers but never from a call
      to its landing. Returns to calls the graph dropped are allowed. */
  ghost predicate Tight(g: Asg, p: Program) {
    && Embeds(g, p) && SitesMatch(g, p)
    && (forall u: nat, v: nat :: g.HasEdge(u, v) ==> (u, v) in p.intra || IsCallEdge(p, u, v) || IsReturnEdge(p, u, v))
    && (forall i: nat :: i < |p.sites| && p.sites[i].hasLanding && p.sites[i].call in g.nodes ==> exists k :: 0 <= k < |g.callSites| && SiteIs(p, g.callSites[k], i))
    && (forall u: nat, v: nat :: g.HasEdge(u, v) ==> !g.nodes[u].isExit)
    && (forall u: nat, v: nat :: g.IsBackEdge(u, v) ==> IsBoundedHeader(g, v))
    && (forall i: nat :: i < |p.sites| && p.sites[i].hasLanding ==> !g.IsBackEdge(p.sites[i].call, p.sites[i].landing))
  }

  ghost predicate IsCallEdge(p: Program, u: nat, v: nat) {
    exists i: nat :: CallsAlong(p, i, u, v)
  }

  ghost predicate CallsAlong(p: Program, i: nat, u: nat, v: nat) {
    i < |p.sites| && p.sites[i].callee in p.entryOf && (u, v) == p.CallEdge(i)
  }

  ghost predicate IsReturnEdge(p: Program, u: nat, v: nat) {
    exists i: nat :: ReturnsAlong(p, i, u, v)
  }

  ghost predicate ReturnsAlong(p: Program, i: nat, u: nat, v: nat) {
    i < |p.sites| && p.sites[i].hasLanding && p.sites[i].landing == v
    && p.sites[i].callee in p.returnsOf && u in p.returnsOf[p.sites[i].callee]
  }

  /** A return to a call that the graph kept. */
  ghost predicate AnswersKept(g: Asg, p: Program, i: nat, u: nat, v: nat) {
    ReturnsAlong(p, i, u, v) && p.sites[i].call in g.nodes
  }

  /** A return edge that answers only calls the graph dropped, so no row restrains it. */
  ghost predicate IsStray(g: Asg, p: Program, u: nat, v: nat) {
    IsReturnEdge(p, u, v) && forall i: nat :: !AnswersKept(g, p, i, u, v)
  }

  /** Unflagged branches and calls strictly increase the rank. Returns to kept calls need not. */
  ghost predicate Ranked(g: Asg, p: Program, rank: nat -> nat) {
    forall u: nat, v: nat :: g.HasEdge(u, v) && ((u, v) in p.intra || IsCallEdge(p, u, v)) && !g.IsBackEdge(u, v) ==> rank(u) < rank(v)
  }

  /** An unflagged return to dropped calls strictly increases the rank too, or carries at most one unit. */
  ghost predicate Trickles(g: Asg, p: Program, x: Point, rank: nat -> nat) {
    forall u: nat, v: nat :: g.HasEdge(u, v) && !g.IsBackEdge(u, v) && IsStray(g, p, u, v) ==>
      rank(u) < rank(v) || (rank(v) >= 1 && x(EdgeVar(u, v)) <= 1)
  }

  ghost predicate AlwaysTrickles(g: Asg, p: Program, rank: nat -> nat) {
    forall x: Point :: Feasible(g, x) ==> Trickles(g, p, x, rank)
  }

  /** `k` is at least the header bound times the number of predecessors, at every node. */
  ghost predicate Branching(g: Asg, k: nat) {
    k >= 1 && forall v :: v in g.nodes ==> (if IsBoundedHeader(g, v) then g.nodes[v].upperLoopBound else 1) * |PredList(g, v)| <= k
  }

  function Power(k: nat, n: nat): nat { if n == 0 then 1 else k * Power(k, n - 1) }

  // ---------------------------------------------------------------- sums

  lemma {:induction false} OutSumBounds(g: Asg, x: Point, list: seq<nat>, u: nat, v: nat)
    requires NonNegative(g, x) && v in list && forall w :: w in list ==> g.HasEdge(u, w)
    ensures 0 <= x(EdgeVar(u, v)) <= OutSum(x, list, u)
  {
    var front, q := list[..|list| - 1], list[|list| - 1];
    assert list == front + [q];
    assert g.HasEdge(u, q);
    OutSumNonNegative(g, x, front, u);
    if v in front { OutSumBounds(g, x, front, u, v); }
  }

  lemma {:induction false} OutSumNonNegative(g: Asg, x: Point, list: seq<nat>, u: nat)
    requires NonNegative(g, x) && forall w :: w in list ==> g.HasEdge(u, w)
    ensures OutSum(x, list, u) >= 0
  {
    if list != [] {
      var front, q := list[..|list| - 1], list[|list| - 1];
      assert list == front + [q] && g.HasEdge(u, q);
      OutSumNonNegative(g, x, front, u);
    }
  }

  lemma {:induction false} InSumBounds(g: Asg, x: Point, list: seq<nat>, u: nat, v: nat)
    requires NonNegative(g, x) && u in list && forall w :: w in list ==> g.HasEdge(w, v)
    ensures 0 <= x(EdgeVar(u, v)) <= InSum(x, list, v)
  {
    var front, q := list[..|list| - 1], list[|list| - 1];
    assert list == front + [q];
    assert g.HasEdge(q, v);
    InSumNonNegative(g, x, front, v);
    if u in front { InSumBounds(g, x, front, u, v); }
  }

  lemma {:induction false} InSumNonNegative(g: Asg, x: Point, list: seq<nat>, v: nat)
    requires NonNegative(g, x) && forall w :: w in list ==> g.HasEdge(w, v)
    ensures InSum(x, list, v) >= 0
  {
    if list != [] {
      var front, q := list[..|list| - 1], list[|list| - 1];
      assert list == front + [q] && g.HasEdge(q, v);
      InSumNonNegative(g, x, front, v);
    }
  }

  /** The inflow that does not come over flagged back edges. */
  ghost function ForwardSum(g: Asg, x: Point, preds: seq<nat>, v: nat): int { InSum(x, preds, v) - BackSum(g, x, preds, v) }

  lemma {:induction false} ForwardSumBound(g: Asg, x: Point, preds: seq<nat>, v: nat, cap: nat)
    requires forall u :: u in preds && !g.IsBackEdge(u, v) ==> x(EdgeVar(u, v)) <= cap
    ensures ForwardSum(g, x, preds, v) <= |preds| * cap
  {
    if preds != [] {
      var front, q := preds[..|preds| - 1], preds[|preds| - 1];
      assert preds == front + [q];
      ForwardSumBound(g, x, front, v, cap);
      OneMore(cap, |front|);
    }
  }

  lemma {:induction false} NoBackSum(g: Asg, x: Point, preds: seq<nat>, v: nat)
    requires forall u: nat :: !g.IsBackEdge(u, v)
    ensures BackSum(g, x, preds, v) == 0
  {
    if preds != [] { NoBackSum(g, x, preds[..|preds| - 1], v); }
  }

  // ---------------------------------------------------------------- one node

  /** Flow over an edge is at most the count of its source. */
  lemma EdgeBelowSource(g: Asg, x: Point, u: nat, v: nat)
    requires g.Valid() && Feasible(g, x) && g.HasEdge(u, v) && !g.nodes[u].isExit
    ensures 0 <= x(EdgeVar(u, v)) <= x(NodeVar(u))
  {
    AscendingDistinct(g.Successors(u).Keys);
    assert NodeRowsHold(g, x, u);
    OutSumBounds(g, x, SuccList(g, u), u, v);
  }

  /** By the matching row, flow over a return edge is at most the count of the call block. */
  lemma ReturnBelowCall(g: Asg, p: Program, x: Point, i: nat, r: nat, v: nat)
    requires Tight(g, p) && Feasible(g, x) && AnswersKept(g, p, i, r, v) && g.HasEdge(r, v)
    ensures 0 <= x(EdgeVar(r, v)) <= x(EdgeVar(p.sites[i].call, p.entryOf[p.sites[i].callee])) <= x(NodeVar(p.sites[i].call))
  {
    var k :| 0 <= k < |g.callSites| && SiteIs(p, g.callSites[k], i);
    var cs := g.callSites[k];
    assert g.HasEdge(r, v);
    assert r in KeptReturns(g, p, cs.callee);
    var list := MatchedReturns(g, p, cs, i);
    assert MatchingHolds(g, x, cs);
    ReturnEdgesExact(g, ReturnsOf(g, cs.callee), v);
    InSumBounds(g, x, list, r, v);
    EdgeBelowSource(g, x, p.sites[i].call, p.entryOf[p.sites[i].callee]);
  }

  /** A node runs at most its bound times as often as it is entered over unflagged edges. */
  lemma NodeBelowForward(g: Asg, x: Point, v: nat)
    requires g.Valid() && Feasible(g, x) && v in g.nodes && !g.nodes[v].isEntry
    requires forall u: nat :: g.IsBackEdge(u, v) ==> IsBoundedHeader(g, v)
    ensures x(NodeVar(v)) <= (if IsBoundedHeader(g, v) then g.nodes[v].upperLoopBound else 1) * ForwardSum(g, x, PredList(g, v), v)
  {
    assert NodeRowsHold(g, x, v);
    var w, f := ForwardSum(g, x, PredList(g, v), v), BackSum(g, x, PredList(g, v), v);
    if IsBoundedHeader(g, v) {
      HeaderArithmetic(g.nodes[v].upperLoopBound, w, f, x(NodeVar(v)));
    } else {
      NoBackSum(g, x, PredList(g, v), v);
    }
  }

  lemma HeaderArithmetic(b: int, w: int, f: int, n: int)
    requires b >= 1 && n == w + f && (b - 1) * n - b * f >= 0
    ensures n <= b * w
  {
    assert (b - 1) * n - b * f == b * w - n by {
      assert b * n == b * w + b * f;
    }
  }

  lemma {:induction false} PowerMonotone(k: nat, m: nat, n: nat)
    requires k >= 1 && m <= n
    ensures 1 <= Power(k, m) <= Power(k, n)
  {
    if n > 0 {
      if m == n { PowerMonotone(k, m - 1, n - 1); } else { PowerMonotone(k, m, n - 1); }
      MulAtLeast(k, Power(k, n - 1));
    }
  }

  lemma MulAtLeast(k: nat, n: nat)
    requires k >= 1
    ensures k * n >= n
  {}

  lemma MulMonotone(a: nat, b: nat, c: nat, d: nat)
    requires a <= c && b <= d
    ensures a * b <= c * d
  {
    assert a * b <= c * b && c * b <= c * d;
  }

  // ---------------------------------------------------------------- the theorem

  lemma TightEdge(g: Asg, p: Program, u: nat, v: nat)
    requires Tight(g, p) && g.HasEdge(u, v)
    ensures g.Valid() && u in g.nodes && v in g.nodes && !g.nodes[u].isExit
  {
    hide SitesMatch, IsCallEdge, IsReturnEdge;
  }

  lemma RankRises(g: Asg, p: Program, rank: nat -> nat, u: nat, v: nat)
    requires Ranked(g, p, rank) && g.HasEdge(u, v) && !g.IsBackEdge(u, v) && ((u, v) in p.intra || IsCallEdge(p, u, v))
    ensures rank(u) < rank(v)
  {}

  /** An unflagged branch or call carries at most what its lower-ranked source allows. */
  lemma ForwardBelow(g: Asg, p: Program, x: Point, rank: nat -> nat, k: nat, u: nat, v: nat)
    requires Tight(g, p) && Ranked(g, p, rank) && k >= 1 && Feasible(g, x) && g.HasEdge(u, v) && !g.IsBackEdge(u, v)
    requires (u, v) in p.intra || IsCallEdge(p, u, v)
    requires forall w :: w in g.nodes && rank(w) < rank(v) ==> x(NodeVar(w)) <= Power(k, rank(w))
    ensures rank(v) >= 1 && x(EdgeVar(u, v)) <= Power(k, rank(v) - 1)
  {
    hide *;
    TightEdge(g, p, u, v);
    RankRises(g, p, rank, u, v);
    EdgeBelowSource(g, x, u, v);
    PowerMonotone(k, rank(u), rank(v) - 1);
  }

  /** The call block a return goes back to is linked to the landing by a branch, so it ranks lower. */
  lemma CallRanksBelow(g: Asg, p: Program, rank: nat -> nat, i: nat, r: nat, v: nat)
    requires Tight(g, p) && Ranked(g, p, rank) && AnswersKept(g, p, i, r, v)
    ensures i < |p.sites| && p.sites[i].callee in p.entryOf && p.sites[i].call in g.nodes && rank(p.sites[i].call) < rank(v)
  {
    assert (p.sites[i].call, v) in p.intra && g.HasEdge(p.sites[i].call, v) && !g.IsBackEdge(p.sites[i].call, v);
  }

  /** An unflagged return carries at most what its lower-ranked call block allows. */
  lemma ReturnBelow(g: Asg, p: Program, x: Point, rank: nat -> nat, k: nat, i: nat, r: nat, v: nat)
    requires Tight(g, p) && Ranked(g, p, rank) && k >= 1 && Feasible(g, x) && AnswersKept(g, p, i, r, v) && g.HasEdge(r, v)
    requires forall w :: w in g.nodes && rank(w) < rank(v) ==> x(NodeVar(w)) <= Power(k, rank(w))
    ensures rank(v) >= 1 && x(EdgeVar(r, v)) <= Power(k, rank(v) - 1)
  {
    hide *;
    CallRanksBelow(g, p, rank, i, r, v);
    ReturnBelowCall(g, p, x, i, r, v);
    PowerMonotone(k, rank(p.sites[i].call), rank(v) - 1);
  }

  lemma StrayTrickles(g: Asg, p: Program, x: Point, rank: nat -> nat, u: nat, v: nat)
    requires Trickles(g, p, x, rank) && g.HasEdge(u, v) && !g.IsBackEdge(u, v) && IsStray(g, p, u, v)
    ensures rank(u) < rank(v) || (rank(v) >= 1 && x(EdgeVar(u, v)) <= 1)
  {}

  /** A return to dropped calls either has a lower-ranked source or is nearly dry. */
  lemma StrayBelow(g: Asg, p: Program, x: Point, rank: nat -> nat, k: nat, u: nat, v: nat)
    requires Tight(g, p) && Trickles(g, p, x, rank) && k >= 1 && Feasible(g, x) && g.HasEdge(u, v) && !g.IsBackEdge(u, v) && IsStray(g, p, u, v)
    requires forall w :: w in g.nodes && rank(w) < rank(v) ==> x(NodeVar(w)) <= Power(k, rank(w))
    ensures rank(v) >= 1 && x(EdgeVar(u, v)) <= Power(k, rank(v) - 1)
  {
    hide *;
    TightEdge(g, p, u, v);
    StrayTrickles(g, p, x, rank, u, v);
    if rank(u) < rank(v) {
      EdgeBelowSource(g, x, u, v);
      PowerMonotone(k, rank(u), rank(v) - 1);
    } else {
      PowerMonotone(k, 0, rank(v) - 1);
    }
  }

  /** Every unflagged edge into `v` carries at most what some lower-ranked node allows. */
  lemma ForwardEdgeBelow(g: Asg, p: Program, x: Point, rank: nat -> nat, k: nat, u: nat, v: nat)
    requires Tight(g, p) && Ranked(g, p, rank) && Trickles(g, p, x, rank) && k >= 1 && Feasible(g, x) && g.HasEdge(u, v) && !g.IsBackEdge(u, v)
    requires forall w :: w in g.nodes && rank(w) < rank(v) ==> x(NodeVar(w)) <= Power(k, rank(w))
    ensures rank(v) >= 1 && x(EdgeVar(u, v)) <= Power(k, rank(v) - 1)
  {
    assert (u, v) in p.intra || IsCallEdge(p, u, v) || IsReturnEdge(p, u, v);
    hide Tight, Ranked, Trickles, Power, IsCallEdge, IsReturnEdge, AnswersKept;
    if (u, v) in p.intra || IsCallEdge(p, u, v) {
      ForwardBelow(g, p, x, rank, k, u, v);
    } else if i: nat :| AnswersKept(g, p, i, u, v) {
      ReturnBelow(g, p, x, rank, k, i, u, v);
    } else {
      StrayBelow(g, p, x, rank, k, u, v);
    }
  }

  /** Every node count of every feasible point is at most `k` to the power of the node's rank. */
  lemma {:induction false} CountsAreBounded(g: Asg, p: Program, x: Point, rank: nat -> nat, k: nat, v: nat)
    requires Tight(g, p) && Ranked(g, p, rank) && Trickles(g, p, x, rank) && Branching(g, k) && Feasible(g, x) && v in g.nodes
    ensures x(NodeVar(v)) <= Power(k, rank(v))
    decreases rank(v)
  {
    PowerMonotone(k, 0, rank(v));
    if g.nodes[v].isEntry {
      assert NodeRowsHold(g, x, v);
    } else {
      forall w | w in g.nodes && rank(w) < rank(v) ensures x(NodeVar(w)) <= Power(k, rank(w)) {
        CountsAreBounded(g, p, x, rank, k, w);
      }
      NodeStep(g, p, x, rank, k, v);
    }
  }

  lemma NodeStep(g: Asg, p: Program, x: Point, rank: nat -> nat, k: nat, v: nat)
    requires Tight(g, p) && Ranked(g, p, rank) && Trickles(g, p, x, rank) && Branching(g, k) && Feasible(g, x) && v in g.nodes && !g.nodes[v].isEntry
    requires forall w :: w in g.nodes && rank(w) < rank(v) ==> x(NodeVar(w)) <= Power(k, rank(w))
    ensures x(NodeVar(v)) <= Power(k, rank(v))
  {
    var preds := PredList(g, v);
    var b: nat := if IsBoundedHeader(g, v) then g.nodes[v].upperLoopBound else 1;
    AscendingDistinct(g.Predecessors(v));
    var cap: nat := if rank(v) == 0 then 0 else Power(k, rank(v) - 1);
    forall u | u in preds && !g.IsBackEdge(u, v) ensures x(EdgeVar(u, v)) <= cap {
      ForwardEdgeBelow(g, p, x, rank, k, u, v);
    }
    ForwardSumBound(g, x, preds, v, cap);
    NodeBelowForward(g, x, v);
    PowerMonotone(k, 0, rank(v));
    CapArithmetic(b, ForwardSum(g, x, preds, v), |preds|, cap, k);
  }

  lemma CapArithmetic(b: nat, w: int, n: nat, cap: nat, k: nat)
    requires w <= n * cap && b * n <= k
    ensures b * w <= k * cap
  {
    assert b * w <= b * (n * cap);
    assert b * (n * cap) == (b * n) * cap;
    MulMonotone(b * n, cap, k, cap);
  }

  ghost function CapSum(g: Asg, rank: nat -> nat, k: nat, order: seq<nat>): int {
    if order == [] then 0
    else
      var u := order[|order| - 1];
      CapSum(g, rank, k, order[..|order| - 1]) + (if u in g.nodes then g.nodes[u].cost * Power(k, rank(u)) else 0)
  }

  lemma {:induction false} CostSumBounded(g: Asg, p: Program, x: Point, rank: nat -> nat, k: nat, order: seq<nat>)
    requires Tight(g, p) && Ranked(g, p, rank) && Trickles(g, p, x, rank) && Branching(g, k) && Feasible(g, x)
    ensures CostSum(g, x, order) <= CapSum(g, rank, k, order)
  {
    if order != [] {
      var u := order[|order| - 1];
      CostSumBounded(g, p, x, rank, k, order[..|order| - 1]);
      if u in g.nodes {
        CountsAreBounded(g, p, x, rank, k, u);
        ScaleBound(g.nodes[u].cost, x(NodeVar(u)), Power(k, rank(u)));
      }
    }
  }

  lemma ScaleBound(c: nat, a: int, b: int)
    requires a <= b
    ensures c * a <= c * b
  {}

  /** The maximum exists: no feasible point costs more than an explicit number. */
  lemma WcetIsFinite(g: Asg, p: Program, rank: nat -> nat, k: nat)
    requires Tight(g, p) && Ranked(g, p, rank) && AlwaysTrickles(g, p, rank) && Branching(g, k)
    ensures forall x: Point :: Feasible(g, x) ==> Objective(g, x) <= CapSum(g, rank, k, Ascending(g.nodes.Keys))
  {
    forall x: Point | Feasible(g, x) ensures Objective(g, x) <= CapSum(g, rank, k, Ascending(g.nodes.Keys)) {
      CostSumBounded(g, p, x, rank, k, Ascending(g.nodes.Keys));
    }
  }

  lemma {:induction false} SomeValuesAreOptimal(m: Model, y: Values, cap: int)
    requires Admissible(m, y) && forall z: Values :: Admissible(m, z) ==> ColumnCost(m.colCost, z) <= cap
    ensures exists best: Values :: IsOptimal(m, best)
    decreases cap - ColumnCost(m.colCost, y)
  {
    if !IsOptimal(m, y) {
      var z: Values :| Admissible(m, z) && ColumnCost(m.colCost, z) > ColumnCost(m.colCost, y);
      SomeValuesAreOptimal(m, z, cap);
    }
  }

  /** A cap on the objective and one feasible point are enough for an optimum. */
  lemma CappedHasOptimum(g: Asg, x: Point, m: Model, cols: Columns, cap: int)
    requires g.Valid() && Encodes(m, cols, g) && Feasible(g, x) && forall z: Point :: Feasible(g, z) ==> Objective(g, z) <= cap
    ensures exists best: Values :: IsOptimal(m, best)
  {
    assert Realisable(g, cols, x);
    var y: Values :| SameCounts(g, x, PointOf(cols, y));
    FeasibleAgree(g, x, PointOf(cols, y));
    assert forall z: Values :: Admissible(m, z) ==> ColumnCost(m.colCost, z) == Objective(g, PointOf(cols, z));
    SomeValuesAreOptimal(m, y, cap);
  }

  /** The solver is never left without an answer: if any run completes, the model is neither
      infeasible nor unbounded, so an optimum exists. */
  lemma OptimumExists(g: Asg, p: Program, b: Bounds, steps: seq<Step>, rank: nat -> nat, k: nat, m: Model, cols: Columns)
    requires Tight(g, p) && Ranked(g, p, rank) && AlwaysTrickles(g, p, rank) && Branching(g, k) && BoundsMatch(g, b) && DistinctLandings(p)
    requires IsComplete(g, p, b, steps) && |Final(p, b, steps).stack| == 1
    requires Encodes(m, cols, g)
    ensures exists best: Values :: IsOptimal(m, best)
  {
    RunIsFeasible(g, p, b, steps);
    WcetIsFinite(g, p, rank, k);
    TightValid(g, p);
    CappedHasOptimum(g, Counts(p, b, steps), m, cols, CapSum(g, rank, k, Ascending(g.nodes.Keys)));
  }

  lemma TightValid(g: Asg, p: Program)
    requires Tight(g, p)
    ensures p.Valid() && g.Valid() && Embeds(g, p)
  {}
}
