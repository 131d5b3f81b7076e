/** Closed walks that satisfy the rows make the maximum infinite. A cycle of edges in no row does so
    whatever its functions are, dead code included. */
module FreeCycles {
  import opened ReplacementPolicy
  import opened AbstractStateGraph
  import opened WcetModel
  import opened Runs
  import opened IpetSoundness
  import opened FiniteWcet
  import opened Walks
  import opened Leaks
  import opened BoundedCycles
  import opened Circulations

  // ---------------------------------------------------------------- the counts of a walk

  ghost function Visits(c: seq<nat>, u: nat): nat {
    if |c| <= 1 then 0 else Visits(c[..|c| - 1], u) + One(c[|c| - 1] == u)
  }

  ghost function Uses(c: seq<nat>, u: nat, v: nat): nat {
    if |c| <= 1 then 0 else Uses(c[..|c| - 1], u, v) + One(c[|c| - 2] == u && c[|c| - 1] == v)
  }

  /** How often each node is entered and each edge is taken along a walk. */
  ghost function PointOfWalk(c: seq<nat>): Point {
    (x: Var) => match x
      case NodeVar(u) => Visits(c, u)
      case EdgeVar(u, v) => Uses(c, u, v)
  }

  ghost predicate IsWalkIn(g: Asg, c: seq<nat>) { c != [] && forall i :: 0 <= i < |c| - 1 ==> g.HasEdge(c[i], c[i + 1]) }

  lemma LastIsEdge(g: Asg, c: seq<nat>)
    requires IsWalkIn(g, c) && |c| > 1
    ensures IsWalkIn(g, c[..|c| - 1]) && g.HasEdge(c[|c| - 2], c[|c| - 1])
  {
    var i := |c| - 2;
    assert g.HasEdge(c[i], c[i + 1]);
  }

  lemma {:induction false} InSumOneMore(c: seq<nat>, list: seq<nat>, u: nat)
    requires DistinctSeq(list) && |c| > 1
    ensures InSum(PointOfWalk(c), list, u) ==
            InSum(PointOfWalk(c[..|c| - 1]), list, u) + One(c[|c| - 1] == u && c[|c| - 2] in list)
  {
    if list != [] {
      var front, q := list[..|list| - 1], list[|list| - 1];
      assert list == front + [q] && q !in front;
      InSumOneMore(c, front, u);
    }
  }

  lemma {:induction false} OutSumOneMore(c: seq<nat>, list: seq<nat>, u: nat)
    requires DistinctSeq(list) && |c| > 1
    ensures OutSum(PointOfWalk(c), list, u) ==
            OutSum(PointOfWalk(c[..|c| - 1]), list, u) + One(c[|c| - 2] == u && c[|c| - 1] in list)
  {
    if list != [] {
      var front, q := list[..|list| - 1], list[|list| - 1];
      assert list == front + [q] && q !in front;
      OutSumOneMore(c, front, u);
    }
  }

  lemma {:induction false} NoStepSums(c: seq<nat>, list: seq<nat>, u: nat)
    requires |c| <= 1
    ensures InSum(PointOfWalk(c), list, u) == 0 && OutSum(PointOfWalk(c), list, u) == 0
  {
    if list != [] { NoStepSums(c, list[..|list| - 1], u); }
  }

  /** A walk enters a node over its incoming edges and leaves it over its outgoing ones. */
  lemma {:induction false} WalkConserves(g: Asg, c: seq<nat>, u: nat)
    requires g.Valid() && IsWalkIn(g, c)
    ensures InSum(PointOfWalk(c), PredList(g, u), u) == Visits(c, u)
    ensures OutSum(PointOfWalk(c), SuccList(g, u), u) + One(c[|c| - 1] == u) == Visits(c, u) + One(c[0] == u)
  {
    AscendingDistinct(g.Predecessors(u));
    AscendingDistinct(g.Successors(u).Keys);
    if |c| == 1 {
      NoStepSums(c, PredList(g, u), u);
      NoStepSums(c, SuccList(g, u), u);
    } else {
      LastIsEdge(g, c);
      WalkConserves(g, c[..|c| - 1], u);
      InSumOneMore(c, PredList(g, u), u);
      OutSumOneMore(c, SuccList(g, u), u);
    }
  }

  lemma {:induction false} EntersOnlyTargets(g: Asg, c: seq<nat>, u: nat)
    requires IsWalkIn(g, c) && forall q: nat :: !g.HasEdge(q, u)
    ensures Visits(c, u) == 0
  {
    if |c| > 1 {
      LastIsEdge(g, c);
      EntersOnlyTargets(g, c[..|c| - 1], u);
    }
  }

  /** A closed walk that meets the loop rows and the matching rows is a circulation. */
  lemma ClosedWalkCirculates(g: Asg, c: seq<nat>)
    requires g.Valid() && IsWalkIn(g, c) && c[0] == c[|c| - 1]
    requires forall u, v :: g.HasEdge(u, v) ==> !g.nodes[v].isEntry
    requires forall u :: IsBoundedHeader(g, u) ==> LoopBoundHolds(g, PointOfWalk(c), u)
    requires forall i :: 0 <= i < |g.callSites| ==> MatchingHolds(g, PointOfWalk(c), g.callSites[i])
    ensures IsCirculation(g, PointOfWalk(c))
  {
    hide LoopBoundHolds, MatchingHolds, PredList, SuccList, InSum, OutSum;
    forall u | u in g.nodes ensures CirculatesAt(g, PointOfWalk(c), u) {
      WalkConserves(g, c, u);
      if g.nodes[u].isEntry { EntersOnlyTargets(g, c, u); }
    }
  }

  lemma {:induction false} VisitsAtLeast(c: seq<nat>, i: nat)
    requires 0 < i < |c|
    ensures Visits(c, c[i]) >= 1
  {
    if i < |c| - 1 { VisitsAtLeast(c[..|c| - 1], i); }
  }

  lemma FeasibleCounts(g: Asg, x: Point)
    requires Feasible(g, x)
    ensures NonNegative(g, x)
  {}

  /** Round such a walk the counts grow without limit. */
  lemma ClosedWalkUnbounds(g: Asg, x: Point, c: seq<nat>, t: nat)
    requires Feasible(g, x) && IsCirculation(g, PointOfWalk(c)) && |c| >= 2 && c[|c| - 1] in g.nodes
    ensures exists y: Point :: Feasible(g, y) && y(NodeVar(c[|c| - 1])) >= t
  {
    hide Feasible, IsCirculation, Objective;
    FeasibleCounts(g, x);
    AddCirculation(g, x, t, PointOfWalk(c));
    VisitsAtLeast(c, |c| - 1);
    var y, n := Plus(x, t, PointOfWalk(c)), Visits(c, c[|c| - 1]);
    assert t * n >= t;
    assert y(NodeVar(c[|c| - 1])) >= t;
  }

  // ---------------------------------------------------------------- edges in no row

  ghost predicate InRowOf(g: Asg, cs: CallSite, u: nat, v: nat) {
    IsMatched(g, cs) &&
    ((u, v) == (cs.callNode, g.functionEntries[cs.callee])
     || (v == cs.returnNode && u in ReturnEdges(g, ReturnsOf(g, cs.callee), cs.returnNode)))
  }

  /** An unflagged edge that occurs in no matching row. */
  ghost predicate IsFree(g: Asg, u: nat, v: nat) {
    g.HasEdge(u, v) && !g.IsBackEdge(u, v) && forall k :: 0 <= k < |g.callSites| ==> !InRowOf(g, g.callSites[k], u, v)
  }

  ghost predicate IsFreeCycle(g: Asg, c: seq<nat>) {
    |c| >= 2 && c[0] == c[|c| - 1] && forall i :: 0 <= i < |c| - 1 ==> IsFree(g, c[i], c[i + 1])
  }

  lemma {:induction false} UnusedEdge(c: seq<nat>, u: nat, v: nat)
    requires forall i :: 0 <= i < |c| - 1 ==> (c[i], c[i + 1]) != (u, v)
    ensures Uses(c, u, v) == 0
  {
    if |c| > 1 {
      var front, i := c[..|c| - 1], |c| - 2;
      assert (c[i], c[i + 1]) != (u, v);
      forall i | 0 <= i < |front| - 1 ensures (front[i], front[i + 1]) != (u, v) { assert (c[i], c[i + 1]) != (u, v); }
      UnusedEdge(front, u, v);
    }
  }

  lemma {:induction false} NoBackUses(g: Asg, x: Point, list: seq<nat>, u: nat)
    requires forall q: nat :: g.IsBackEdge(q, u) ==> x(EdgeVar(q, u)) == 0
    ensures BackSum(g, x, list, u) == 0
  {
    if list != [] { NoBackUses(g, x, list[..|list| - 1], u); }
  }

  lemma {:induction false} NoUses(x: Point, list: seq<nat>, v: nat)
    requires forall q :: q in list ==> x(EdgeVar(q, v)) == 0
    ensures InSum(x, list, v) == 0
  {
    if list != [] {
      assert list == list[..|list| - 1] + [list[|list| - 1]];
      NoUses(x, list[..|list| - 1], v);
    }
  }

  lemma FreeCycleAvoids(g: Asg, c: seq<nat>, u: nat, v: nat)
    requires IsFreeCycle(g, c) && !IsFree(g, u, v)
    ensures Uses(c, u, v) == 0
  {
    hide IsFree;
    forall i | 0 <= i < |c| - 1 ensures (c[i], c[i + 1]) != (u, v) { assert IsFree(g, c[i], c[i + 1]); }
    UnusedEdge(c, u, v);
  }

  lemma FreeCycleMeetsRows(g: Asg, c: seq<nat>)
    requires IsFreeCycle(g, c)
    ensures forall u :: IsBoundedHeader(g, u) ==> LoopBoundHolds(g, PointOfWalk(c), u)
    ensures forall i :: 0 <= i < |g.callSites| ==> MatchingHolds(g, PointOfWalk(c), g.callSites[i])
  {
    hide IsFreeCycle, ReturnEdges, Uses, Visits;
    var d := PointOfWalk(c);
    forall u | IsBoundedHeader(g, u) ensures LoopBoundHolds(g, d, u) {
      forall q: nat | g.IsBackEdge(q, u) ensures d(EdgeVar(q, u)) == 0 { FreeCycleAvoids(g, c, q, u); }
      NoBackUses(g, d, PredList(g, u), u);
      assert d(NodeVar(u)) >= 0;
    }
    forall i | 0 <= i < |g.callSites| && IsMatched(g, g.callSites[i]) ensures MatchingHolds(g, d, g.callSites[i]) {
      var cs := g.callSites[i];
      var list := ReturnEdges(g, ReturnsOf(g, cs.callee), cs.returnNode);
      var f := g.functionEntries[cs.callee];
      assert InRowOf(g, cs, cs.callNode, f);
      FreeCycleAvoids(g, c, cs.callNode, f);
      forall q | q in list ensures d(EdgeVar(q, cs.returnNode)) == 0 {
        assert InRowOf(g, cs, q, cs.returnNode);
        FreeCycleAvoids(g, c, q, cs.returnNode);
      }
      NoUses(d, list, cs.returnNode);
    }
  }

  /** A cycle of free edges can be run through at no cost to any row, so its counts have no maximum. */
  lemma FreeCycleUnbounds(g: Asg, p: Program, x: Point, c: seq<nat>, t: nat)
    requires Embeds(g, p) && Feasible(g, x) && IsFreeCycle(g, c)
    ensures exists y: Point :: Feasible(g, y) && y(NodeVar(c[|c| - 1])) >= t
  {
    FreeCycleMeetsRows(g, c);
    FreeCycleIsWalk(g, p, c);
    hide *;
    ClosedWalkCirculates(g, c);
    ClosedWalkUnbounds(g, x, c, t);
  }

  lemma FreeCycleIsWalk(g: Asg, p: Program, c: seq<nat>)
    requires Embeds(g, p) && IsFreeCycle(g, c)
    ensures g.Valid() && IsWalkIn(g, c) && c[0] == c[|c| - 1] && |c| >= 2 && c[|c| - 1] in g.nodes
    ensures forall u, v :: g.HasEdge(u, v) ==> !g.nodes[v].isEntry
  {
    forall i | 0 <= i < |c| - 1 ensures g.HasEdge(c[i], c[i + 1]) { assert IsFree(g, c[i], c[i + 1]); }
    var i := |c| - 2;
    assert g.HasEdge(c[i], c[i + 1]);
  }

  // ---------------------------------------------------------------- which edges are free

  /** The free edges are the unflagged branches, the returns to dropped calls, and the calls from which
      nothing returns. */
  lemma FreeIff(g: Asg, p: Program, u: nat, v: nat)
    requires Tight(g, p) && g.HasEdge(u, v) && !g.IsBackEdge(u, v)
    ensures p.Valid()
    ensures IsFree(g, u, v) <==>
            (u, v) in p.intra || IsStray(g, p, u, v) || IsLostCall(g, p, u, v)
  {
    hide Tight, InRowOf, IsStray, IsLostCall, Program.Valid, Embeds;
    TightValid(g, p);
    if (u, v) in p.intra || IsStray(g, p, u, v) || IsLostCall(g, p, u, v) {
      forall k | 0 <= k < |g.callSites| ensures !InRowOf(g, g.callSites[k], u, v) {
        if InRowOf(g, g.callSites[k], u, v) { RowIsOf(g, p, k, u, v); }
      }
    } else {
      var k := HasRow(g, p, u, v);
    }
  }

  /** An edge in a row belongs to an answered call. */
  lemma RowIsOf(g: Asg, p: Program, k: nat, u: nat, v: nat)
    requires Tight(g, p) && k < |g.callSites| && InRowOf(g, g.callSites[k], u, v) && g.HasEdge(u, v)
    ensures p.Valid() && (u, v) !in p.intra && !IsStray(g, p, u, v) && !IsLostCall(g, p, u, v)
  {
    var cs := g.callSites[k];
    var j := MatchedSite(g, p, k);
    if (u, v) == p.CallEdge(j) {
      assert forall i: nat :: CallsAlong(p, i, u, v) ==> i == j;
      forall i: nat ensures !ReturnsAlong(p, i, u, v) {
        assert i < |p.sites| && p.sites[i].hasLanding ==> (p.sites[i].call, p.sites[i].landing) in p.intra;
      }
    } else {
      assert AnswersKept(g, p, j, u, v);
      forall i: nat ensures !CallsAlong(p, i, u, v) {
        assert (p.sites[j].call, p.sites[j].landing) in p.intra;
      }
    }
  }

  lemma MatchedSite(g: Asg, p: Program, k: nat) returns (j: nat)
    requires Tight(g, p) && k < |g.callSites| && IsMatched(g, g.callSites[k])
    ensures p.Valid() && SiteIs(p, g.callSites[k], j) && j < |p.sites| && p.sites[j].call in g.nodes && IsReturnedTo(g, p, j)
    ensures p.CallEdge(j) == (g.callSites[k].callNode, g.functionEntries[g.callSites[k].callee])
    ensures forall u :: u in ReturnEdges(g, ReturnsOf(g, g.callSites[k].callee), g.callSites[k].returnNode) ==>
              AnswersKept(g, p, j, u, g.callSites[k].returnNode)
  {
    j := SiteOf(g, p, k);
    var cs := g.callSites[k];
    var list := ReturnEdges(g, ReturnsOf(g, cs.callee), cs.returnNode);
    ReturnEdgesExact(g, ReturnsOf(g, cs.callee), cs.returnNode);
    assert list[0] in list;
    assert list[0] in KeptReturns(g, p, cs.callee);
  }

  /** An unflagged edge of an answered call is in that call's row. */
  lemma HasRow(g: Asg, p: Program, u: nat, v: nat) returns (k: nat)
    requires Tight(g, p) && g.HasEdge(u, v) && (u, v) !in p.intra && !IsStray(g, p, u, v)
    requires p.Valid() && !IsLostCall(g, p, u, v)
    ensures k < |g.callSites| && InRowOf(g, g.callSites[k], u, v)
  {
    assert u in g.nodes && v in g.nodes;
    if i: nat :| CallsAlong(p, i, u, v) {
      assert !(CallsAlong(p, i, u, v) && IsLost(g, p, i));
      k :| 0 <= k < |g.callSites| && SiteIs(p, g.callSites[k], i);
      var list := MatchedReturns(g, p, g.callSites[k], i);
    } else {
      var i: nat :| AnswersKept(g, p, i, u, v);
      k :| 0 <= k < |g.callSites| && SiteIs(p, g.callSites[k], i);
      assert u in KeptReturns(g, p, p.sites[i].callee);
      var list := MatchedReturns(g, p, g.callSites[k], i);
    }
  }

  // ---------------------------------------------------------------- an exact condition

  ghost predicate Capped(g: Asg, cap: nat) {
    forall x: Point, v :: Feasible(g, x) && v in g.nodes ==> x(NodeVar(v)) <= cap
  }

  ghost function Powers(rank: nat -> nat, k: nat, order: seq<nat>): nat {
    if order == [] then 0 else Powers(rank, k, order[..|order| - 1]) + Power(k, rank(order[|order| - 1]))
  }

  lemma {:induction false} PowersCover(rank: nat -> nat, k: nat, order: seq<nat>)
    ensures forall v :: v in order ==> Power(k, rank(v)) <= Powers(rank, k, order)
  {
    if order != [] {
      PowersCover(rank, k, order[..|order| - 1]);
      assert order == order[..|order| - 1] + [order[|order| - 1]];
    }
  }

  lemma RankCaps(g: Asg, p: Program, rank: nat -> nat, k: nat)
    requires Tight(g, p) && Ranked(g, p, rank) && AlwaysTrickles(g, p, rank) && Branching(g, k)
    ensures Capped(g, Powers(rank, k, Ascending(g.nodes.Keys)))
  {
    hide Tight, Ranked, Feasible, Trickles, Branching, Power;
    AscendingExact(g.nodes.Keys);
    PowersCover(rank, k, Ascending(g.nodes.Keys));
    forall x: Point, v | Feasible(g, x) && v in g.nodes ensures x(NodeVar(v)) <= Powers(rank, k, Ascending(g.nodes.Keys)) {
      CountsAreBounded(g, p, x, rank, k, v);
      assert v in Ascending(g.nodes.Keys);
    }
  }

  lemma OpenBranchCycleIsFree(g: Asg, p: Program, c: seq<nat>)
    requires Tight(g, p) && IsCycle(OpenBranches(g, p), c)
    ensures IsFreeCycle(g, c)
  {
    hide Tight, IsFree, IsStray, IsLostCall;
    forall i | 0 <= i < |c| - 1 ensures IsFree(g, c[i], c[i + 1]) {
      assert (c[i], c[i + 1]) in OpenBranches(g, p);
      FreeIff(g, p, c[i], c[i + 1]);
    }
  }

  /** When the kept calls have no open cycle and no return to a dropped call comes back, all counts have a common limit
      exactly when every branch cycle is cut. */
  lemma CountsFiniteIff(g: Asg, p: Program, owner: nat -> Fn, x: Point)
    requires Tight(g, p) && Owns(p, owner) && DistinctLandings(p) && Feasible(g, x)
    requires Acyclic(OpenCalls(g, p, owner)) && NothingComesBack(g, p)
    ensures (exists cap :: Capped(g, cap)) <==> Acyclic(OpenBranches(g, p))
  {
    hide Tight, Owns, DistinctLandings, Feasible, IsCycle, OpenCalls, OpenBranches, NothingComesBack, IsFreeCycle, Program.Valid, Embeds;
    TightValid(g, p);
    if Acyclic(OpenBranches(g, p)) {
      CutIsCapped(g, p, owner);
    }
    if cap :| Capped(g, cap) {
      forall c ensures !IsCycle(OpenBranches(g, p), c) {
        if IsCycle(OpenBranches(g, p), c) { UncutIsNotCapped(g, p, x, c, cap); }
      }
    }
  }

  lemma CutIsCapped(g: Asg, p: Program, owner: nat -> Fn)
    requires Tight(g, p) && Owns(p, owner) && DistinctLandings(p)
    requires Acyclic(OpenBranches(g, p)) && Acyclic(OpenCalls(g, p, owner)) && NothingComesBack(g, p)
    ensures exists cap :: Capped(g, cap)
  {
    hide *;
    TightValid(g, p);
    RankByFunction(g, p, owner);
    RankDrains(g, p, owner);
    DrainsTrickle(g, p, RankOf(g, p, owner));
    SomeBranching(g);
    RankCaps(g, p, RankOf(g, p, owner), Widths(g, Ascending(g.nodes.Keys)));
  }

  lemma UncutIsNotCapped(g: Asg, p: Program, x: Point, c: seq<nat>, cap: nat)
    requires Tight(g, p) && Feasible(g, x) && IsCycle(OpenBranches(g, p), c)
    ensures !Capped(g, cap)
  {
    hide Tight, Feasible, Embeds, OpenBranches;
    TightValid(g, p);
    OpenBranchCycleIsFree(g, p, c);
    FreeCycleIsWalk(g, p, c);
    FreeCycleUnbounds(g, p, x, c, cap + 1);
  }
}
