/** At a feasible point, giving each call's returns back to the branch from its call block to its
    landing leaves a flow on the caller's own blocks that conserves but for calls and returns without
    a counterpart. */
module CallProjection {
  import opened ReplacementPolicy
  import opened AbstractStateGraph
  import opened WcetModel
  import opened Runs
  import opened IpetSoundness
  import opened FiniteWcet
  import opened Leaks

  /** The return edge from `q` into `v` answers the kept call made in `u`. */
  ghost predicate Answers(g: Asg, p: Program, q: nat, u: nat, v: nat) {
    exists i: nat :: i < |p.sites| && p.sites[i].call == u && AnswersKept(g, p, i, q, v)
  }

  ghost predicate IsAnswer(g: Asg, p: Program, q: nat, v: nat) { exists u: nat :: Answers(g, p, q, u, v) }

  /** A call from `u` into `v` that is returned from. */
  ghost predicate IsAnsweredCall(g: Asg, p: Program, u: nat, v: nat)
    requires p.Valid()
  {
    exists i: nat :: CallsAlong(p, i, u, v) && IsReturnedTo(g, p, i)
  }

  /** The flow over the listed return edges into `v` that answers the call in `u`. */
  ghost function Returned(g: Asg, p: Program, x: Point, u: nat, v: nat, list: seq<nat>): int {
    if list == [] then 0
    else
      var q := list[|list| - 1];
      Returned(g, p, x, u, v, list[..|list| - 1]) + (if Answers(g, p, q, u, v) then x(EdgeVar(q, v)) else 0)
  }

  /** The flow along a branch with the returns of the call made at its source merged in. */
  ghost function Projected(g: Asg, p: Program, x: Point, u: nat, v: nat): int {
    x(EdgeVar(u, v)) + Returned(g, p, x, u, v, PredList(g, v))
  }

  ghost function ProjectedIn(g: Asg, p: Program, x: Point, preds: seq<nat>, v: nat): int {
    if preds == [] then 0
    else
      var u := preds[|preds| - 1];
      ProjectedIn(g, p, x, preds[..|preds| - 1], v) + (if (u, v) in p.intra then Projected(g, p, x, u, v) else 0)
  }

  ghost function ProjectedOut(g: Asg, p: Program, x: Point, succs: seq<nat>, u: nat): int {
    if succs == [] then 0
    else
      var v := succs[|succs| - 1];
      ProjectedOut(g, p, x, succs[..|succs| - 1], u) + (if (u, v) in p.intra then Projected(g, p, x, u, v) else 0)
  }

  // ---------------------------------------------------------------- arriving at a block

  /** The branch edges among the listed ones. */
  ghost function BranchIn(p: Program, x: Point, preds: seq<nat>, v: nat): int {
    if preds == [] then 0
    else
      var u := preds[|preds| - 1];
      BranchIn(p, x, preds[..|preds| - 1], v) + (if (u, v) in p.intra then x(EdgeVar(u, v)) else 0)
  }

  /** The returns among the listed edges that answer some call. */
  ghost function AnswersIn(g: Asg, p: Program, x: Point, preds: seq<nat>, v: nat): int {
    if preds == [] then 0
    else
      var q := preds[|preds| - 1];
      AnswersIn(g, p, x, preds[..|preds| - 1], v) + (if IsAnswer(g, p, q, v) then x(EdgeVar(q, v)) else 0)
  }

  /** The listed edges that are neither branches nor answers: calls of `v`'s function, and returns to
      dropped calls. */
  ghost function OpenIn(g: Asg, p: Program, x: Point, preds: seq<nat>, v: nat): int {
    if preds == [] then 0
    else
      var q := preds[|preds| - 1];
      OpenIn(g, p, x, preds[..|preds| - 1], v) + (if (q, v) in p.intra || IsAnswer(g, p, q, v) then 0 else x(EdgeVar(q, v)))
  }

  /** The returns answering any of the calls made in the listed blocks. */
  ghost function ReturnedTo(g: Asg, p: Program, x: Point, callers: seq<nat>, v: nat, list: seq<nat>): int {
    if callers == [] then 0
    else
      var u := callers[|callers| - 1];
      ReturnedTo(g, p, x, callers[..|callers| - 1], v, list) + (if (u, v) in p.intra then Returned(g, p, x, u, v, list) else 0)
  }

  lemma {:induction false} SplitIn(g: Asg, p: Program, x: Point, preds: seq<nat>, v: nat)
    requires forall q: nat :: (q, v) in p.intra ==> !IsAnswer(g, p, q, v)
    ensures InSum(x, preds, v) == BranchIn(p, x, preds, v) + AnswersIn(g, p, x, preds, v) + OpenIn(g, p, x, preds, v)
  {
    if preds != [] { SplitIn(g, p, x, preds[..|preds| - 1], v); }
  }

  lemma {:induction false} SplitProjected(g: Asg, p: Program, x: Point, preds: seq<nat>, v: nat)
    ensures ProjectedIn(g, p, x, preds, v) == BranchIn(p, x, preds, v) + ReturnedTo(g, p, x, preds, v, PredList(g, v))
  {
    if preds != [] { SplitProjected(g, p, x, preds[..|preds| - 1], v); }
  }

  lemma {:induction false} ReturnedToNone(g: Asg, p: Program, x: Point, callers: seq<nat>, v: nat)
    ensures ReturnedTo(g, p, x, callers, v, []) == 0
  {
    if callers != [] { ReturnedToNone(g, p, x, callers[..|callers| - 1], v); }
  }

  /** Among blocks without repetition, a return edge answers the call of exactly one. */
  lemma {:induction false} ReturnedToOneMore(g: Asg, p: Program, x: Point, callers: seq<nat>, v: nat, list: seq<nat>, q: nat)
    requires DistinctSeq(callers) && forall u, w :: Answers(g, p, q, u, v) && Answers(g, p, q, w, v) ==> u == w
    ensures ReturnedTo(g, p, x, callers, v, list + [q]) ==
            ReturnedTo(g, p, x, callers, v, list)
            + (if exists u :: u in callers && (u, v) in p.intra && Answers(g, p, q, u, v) then x(EdgeVar(q, v)) else 0)
  {
    if callers != [] {
      var front, u := callers[..|callers| - 1], callers[|callers| - 1];
      assert callers == front + [u] && u !in front;
      assert (list + [q])[..|list|] == list;
      ReturnedToOneMore(g, p, x, front, v, list, q);
    }
  }

  /** If every answer among the listed edges is to one call in the listed blocks, all are returned. */
  lemma {:induction false} AllReturned(g: Asg, p: Program, x: Point, callers: seq<nat>, v: nat, list: seq<nat>)
    requires DistinctSeq(callers)
    requires forall q, u, w :: q in list && Answers(g, p, q, u, v) && Answers(g, p, q, w, v) ==> u == w
    requires forall q, u: nat :: q in list && Answers(g, p, q, u, v) ==> u in callers && (u, v) in p.intra
    ensures ReturnedTo(g, p, x, callers, v, list) == AnswersIn(g, p, x, list, v)
  {
    if list == [] {
      ReturnedToNone(g, p, x, callers, v);
    } else {
      var front, q := list[..|list| - 1], list[|list| - 1];
      assert list == front + [q];
      AllReturned(g, p, x, callers, v, front);
      ReturnedToOneMore(g, p, x, callers, v, front, q);
    }
  }

  lemma OneSite(p: Program, i: nat, j: nat)
    requires DistinctLandings(p) && i < |p.sites| && j < |p.sites| && Shares(p, i, j)
    ensures i == j
  {
    assert Shares(p, j, i);
  }

  /** A return edge belongs to one call: return blocks have one function, landings one site each. */
  lemma AnswersOnce(g: Asg, p: Program, q: nat, u: nat, w: nat, v: nat)
    requires p.Valid() && DistinctLandings(p) && Answers(g, p, q, u, v) && Answers(g, p, q, w, v)
    ensures u == w && (q, v) !in p.intra && (u, v) in p.intra
  {
    var i: nat :| i < |p.sites| && p.sites[i].call == u && AnswersKept(g, p, i, q, v);
    var j: nat :| j < |p.sites| && p.sites[j].call == w && AnswersKept(g, p, j, q, v);
    assert p.sites[i].callee == p.sites[j].callee;
    OneSite(p, i, j);
  }

  /** An edge that is neither branch nor answer is a call or a return to dropped calls. */
  lemma OpenInIs(g: Asg, p: Program, q: nat, v: nat)
    requires Tight(g, p) && g.HasEdge(q, v) && (q, v) !in p.intra && !IsAnswer(g, p, q, v)
    ensures IsCallEdge(p, q, v) || IsStray(g, p, q, v)
  {
    if !IsCallEdge(p, q, v) {
      forall i: nat | i < |p.sites| ensures !AnswersKept(g, p, i, q, v) { assert !Answers(g, p, q, p.sites[i].call, v); }
    }
  }

  lemma AnsweredCaller(g: Asg, p: Program, q: nat, u: nat, v: nat)
    requires Embeds(g, p) && Answers(g, p, q, u, v)
    ensures g.HasEdge(u, v) && (u, v) in p.intra
  {}

  /** A block is reached exactly as often as its projected branches are taken, plus the calls of its
      function and the returns to dropped calls: returns from a shared callee add nothing beyond the
      calls made. */
  lemma InflowProjects(g: Asg, p: Program, x: Point, v: nat)
    requires Tight(g, p) && DistinctLandings(p) && Feasible(g, x) && v in g.nodes && !g.nodes[v].isEntry
    ensures x(NodeVar(v)) == ProjectedIn(g, p, x, PredList(g, v), v) + OpenIn(g, p, x, PredList(g, v), v)
    ensures forall q: nat :: g.HasEdge(q, v) && (q, v) !in p.intra && !IsAnswer(g, p, q, v) ==> IsCallEdge(p, q, v) || IsStray(g, p, q, v)
  {
    InflowIs(g, p, x, v);
    hide Tight, Feasible, NodeRowsHold, PredList, IsCallEdge, IsStray, Answers, DistinctLandings, Program.Valid, Embeds;
    TightValid(g, p);
    var preds := PredList(g, v);
    forall q: nat, u: nat, w: nat | Answers(g, p, q, u, v) && Answers(g, p, q, w, v) ensures u == w && (q, v) !in p.intra {
      AnswersOnce(g, p, q, u, w, v);
    }
    SplitIn(g, p, x, preds, v);
    SplitProjected(g, p, x, preds, v);
    forall q: nat, u: nat | Answers(g, p, q, u, v) ensures u in preds && (u, v) in p.intra { AnsweredCaller(g, p, q, u, v); }
    AllReturned(g, p, x, preds, v, preds);
    forall q: nat | g.HasEdge(q, v) && (q, v) !in p.intra && !IsAnswer(g, p, q, v) ensures IsCallEdge(p, q, v) || IsStray(g, p, q, v) {
      OpenInIs(g, p, q, v);
    }
  }

  lemma InflowIs(g: Asg, p: Program, x: Point, v: nat)
    requires Feasible(g, x) && Embeds(g, p) && v in g.nodes && !g.nodes[v].isEntry
    ensures x(NodeVar(v)) == InSum(x, PredList(g, v), v) && DistinctSeq(PredList(g, v))
    ensures forall q: nat :: q in PredList(g, v) <==> g.HasEdge(q, v)
  {
    assert NodeRowsHold(g, x, v);
    AscendingDistinct(g.Predecessors(v));
  }

  // ---------------------------------------------------------------- leaving a block

  ghost function BranchOut(p: Program, x: Point, succs: seq<nat>, u: nat): int {
    if succs == [] then 0
    else
      var v := succs[|succs| - 1];
      BranchOut(p, x, succs[..|succs| - 1], u) + (if (u, v) in p.intra then x(EdgeVar(u, v)) else 0)
  }

  ghost function OtherOut(p: Program, x: Point, succs: seq<nat>, u: nat): int {
    if succs == [] then 0
    else
      var v := succs[|succs| - 1];
      OtherOut(p, x, succs[..|succs| - 1], u) + (if (u, v) in p.intra then 0 else x(EdgeVar(u, v)))
  }

  /** The edges that are neither branches nor calls returned from: calls without a row, and returns. */
  ghost function OpenOut(g: Asg, p: Program, x: Point, succs: seq<nat>, u: nat): int
    requires p.Valid()
  {
    if succs == [] then 0
    else
      var v := succs[|succs| - 1];
      OpenOut(g, p, x, succs[..|succs| - 1], u) + (if (u, v) in p.intra || IsAnsweredCall(g, p, u, v) then 0 else x(EdgeVar(u, v)))
  }

  /** The returns merged into the branches from `u`. */
  ghost function MergedOut(g: Asg, p: Program, x: Point, succs: seq<nat>, u: nat): int {
    if succs == [] then 0
    else
      var v := succs[|succs| - 1];
      MergedOut(g, p, x, succs[..|succs| - 1], u) + (if (u, v) in p.intra then Returned(g, p, x, u, v, PredList(g, v)) else 0)
  }

  lemma {:induction false} SplitOut(g: Asg, p: Program, x: Point, succs: seq<nat>, u: nat)
    ensures OutSum(x, succs, u) == BranchOut(p, x, succs, u) + OtherOut(p, x, succs, u)
    ensures ProjectedOut(g, p, x, succs, u) == BranchOut(p, x, succs, u) + MergedOut(g, p, x, succs, u)
  {
    if succs != [] { SplitOut(g, p, x, succs[..|succs| - 1], u); }
  }

  lemma {:induction false} NothingReturned(g: Asg, p: Program, x: Point, u: nat, v: nat, list: seq<nat>)
    requires forall q :: q in list ==> !Answers(g, p, q, u, v)
    ensures Returned(g, p, x, u, v, list) == 0
  {
    if list != [] {
      assert list == list[..|list| - 1] + [list[|list| - 1]];
      NothingReturned(g, p, x, u, v, list[..|list| - 1]);
    }
  }

  /** Only the branch to the landing has returns merged in. */
  lemma {:induction false} MergedAtLanding(g: Asg, p: Program, x: Point, succs: seq<nat>, u: nat, landing: Option<nat>)
    requires DistinctSeq(succs) && forall q: nat, v: nat :: Answers(g, p, q, u, v) ==> landing == Some(v)
    requires landing.Some? ==> (u, landing.value) in p.intra
    ensures MergedOut(g, p, x, succs, u) ==
            if landing.Some? && landing.value in succs then Returned(g, p, x, u, landing.value, PredList(g, landing.value)) else 0
  {
    if succs != [] {
      var front, v := succs[..|succs| - 1], succs[|succs| - 1];
      assert succs == front + [v] && v !in front;
      MergedAtLanding(g, p, x, front, u, landing);
      if landing != Some(v) { NothingReturned(g, p, x, u, v, PredList(g, v)); }
    }
  }

  /** Only the call edge is no branch. */
  lemma {:induction false} OtherIsCall(p: Program, x: Point, succs: seq<nat>, u: nat, entry: Option<nat>)
    requires DistinctSeq(succs) && forall v :: v in succs ==> ((u, v) !in p.intra <==> entry == Some(v))
    ensures OtherOut(p, x, succs, u) == if entry.Some? && entry.value in succs then x(EdgeVar(u, entry.value)) else 0
  {
    if succs != [] {
      var front, v := succs[..|succs| - 1], succs[|succs| - 1];
      assert succs == front + [v] && v !in front;
      OtherIsCall(p, x, front, u, entry);
    }
  }

  /** Without an answered call, all that is no branch is open. */
  lemma {:induction false} OtherIsOpen(g: Asg, p: Program, x: Point, succs: seq<nat>, u: nat)
    requires p.Valid() && forall v: nat :: !IsAnsweredCall(g, p, u, v)
    ensures OtherOut(p, x, succs, u) == OpenOut(g, p, x, succs, u)
  {
    if succs != [] { OtherIsOpen(g, p, x, succs[..|succs| - 1], u); }
  }

  /** If all that is no branch is an answered call, nothing is open. */
  lemma {:induction false} NothingOpen(g: Asg, p: Program, x: Point, succs: seq<nat>, u: nat)
    requires p.Valid() && forall v :: v in succs && (u, v) !in p.intra ==> IsAnsweredCall(g, p, u, v)
    ensures OpenOut(g, p, x, succs, u) == 0
  {
    if succs != [] {
      assert succs == succs[..|succs| - 1] + [succs[|succs| - 1]];
      NothingOpen(g, p, x, succs[..|succs| - 1], u);
    }
  }

  lemma {:induction false} InSumRemove(x: Point, list: seq<nat>, k: nat, v: nat)
    requires k < |list|
    ensures InSum(x, list, v) == InSum(x, list[..k] + list[k + 1..], v) + x(EdgeVar(list[k], v))
  {
    var n := |list| - 1;
    var rest := list[..k] + list[k + 1..];
    if k < n {
      InSumRemove(x, list[..n], k, v);
      assert rest[..n - 1] == list[..n][..k] + list[..n][k + 1..];
      assert rest[n - 1] == list[n];
    } else {
      assert rest == list[..n];
    }
  }

  lemma RemoveOne(list: seq<nat>, k: nat)
    requires DistinctSeq(list) && k < |list|
    ensures DistinctSeq(list[..k] + list[k + 1..]) && forall q :: q in list[..k] + list[k + 1..] <==> q in list && q != list[k]
  {
    var rest := list[..k] + list[k + 1..];
    forall q | q in list && q != list[k] ensures q in rest {
      var i :| 0 <= i < |list| && list[i] == q;
      assert q == rest[if i < k then i else i - 1];
    }
    forall q | q in rest ensures q in list && q != list[k] {
      var i :| 0 <= i < |rest| && rest[i] == q;
      assert q == list[if i < k then i else i + 1];
    }
  }

  /** The returns answering a call, summed over any list of its return blocks without repetition. */
  lemma {:induction false} ReturnedIsSum(g: Asg, p: Program, x: Point, u: nat, v: nat, list: seq<nat>, rets: seq<nat>)
    requires DistinctSeq(list) && DistinctSeq(rets) && forall q :: q in rets <==> q in list && Answers(g, p, q, u, v)
    ensures Returned(g, p, x, u, v, list) == InSum(x, rets, v)
    decreases |list|
  {
    if list == [] {
      NoElements(rets);
    } else {
      var front, q := list[..|list| - 1], list[|list| - 1];
      assert list == front + [q] && q !in front;
      if Answers(g, p, q, u, v) {
        var k :| 0 <= k < |rets| && rets[k] == q;
        var rest := rets[..k] + rets[k + 1..];
        RemoveOne(rets, k);
        InSumRemove(x, rets, k, v);
        forall h ensures h in rest <==> h in front && Answers(g, p, h, u, v) {
          assert h in list <==> h in front || h == q;
        }
        ReturnedIsSum(g, p, x, u, v, front, rest);
      } else {
        ReturnedIsSum(g, p, x, u, v, front, rets);
      }
    }
  }

  /** By the matching row, the returns merged into the branch to the landing are the calls made. */
  lemma CallIsReturned(g: Asg, p: Program, x: Point, i: nat)
    requires Tight(g, p) && Feasible(g, x) && i < |p.sites| && p.sites[i].call in g.nodes && p.sites[i].hasLanding
    requires p.sites[i].callee in p.returnsOf && KeptReturns(g, p, p.sites[i].callee) != {} && p.sites[i].callee in p.entryOf
    ensures var s := p.sites[i];
            Returned(g, p, x, s.call, s.landing, PredList(g, s.landing)) == x(EdgeVar(s.call, p.entryOf[s.callee]))
  {
    var s := p.sites[i];
    var k :| 0 <= k < |g.callSites| && SiteIs(p, g.callSites[k], i);
    var cs := g.callSites[k];
    var list := MatchedReturns(g, p, cs, i);
    assert MatchingHolds(g, x, cs);
    AscendingDistinct(g.Predecessors(s.landing));
    forall q ensures q in list <==> q in PredList(g, s.landing) && Answers(g, p, q, s.call, s.landing) { AnswersIffKept(g, p, i, q); }
    ReturnedIsSum(g, p, x, s.call, s.landing, PredList(g, s.landing), list);
  }

  lemma AnswersIffKept(g: Asg, p: Program, i: nat, q: nat)
    requires Embeds(g, p) && i < |p.sites| && p.sites[i].call in g.nodes && p.sites[i].hasLanding
    ensures var s := p.sites[i];
            q in KeptReturns(g, p, s.callee) <==> q in PredList(g, s.landing) && Answers(g, p, q, s.call, s.landing)
  {
    var s := p.sites[i];
    AscendingDistinct(g.Predecessors(s.landing));
    if q in KeptReturns(g, p, s.callee) {
      assert g.HasEdge(q, s.landing);
      assert AnswersKept(g, p, i, q, s.landing);
    }
    if q in PredList(g, s.landing) && Answers(g, p, q, s.call, s.landing) {
      assert g.HasEdge(q, s.landing);
      var j: nat :| j < |p.sites| && p.sites[j].call == s.call && AnswersKept(g, p, j, q, s.landing);
      assert i == j;
    }
  }

  /** A block that does not stop is left exactly as often as its projected branches are taken, plus
      its calls without a row and its returns. */
  lemma OutflowProjects(g: Asg, p: Program, x: Point, u: nat)
    requires Tight(g, p) && Feasible(g, x) && u in g.nodes && !g.nodes[u].isExit
    ensures p.Valid() && x(NodeVar(u)) == ProjectedOut(g, p, x, SuccList(g, u), u) + OpenOut(g, p, x, SuccList(g, u), u)
    ensures forall v: nat :: g.HasEdge(u, v) && (u, v) !in p.intra && !IsAnsweredCall(g, p, u, v) ==>
              IsReturnEdge(p, u, v) || IsLostCall(g, p, u, v)
  {
    OutflowIs(g, p, x, u);
    hide Tight, Feasible, SuccList, IsCallEdge, IsReturnEdge, Answers, Program.Valid, Embeds, IsReturnedTo, IsAnsweredCall, CallsAlong;
    TightValid(g, p);
    var succs := SuccList(g, u);
    SplitOut(g, p, x, succs, u);
    if i: nat :| i < |p.sites| && p.sites[i].call == u && IsReturnedTo(g, p, i) {
      CallFlow(g, p, x, u, succs, i);
    } else {
      NoCallFlow(g, p, x, u, succs);
    }
    forall v: nat | g.HasEdge(u, v) && (u, v) !in p.intra && !IsAnsweredCall(g, p, u, v)
      ensures IsReturnEdge(p, u, v) || IsLostCall(g, p, u, v)
    {
      OpenOutIs(g, p, u, v);
    }
  }

  lemma OutflowIs(g: Asg, p: Program, x: Point, u: nat)
    requires Feasible(g, x) && u in g.nodes && !g.nodes[u].isExit
    ensures x(NodeVar(u)) == OutSum(x, SuccList(g, u), u) && DistinctSeq(SuccList(g, u))
    ensures forall v: nat :: v in SuccList(g, u) <==> g.HasEdge(u, v)
  {
    assert NodeRowsHold(g, x, u);
    AscendingDistinct(g.Successors(u).Keys);
  }

  lemma OpenOutIs(g: Asg, p: Program, u: nat, v: nat)
    requires Tight(g, p) && g.HasEdge(u, v) && (u, v) !in p.intra && !IsAnsweredCall(g, p, u, v)
    ensures IsReturnEdge(p, u, v) || IsLostCall(g, p, u, v)
  {
    if !IsReturnEdge(p, u, v) {
      var i: nat :| CallsAlong(p, i, u, v);
      assert u in g.nodes;
      assert CallsAlong(p, i, u, v) && IsLost(g, p, i);
    }
  }

  lemma NoCallFlow(g: Asg, p: Program, x: Point, u: nat, succs: seq<nat>)
    requires Embeds(g, p) && DistinctSeq(succs)
    requires forall i: nat :: i < |p.sites| && p.sites[i].call == u ==> !IsReturnedTo(g, p, i)
    requires forall v :: v in succs <==> g.HasEdge(u, v)
    ensures OtherOut(p, x, succs, u) == OpenOut(g, p, x, succs, u)
    ensures MergedOut(g, p, x, succs, u) == 0
  {
    OtherIsOpen(g, p, x, succs, u);
    NothingMerged(g, p, x, u, succs);
  }

  /** A block whose call is not returned from has no returns merged into its branches. */
  lemma {:induction false} NothingMerged(g: Asg, p: Program, x: Point, u: nat, succs: seq<nat>)
    requires Embeds(g, p) && forall i: nat :: i < |p.sites| && p.sites[i].call == u ==> !IsReturnedTo(g, p, i)
    ensures MergedOut(g, p, x, succs, u) == 0
  {
    if succs != [] {
      var v := succs[|succs| - 1];
      NothingMerged(g, p, x, u, succs[..|succs| - 1]);
      AscendingDistinct(g.Predecessors(v));
      forall q | q in PredList(g, v) ensures !Answers(g, p, q, u, v) {
        assert g.HasEdge(q, v);
        forall i: nat | i < |p.sites| && p.sites[i].call == u && p.sites[i].hasLanding ensures !AnswersKept(g, p, i, q, v) {
          assert !IsReturnedTo(g, p, i) && q !in KeptReturns(g, p, p.sites[i].callee);
        }
      }
      NothingReturned(g, p, x, u, v, PredList(g, v));
    }
  }

  lemma CallFlow(g: Asg, p: Program, x: Point, u: nat, succs: seq<nat>, i: nat)
    requires Tight(g, p) && Feasible(g, x) && DistinctSeq(succs) && u in g.nodes && forall v :: v in succs <==> g.HasEdge(u, v)
    requires i < |p.sites| && p.sites[i].call == u && IsReturnedTo(g, p, i)
    ensures OtherOut(p, x, succs, u) == MergedOut(g, p, x, succs, u) && OpenOut(g, p, x, succs, u) == 0
  {
    hide Tight, Feasible, Embeds, PredList;
    CallBlock(g, p, u, i);
    var s := p.sites[i];
    forall v | v in succs ensures (u, v) !in p.intra <==> p.entryOf[s.callee] == v { OnlyCallEdge(g, p, u, v, i); }
    OtherIsCall(p, x, succs, u, Some(p.entryOf[s.callee]));
    assert CallsAlong(p, i, u, p.entryOf[s.callee]);
    NothingOpen(g, p, x, succs, u);
    forall q: nat, v: nat | Answers(g, p, q, u, v) ensures s.landing == v { OnlyLanding(g, p, q, u, v, i); }
    MergedAtLanding(g, p, x, succs, u, Some(s.landing));
    CallIsReturned(g, p, x, i);
  }

  lemma CallBlock(g: Asg, p: Program, u: nat, i: nat)
    requires Tight(g, p) && i < |p.sites| && p.sites[i].call == u && u in g.nodes && p.sites[i].hasLanding
    ensures var s := p.sites[i];
            && p.Valid() && s.callee in p.entryOf && s.callee in p.returnsOf && (u, s.landing) in p.intra
            && g.HasEdge(u, s.landing) && g.HasEdge(u, p.entryOf[s.callee])
  {}

  lemma OnlyCallEdge(g: Asg, p: Program, u: nat, v: nat, i: nat)
    requires Tight(g, p) && g.HasEdge(u, v) && i < |p.sites| && p.sites[i].call == u && p.sites[i].hasLanding
    ensures p.sites[i].callee in p.entryOf && ((u, v) !in p.intra <==> v == p.entryOf[p.sites[i].callee])
  {
    assert (u, p.sites[i].landing) in p.intra;
    assert !IsReturnEdge(p, u, v);
    if (u, v) !in p.intra {
      var j: nat :| CallsAlong(p, j, u, v);
      assert i == j;
    }
  }

  lemma OnlyLanding(g: Asg, p: Program, q: nat, u: nat, v: nat, i: nat)
    requires p.Valid() && Answers(g, p, q, u, v) && i < |p.sites| && p.sites[i].call == u
    ensures v == p.sites[i].landing
  {
    var j: nat :| j < |p.sites| && p.sites[j].call == u && AnswersKept(g, p, j, q, v);
    assert i == j;
  }
}
