/** When every cycle of branches and every cycle of calls crosses a flagged edge, an optimum exists. */
module BoundedCycles {
  import opened AbstractStateGraph
  import opened WcetModel
  import opened Runs
  import opened IpetSoundness
  import opened HighsModel
  import opened FiniteWcet
  import opened Leaks
  import opened Walks
  import B = BackEdges

  /** The unflagged branch edges of the graph. */
  ghost function OpenBranches(g: Asg, p: Program): (e: Edges)
    ensures forall u: nat, v: nat :: (u, v) in e <==> g.HasEdge(u, v) && (u, v) in p.intra && !g.IsBackEdge(u, v)
  {
    set x | x in p.intra && g.HasEdge(x.0, x.1) && !g.IsBackEdge(x.0, x.1)
  }

  /** Caller and callee of the call sites whose call edge is unflagged. */
  ghost function OpenCalls(g: Asg, p: Program, owner: nat -> Fn): (e: Edges)
    ensures forall i: nat :: i < |p.sites| && IsOpenCall(g, p, i) ==> (owner(p.sites[i].call), p.sites[i].callee) in e
    ensures forall x :: x in e ==> exists i: nat :: i < |p.sites| && IsOpenCall(g, p, i) && x == (owner(p.sites[i].call), p.sites[i].callee)
  {
    set i | 0 <= i < |p.sites| && IsOpenCall(g, p, i) :: (owner(p.sites[i].call), p.sites[i].callee)
  }

  ghost predicate IsOpenCall(g: Asg, p: Program, i: nat)
    requires i < |p.sites|
  {
    var s := p.sites[i];
    s.callee in p.entryOf && g.HasEdge(s.call, p.entryOf[s.callee]) && !g.IsBackEdge(s.call, p.entryOf[s.callee])
  }

  /** `owner` gives the function of each node: branches stay inside it, calls enter the callee,
      returns leave from it. */
  ghost predicate Owns(p: Program, owner: nat -> Fn) {
    && (forall u: nat, v: nat :: (u, v) in p.intra ==> owner(u) == owner(v))
    && (forall f :: f in p.entryOf ==> owner(p.entryOf[f]) == f)
    && (forall f, r :: f in p.returnsOf && r in p.returnsOf[f] ==> owner(r) == f)
  }

  /** Callees rank above callers; inside a function, blocks rank in branch order. */
  ghost function RankOf(g: Asg, p: Program, owner: nat -> Fn): nat -> nat {
    var e, f := OpenBranches(g, p), OpenCalls(g, p, owner);
    (v: nat) => Level(|Ancestors(f, owner(v))|, |Sources(e)| + 2, |Ancestors(e, v)|)
  }

  function Level(a: nat, n: nat, i: nat): nat { a * n + i }

  lemma AncestorsFew(e: Edges, v: nat)
    ensures 1 <= |Ancestors(e, v)| <= |Sources(e)| + 1
  {
    assert Ancestors(e, v) <= {v} + Sources(e);
    AtMost(Ancestors(e, v), {v} + Sources(e));
    AtMost({v}, Ancestors(e, v));
  }

  lemma AtMost(a: set<nat>, b: set<nat>)
    requires a <= b
    ensures |a| <= |b|
  {
    assert b == a + (b - a);
  }

  lemma NextLevel(a: nat, b: nat, n: nat, i: nat, j: nat)
    requires a < b && i < n && 1 <= j
    ensures Level(a, n, i) < Level(b, n, j)
  {
    assert (a + 1) * n <= b * n;
  }

  lemma SameLevel(a: nat, n: nat, i: nat, j: nat)
    requires i < j
    ensures Level(a, n, i) < Level(a, n, j)
  {}

  lemma BranchRises(g: Asg, p: Program, owner: nat -> Fn, u: nat, v: nat)
    requires Owns(p, owner) && Acyclic(OpenBranches(g, p)) && g.HasEdge(u, v) && (u, v) in p.intra && !g.IsBackEdge(u, v)
    ensures RankOf(g, p, owner)(u) < RankOf(g, p, owner)(v)
  {
    var e, f := OpenBranches(g, p), OpenCalls(g, p, owner);
    assert (u, v) in e;
    hide OpenBranches, OpenCalls, Ancestors, Acyclic, Level;
    AncestorsGrow(e, u, v);
    SameLevel(|Ancestors(f, owner(u))|, |Sources(e)| + 2, |Ancestors(e, u)|, |Ancestors(e, v)|);
  }

  lemma CallRises(g: Asg, p: Program, owner: nat -> Fn, i: nat, u: nat, v: nat)
    requires Owns(p, owner) && Acyclic(OpenCalls(g, p, owner)) && g.HasEdge(u, v) && CallsAlong(p, i, u, v) && !g.IsBackEdge(u, v)
    ensures RankOf(g, p, owner)(u) < RankOf(g, p, owner)(v)
  {
    var e, f := OpenBranches(g, p), OpenCalls(g, p, owner);
    assert IsOpenCall(g, p, i) && (owner(u), owner(v)) in f;
    hide OpenBranches, OpenCalls, Ancestors, Acyclic, Level, CallsAlong, IsOpenCall, Owns;
    AncestorsGrow(f, owner(u), owner(v));
    AncestorsFew(e, u);
    AncestorsFew(e, v);
    NextLevel(|Ancestors(f, owner(u))|, |Ancestors(f, owner(v))|, |Sources(e)| + 2, |Ancestors(e, u)|, |Ancestors(e, v)|);
  }

  lemma RankByFunction(g: Asg, p: Program, owner: nat -> Fn)
    requires Owns(p, owner) && Acyclic(OpenBranches(g, p)) && Acyclic(OpenCalls(g, p, owner))
    ensures Ranked(g, p, RankOf(g, p, owner))
  {
    hide RankOf, Owns, Acyclic, CallsAlong;
    forall u: nat, v: nat | g.HasEdge(u, v) && ((u, v) in p.intra || IsCallEdge(p, u, v)) && !g.IsBackEdge(u, v)
      ensures RankOf(g, p, owner)(u) < RankOf(g, p, owner)(v)
    {
      if (u, v) in p.intra {
        BranchRises(g, p, owner, u, v);
      } else {
        var i: nat :| CallsAlong(p, i, u, v);
        CallRises(g, p, owner, i, u, v);
      }
    }
  }

  /** All ranks are positive, so a return that does not come back needs no rise. */
  lemma RankDrains(g: Asg, p: Program, owner: nat -> Fn)
    requires p.Valid() && NothingComesBack(g, p)
    ensures Drains(g, p, RankOf(g, p, owner))
  {
    hide Ancestors, OpenBranches, OpenCalls, IsStray, ComesBack, Level;
    forall v ensures RankOf(g, p, owner)(v) >= 1 {
      AncestorsFew(OpenBranches(g, p), v);
      AtLeast(|Ancestors(OpenCalls(g, p, owner), owner(v))|, |Sources(OpenBranches(g, p))| + 2, |Ancestors(OpenBranches(g, p), v)|);
    }
  }

  lemma AtLeast(a: nat, n: nat, i: nat)
    ensures Level(a, n, i) >= i
  {}

  // ---------------------------------------------------------------- branch cycles cut by the scan

  /** Every open branch is one of its function's block graph, behind the first block, or leads from the
      entry node or to an exit. */
  ghost predicate IsScanned(g: Asg, p: Program, owner: nat -> Fn, cfgs: map<Fn, B.Cfg>, u: nat, v: nat) {
    || u == p.entry || (v in g.nodes && g.nodes[v].isExit)
    || (owner(u) in cfgs && (u, v) in cfgs[owner(u)].EdgeSet() && Reaches(cfgs[owner(u)].EdgeSet(), cfgs[owner(u)].entry, u))
  }

  /** Flagging what the scan of each function returns leaves no branch cycle open. */
  lemma ScansCutBranches(g: Asg, p: Program, owner: nat -> Fn, cfgs: map<Fn, B.Cfg>, back: map<Fn, Edges>)
    requires Tight(g, p) && Owns(p, owner) && cfgs.Keys <= back.Keys
    requires forall u: nat, v: nat :: (u, v) in OpenBranches(g, p) ==> IsScanned(g, p, owner, cfgs, u, v)
    requires forall f :: f in cfgs ==> B.BreaksEveryCycle(cfgs[f], back[f])
    requires forall f, u: nat, v: nat :: f in cfgs && (u, v) in back[f] && g.HasEdge(u, v) ==> g.IsBackEdge(u, v)
    ensures Acyclic(OpenBranches(g, p))
  {
    hide Tight, Owns, B.BreaksEveryCycle, IsScanned;
    forall c ensures !IsCycle(OpenBranches(g, p), c) {
      if IsCycle(OpenBranches(g, p), c) {
        var f := owner(c[0]);
        InOneScan(g, p, owner, cfgs, c, 0);
        forall i | 0 <= i < |c| - 1 ensures (c[i], c[i + 1]) in cfgs[f].EdgeSet() { InOneScan(g, p, owner, cfgs, c, i); }
        ScanCuts(g, p, cfgs[f], back[f], c);
      }
    }
  }

  lemma ScanCuts(g: Asg, p: Program, cfg: B.Cfg, back: Edges, c: seq<nat>)
    requires B.BreaksEveryCycle(cfg, back) && IsCycle(cfg.EdgeSet(), c) && Reaches(cfg.EdgeSet(), cfg.entry, c[0])
    requires forall u: nat, v: nat :: (u, v) in back && g.HasEdge(u, v) ==> g.IsBackEdge(u, v)
    ensures !IsCycle(OpenBranches(g, p), c)
  {
    var i :| 0 <= i < |c| - 1 && (c[i], c[i + 1]) in back;
    assert (c[i], c[i + 1]) !in OpenBranches(g, p);
  }

  /** A cycle stays in one function, and never touches the entry node or an exit. */
  lemma InOneScan(g: Asg, p: Program, owner: nat -> Fn, cfgs: map<Fn, B.Cfg>, c: seq<nat>, i: nat)
    requires Tight(g, p) && Owns(p, owner) && IsCycle(OpenBranches(g, p), c) && i < |c| - 1
    requires forall u: nat, v: nat :: (u, v) in OpenBranches(g, p) ==> IsScanned(g, p, owner, cfgs, u, v)
    ensures var f := owner(c[0]);
            f in cfgs && (c[i], c[i + 1]) in cfgs[f].EdgeSet() && Reaches(cfgs[f].EdgeSet(), cfgs[f].entry, c[i])
  {
    var n := |c| - 1;
    assert (c[i], c[i + 1]) in OpenBranches(g, p);
    var j := if i == 0 then n - 1 else i - 1;
    assert (c[j], c[j + 1]) in OpenBranches(g, p) && c[j + 1] == c[i];
    var k := if i + 1 == n then 0 else i + 1;
    assert (c[k], c[k + 1]) in OpenBranches(g, p) && c[k] == c[i + 1];
    OwnerAlong(g, p, owner, c, i);
    hide Reaches, Owns, IsCallEdge, IsReturnEdge, SitesMatch;
    assert g.HasEdge(c[j], c[i]) && g.HasEdge(c[i + 1], c[k + 1]);
    assert IsScanned(g, p, owner, cfgs, c[i], c[i + 1]);
  }

  lemma {:induction false} OwnerAlong(g: Asg, p: Program, owner: nat -> Fn, c: seq<nat>, i: nat)
    requires Owns(p, owner) && IsWalk(OpenBranches(g, p), c) && i < |c|
    ensures owner(c[i]) == owner(c[0])
  {
    if i > 0 {
      OwnerAlong(g, p, owner, c, i - 1);
      assert (c[i - 1], c[i - 1 + 1]) in OpenBranches(g, p);
    }
  }

  // ---------------------------------------------------------------- one graph of open edges

  /** The unflagged branches and calls, and the unflagged returns to dropped calls that come back. */
  ghost function OpenEdges(g: Asg, p: Program): Edges
    requires p.Valid()
  {
    set u, v | u in g.succs && v in g.succs[u] && IsOpen(g, p, u, v) :: (u, v)
  }

  ghost predicate IsOpen(g: Asg, p: Program, u: nat, v: nat)
    requires p.Valid()
  {
    && g.HasEdge(u, v) && !g.IsBackEdge(u, v)
    && ((u, v) in p.intra || IsCallEdge(p, u, v) || (IsStray(g, p, u, v) && ComesBack(g, p, u, v)))
  }

  ghost function RankByAncestors(g: Asg, p: Program): nat -> nat
    requires p.Valid()
  {
    (v: nat) => |Ancestors(OpenEdges(g, p), v)|
  }

  lemma OpenRises(g: Asg, p: Program, u: nat, v: nat)
    requires p.Valid() && Acyclic(OpenEdges(g, p)) && IsOpen(g, p, u, v)
    ensures RankByAncestors(g, p)(u) < RankByAncestors(g, p)(v)
  {
    assert u in g.succs && v in g.succs[u];
    assert (u, v) in OpenEdges(g, p);
    hide Ancestors, Acyclic, OpenEdges;
    AncestorsGrow(OpenEdges(g, p), u, v);
  }

  /** One rank for the whole graph, even where returns to dropped calls come back. */
  lemma RankByOpenEdges(g: Asg, p: Program)
    requires p.Valid() && Acyclic(OpenEdges(g, p))
    ensures Ranked(g, p, RankByAncestors(g, p)) && Drains(g, p, RankByAncestors(g, p))
  {
    hide Ancestors, Acyclic, OpenEdges, RankByAncestors, IsCallEdge, IsStray, ComesBack, Program.Valid;
    forall u: nat, v: nat | IsOpen(g, p, u, v) ensures RankByAncestors(g, p)(u) < RankByAncestors(g, p)(v) {
      OpenRises(g, p, u, v);
    }
    forall v: nat ensures RankByAncestors(g, p)(v) >= 1 { RankPositive(g, p, v); }
  }

  lemma RankPositive(g: Asg, p: Program, v: nat)
    requires p.Valid()
    ensures RankByAncestors(g, p)(v) >= 1
  {
    AncestorsFew(OpenEdges(g, p), v);
  }

  // ---------------------------------------------------------------- the branching factor

  ghost function Width(g: Asg, v: nat): nat
    requires v in g.nodes
  {
    (if IsBoundedHeader(g, v) then g.nodes[v].upperLoopBound else 1) * |PredList(g, v)|
  }

  ghost function Widths(g: Asg, order: seq<nat>): nat {
    if order == [] then 1
    else Widths(g, order[..|order| - 1]) + (if order[|order| - 1] in g.nodes then Width(g, order[|order| - 1]) else 0)
  }

  lemma {:induction false} WidthsCover(g: Asg, order: seq<nat>)
    ensures Widths(g, order) >= 1 && forall v :: v in order && v in g.nodes ==> Width(g, v) <= Widths(g, order)
  {
    if order != [] {
      var front := order[..|order| - 1];
      WidthsCover(g, front);
      assert order == front + [order[|order| - 1]];
    }
  }

  lemma SomeBranching(g: Asg)
    ensures Branching(g, Widths(g, Ascending(g.nodes.Keys)))
  {
    AscendingExact(g.nodes.Keys);
    WidthsCover(g, Ascending(g.nodes.Keys));
    forall v | v in g.nodes ensures Width(g, v) <= Widths(g, Ascending(g.nodes.Keys)) {
      assert v in Ascending(g.nodes.Keys);
    }
  }

  // ---------------------------------------------------------------- the theorem

  /** With a rank the solver has an optimum for every program that can complete, and it is at least
      the cost of every complete run. */
  lemma RankGivesWcet(g: Asg, p: Program, rank: nat -> nat, b: Bounds, steps: seq<Step>, m: Model, cols: Columns)
    requires Tight(g, p) && Ranked(g, p, rank) && Drains(g, p, rank)
    requires BoundsMatch(g, b) && DistinctLandings(p) && Encodes(m, cols, g)
    requires IsComplete(g, p, b, steps) && |Final(p, b, steps).stack| == 1
    ensures exists best: Values :: IsOptimal(m, best) && RunCost(p, b, steps, CostOf(g)) <= ColumnCost(m.colCost, best)
  {
    assert Embeds(g, p) && SitesMatch(g, p);
    hide *;
    DrainsTrickle(g, p, rank);
    SomeBranching(g);
    OptimumExists(g, p, b, steps, rank, Widths(g, Ascending(g.nodes.Keys)), m, cols);
    var best: Values :| IsOptimal(m, best);
    OptimumBoundsRuns(g, p, b, steps, m, cols, best);
  }

  /** If each function's branch cycles and the call graph's cycles all cross flagged edges into
      bounded headers, recursion included, and no return to a dropped call comes back, then for every program that can
      complete the solver has an optimum, and it is at least the cost of every complete run. */
  lemma CutCyclesGiveWcet(g: Asg, p: Program, owner: nat -> Fn, b: Bounds, steps: seq<Step>, m: Model, cols: Columns)
    requires Tight(g, p) && Owns(p, owner) && Acyclic(OpenBranches(g, p)) && Acyclic(OpenCalls(g, p, owner)) && NothingComesBack(g, p)
    requires BoundsMatch(g, b) && DistinctLandings(p) && Encodes(m, cols, g)
    requires IsComplete(g, p, b, steps) && |Final(p, b, steps).stack| == 1
    ensures exists best: Values :: IsOptimal(m, best) && RunCost(p, b, steps, CostOf(g)) <= ColumnCost(m.colCost, best)
  {
    hide *;
    TightValid(g, p);
    RankByFunction(g, p, owner);
    RankDrains(g, p, owner);
    RankGivesWcet(g, p, RankOf(g, p, owner), b, steps, m, cols);
  }

  /** The same when the open edges of the whole graph form no cycle: a return to a
      dropped call may come back, as long as calls, branches and such returns do not close the way. */
  lemma OpenCyclesGiveWcet(g: Asg, p: Program, b: Bounds, steps: seq<Step>, m: Model, cols: Columns)
    requires Tight(g, p) && Acyclic(OpenEdges(g, p))
    requires BoundsMatch(g, b) && DistinctLandings(p) && Encodes(m, cols, g)
    requires IsComplete(g, p, b, steps) && |Final(p, b, steps).stack| == 1
    ensures exists best: Values :: IsOptimal(m, best) && RunCost(p, b, steps, CostOf(g)) <= ColumnCost(m.colCost, best)
  {
    hide *;
    TightValid(g, p);
    RankByOpenEdges(g, p);
    RankGivesWcet(g, p, RankByAncestors(g, p), b, steps, m, cols);
  }
}
