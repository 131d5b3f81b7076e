/** Functions out of reach of the start that keep the maximum from existing. */
module DeadCode {
  import opened ReplacementPolicy
  import opened AbstractStateGraph
  import opened WcetModel
  import opened Runs
  import opened IpetSoundness
  import opened FiniteWcet
  import opened Walks
  import opened Leaks
  import opened BoundedCycles
  import opened Circulations
  import opened FreeCycles
  import opened DeadCalls

  /** The counts of a walk that starts at the entry node. */
  ghost function Started(c: seq<nat>): Point
    requires c != []
  {
    (x: Var) => match x
      case NodeVar(u) => Visits(c, u) + One(c[0] == u)
      case EdgeVar(u, v) => Uses(c, u, v)
  }

  lemma {:induction false} SumsStarted(c: seq<nat>, list: seq<nat>, u: nat)
    requires c != []
    ensures InSum(Started(c), list, u) == InSum(PointOfWalk(c), list, u)
    ensures OutSum(Started(c), list, u) == OutSum(PointOfWalk(c), list, u)
  {
    if list != [] { SumsStarted(c, list[..|list| - 1], u); }
  }

  /** A walk from the entry to an exit that meets the loop rows and matching rows is feasible. */
  lemma StartedIsFeasible(g: Asg, c: seq<nat>)
    requires g.Valid() && IsWalkIn(g, c) && c[|c| - 1] in g.nodes && g.nodes[c[|c| - 1]].isExit
    requires forall u :: u in g.nodes ==> (g.nodes[u].isEntry <==> u == c[0])
    requires forall u, v :: g.HasEdge(u, v) ==> !g.nodes[v].isEntry
    requires forall u :: IsBoundedHeader(g, u) ==> LoopBoundHolds(g, Started(c), u)
    requires forall i :: 0 <= i < |g.callSites| ==> MatchingHolds(g, Started(c), g.callSites[i])
    ensures Feasible(g, Started(c))
  {
    hide LoopBoundHolds, MatchingHolds, PredList, SuccList, InSum, OutSum;
    forall u | u in g.nodes ensures NodeRowsHold(g, Started(c), u) {
      WalkConserves(g, c, u);
      SumsStarted(c, PredList(g, u), u);
      SumsStarted(c, SuccList(g, u), u);
      if g.nodes[u].isEntry { EntersOnlyTargets(g, c, u); }
    }
  }

  lemma Step(c: seq<nat>, w: nat, u: nat, v: nat)
    requires c != []
    ensures Visits(c + [w], u) == Visits(c, u) + One(w == u)
    ensures Uses(c + [w], u, v) == Uses(c, u, v) + One(c[|c| - 1] == u && w == v)
  {
    assert (c + [w])[..|c|] == c;
  }

  // ---------------------------------------------------------------- a dead function that calls itself

  /** Main is 0, 1, 2: it calls the one-block function 2 (block 4). The dead recursive function 1 starts
      at 8, calls itself in 3, landing in 5; 5 calls function 2, landing in 6, which returns. */
  function Recursive(): Program {
    Program(0, {(0, 1), (1, 2), (5, 6), (8, 3), (8, 5), (3, 5)}, map[1 := 8, 2 := 4], map[1 := {6}, 2 := {4}],
            [Site(1, 2, 2, true), Site(5, 2, 6, true), Site(3, 1, 5, true)])
  }

  function Plain(): Attributes { Attributes(1, false, false, false, 0) }

  /** What pruning leaves: 8 and 3 are gone, 5 and 6 are reached over the return of function 2. */
  function RecursiveGraph(): Asg {
    Asg(
      map[0 := Plain().(isEntry := true), 1 := Plain(), 2 := Plain().(isExit := true), 4 := Plain(), 5 := Plain(), 6 := Plain()],
      map[0 := map[1 := false], 1 := map[2 := false, 4 := false], 4 := map[2 := false, 6 := false],
          5 := map[4 := false, 6 := false], 6 := map[5 := false]],
      map[1 := {0}, 2 := {1, 4}, 4 := {1, 5}, 5 := {6}, 6 := {4, 5}],
      map[2 := 4], map[1 := [6], 2 := [4]], [CallSite(1, 2, 2), CallSite(5, 6, 2)])
  }

  function RecursiveOwner(): nat -> Fn { (u: nat) => if u == 4 then 2 else if u == 3 || u == 5 || u == 6 || u == 8 then 1 else 0 }

  predicate IsRecursiveEdge(u: nat, v: nat) {
    match u
    case 0 => v == 1
    case 1 => v == 2 || v == 4
    case 4 => v == 2 || v == 6
    case 5 => v == 4 || v == 6
    case 6 => v == 5
    case _ => false
  }

  lemma RecursiveEdges(u: nat, v: nat)
    ensures RecursiveGraph().HasEdge(u, v) <==> IsRecursiveEdge(u, v)
    ensures v in RecursiveGraph().Successors(u) <==> u in RecursiveGraph().Predecessors(v)
    ensures !RecursiveGraph().IsBackEdge(u, v)
  {}

  predicate IsRecursiveBranch(u: nat, v: nat) {
    match u
    case 0 => v == 1
    case 1 => v == 2
    case 5 => v == 6
    case 8 => v == 3 || v == 5
    case 3 => v == 5
    case _ => false
  }

  lemma RecursiveFacts()
    ensures var p := Recursive();
            && p.entry == 0 && (forall u: nat, v: nat :: (u, v) in p.intra ==> IsRecursiveBranch(u, v))
            && (forall u: nat, v: nat :: IsRecursiveBranch(u, v) ==> (u, v) in p.intra)
            && p.entryOf == map[1 := 8, 2 := 4] && p.returnsOf == map[1 := {6}, 2 := {4}]
            && p.sites == [Site(1, 2, 2, true), Site(5, 2, 6, true), Site(3, 1, 5, true)]
            && p.entryOf[1] == 8 && p.entryOf[2] == 4 && p.returnsOf[1] == {6} && p.returnsOf[2] == {4}
  {}

  lemma RecursiveIsValid()
    ensures Recursive().Valid() && DistinctLandings(Recursive())
  {
    hide Recursive;
    RecursiveFacts();
  }

  lemma RecursiveOwned()
    ensures Owns(Recursive(), RecursiveOwner())
  {
    hide Recursive;
    RecursiveFacts();
    var p := Recursive();
    forall f, r | f in p.returnsOf && r in p.returnsOf[f] ensures RecursiveOwner()(r) == f {
      assert f == 1 || f == 2;
    }
  }

  lemma RecursiveNodes()
    ensures var g := RecursiveGraph();
            && g.nodes.Keys == {0, 1, 2, 4, 5, 6} && g.nodes[0].isEntry && g.nodes[2].isExit
            && (forall u :: u in g.nodes ==> (g.nodes[u].isEntry <==> u == 0) && (g.nodes[u].isExit <==> u == 2) && !g.nodes[u].isLoopHeader)
            && g.functionEntries == map[2 := 4] && g.functionReturns == map[1 := [6], 2 := [4]]
            && g.callSites == [CallSite(1, 2, 2), CallSite(5, 6, 2)]
            && g.functionEntries[2] == 4 && g.functionReturns[1] == [6] && g.functionReturns[2] == [4]
  {}

  lemma RecursiveEmbeds()
    ensures Embeds(RecursiveGraph(), Recursive())
  {
    hide Recursive, RecursiveGraph, Asg.HasEdge, Asg.Successors, Asg.Predecessors, Program.Valid;
    RecursiveIsValid();
    RecursiveFacts();
    RecursiveNodes();
    EdgesBothWays();
    var g, p := RecursiveGraph(), Recursive();
    assert g.Valid();
    assert forall u: nat :: !g.HasEdge(u, p.entry);
    assert forall u: nat, v: nat :: (u, v) in p.intra && u in g.nodes ==> g.HasEdge(u, v);
    assert forall i :: 0 <= i < |p.sites| && p.sites[i].call in g.nodes ==>
          g.HasEdge(p.sites[i].call, p.entryOf[p.sites[i].callee]);
    assert forall i, r: nat :: 0 <= i < |p.sites| && p.sites[i].hasLanding && r in p.returnsOf[p.sites[i].callee] && r in g.nodes ==>
          g.HasEdge(r, p.sites[i].landing);
  }

  lemma EdgesBothWays()
    ensures var g := RecursiveGraph();
            && (forall u: nat, v: nat :: g.HasEdge(u, v) <==> IsRecursiveEdge(u, v))
            && (forall u: nat, v: nat :: v in g.Successors(u) <==> u in g.Predecessors(v))
            && (forall u: nat, v: nat :: v in g.Successors(u) <==> g.HasEdge(u, v))
            && (forall u: nat, v: nat :: !g.IsBackEdge(u, v))
  {
    var g := RecursiveGraph();
    hide RecursiveGraph;
    forall u: nat, v: nat
      ensures g.HasEdge(u, v) <==> IsRecursiveEdge(u, v)
      ensures v in g.Successors(u) <==> u in g.Predecessors(v)
      ensures v in g.Successors(u) <==> g.HasEdge(u, v)
      ensures !g.IsBackEdge(u, v)
    {
      RecursiveEdges(u, v);
    }
  }

  lemma RecursiveSites()
    ensures Recursive().Valid() && SitesMatch(RecursiveGraph(), Recursive())
  {
    hide Recursive, RecursiveGraph, IsMatched, Asg.HasEdge, Asg.Successors, Asg.Predecessors, Program.Valid;
    RecursiveIsValid();
    RecursiveFacts();
    RecursiveNodes();
    var g, p := RecursiveGraph(), Recursive();
    assert SiteIs(p, g.callSites[0], 0) && SiteIs(p, g.callSites[1], 1);
    assert ReturnsOf(g, 2) == [4] && ReturnsOf(g, 1) == [6];
  }

  lemma RecursiveTight()
    ensures Tight(RecursiveGraph(), Recursive())
  {
    hide Recursive, RecursiveGraph, Asg.HasEdge, Asg.IsBackEdge, Asg.Successors, Asg.Predecessors, Program.Valid, Embeds, SitesMatch, IsBoundedHeader;
    RecursiveEmbeds();
    RecursiveSites();
    RecursiveFacts();
    RecursiveNodes();
    EdgesBothWays();
    var g, p := RecursiveGraph(), Recursive();
    assert CallsAlong(p, 0, 1, 4) && CallsAlong(p, 1, 5, 4);
    assert ReturnsAlong(p, 0, 4, 2) && ReturnsAlong(p, 1, 4, 6) && ReturnsAlong(p, 2, 6, 5);
    assert SiteIs(p, g.callSites[0], 0) && SiteIs(p, g.callSites[1], 1);
  }

  lemma RecursiveCut()
    ensures Acyclic(OpenBranches(RecursiveGraph(), Recursive()))
    ensures Acyclic(OpenCalls(RecursiveGraph(), Recursive(), RecursiveOwner()))
  {
    hide Recursive, RecursiveGraph, Asg.HasEdge, Asg.IsBackEdge, Asg.Successors, Acyclic;
    RecursiveFacts();
    RecursiveNodes();
    EdgesBothWays();
    var g, p := RecursiveGraph(), Recursive();
    RisingIsAcyclic(OpenBranches(g, p), (u: nat) => u);
    RisingIsAcyclic(OpenCalls(g, p, RecursiveOwner()), (u: nat) => u);
  }

  /** Main's run: it calls function 2 once and stops. */
  lemma MainRun()
    ensures var x := Started([0, 1, 4, 2]);
            x(EdgeVar(1, 4)) == 1 && x(EdgeVar(4, 2)) == 1 && x(EdgeVar(5, 4)) == 0 && x(EdgeVar(4, 6)) == 0
  {
    assert [0, 1] == [0] + [1] && [0, 1, 4] == [0, 1] + [4] && [0, 1, 4, 2] == [0, 1, 4] + [2];
    forall u: nat, v: nat
      ensures Uses([0, 1, 4, 2], u, v) == One(u == 0 && v == 1) + One(u == 1 && v == 4) + One(u == 4 && v == 2)
    {
      Step([0], 1, u, v);
      Step([0, 1], 4, u, v);
      Step([0, 1, 4], 2, u, v);
    }
  }

  lemma MainRows()
    ensures var g := RecursiveGraph(); forall i :: 0 <= i < |g.callSites| ==> MatchingHolds(g, Started([0, 1, 4, 2]), g.callSites[i])
  {
    hide RecursiveGraph, Asg.HasEdge, Uses, Visits;
    MainRun();
    RecursiveNodes();
    EdgesBothWays();
    var g, x := RecursiveGraph(), Started([0, 1, 4, 2]);
    assert [4][..0] == [];
    assert ReturnsOf(g, 2) == [4];
    assert ReturnEdges(g, [4], 2) == [4] && ReturnEdges(g, [4], 6) == [4];
    assert InSum(x, [4], 2) == 1 && InSum(x, [4], 6) == 0;
  }

  lemma MainIsFeasible()
    ensures Feasible(RecursiveGraph(), Started([0, 1, 4, 2]))
  {
    hide RecursiveGraph, Asg.HasEdge, Asg.Successors, Asg.Predecessors, Uses, Visits, Started, Feasible, MatchingHolds;
    MainRows();
    RecursiveNodes();
    EdgesBothWays();
    var g, c := RecursiveGraph(), [0, 1, 4, 2];
    assert g.Valid();
    StartedIsFeasible(g, c);
  }

  lemma OneStep(e: Edges, a: nat, b: nat)
    requires (a, b) in e
    ensures Reaches(e, a, b)
  {
    assert WalkFromTo(e, [a, b], a, b);
  }

  lemma RecursiveReach()
    ensures var e := Recursive().intra;
            Reaches(e, 0, 0) && Reaches(e, 0, 1) && Reaches(e, 0, 2) && Reaches(e, 4, 4) && Reaches(e, 8, 3) && Reaches(e, 8, 5) && Reaches(e, 8, 6)
  {
    hide Recursive, Reaches;
    RecursiveFacts();
    var e := Recursive().intra;
    ReachesSelf(e, 0);
    ReachesSelf(e, 4);
    OneStep(e, 0, 1);
    ReachesStep(e, 0, 1, 2);
    OneStep(e, 8, 3);
    OneStep(e, 8, 5);
    ReachesStep(e, 8, 5, 6);
  }

  lemma RecursiveRooted(v: nat)
    requires v == 0 || v == 1 || v == 2 || v == 3 || v == 4 || v == 5 || v == 6
    ensures IsRooted(Recursive(), RecursiveOwner(), v)
  {
    hide Recursive, Reaches;
    RecursiveFacts();
    RecursiveReach();
    assert 1 in Recursive().entryOf && 2 in Recursive().entryOf;
  }

  lemma RecursiveOrderly()
    ensures Recursive().Valid() && IsOrderly(RecursiveGraph(), Recursive(), RecursiveOwner())
  {
    hide Recursive, RecursiveGraph, Asg.HasEdge, Asg.IsBackEdge, Program.Valid, IsStray, IsLostCall, Dominates, IsRooted;
    RecursiveIsValid();
    RecursiveFacts();
    RecursiveNodes();
    EdgesBothWays();
    forall v | v in RecursiveGraph().nodes ensures IsRooted(Recursive(), RecursiveOwner(), v) { RecursiveRooted(v); }
    forall i | 0 <= i < |Recursive().sites| ensures IsRooted(Recursive(), RecursiveOwner(), Recursive().sites[i].call) {
      RecursiveRooted(Recursive().sites[i].call);
    }
  }

  /** The graph has everything a bounded one needs but one thing: the return of the dead function to its
      dropped call closes a cycle of free edges. Its counts have no limit. */
  lemma DeadRecursionUnbounds(t: nat)
    ensures Recursive().Valid() && IsOrderly(RecursiveGraph(), Recursive(), RecursiveOwner())
    ensures Tight(RecursiveGraph(), Recursive()) && DistinctLandings(Recursive()) && Owns(Recursive(), RecursiveOwner())
    ensures Acyclic(OpenBranches(RecursiveGraph(), Recursive()))
    ensures Acyclic(OpenCalls(RecursiveGraph(), Recursive(), RecursiveOwner()))
    ensures IsFreeCycle(RecursiveGraph(), [6, 5, 6])
    ensures exists y: Point :: Feasible(RecursiveGraph(), y) && y(NodeVar(6)) >= t
  {
    hide RecursiveGraph, Recursive, Tight, DistinctLandings, Owns, Acyclic, Feasible, IsFreeCycle, Embeds, IsOrderly;
    RecursiveOrderly();
    RecursiveTight();
    RecursiveIsValid();
    RecursiveOwned();
    RecursiveCut();
    MainIsFeasible();
    FreeCycleThere();
    TightValid(RecursiveGraph(), Recursive());
    FreeCycleUnbounds(RecursiveGraph(), Recursive(), Started([0, 1, 4, 2]), [6, 5, 6], t);
  }

  lemma FreeCycleThere()
    ensures IsFreeCycle(RecursiveGraph(), [6, 5, 6])
  {
    hide RecursiveGraph, Asg.HasEdge, Asg.IsBackEdge, IsMatched;
    RecursiveNodes();
    EdgesBothWays();
    var g, c := RecursiveGraph(), [6, 5, 6];
    assert [4][..0] == [];
    assert ReturnsOf(g, 2) == [4];
    assert forall r, l: nat :: r in ReturnEdges(g, [4], l) ==> r == 4;
    assert IsFree(g, 6, 5) && IsFree(g, 5, 6);
    forall i | 0 <= i < |c| - 1 ensures IsFree(g, c[i], c[i + 1]) { assert i == 0 || i == 1; }
  }
}
