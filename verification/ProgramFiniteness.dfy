/** When the solver finds a WCET for a finalized program. */
module ProgramFiniteness {
  import opened AbstractStateGraph
  import opened Walks
  import opened GraphBlocks
  import opened WcetModel
  import opened Runs
  import opened CallWiring
  import opened RecursionBounds
  import opened ProgramTranslation
  import opened IpetSoundness
  import opened HighsModel
  import opened FiniteWcet
  import opened Leaks
  import opened BoundedCycles
  import opened Circulations
  import opened FreeCycles
  import opened DeadCalls
  import opened ProgramWcet

  /** A program whose branch cycles are all flagged, for which no unbounded recursion is reported, and
      in which no return to a dropped call comes back has a WCET: the solver finds an optimum, and it bounds every complete
      run. */
  lemma ProgramHasWcet(before: Blocks, c: CallInfo, lim: Limits, entry: nat, w: Journal, nodes: Blocks, g: Asg,
                       r: Findings, owner: nat -> Fn, m: Model, cols: Columns, steps: seq<Step>)
    requires IsFinal(before, c, lim, entry, w, nodes, g) && IsTidy(c, nodes) && DistinctLandings(ProgramOf(before, c, entry))
    requires Reports(c, lim, nodes, w, r) && NoneUnbounded(r)
    requires OwnsCallers(c, owner) && Owns(ProgramOf(before, c, entry), owner)
    requires Acyclic(OpenBranches(g, ProgramOf(before, c, entry))) && NothingComesBack(g, ProgramOf(before, c, entry))
    requires Encodes(m, cols, g)
    requires RunsThrough(before, c, entry, nodes, steps)
    ensures exists best: Values :: IsOptimal(m, best)
              && RunCost(ProgramOf(before, c, entry), BoundsOf(nodes), steps, VisitCost(before, c, lim)) <= ColumnCost(m.colCost, best)
  {
    assert Mirrored(nodes) && IsStateGraphOf(g, nodes, c);
    ThroughIsComplete(before, c, lim, entry, w, nodes, g, steps);
    hide *;
    CostsVisits(before, c, lim, entry, w, nodes, g, steps);
    FinalTight(before, c, lim, entry, w, nodes, g);
    FinalBounds(nodes, c, g);
    NoOpenRecursion(before, c, lim, entry, w, nodes, g, r, owner);
    CutCyclesGiveWcet(g, ProgramOf(before, c, entry), owner, BoundsOf(nodes), steps, m, cols);
  }

  /** In particular functions out of reach of the start may call live ones, as long as these calls are
      not recursive and no function that returns is called without a landing. */
  lemma PlainProgramHasWcet(before: Blocks, c: CallInfo, lim: Limits, entry: nat, w: Journal, nodes: Blocks, g: Asg,
                            r: Findings, owner: nat -> Fn, m: Model, cols: Columns, steps: seq<Step>)
    requires IsFinal(before, c, lim, entry, w, nodes, g) && IsTidy(c, nodes) && DistinctLandings(ProgramOf(before, c, entry))
    requires Reports(c, lim, nodes, w, r) && NoneUnbounded(r)
    requires OwnsCallers(c, owner) && Owns(ProgramOf(before, c, entry), owner)
    requires Acyclic(OpenBranches(g, ProgramOf(before, c, entry))) && Encodes(m, cols, g)
    requires Acyclic(DroppedCalls(g, ProgramOf(before, c, entry), owner)) && LostCalleesEnd(g, ProgramOf(before, c, entry))
    requires RunsThrough(before, c, entry, nodes, steps)
    ensures exists best: Values :: IsOptimal(m, best)
              && RunCost(ProgramOf(before, c, entry), BoundsOf(nodes), steps, VisitCost(before, c, lim)) <= ColumnCost(m.colCost, best)
  {
    hide *;
    FinalEmbeds(before, c, lim, entry, w, nodes, g);
    PlainDeadCodeDrains(g, ProgramOf(before, c, entry), owner);
    ProgramHasWcet(before, c, lim, entry, w, nodes, g, r, owner, m, cols, steps);
  }

  lemma CompleteIsFeasible(before: Blocks, c: CallInfo, lim: Limits, entry: nat, w: Journal, nodes: Blocks, g: Asg, steps: seq<Step>)
    returns (x: Point)
    requires IsFinal(before, c, lim, entry, w, nodes, g) && DistinctLandings(ProgramOf(before, c, entry))
    requires RunsThrough(before, c, entry, nodes, steps)
    ensures g.Valid() && Feasible(g, x)
  {
    assert Mirrored(nodes) && IsStateGraphOf(g, nodes, c);
    ThroughIsComplete(before, c, lim, entry, w, nodes, g, steps);
    hide *;
    var p := ProgramOf(before, c, entry);
    FinalEmbeds(before, c, lim, entry, w, nodes, g);
    FinalSites(before, c, lim, entry, w, nodes, g);
    FinalBounds(nodes, c, g);
    EmbedsValid(g, p);
    RunIsFeasible(g, p, BoundsOf(nodes), steps);
    x := Counts(p, BoundsOf(nodes), steps);
  }

  /** For any finalized program that can complete: the solver has an optimum exactly when no circulation
      of the rows carries cost. */
  lemma ProgramOptimumIff(before: Blocks, c: CallInfo, lim: Limits, entry: nat, w: Journal, nodes: Blocks, g: Asg,
                          m: Model, cols: Columns, steps: seq<Step>)
    requires IsFinal(before, c, lim, entry, w, nodes, g) && DistinctLandings(ProgramOf(before, c, entry)) && Encodes(m, cols, g)
    requires RunsThrough(before, c, entry, nodes, steps)
    ensures (exists best: Values :: IsOptimal(m, best)) <==> CirculationsAreFree(g)
  {
    hide *;
    var x := CompleteIsFeasible(before, c, lim, entry, w, nodes, g, steps);
    OptimumExistsIff(g, x, m, cols);
  }

  /** For an orderly program in which no unbounded recursion is reported: the counts have a common limit
      exactly when no cycle of unflagged branches, returns to dropped calls and unanswered calls is left. */
  lemma ProgramCountsCappedIff(before: Blocks, c: CallInfo, lim: Limits, entry: nat, w: Journal, nodes: Blocks, g: Asg,
                               r: Findings, owner: nat -> Fn, steps: seq<Step>)
    requires IsFinal(before, c, lim, entry, w, nodes, g) && IsTidy(c, nodes) && DistinctLandings(ProgramOf(before, c, entry))
    requires Reports(c, lim, nodes, w, r) && NoneUnbounded(r)
    requires OwnsCallers(c, owner) && Owns(ProgramOf(before, c, entry), owner)
    requires ProgramOf(before, c, entry).Valid() && IsOrderly(g, ProgramOf(before, c, entry), owner)
    requires RunsThrough(before, c, entry, nodes, steps)
    ensures (exists cap :: Capped(g, cap)) <==> Acyclic(FreeEdges(g))
  {
    hide *;
    FinalTight(before, c, lim, entry, w, nodes, g);
    NoOpenRecursion(before, c, lim, entry, w, nodes, g, r, owner);
    var x := CompleteIsFeasible(before, c, lim, entry, w, nodes, g, steps);
    CountsCappedIff(g, ProgramOf(before, c, entry), owner, x);
  }
}
