/** Where the matching rows are not sound: two call sites of one callee with the same landing.

    Splitting blocks at calls leaves at most one call block falling through into any block, and gives
    every other call a block of its own for the jump behind it, so this input reaches the solver only
    from graphs built by hand. */
module SharedLandings {
  import opened ReplacementPolicy
  import opened AbstractStateGraph
  import opened WcetModel
  import opened Runs
  import opened IpetSoundness

  /** Entry 0 branches to 1 or 2; both call the one-block function 7 (block 4) and land in 3, the exit. */
  function TwoCallers(): Program {
    Program(0, {(0, 1), (0, 2), (1, 3), (2, 3)}, map[7 := 4], map[7 := {4}],
            [Site(1, 7, 3, true), Site(2, 7, 3, true)])
  }

  function TwoCallersGraph(): Asg {
    Asg(
      map[0 := Attributes(1, true, false, false, 0), 1 := Attributes(1, false, false, false, 0),
          2 := Attributes(1, false, false, false, 0), 3 := Attributes(1, false, true, false, 0),
          4 := Attributes(1, false, false, false, 0)],
      map[0 := map[1 := false, 2 := false], 1 := map[3 := false, 4 := false], 2 := map[3 := false, 4 := false], 4 := map[3 := false]],
      map[1 := {0}, 2 := {0}, 3 := {1, 2, 4}, 4 := {1, 2}],
      map[7 := 4], map[7 := [4]], [CallSite(1, 3, 7), CallSite(2, 3, 7)])
  }

  function NoBounds(): Bounds { Bounds(map[], {}) }

  /** Through the first caller, into the function and back. */
  function FirstCaller(): seq<Step> { [Branch(0, 1), Call(0), Return(4)] }

  lemma EdgesAre(u: nat, v: nat)
    ensures TwoCallersGraph().HasEdge(u, v) <==>
            (u, v) in {(0, 1), (0, 2), (1, 3), (1, 4), (2, 3), (2, 4), (4, 3)}
    ensures v in TwoCallersGraph().Successors(u) <==> u in TwoCallersGraph().Predecessors(v)
  {}

  lemma ProgramIsValid()
    ensures TwoCallers().Valid()
  {
    var p := TwoCallers();
    assert p.entryOf[7] == 4 && p.returnsOf[7] == {4};
    assert forall i :: 0 <= i < |p.sites| ==> p.sites[i] == Site(i + 1, 7, 3, true);
  }

  lemma GraphEmbeds()
    ensures Embeds(TwoCallersGraph(), TwoCallers())
  {
    hide Asg.HasEdge, Asg.Successors, Asg.Predecessors, Program.Valid;
    ProgramIsValid();
    forall u: nat, v: nat
      ensures TwoCallersGraph().HasEdge(u, v) <==>
              (u, v) in {(0, 1), (0, 2), (1, 3), (1, 4), (2, 3), (2, 4), (4, 3)}
      ensures v in TwoCallersGraph().Successors(u) <==> u in TwoCallersGraph().Predecessors(v)
    {
      EdgesAre(u, v);
    }
  }

  lemma SitesFit()
    ensures TwoCallers().Valid() && SitesMatch(TwoCallersGraph(), TwoCallers())
  {
    hide Program.Valid, IsMatched, Asg.HasEdge;
    ProgramIsValid();
    var g, p := TwoCallersGraph(), TwoCallers();
    assert SiteIs(p, g.callSites[0], 0) && SiteIs(p, g.callSites[1], 1);
    assert ReturnsOf(g, 7) == [4];
  }

  /** A run with its position, its stack of sites, and the returns it made to the other site. */
  ghost predicate At(steps: seq<Step>, node: nat, sites: seq<Option<nat>>, strays: nat) {
    var p, b := TwoCallers(), NoBounds();
    && p.Valid() && IsRun(p, b, steps) && Final(p, b, steps).node == node
    && |Final(p, b, steps).stack| == |sites| && (forall k :: 0 <= k < |sites| ==> Final(p, b, steps).stack[k].site == sites[k])
    && StrayReturns(p, b, steps, 1) == strays
  }

  lemma Started()
    ensures At([], 0, [None], 0)
  {}

  lemma Branched()
    ensures At([Branch(0, 1)], 1, [None], 0)
  {
    Started();
    assert [Branch(0, 1)][..0] == [];
  }

  lemma Called()
    ensures At([Branch(0, 1), Call(0)], 4, [None, Some(0)], 0)
  {
    Branched();
    assert [Branch(0, 1), Call(0)][..1] == [Branch(0, 1)];
  }

  lemma Returned()
    ensures At(FirstCaller(), 3, [None], 1)
  {
    Called();
    assert FirstCaller()[..2] == [Branch(0, 1), Call(0)];
  }

  /** At the end no call is unfinished, yet one return went to the other site. */
  lemma EndsAtExit()
    ensures At(FirstCaller(), 3, [None], 1) && IsRun(TwoCallers(), NoBounds(), FirstCaller())
    ensures Pending(Final(TwoCallers(), NoBounds(), FirstCaller()).stack, 1) == 0
    ensures Final(TwoCallers(), NoBounds(), FirstCaller()).node == 3
    ensures StrayReturns(TwoCallers(), NoBounds(), FirstCaller(), 1) == 1
  {
    hide IsRun, Final, Program.Valid, StrayReturns;
    Returned();
    BottomFrame(TwoCallers(), NoBounds(), FirstCaller());
    BasePending(Final(TwoCallers(), NoBounds(), FirstCaller()).stack, 1);
  }

  /** The counts of this complete run break the row of the second site, which it never visits. */
  lemma SharedLandingBreaksRow()
    ensures Embeds(TwoCallersGraph(), TwoCallers()) && SitesMatch(TwoCallersGraph(), TwoCallers())
    ensures IsComplete(TwoCallersGraph(), TwoCallers(), NoBounds(), FirstCaller())
    ensures !MatchingHolds(TwoCallersGraph(), Counts(TwoCallers(), NoBounds(), FirstCaller()), CallSite(2, 3, 7))
  {
    hide IsRun, Final, StrayReturns, Pending, Program.Valid, Embeds, SitesMatch, MatchingHolds, Counts, At;
    GraphEmbeds();
    SitesFit();
    EndsAtExit();
    var g, p := TwoCallersGraph(), TwoCallers();
    assert 4 in KeptReturns(g, p, 7);
    assert SiteIs(p, CallSite(2, 3, 7), 1);
    MatchingIff(g, p, NoBounds(), FirstCaller(), CallSite(2, 3, 7), 1);
  }
}
