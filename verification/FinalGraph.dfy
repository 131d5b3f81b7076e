/** What finalizing leaves of each block, in terms of the blocks and calls as they were added. */
module FinalGraph {
  import opened ReplacementPolicy
  import opened AbstractStateGraph
  import opened Walks
  import opened GraphBlocks
  import opened Runs
  import opened CallWiring
  import opened RecursionBounds
  import C = CallCycles

  // ---------------------------------------------------------------- costs

  /** A call that charges its block: the callee has no blocks and no body, and what it costs is known. */
  ghost predicate Charges(c: CallInfo, lim: Limits, s: Site) {
    c.start != Some(s.callee) && s.callee !in c.entryOf && s.callee in lim.declared && s.callee in lim.externalCost
  }

  /** What the calls made in block `u` cost beyond the blocks of the program. */
  ghost function CallCosts(c: CallInfo, lim: Limits, sites: seq<Site>, u: nat): nat {
    if sites == [] then 0
    else (if sites[0].call == u && Charges(c, lim, sites[0]) then lim.externalCost[sites[0].callee] else 0) + CallCosts(c, lim, sites[1..], u)
  }

  lemma {:induction false} CallCostsAppend(c: CallInfo, lim: Limits, sites: seq<Site>, s: Site, u: nat)
    ensures CallCosts(c, lim, sites + [s], u) ==
            CallCosts(c, lim, sites, u) + (if s.call == u && Charges(c, lim, s) then lim.externalCost[s.callee] else 0)
  {
    if sites == [] {
      assert [s][1..] == [];
    } else {
      assert (sites + [s])[1..] == sites[1..] + [s];
      CallCostsAppend(c, lim, sites[1..], s, u);
    }
  }

  lemma {:induction false} ExternalCostIsCallCosts(c: CallInfo, lim: Limits, sites: seq<Site>, u: nat)
    ensures ExternalCost(c, lim, sites, u) == CallCosts(c, lim, sites, u)
  {
    if sites != [] {
      var front, s := sites[..|sites| - 1], sites[|sites| - 1];
      assert sites == front + [s];
      ExternalCostIsCallCosts(c, lim, front, u);
      CallCostsAppend(c, lim, front, s, u);
    }
  }

  // ---------------------------------------------------------------- recursion headers

  /** A call, not into the start function, that a function with a bound on its recursion makes to itself. */
  ghost predicate BoundedSelfCall(c: CallInfo, lim: Limits, s: Site) {
    && c.start != Some(s.callee) && s.callee in c.entryOf && s.call in c.caller && c.caller[s.call] == s.callee
    && s.callee in lim.recursionBound && lim.recursionBound[s.callee] > 0
  }

  /** Block `q` calls the function that starts at `u`, whose recursion is bounded by `n`. */
  ghost predicate BoundedCall(c: CallInfo, lim: Limits, q: nat, u: nat, n: nat) {
    exists s :: s in c.sites && s.call == q && s.callee in c.entryOf && c.entryOf[s.callee] == u
           && s.callee in lim.recursionBound && lim.recursionBound[s.callee] == n && n > 0
  }

  /** Finalizing adds to a block what its calls cost beyond the program, and changes no name. */
  lemma FinalCosts(c: CallInfo, lim: Limits, before: Blocks, w: Journal, u: nat)
    requires IsWiring(c, lim, before, w) && u in before
    ensures u in w.nodes && w.nodes[u].name == before[u].name
    ensures w.nodes[u].maxCycles == before[u].maxCycles + CallCosts(c, lim, c.sites, u)
    ensures w.nodes[u].minCycles == before[u].minCycles + CallCosts(c, lim, c.sites, u)
  {
    hide Mirrored, EdgesOf, Covered, IsAdjacency, SelfExactly, WiredEdges, ExternalCost, CallCosts, SelfCallers, C.InMutualCycle;
    ExternalCostIsCallCosts(c, lim, c.sites, u);
    assert WiredBlock(c, lim, c.sites, u, before[u].Label(), w.wired[u].Label());
    assert GrownBlock(c, lim, u, w.wired[u], w.nodes[u]);
  }

  /** What finalizing makes of the flags and the bound of a block: flags are added only for calls to the
      function that starts there, and then the bound is the one supplied for it; every bounded self
      call is flagged; without a supplied bound nothing changes. */
  ghost predicate FlagsFinal(c: CallInfo, lim: Limits, u: nat, before: Block, after: Block) {
    && before.backEdgePredecessors <= after.backEdgePredecessors
    && (forall q :: q in after.backEdgePredecessors && q !in before.backEdgePredecessors ==>
          after.isLoop && BoundedCall(c, lim, q, u, after.upperLoopBound))
    && (forall s :: s in c.sites && BoundedSelfCall(c, lim, s) && c.entryOf[s.callee] == u ==>
          s.call in after.backEdgePredecessors && after.isLoop && after.upperLoopBound == lim.recursionBound[s.callee])
    && ((forall f :: f in c.entryOf && c.entryOf[f] == u ==> f !in lim.recursionBound || lim.recursionBound[f] == 0) ==>
          after.backEdgePredecessors == before.backEdgePredecessors
          && after.isLoop == before.isLoop && after.upperLoopBound == before.upperLoopBound)
  }

  lemma WiredFlags(c: CallInfo, lim: Limits, u: nat, before: Block, after: Block)
    requires DistinctEntries(c) && WiredBlock(c, lim, c.sites, u, before, after)
    ensures FlagsFinal(c, lim, u, before, after)
  {}

  lemma GrownFlags(c: CallInfo, lim: Limits, u: nat, before: Block, a: Block, b: Block)
    requires DistinctEntries(c) && FlagsFinal(c, lim, u, before, a) && GrownBlock(c, lim, u, a, b)
    ensures FlagsFinal(c, lim, u, before, b)
  {
    forall q | q in b.backEdgePredecessors && q !in before.backEdgePredecessors ensures b.isLoop && BoundedCall(c, lim, q, u, b.upperLoopBound) {
      if q in a.backEdgePredecessors { assert BoundedCall(c, lim, q, u, a.upperLoopBound); } else { assert CallsEntry(c, q, u); }
    }
  }

  lemma FinalFlags(c: CallInfo, lim: Limits, before: Blocks, w: Journal, u: nat)
    requires DistinctEntries(c) && IsWiring(c, lim, before, w) && u in before
    ensures u in w.nodes && FlagsFinal(c, lim, u, before[u], w.nodes[u])
  {
    assert WiredBlock(c, lim, c.sites, u, before[u].Label(), w.wired[u].Label());
    assert GrownBlock(c, lim, u, w.wired[u], w.nodes[u]);
    hide *;
    WiredFlags(c, lim, u, before[u].Label(), w.wired[u].Label());
    LabelFlags(c, lim, u, before[u], w.wired[u]);
    GrownFlags(c, lim, u, before[u], w.wired[u], w.nodes[u]);
  }

  /** Every block after finalizing, before the unreachable ones are removed. */
  ghost predicate BlocksFinal(c: CallInfo, lim: Limits, before: Blocks, after: Blocks) {
    before.Keys == after.Keys && forall u :: u in before ==>
      && after[u].name == before[u].name
      && after[u].maxCycles == before[u].maxCycles + CallCosts(c, lim, c.sites, u)
      && after[u].minCycles == before[u].minCycles + CallCosts(c, lim, c.sites, u)
      && FlagsFinal(c, lim, u, before[u], after[u])
  }

  lemma AllFinal(c: CallInfo, lim: Limits, before: Blocks, w: Journal)
    requires DistinctEntries(c) && IsWiring(c, lim, before, w)
    ensures BlocksFinal(c, lim, before, w.nodes)
  {
    hide *;
    SameNodes(c, lim, before, w);
    forall u | u in before
      ensures w.nodes[u].name == before[u].name
      ensures w.nodes[u].maxCycles == before[u].maxCycles + CallCosts(c, lim, c.sites, u)
      ensures w.nodes[u].minCycles == before[u].minCycles + CallCosts(c, lim, c.sites, u)
      ensures FlagsFinal(c, lim, u, before[u], w.nodes[u])
    {
      FinalCosts(c, lim, before, w, u);
      FinalFlags(c, lim, before, w, u);
    }
    EachFinal(c, lim, before, w.nodes);
  }

  lemma SameNodes(c: CallInfo, lim: Limits, before: Blocks, w: Journal)
    requires IsWiring(c, lim, before, w)
    ensures w.nodes.Keys == before.Keys
  {}

  lemma EachFinal(c: CallInfo, lim: Limits, before: Blocks, after: Blocks)
    requires before.Keys == after.Keys
    requires forall u :: u in before ==>
               && after[u].name == before[u].name
               && after[u].maxCycles == before[u].maxCycles + CallCosts(c, lim, c.sites, u)
               && after[u].minCycles == before[u].minCycles + CallCosts(c, lim, c.sites, u)
               && FlagsFinal(c, lim, u, before[u], after[u])
    ensures BlocksFinal(c, lim, before, after)
  {
    hide CallCosts, FlagsFinal;
  }

  lemma LabelFlags(c: CallInfo, lim: Limits, u: nat, before: Block, after: Block)
    requires FlagsFinal(c, lim, u, before.Label(), after.Label())
    ensures FlagsFinal(c, lim, u, before, after)
  {}

  // ---------------------------------------------------------------- findings

  /** Some block of `f` calls `g`. */
  ghost predicate MakesCall(c: CallInfo, f: Fn, g: Fn) {
    exists s :: s in c.sites && s.call in c.caller && c.caller[s.call] == f && s.callee == g
  }

  /** A chain of recorded calls. */
  ghost predicate CallChain(c: CallInfo, p: seq<Fn>) { p != [] && forall i :: 0 <= i < |p| - 1 ==> MakesCall(c, p[i], p[i + 1]) }

  /** Chains of calls lead from `f` to `g` and back. */
  ghost predicate OnCycleWith(c: CallInfo, f: Fn, g: Fn) {
    exists p, q :: CallChain(c, p) && CallChain(c, q) && p[0] == f && p[|p| - 1] == g && q[0] == g && q[|q| - 1] == f
  }

  ghost predicate CallsItselfThroughOthers(c: CallInfo, f: Fn) { exists g :: g != f && OnCycleWith(c, f, g) }

  lemma ChainIsWalk(c: CallInfo, adj: C.Calls, p: seq<Fn>)
    requires IsAdjacency(c, c.sites, adj)
    ensures CallChain(c, p) <==> IsWalk(C.EdgesOf(adj), p)
  {
    forall f: Fn, g: Fn ensures (f, g) in C.EdgesOf(adj) <==> MakesCall(c, f, g) { CallsMade(c, adj, f, g); }
    hide MakesCall, C.EdgesOf;
  }

  lemma CallsMade(c: CallInfo, adj: C.Calls, f: Fn, g: Fn)
    requires IsAdjacency(c, c.sites, adj)
    ensures (f, g) in C.EdgesOf(adj) <==> MakesCall(c, f, g)
  {
    assert (f, g) in C.EdgesOf(adj) <==> SomeCall(c, c.sites, f, g);
  }

  lemma MutualIs(c: CallInfo, adj: C.Calls, f: Fn, g: Fn)
    requires IsAdjacency(c, c.sites, adj)
    ensures C.Mutual(adj, f, g) <==> OnCycleWith(c, f, g)
  {
    var e := C.EdgesOf(adj);
    hide IsAdjacency, C.EdgesOf;
    if p, q :| CallChain(c, p) && CallChain(c, q) && p[0] == f && p[|p| - 1] == g && q[0] == g && q[|q| - 1] == f {
      ChainIsWalk(c, adj, p);
      ChainIsWalk(c, adj, q);
      assert WalkFromTo(e, p, f, g) && WalkFromTo(e, q, g, f);
    }
    if C.Mutual(adj, f, g) {
      var p, q :| WalkFromTo(e, p, f, g) && WalkFromTo(e, q, g, f);
      ChainIsWalk(c, adj, p);
      ChainIsWalk(c, adj, q);
    }
  }

  lemma OnMutualCycle(c: CallInfo, adj: C.Calls, f: Fn)
    requires IsAdjacency(c, c.sites, adj)
    ensures C.InMutualCycle(adj, f) <==> CallsItselfThroughOthers(c, f)
  {
    hide IsAdjacency, OnCycleWith, C.Mutual;
    forall g: Fn ensures C.Mutual(adj, f, g) <==> OnCycleWith(c, f, g) { MutualIs(c, adj, f, g); }
  }

  lemma ExcusedIs(c: CallInfo, lim: Limits, adj: C.Calls, fs: set<Fn>, f: Fn)
    requires IsAdjacency(c, c.sites, adj) && Excused(c, lim, adj, fs) && f in fs
    ensures exists g :: OnCycleWith(c, f, g) && !(HasBound(lim, g) && g in c.entryOf)
  {
    hide IsAdjacency, OnCycleWith, C.Mutual;
    var g: Fn :| C.Mutual(adj, f, g) && (BoundOf(lim, g) == 0 || g !in c.entryOf);
    MutualIs(c, adj, f, g);
  }

  /** A function with blocks, and not the start function, makes a call to itself. */
  ghost predicate CallsItself(c: CallInfo, f: Fn) {
    c.start != Some(f) && f in c.entryOf && MakesCall(c, f, f)
  }

  ghost predicate HasBound(lim: Limits, f: Fn) { f in lim.recursionBound && lim.recursionBound[f] > 0 }

  /** What is reported about a function, from the recorded calls, the supplied limits and the blocks
      that survive. */
  ghost predicate Told(c: CallInfo, lim: Limits, nodes: Blocks, r: Findings, f: Fn) {
    && (f in r.unboundedSelf <==> f in c.entryOf && c.entryOf[f] in nodes && CallsItself(c, f) && !HasBound(lim, f))
    && (f in r.boundedRecursion + r.unboundedSelf + r.unboundedMutual <==>
          f in c.entryOf && c.entryOf[f] in nodes && (CallsItself(c, f) || CallsItselfThroughOthers(c, f)))
    && (f in c.entryOf && c.entryOf[f] in nodes && CallsItself(c, f) && HasBound(lim, f) ==> f in r.boundedRecursion)
    && (f in r.unboundedMutual ==> CallsItselfThroughOthers(c, f) && exists g :: OnCycleWith(c, f, g) && !(HasBound(lim, g) && g in c.entryOf))
    && (f in r.unsoundCallees <==>
          exists s :: s in c.sites && s.callee == f && s.call in nodes
            && c.start != Some(f) && f !in c.entryOf && f in lim.declared && f !in lim.externalCost)
  }

  lemma FindingsMeaning(c: CallInfo, lim: Limits, before: Blocks, w: Journal, nodes: Blocks, r: Findings, f: Fn)
    requires IsWiring(c, lim, before, w) && Reports(c, lim, nodes, w, r)
    ensures Told(c, lim, nodes, r, f)
  {
    hide Mirrored, EdgesOf, Covered, IsAdjacency, WiredBlocks, Grown, WiredEdges, C.InMutualCycle, CallsItselfThroughOthers, SelfCalled, CallsItself, OnCycleWith, Excused;
    OnMutualCycle(c, w.adj, f);
    SelfCalledMeans(c, f);
    if f in w.unboundedMutual { ExcusedIs(c, lim, w.adj, w.unboundedMutual, f); }
  }

  lemma SelfCalledMeans(c: CallInfo, f: Fn)
    ensures SelfCalled(c, c.sites, f) <==> CallsItself(c, f)
  {
    if CallsItself(c, f) {
      var s :| s in c.sites && s.callee == f && s.call in c.caller && c.caller[s.call] == f;
      assert IsSelfCall(c, s);
    }
  }
}
