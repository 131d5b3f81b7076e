/** From the blocks of a program to its WCET: finalizing and translating the graph gives a state
    graph whose optimum bounds every run, and in which no unflagged recursion is left when none is
    reported. */
module ProgramWcet {
  import opened ReplacementPolicy
  import opened AbstractStateGraph
  import opened Walks
  import opened GraphBlocks
  import opened WcetModel
  import opened Runs
  import opened CallWiring
  import opened RecursionBounds
  import opened ProgramTranslation
  import opened IpetSoundness
  import opened HighsModel
  import opened FiniteWcet
  import opened BoundedCycles
  import opened FinalGraph
  import C = CallCycles

  // ---------------------------------------------------------------- the program of a graph

  ghost function AsSet(s: seq<nat>): set<nat> { set x | x in s }

  /** The calls a run can follow: into functions with blocks, other than the start function. */
  ghost predicate Follows(c: CallInfo, s: Site) { s.callee in c.entryOf && !(c.start.Some? && c.start.value == s.callee) }

  /** The sites of such calls, in order. */
  ghost function WiredSites(c: CallInfo, sites: seq<Site>): seq<Site> {
    if sites == [] then []
    else
      WiredSites(c, sites[..|sites| - 1]) + (if Follows(c, sites[|sites| - 1]) then [sites[|sites| - 1]] else [])
  }

  lemma {:induction false} WiredSitesExact(c: CallInfo, sites: seq<Site>)
    ensures forall s :: s in WiredSites(c, sites) <==> s in sites && s.callee in c.entryOf && c.start != Some(s.callee)
  {
    if sites != [] {
      WiredSitesExact(c, sites[..|sites| - 1]);
      assert sites == sites[..|sites| - 1] + [sites[|sites| - 1]];
    }
  }

  /** The program a graph stands for before its calls are wired. */
  ghost function ProgramOf(before: Blocks, c: CallInfo, entry: nat): Program {
    Program(entry, EdgesOf(before), c.entryOf, map f | f in c.entryOf :: if f in c.returnsOf then AsSet(c.returnsOf[f]) else {}, WiredSites(c, c.sites))
  }

  /** What adding the functions guarantees: one block named Entry, which nothing enters and no
      function starts at; no call block branches to where the start function begins; lists without
      repetition. */
  ghost predicate IsFilled(before: Blocks, c: CallInfo, entry: nat) {
    && Mirrored(before) && Refers(c, before) && DistinctEntries(c) && ProgramOf(before, c, entry).Valid()
    && entry in before && before[entry].backEdgePredecessors == {}
    && (forall u :: u in before ==> (before[u].name == "Entry" <==> u == entry))
    && (forall u: nat :: !IsSucc(before, u, entry))
    && (forall f :: f in c.entryOf ==> c.entryOf[f] != entry)
    && (forall s :: s in c.sites ==> s.call != entry)
    && (forall s, f :: s in c.sites && f in c.entryOf && c.start == Some(f) ==> !IsSucc(before, s.call, c.entryOf[f]))
    && (forall f :: f in c.returnsOf ==> DistinctSeq(c.returnsOf[f]))
  }

  /** `nodes` is what finalizing made of `before`, and `g` its translation. */
  ghost predicate IsFinal(before: Blocks, c: CallInfo, lim: Limits, entry: nat, w: Journal, nodes: Blocks, g: Asg) {
    && IsFilled(before, c, entry) && IsWiring(c, lim, before, w) && Pruned(w.nodes, nodes, entry) && Mirrored(nodes)
    && IsStateGraphOf(g, nodes, c)
  }

  // ---------------------------------------------------------------- edges that survive

  lemma WiredKeys(c: CallInfo, lim: Limits, before: Blocks, w: Journal)
    requires IsWiring(c, lim, before, w)
    ensures w.nodes.Keys == before.Keys
  {}

  lemma GraphEdges(before: Blocks, c: CallInfo, lim: Limits, entry: nat, w: Journal, nodes: Blocks, g: Asg)
    requires IsFinal(before, c, lim, entry, w, nodes, g)
    ensures g.Valid() && entry in nodes
    ensures forall u: nat, v: nat :: g.HasEdge(u, v) <==> u in nodes && (u, v) in EdgesOf(w.nodes)
    ensures forall u: nat, v: nat :: g.HasEdge(u, v) ==> (u, v) in EdgesOf(nodes) && v in nodes
  {
    WiredKeys(c, lim, before, w);
    ReachesSelf(EdgesOf(w.nodes), entry);
    forall u: nat, v: nat | u in nodes && (u, v) in EdgesOf(w.nodes) ensures v in nodes {
      ReachesStep(EdgesOf(w.nodes), entry, u, v);
      assert IsSucc(w.nodes, u, v) && IsPred(w.nodes, u, v);
    }
    hide IsFilled, IsWiring, Reaches, EdgesOf;
    GraphEdgesAre(c, nodes, g);
    assert forall u: nat, v: nat :: (u, v) in EdgesOf(nodes) <==> (u, v) in EdgesOf(w.nodes) && u in nodes && v in nodes;
  }

  lemma GraphEdgesAre(c: CallInfo, nodes: Blocks, g: Asg)
    requires Mirrored(nodes) && IsStateGraphOf(g, nodes, c)
    ensures g.Valid()
    ensures forall u: nat, v: nat :: g.HasEdge(u, v) <==> (u, v) in EdgesOf(nodes)
  {
    assert forall u: nat, v: nat :: g.HasEdge(u, v) <==> InSuccs(g.succs, u, v);
    assert forall u: nat, v: nat :: u in g.Predecessors(v) <==> InPreds(g.preds, u, v);
    assert forall u: nat, v: nat :: IsSucc(nodes, u, v) ==> u in nodes && IsPred(nodes, u, v) && v in nodes;
    hide EdgesOf;
  }

  /** Wired edges lead into called functions or into landings, never into the entry node. */
  lemma WiredTargets(before: Blocks, c: CallInfo, entry: nat, u: nat, v: nat)
    requires IsFilled(before, c, entry) && (u, v) in WiredEdges(c, c.sites)
    ensures v != entry && forall f :: f in c.entryOf && c.start == Some(f) ==> v != c.entryOf[f]
  {
    hide IsFilled, WiredEdges, ProgramOf;
    WiredEdgesExact(c, c.sites);
    var k :| 0 <= k < |c.sites| && (u, v) in SiteEdges(c, c.sites[k]);
    var s := c.sites[k];
    CalledEntry(before, c, entry, s);
    if (u, v) != (s.call, c.entryOf[s.callee]) { LandsOnBranch(before, c, entry, s); }
  }

  lemma CalledEntry(before: Blocks, c: CallInfo, entry: nat, s: Site)
    requires IsFilled(before, c, entry) && s in c.sites && IsWired(c, s)
    ensures s.callee in c.entryOf && c.entryOf[s.callee] != entry
    ensures forall f :: f in c.entryOf && c.start == Some(f) ==> c.entryOf[s.callee] != c.entryOf[f]
  {}

  lemma LandsOnBranch(before: Blocks, c: CallInfo, entry: nat, s: Site)
    requires IsFilled(before, c, entry) && s in c.sites && IsWired(c, s) && s.hasLanding
    ensures s.landing != entry && forall f :: f in c.entryOf && c.start == Some(f) ==> s.landing != c.entryOf[f]
  {
    var p := ProgramOf(before, c, entry);
    WiredSitesExact(c, c.sites);
    assert s in p.sites;
    var i :| 0 <= i < |p.sites| && p.sites[i] == s;
    assert (s.call, s.landing) in p.intra;
    assert IsSucc(before, s.call, s.landing);
  }

  lemma NothingEntersEntry(before: Blocks, c: CallInfo, lim: Limits, entry: nat, w: Journal, nodes: Blocks, g: Asg, u: nat)
    requires IsFinal(before, c, lim, entry, w, nodes, g)
    ensures !g.HasEdge(u, entry)
  {
    GraphEdges(before, c, lim, entry, w, nodes, g);
    if (u, entry) in WiredEdges(c, c.sites) { WiredTargets(before, c, entry, u, entry); }
  }

  // ---------------------------------------------------------------- labels that survive

  lemma NamesKept(before: Blocks, c: CallInfo, lim: Limits, entry: nat, w: Journal, nodes: Blocks, u: nat)
    requires IsFilled(before, c, entry) && IsWiring(c, lim, before, w) && Pruned(w.nodes, nodes, entry) && u in nodes
    ensures u in before && nodes[u].name == before[u].name
    ensures nodes[u].backEdgePredecessors == w.nodes[u].backEdgePredecessors
    ensures nodes[u].isLoop == w.nodes[u].isLoop && nodes[u].upperLoopBound == w.nodes[u].upperLoopBound
  {
    hide IsFilled, Mirrored, EdgesOf, Covered, IsAdjacency, SelfExactly, WiredEdges, Reaches;
    WiredKeys(c, lim, before, w);
    assert nodes[u].Label() == w.nodes[u].Label();
    assert GrownBlock(c, lim, u, w.wired[u], w.nodes[u]);
    assert WiredBlock(c, lim, c.sites, u, before[u].Label(), w.wired[u].Label());
  }

  lemma EntryUnflagged(before: Blocks, c: CallInfo, lim: Limits, entry: nat, w: Journal)
    requires IsFilled(before, c, entry) && IsWiring(c, lim, before, w)
    ensures w.nodes.Keys == before.Keys && w.nodes[entry].backEdgePredecessors == {}
  {
    hide Mirrored, EdgesOf, Covered, IsAdjacency, SelfExactly, WiredEdges, ProgramOf, Refers;
    WiredKeys(c, lim, before, w);
    assert GrownBlock(c, lim, entry, w.wired[entry], w.nodes[entry]);
    assert WiredBlock(c, lim, c.sites, entry, before[entry].Label(), w.wired[entry].Label());
    assert SelfCallers(c, lim, c.sites, entry) == {};
  }

  /** Every other kept node has a kept predecessor. */
  lemma OthersHavePredecessors(before: Blocks, c: CallInfo, lim: Limits, entry: nat, w: Journal, nodes: Blocks, g: Asg, u: nat)
    requires IsFinal(before, c, lim, entry, w, nodes, g) && u in nodes && u != entry
    ensures nodes[u].predecessors != {}
  {
    hide IsFilled, IsWiring, IsStateGraphOf, EdgesOf;
    assert Reaches(EdgesOf(w.nodes), entry, u);
    var p :| WalkFromTo(EdgesOf(w.nodes), p, entry, u);
    WalkReaches(EdgesOf(w.nodes), p, 0, |p| - 2);
    var q := p[|p| - 2];
    assert (q, u) in EdgesOf(w.nodes) && IsSucc(w.nodes, q, u);
    assert q in nodes;
    assert (q, u) in EdgesOf(nodes);
    assert IsSucc(nodes, q, u) && IsPred(nodes, q, u);
  }

  lemma OnlyEntry(before: Blocks, c: CallInfo, lim: Limits, entry: nat, w: Journal, nodes: Blocks, g: Asg, u: nat)
    requires IsFinal(before, c, lim, entry, w, nodes, g) && u in nodes
    ensures u in g.nodes && (g.nodes[u].isEntry <==> u == entry) && (u == entry ==> !g.nodes[u].isLoopHeader)
  {
    NamesKept(before, c, lim, entry, w, nodes, u);
    if u == entry { EntryUnflagged(before, c, lim, entry, w); } else { OthersHavePredecessors(before, c, lim, entry, w, nodes, g, u); }
    assert Shows(g.nodes[u], nodes[u]);
  }

  // ---------------------------------------------------------------- the state graph fits the program

  lemma SiteEdgesWired(before: Blocks, c: CallInfo, entry: nat, i: nat)
    requires IsFilled(before, c, entry) && i < |ProgramOf(before, c, entry).sites|
    ensures var s := ProgramOf(before, c, entry).sites[i];
            && s in c.sites && IsWired(c, s) && (s.call, c.entryOf[s.callee]) in WiredEdges(c, c.sites)
            && (s.hasLanding && s.callee in c.returnsOf ==> forall r :: r in c.returnsOf[s.callee] ==> (r, s.landing) in WiredEdges(c, c.sites))
  {
    var s := ProgramOf(before, c, entry).sites[i];
    WiredSitesExact(c, c.sites);
    WiredEdgesExact(c, c.sites);
    assert s in WiredSites(c, c.sites);
    var k :| 0 <= k < |c.sites| && c.sites[k] == s;
    assert (s.call, c.entryOf[s.callee]) in SiteEdges(c, c.sites[k]);
    if s.hasLanding && s.callee in c.returnsOf {
      forall r | r in c.returnsOf[s.callee] ensures (r, s.landing) in WiredEdges(c, c.sites) {
        assert (r, s.landing) in SiteEdges(c, c.sites[k]);
      }
    }
  }

  lemma SiteEdgesKept(before: Blocks, c: CallInfo, lim: Limits, entry: nat, w: Journal, nodes: Blocks, g: Asg, i: nat)
    requires IsFinal(before, c, lim, entry, w, nodes, g) && i < |ProgramOf(before, c, entry).sites|
    ensures var s := ProgramOf(before, c, entry).sites[i];
            && s.callee in c.entryOf && (s.call in g.nodes ==> g.HasEdge(s.call, c.entryOf[s.callee]))
            && (s.hasLanding && s.callee in c.returnsOf ==> forall r :: r in c.returnsOf[s.callee] && r in g.nodes ==> g.HasEdge(r, s.landing))
  {
    GraphEdges(before, c, lim, entry, w, nodes, g);
    SiteEdgesWired(before, c, entry, i);
    hide IsFilled, Pruned, Mirrored, EdgesOf, WiredEdges, ProgramOf;
  }

  lemma ProgramKept(before: Blocks, c: CallInfo, lim: Limits, entry: nat, w: Journal, nodes: Blocks, g: Asg)
    requires IsFinal(before, c, lim, entry, w, nodes, g)
    ensures var p := ProgramOf(before, c, entry);
            p.Valid() && g.Valid() && g.nodes.Keys == nodes.Keys && entry in g.nodes
            && forall u: nat, v: nat :: (u, v) in p.intra && u in g.nodes ==> g.HasEdge(u, v)
  {
    GraphEdges(before, c, lim, entry, w, nodes, g);
    hide Pruned, Mirrored, EdgesOf, Refers;
  }

  /** The state graph has an edge for everything a kept node of the program can do, and one entry. */
  lemma FinalEmbeds(before: Blocks, c: CallInfo, lim: Limits, entry: nat, w: Journal, nodes: Blocks, g: Asg)
    requires IsFinal(before, c, lim, entry, w, nodes, g)
    ensures Embeds(g, ProgramOf(before, c, entry))
  {
    hide IsFilled, IsWiring, Pruned, Mirrored, EdgesOf, IsStateGraphOf, IsFinal;
    var p := ProgramOf(before, c, entry);
    ProgramKept(before, c, lim, entry, w, nodes, g);
    forall u | u in g.nodes ensures (g.nodes[u].isEntry <==> u == entry) && (u == entry ==> !g.nodes[u].isLoopHeader) {
      OnlyEntry(before, c, lim, entry, w, nodes, g, u);
    }
    forall u: nat ensures !g.HasEdge(u, entry) { NothingEntersEntry(before, c, lim, entry, w, nodes, g, u); }
    forall i | 0 <= i < |p.sites| ensures p.sites[i].call in g.nodes ==> g.HasEdge(p.sites[i].call, p.entryOf[p.sites[i].callee]) {
      SiteEdgesKept(before, c, lim, entry, w, nodes, g, i);
    }
    forall i, r: nat | 0 <= i < |p.sites| && p.sites[i].hasLanding && r in p.returnsOf[p.sites[i].callee] && r in g.nodes
      ensures g.HasEdge(r, p.sites[i].landing)
    {
      SiteEdgesKept(before, c, lim, entry, w, nodes, g, i);
    }
  }

  // ---------------------------------------------------------------- call sites

  /** No edge of the graph calls the start function. */
  lemma StartNotCalled(before: Blocks, c: CallInfo, lim: Limits, entry: nat, w: Journal, nodes: Blocks, g: Asg, s: Site)
    requires IsFinal(before, c, lim, entry, w, nodes, g) && s in c.sites && s.callee in c.entryOf
    requires g.HasEdge(s.call, c.entryOf[s.callee])
    ensures c.start != Some(s.callee)
  {
    GraphEdges(before, c, lim, entry, w, nodes, g);
    assert (s.call, c.entryOf[s.callee]) in EdgesOf(before) + WiredEdges(c, c.sites);
    if (s.call, c.entryOf[s.callee]) in WiredEdges(c, c.sites) {
      WiredTargets(before, c, entry, s.call, c.entryOf[s.callee]);
    } else {
      assert IsSucc(before, s.call, c.entryOf[s.callee]) && s.call != entry;
    }
  }

  lemma IsProgramSite(before: Blocks, c: CallInfo, entry: nat, cs: CallSite)
    requires Site(cs.callNode, cs.callee, cs.returnNode, true) in c.sites && IsWired(c, Site(cs.callNode, cs.callee, cs.returnNode, true))
    ensures SiteIndex(ProgramOf(before, c, entry), cs).Some?
  {
    var s, p := Site(cs.callNode, cs.callee, cs.returnNode, true), ProgramOf(before, c, entry);
    WiredSitesExact(c, c.sites);
    assert s in p.sites;
    var i :| 0 <= i < |p.sites| && p.sites[i] == s;
    assert SiteIs(p, cs, i);
  }

  /** A site that gets a matching row is a site of the program. */
  lemma MatchedIsSite(before: Blocks, c: CallInfo, lim: Limits, entry: nat, w: Journal, nodes: Blocks, g: Asg, k: nat)
    requires IsFinal(before, c, lim, entry, w, nodes, g) && k < |g.callSites| && IsMatched(g, g.callSites[k])
    ensures SiteIndex(ProgramOf(before, c, entry), g.callSites[k]).Some? && g.callSites[k].callNode in g.nodes
  {
    hide IsFilled, IsWiring, Pruned, Mirrored, EdgesOf, Holds, KeptSites, KeptNodes;
    var cs := g.callSites[k];
    KeptSitesAre(c.sites, nodes);
    assert IsKeptSite(c.sites, nodes, cs);
    var s := Site(cs.callNode, cs.callee, cs.returnNode, true);
    StartNotCalled(before, c, lim, entry, w, nodes, g, s);
    IsProgramSite(before, c, entry, cs);
  }

  lemma FinalSites(before: Blocks, c: CallInfo, lim: Limits, entry: nat, w: Journal, nodes: Blocks, g: Asg)
    requires IsFinal(before, c, lim, entry, w, nodes, g)
    ensures ProgramOf(before, c, entry).Valid() && SitesMatch(g, ProgramOf(before, c, entry))
  {
    hide IsFinal, IsMatched;
    ProgramKept(before, c, lim, entry, w, nodes, g);
    var p := ProgramOf(before, c, entry);
    forall k | 0 <= k < |g.callSites| && IsMatched(g, g.callSites[k])
      ensures SiteIndex(p, g.callSites[k]).Some? && g.callSites[k].callNode in g.nodes
    {
      MatchedIsSite(before, c, lim, entry, w, nodes, g, k);
    }
    forall i | 0 <= i < |p.sites| && p.sites[i].call in g.nodes ensures KnowsCallee(g, p, p.sites[i].callee) {
      CalleeKnown(before, c, lim, entry, w, nodes, g, i);
    }
  }

  lemma {:induction false} KeptDistinct(list: seq<nat>, nodes: Blocks)
    requires DistinctSeq(list)
    ensures DistinctSeq(KeptNodes(list, nodes))
  {
    if list != [] {
      var front, r := list[..|list| - 1], list[|list| - 1];
      assert list == front + [r];
      KeptDistinct(front, nodes);
      KeptNodesExact(front, nodes);
    }
  }

  ghost predicate KnowsCallee(g: Asg, p: Program, f: Fn) {
    && f in p.entryOf && f in p.returnsOf && f in g.functionEntries && g.functionEntries[f] == p.entryOf[f]
    && DistinctSeq(ReturnsOf(g, f)) && (forall r :: r in ReturnsOf(g, f) <==> r in p.returnsOf[f] && r in g.nodes)
  }

  lemma CalleeKnown(before: Blocks, c: CallInfo, lim: Limits, entry: nat, w: Journal, nodes: Blocks, g: Asg, i: nat)
    requires IsFinal(before, c, lim, entry, w, nodes, g) && i < |ProgramOf(before, c, entry).sites|
    requires ProgramOf(before, c, entry).sites[i].call in g.nodes
    ensures KnowsCallee(g, ProgramOf(before, c, entry), ProgramOf(before, c, entry).sites[i].callee)
  {
    hide IsWiring, Pruned, Mirrored, EdgesOf, WiredEdges, Holds, KeptSites, KeptNodes, Refers;
    SiteEdgesKept(before, c, lim, entry, w, nodes, g, i);
    GraphEdges(before, c, lim, entry, w, nodes, g);
    ReturnsKnown(nodes, c, g, ProgramOf(before, c, entry).sites[i].callee);
  }

  lemma ReturnsKnown(nodes: Blocks, c: CallInfo, g: Asg, f: Fn)
    requires IsStateGraphOf(g, nodes, c) && forall h :: h in c.returnsOf ==> DistinctSeq(c.returnsOf[h])
    ensures DistinctSeq(ReturnsOf(g, f))
    ensures forall r :: r in ReturnsOf(g, f) <==> f in c.returnsOf && r in c.returnsOf[f] && r in nodes
  {
    hide Holds, KeptSites, KeptNodes;
    assert ReturnsOf(g, f) == if f in c.returnsOf then KeptNodes(c.returnsOf[f], nodes) else [];
    if f in c.returnsOf {
      KeptNodesExact(c.returnsOf[f], nodes);
      KeptDistinct(c.returnsOf[f], nodes);
    }
  }

  // ---------------------------------------------------------------- the bound

  /** The bounds the final graph states, and the entries that count against them. */
  ghost function BoundsOf(nodes: Blocks): Bounds {
    Bounds(map h | h in nodes && nodes[h].backEdgePredecessors != {} && nodes[h].upperLoopBound > 0 :: nodes[h].upperLoopBound,
           set h, u | h in nodes && u in nodes[h].backEdgePredecessors :: (u, h))
  }

  lemma FinalBounds(nodes: Blocks, c: CallInfo, g: Asg)
    requires Mirrored(nodes) && IsStateGraphOf(g, nodes, c)
    ensures BoundsMatch(g, BoundsOf(nodes))
  {
    var b := BoundsOf(nodes);
    forall h | IsBoundedHeader(g, h) ensures h in b.bound && b.bound[h] == g.nodes[h].upperLoopBound {
      assert Shows(g.nodes[h], nodes[h]);
    }
    GraphEdgesAre(c, nodes, g);
    forall u: nat, h: nat | g.IsBackEdge(u, h) ensures (u, h) in b.back {
      assert InSuccs(g.succs, u, h) && IsSucc(nodes, u, h) && IsPred(nodes, u, h);
    }
  }

  /** What one visit of a block costs: the cycles it was added with, and those of the calls it makes
      to functions without blocks. */
  ghost function VisitCost(before: Blocks, c: CallInfo, lim: Limits): nat -> nat {
    (u: nat) => if u in before then before[u].maxCycles + CallCosts(c, lim, c.sites, u) else 0
  }

  /** The run starts at the entry, and stops in a kept block that is named Exit or leads nowhere. */
  ghost predicate RunsThrough(before: Blocks, c: CallInfo, entry: nat, nodes: Blocks, steps: seq<Step>)
    requires ProgramOf(before, c, entry).Valid()
  {
    && IsRun(ProgramOf(before, c, entry), BoundsOf(nodes), steps)
    && var last := Final(ProgramOf(before, c, entry), BoundsOf(nodes), steps);
       && |last.stack| == 1 && last.node in nodes && (nodes[last.node].name == "Exit" || nodes[last.node].successors == {})
  }

  lemma ThroughIsComplete(before: Blocks, c: CallInfo, lim: Limits, entry: nat, w: Journal, nodes: Blocks, g: Asg, steps: seq<Step>)
    requires IsFinal(before, c, lim, entry, w, nodes, g) && RunsThrough(before, c, entry, nodes, steps)
    ensures IsComplete(g, ProgramOf(before, c, entry), BoundsOf(nodes), steps)
    ensures |Final(ProgramOf(before, c, entry), BoundsOf(nodes), steps).stack| == 1
  {
    var n := Final(ProgramOf(before, c, entry), BoundsOf(nodes), steps).node;
    assert Shows(g.nodes[n], nodes[n]);
  }

  lemma KeptCost(before: Blocks, c: CallInfo, lim: Limits, entry: nat, w: Journal, nodes: Blocks, g: Asg, u: nat)
    requires IsFinal(before, c, lim, entry, w, nodes, g) && u in g.nodes
    ensures CostOf(g)(u) == VisitCost(before, c, lim)(u)
  {
    hide Mirrored, EdgesOf, Covered, IsAdjacency, SelfExactly, WiredEdges, Reaches, CallCosts, WiredBlocks, Grown, IsFilled;
    assert w.nodes.Keys == before.Keys by { WiredKeys(c, lim, before, w); }
    FinalCosts(c, lim, before, w, u);
    assert Shows(g.nodes[u], nodes[u]) && nodes[u].Label() == w.nodes[u].Label();
  }

  lemma {:induction false} SameCosts(g: Asg, p: Program, b: Bounds, steps: seq<Step>, cost: nat -> nat, same: nat -> nat)
    requires Embeds(g, p) && IsRun(p, b, steps) && forall u: nat :: u in g.nodes ==> cost(u) == same(u)
    ensures RunCost(p, b, steps, cost) == RunCost(p, b, steps, same)
  {
    if steps != [] {
      SameCosts(g, p, b, steps[..|steps| - 1], cost, same);
      LastEdgeExists(g, p, b, steps);
    }
  }

  /** The cost of a run is what its visits cost in the program as it was added. */
  lemma CostsVisits(before: Blocks, c: CallInfo, lim: Limits, entry: nat, w: Journal, nodes: Blocks, g: Asg, steps: seq<Step>)
    requires IsFinal(before, c, lim, entry, w, nodes, g) && IsRun(ProgramOf(before, c, entry), BoundsOf(nodes), steps)
    ensures RunCost(ProgramOf(before, c, entry), BoundsOf(nodes), steps, CostOf(g)) ==
            RunCost(ProgramOf(before, c, entry), BoundsOf(nodes), steps, VisitCost(before, c, lim))
  {
    hide *;
    FinalEmbeds(before, c, lim, entry, w, nodes, g);
    forall u: nat | u in g.nodes ensures CostOf(g)(u) == VisitCost(before, c, lim)(u) { KeptCost(before, c, lim, entry, w, nodes, g, u); }
    SameCosts(g, ProgramOf(before, c, entry), BoundsOf(nodes), steps, CostOf(g), VisitCost(before, c, lim));
  }

  /** The WCET computed for the finalized graph is at least what the visits of any run cost that
      respects the bounds the graph states, recursion included. */
  lemma ProgramWcetIsUpperBound(before: Blocks, c: CallInfo, lim: Limits, entry: nat, w: Journal, nodes: Blocks, g: Asg,
                                m: Model, cols: Columns, best: Values, steps: seq<Step>)
    requires IsFinal(before, c, lim, entry, w, nodes, g) && DistinctLandings(ProgramOf(before, c, entry))
    requires Encodes(m, cols, g) && IsOptimal(m, best)
    requires RunsThrough(before, c, entry, nodes, steps)
    ensures RunCost(ProgramOf(before, c, entry), BoundsOf(nodes), steps, VisitCost(before, c, lim)) <= ColumnCost(m.colCost, best)
  {
    assert Mirrored(nodes) && IsStateGraphOf(g, nodes, c);
    ThroughIsComplete(before, c, lim, entry, w, nodes, g, steps);
    hide *;
    FinalEmbeds(before, c, lim, entry, w, nodes, g);
    FinalSites(before, c, lim, entry, w, nodes, g);
    FinalBounds(nodes, c, g);
    OptimumBoundsRuns(g, ProgramOf(before, c, entry), BoundsOf(nodes), steps, m, cols, best);
    CostsVisits(before, c, lim, entry, w, nodes, g, steps);
  }

  // ---------------------------------------------------------------- recursion

  /** Caller and callee of the calls the state graph kept. */
  ghost function GraphCalls(g: Asg, p: Program, owner: nat -> Fn): (e: Edges)
    ensures forall x :: x in e ==> exists i: nat :: i < |p.sites| && IsGraphCall(g, p, i) && x == (owner(p.sites[i].call), p.sites[i].callee)
    ensures forall i: nat :: i < |p.sites| && IsGraphCall(g, p, i) ==> (owner(p.sites[i].call), p.sites[i].callee) in e
  {
    set i | 0 <= i < |p.sites| && IsGraphCall(g, p, i) :: (owner(p.sites[i].call), p.sites[i].callee)
  }

  ghost predicate IsGraphCall(g: Asg, p: Program, i: nat)
    requires i < |p.sites|
  {
    p.sites[i].callee in p.entryOf && g.HasEdge(p.sites[i].call, p.entryOf[p.sites[i].callee])
  }

  /** All kept calls from `f` to `h` are flagged. */
  ghost predicate AllFlagged(g: Asg, p: Program, owner: nat -> Fn, f: Fn, h: Fn) {
    forall i: nat :: i < |p.sites| && IsGraphCall(g, p, i) && owner(p.sites[i].call) == f && p.sites[i].callee == h ==>
      g.IsBackEdge(p.sites[i].call, p.entryOf[h])
  }

  /** `owner` extends the recorded function of each call block. */
  ghost predicate OwnsCallers(c: CallInfo, owner: nat -> Fn) {
    forall s :: s in c.sites ==> s.call in c.caller && c.caller[s.call] == owner(s.call)
  }

  lemma FlagIsBackEdge(before: Blocks, c: CallInfo, lim: Limits, entry: nat, w: Journal, nodes: Blocks, g: Asg, u: nat, v: nat)
    requires IsFinal(before, c, lim, entry, w, nodes, g) && g.HasEdge(u, v)
    requires v in w.nodes && u in w.nodes[v].backEdgePredecessors
    ensures g.IsBackEdge(u, v)
  {
    GraphEdges(before, c, lim, entry, w, nodes, g);
    assert v in nodes && nodes[v].Label() == w.nodes[v].Label();
    assert InSuccs(g.succs, u, v);
  }

  lemma CutIsFlagged(before: Blocks, c: CallInfo, lim: Limits, entry: nat, w: Journal, nodes: Blocks, g: Asg, owner: nat -> Fn, f: Fn, h: Fn)
    requires IsFinal(before, c, lim, entry, w, nodes, g) && OwnsCallers(c, owner) && IsCutCall(c, lim, w.nodes, f, h)
    ensures AllFlagged(g, ProgramOf(before, c, entry), owner, f, h)
  {
    hide IsFinal;
    var p := ProgramOf(before, c, entry);
    forall i: nat | i < |p.sites| && IsGraphCall(g, p, i) && owner(p.sites[i].call) == f && p.sites[i].callee == h
      ensures g.IsBackEdge(p.sites[i].call, p.entryOf[h])
    {
      WiredSitesExact(c, c.sites);
      assert p.sites[i] in WiredSites(c, c.sites) && IsCall(c, p.sites[i], f, h);
      FlagIsBackEdge(before, c, lim, entry, w, nodes, g, p.sites[i].call, p.entryOf[h]);
    }
  }

  lemma GraphCallFacts(before: Blocks, c: CallInfo, lim: Limits, entry: nat, w: Journal, nodes: Blocks, g: Asg, owner: nat -> Fn, i: nat)
    requires IsFinal(before, c, lim, entry, w, nodes, g) && OwnsCallers(c, owner)
    requires i < |ProgramOf(before, c, entry).sites| && IsGraphCall(g, ProgramOf(before, c, entry), i)
    ensures var s := ProgramOf(before, c, entry).sites[i];
            && s in c.sites && IsWired(c, s) && IsCall(c, s, owner(s.call), s.callee) && Kept(c, nodes, s.callee)
            && (owner(s.call), s.callee) in C.EdgesOf(w.adj)
  {
    GraphEdges(before, c, lim, entry, w, nodes, g);
    hide IsFilled, Pruned, Mirrored, EdgesOf, IsStateGraphOf, Covered, Refers, C.EdgesOf, C.InMutualCycle;
    var s := ProgramOf(before, c, entry).sites[i];
    WiredSitesExact(c, c.sites);
    assert s in WiredSites(c, c.sites);
    assert SomeCall(c, c.sites, owner(s.call), s.callee);
  }

  /** A bounded self-recursive function has all its self calls flagged. */
  lemma SelfCallsCut(before: Blocks, c: CallInfo, lim: Limits, entry: nat, w: Journal, s: Site)
    requires IsFilled(before, c, entry) && IsWiring(c, lim, before, w)
    requires s in c.sites && IsSelfCall(c, s) && BoundOf(lim, s.callee) > 0
    ensures IsCutCall(c, lim, w.nodes, s.callee, s.callee)
  {
    hide Mirrored, EdgesOf, Covered, IsAdjacency, SelfExactly, WiredEdges, ProgramOf, C.InMutualCycle, SelfCallers, WiredBlock, ExternalCost;
    var e := c.entryOf[s.callee];
    WiredKeys(c, lim, before, w);
    assert e in before;
    assert GrownBlock(c, lim, e, w.wired[e], w.nodes[e]);
    WiredSelf(c, lim, e, before[e].Label(), w.wired[e].Label(), s);
    forall t | t in c.sites && IsCall(c, t, s.callee, s.callee) ensures t.call in w.nodes[e].backEdgePredecessors {
      WiredSelf(c, lim, e, before[e].Label(), w.wired[e].Label(), t);
    }
  }

  /** Wiring flags every bounded self call and sets the bound. */
  lemma WiredSelf(c: CallInfo, lim: Limits, e: nat, before: Block, after: Block, s: Site)
    requires WiredBlock(c, lim, c.sites, e, before, after)
    requires s in c.sites && IsSelfCall(c, s) && BoundOf(lim, s.callee) > 0 && c.entryOf[s.callee] == e
    ensures s.call in after.backEdgePredecessors && after.isLoop && after.upperLoopBound == BoundOf(lim, s.callee)
  {
    assert FlagsSelf(c, lim, s, e);
    var k :| 0 <= k < |c.sites| && c.sites[k] == s;
    assert s.call in SelfCallers(c, lim, c.sites, e);
  }

  ghost predicate NoneUnbounded(r: Findings) { r.unboundedSelf == {} && r.unboundedMutual == {} }

  lemma CallCycleEdges(before: Blocks, c: CallInfo, lim: Limits, entry: nat, w: Journal, nodes: Blocks, g: Asg, owner: nat -> Fn, q: seq<Fn>)
    requires IsFinal(before, c, lim, entry, w, nodes, g) && OwnsCallers(c, owner)
    requires IsCycle(GraphCalls(g, ProgramOf(before, c, entry), owner), q)
    ensures IsCycle(C.EdgesOf(w.adj), q) && forall j :: 0 <= j < |q| ==> Kept(c, nodes, q[j])
  {
    hide IsFinal, OwnsCallers, C.EdgesOf, IsGraphCall, Kept;
    forall j | 0 <= j < |q| - 1 ensures (q[j], q[j + 1]) in C.EdgesOf(w.adj) {
      CallCycleEdge(before, c, lim, entry, w, nodes, g, owner, q[j], q[j + 1]);
    }
    forall j | 0 <= j < |q| ensures Kept(c, nodes, q[j]) {
      var k := if j == 0 then |q| - 1 else j;
      assert (q[k - 1], q[(k - 1) + 1]) in GraphCalls(g, ProgramOf(before, c, entry), owner);
      CallCycleEdge(before, c, lim, entry, w, nodes, g, owner, q[k - 1], q[k]);
    }
  }

  lemma CallCycleEdge(before: Blocks, c: CallInfo, lim: Limits, entry: nat, w: Journal, nodes: Blocks, g: Asg, owner: nat -> Fn, f: Fn, h: Fn)
    requires IsFinal(before, c, lim, entry, w, nodes, g) && OwnsCallers(c, owner)
    requires (f, h) in GraphCalls(g, ProgramOf(before, c, entry), owner)
    ensures (f, h) in C.EdgesOf(w.adj) && Kept(c, nodes, h)
  {
    hide IsFinal, OwnsCallers, C.EdgesOf, IsGraphCall, Kept;
    var p := ProgramOf(before, c, entry);
    var i: nat :| i < |p.sites| && IsGraphCall(g, p, i) && (f, h) == (owner(p.sites[i].call), p.sites[i].callee);
    GraphCallFacts(before, c, lim, entry, w, nodes, g, owner, i);
  }

  lemma BoundedOrReported(c: CallInfo, lim: Limits, before: Blocks, w: Journal, nodes: Blocks, r: Findings, f: Fn)
    requires IsWiring(c, lim, before, w) && Reports(c, lim, nodes, w, r) && NoneUnbounded(r) && Kept(c, nodes, f)
    ensures f !in w.unboundedSelf && f !in w.unboundedMutual
    ensures C.InMutualCycle(w.adj, f) ==> f in w.boundedMutual
    ensures SelfCalled(c, c.sites, f) ==> BoundOf(lim, f) > 0
  {
    hide Mirrored, EdgesOf, Covered, WiredBlocks, Grown, WiredEdges, IsAdjacency, C.InMutualCycle, SelfCalled, UncostedCall;
    assert f !in r.unboundedSelf && f !in r.unboundedMutual;
  }

  /** If finalizing reports no unbounded recursion, every cycle of calls in the graph crosses from one
      function to another, or back to itself, over calls that are all flagged. */
  lemma GraphCyclesFlagged(before: Blocks, c: CallInfo, lim: Limits, entry: nat, w: Journal, nodes: Blocks, g: Asg,
                           r: Findings, owner: nat -> Fn, q: seq<Fn>)
    requires IsFinal(before, c, lim, entry, w, nodes, g) && Reports(c, lim, nodes, w, r) && NoneUnbounded(r)
    requires OwnsCallers(c, owner) && IsCycle(GraphCalls(g, ProgramOf(before, c, entry), owner), q)
    ensures exists j :: 0 <= j < |q| - 1 && AllFlagged(g, ProgramOf(before, c, entry), owner, q[j], q[j + 1])
  {
    hide IsFilled, Pruned, Mirrored, EdgesOf, IsStateGraphOf, Covered, C.EdgesOf, IsCutCall, AllFlagged, OwnsCallers, Kept, Reports, NoneUnbounded;
    CallCycleEdges(before, c, lim, entry, w, nodes, g, owner, q);
    BoundedOrReported(c, lim, before, w, nodes, r, q[0]);
    var j: nat := SomeCut(before, c, lim, entry, w, nodes, g, owner, q);
    CutIsFlagged(before, c, lim, entry, w, nodes, g, owner, q[j], q[j + 1]);
  }

  /** The cut call on a cycle: either the cycle runs through a bounded component, or its first call
      is a bounded self call. */
  lemma SomeCut(before: Blocks, c: CallInfo, lim: Limits, entry: nat, w: Journal, nodes: Blocks, g: Asg, owner: nat -> Fn, q: seq<Fn>)
    returns (j: nat)
    requires IsFinal(before, c, lim, entry, w, nodes, g) && OwnsCallers(c, owner)
    requires IsCycle(GraphCalls(g, ProgramOf(before, c, entry), owner), q) && IsCycle(C.EdgesOf(w.adj), q)
    requires C.InMutualCycle(w.adj, q[0]) ==> q[0] in w.boundedMutual
    requires SelfCalled(c, c.sites, q[0]) ==> BoundOf(lim, q[0]) > 0
    ensures j < |q| - 1 && IsCutCall(c, lim, w.nodes, q[j], q[j + 1])
  {
    hide IsFilled, Pruned, Mirrored, EdgesOf, IsStateGraphOf, C.EdgesOf, IsCutCall, WiredBlocks, Grown, GraphCalls, SelfCalled, IsGraphCall, OwnsCallers;
    if C.InMutualCycle(w.adj, q[0]) {
      assert CrossesCut(c, lim, w.nodes, q);
      j :| 0 <= j < |q| - 1 && IsCutCall(c, lim, w.nodes, q[j], q[j + 1]);
    } else {
      NotMutual(w.adj, q);
      j := 0;
      var p := ProgramOf(before, c, entry);
      assert (q[0], q[1]) in GraphCalls(g, p, owner);
      var i: nat :| i < |p.sites| && IsGraphCall(g, p, i) && (q[0], q[1]) == (owner(p.sites[i].call), p.sites[i].callee);
      GraphCallFacts(before, c, lim, entry, w, nodes, g, owner, i);
      assert IsSelfCall(c, p.sites[i]);
      Recurses(c, p.sites[i]);
      SelfCallsCut(before, c, lim, entry, w, p.sites[i]);
    }
  }

  lemma Recurses(c: CallInfo, s: Site)
    requires s in c.sites && IsSelfCall(c, s)
    ensures SelfCalled(c, c.sites, s.callee)
  {}

  /** A cycle whose start is on no mutual cycle stays there. */
  lemma NotMutual(adj: C.Calls, q: seq<Fn>)
    requires IsCycle(C.EdgesOf(adj), q) && !C.InMutualCycle(adj, q[0])
    ensures q[1] == q[0]
  {
    WalkReaches(C.EdgesOf(adj), q, 0, 1);
    WalkReaches(C.EdgesOf(adj), q, 1, |q| - 1);
    assert C.Mutual(adj, q[0], q[1]);
  }

  /** No unbounded recursion reported means no unflagged cycle of calls is left. */
  lemma NoOpenRecursion(before: Blocks, c: CallInfo, lim: Limits, entry: nat, w: Journal, nodes: Blocks, g: Asg, r: Findings, owner: nat -> Fn)
    requires IsFinal(before, c, lim, entry, w, nodes, g) && Reports(c, lim, nodes, w, r) && NoneUnbounded(r) && OwnsCallers(c, owner)
    ensures Acyclic(OpenCalls(g, ProgramOf(before, c, entry), owner))
  {
    hide IsFinal, Reports, NoneUnbounded, OwnsCallers;
    var p := ProgramOf(before, c, entry);
    forall q ensures !IsCycle(OpenCalls(g, p, owner), q) {
      if IsCycle(OpenCalls(g, p, owner), q) {
        OpenIsGraphCall(g, p, owner, q);
        GraphCyclesFlagged(before, c, lim, entry, w, nodes, g, r, owner, q);
        CycleNotOpen(g, p, owner, q);
      }
    }
  }

  lemma OpenIsGraphCall(g: Asg, p: Program, owner: nat -> Fn, q: seq<Fn>)
    requires IsCycle(OpenCalls(g, p, owner), q)
    ensures IsCycle(GraphCalls(g, p, owner), q)
  {
    forall j | 0 <= j < |q| - 1 ensures (q[j], q[j + 1]) in GraphCalls(g, p, owner) {
      assert (q[j], q[j + 1]) in OpenCalls(g, p, owner);
      var i: nat :| i < |p.sites| && IsOpenCall(g, p, i) && (q[j], q[j + 1]) == (owner(p.sites[i].call), p.sites[i].callee);
      assert IsGraphCall(g, p, i);
    }
  }

  lemma CycleNotOpen(g: Asg, p: Program, owner: nat -> Fn, q: seq<Fn>)
    requires exists j :: 0 <= j < |q| - 1 && AllFlagged(g, p, owner, q[j], q[j + 1])
    ensures !IsCycle(OpenCalls(g, p, owner), q)
  {
    var j :| 0 <= j < |q| - 1 && AllFlagged(g, p, owner, q[j], q[j + 1]);
    NotOpen(g, p, owner, q[j], q[j + 1]);
  }

  lemma NotOpen(g: Asg, p: Program, owner: nat -> Fn, f: Fn, h: Fn)
    requires AllFlagged(g, p, owner, f, h)
    ensures (f, h) !in OpenCalls(g, p, owner)
  {
    forall i: nat | i < |p.sites| && owner(p.sites[i].call) == f && p.sites[i].callee == h ensures !IsOpenCall(g, p, i) {
      assert IsOpenCall(g, p, i) ==> IsGraphCall(g, p, i);
    }
  }

  // ---------------------------------------------------------------- an optimum exists

  /** Exits do not continue, flagged headers have bounds, and landings are not flagged from their call
      block. */
  ghost predicate IsTidy(c: CallInfo, nodes: Blocks) {
    && (forall u :: u in nodes && nodes[u].name == "Exit" ==> nodes[u].successors == {})
    && (forall h :: h in nodes && nodes[h].backEdgePredecessors != {} ==> nodes[h].upperLoopBound > 0)
    && (forall s :: s in c.sites && s.hasLanding && s.landing in nodes ==> s.call !in nodes[s.landing].backEdgePredecessors)
  }

  lemma EdgeIsOfProgram(before: Blocks, c: CallInfo, lim: Limits, entry: nat, w: Journal, nodes: Blocks, g: Asg, u: nat, v: nat)
    requires IsFinal(before, c, lim, entry, w, nodes, g) && IsTidy(c, nodes) && g.HasEdge(u, v)
    ensures var p := ProgramOf(before, c, entry);
            (u, v) in p.intra || IsCallEdge(p, u, v) || IsReturnEdge(p, u, v)
  {
    GraphEdges(before, c, lim, entry, w, nodes, g);
    assert (u, v) in EdgesOf(before) + WiredEdges(c, c.sites);
    if (u, v) in WiredEdges(c, c.sites) {
      WiredEdgesExact(c, c.sites);
      var k :| 0 <= k < |c.sites| && (u, v) in SiteEdges(c, c.sites[k]);
      WiredEdgeIsOfProgram(before, c, entry, nodes, g, c.sites[k], u, v);
    }
  }

  lemma WiredEdgeIsOfProgram(before: Blocks, c: CallInfo, entry: nat, nodes: Blocks, g: Asg, s: Site, u: nat, v: nat)
    requires IsTidy(c, nodes) && IsStateGraphOf(g, nodes, c) && s in c.sites && (u, v) in SiteEdges(c, s) && u in nodes
    ensures IsCallEdge(ProgramOf(before, c, entry), u, v) || IsReturnEdge(ProgramOf(before, c, entry), u, v)
  {
    hide Holds, KeptNodes, KeptSites, Shows, EdgesOf;
    var p := ProgramOf(before, c, entry);
    WiredSitesExact(c, c.sites);
    assert s in p.sites;
    var i: nat :| i < |p.sites| && p.sites[i] == s;
    if (u, v) == (s.call, c.entryOf[s.callee]) {
      assert CallsAlong(p, i, u, v);
    } else {
      assert ReturnsAlong(p, i, u, v);
    }
  }

  lemma TidyNode(before: Blocks, c: CallInfo, lim: Limits, entry: nat, w: Journal, nodes: Blocks, g: Asg, u: nat, v: nat)
    requires IsFinal(before, c, lim, entry, w, nodes, g) && IsTidy(c, nodes) && g.HasEdge(u, v)
    ensures g.Valid() && !g.nodes[u].isExit && (g.IsBackEdge(u, v) ==> IsBoundedHeader(g, v))
  {
    hide *;
    KeptEdge(before, c, lim, entry, w, nodes, g, u, v);
    NotAnExit(c, nodes, g, u, v);
    BoundedTarget(c, nodes, g, u, v);
  }

  lemma KeptEdge(before: Blocks, c: CallInfo, lim: Limits, entry: nat, w: Journal, nodes: Blocks, g: Asg, u: nat, v: nat)
    requires IsFinal(before, c, lim, entry, w, nodes, g) && g.HasEdge(u, v)
    ensures g.Valid() && u in g.nodes && IsStateGraphOf(g, nodes, c) && IsSucc(nodes, u, v) && v in nodes
  {
    GraphEdges(before, c, lim, entry, w, nodes, g);
    assert (u, v) in EdgesOf(nodes);
  }

  lemma NotAnExit(c: CallInfo, nodes: Blocks, g: Asg, u: nat, v: nat)
    requires IsTidy(c, nodes) && IsStateGraphOf(g, nodes, c) && IsSucc(nodes, u, v)
    ensures u in g.nodes && !g.nodes[u].isExit
  {
    hide Holds, KeptSites, KeptNodes, EdgesOf;
    assert v in nodes[u].successors;
    assert Shows(g.nodes[u], nodes[u]);
  }

  lemma BoundedTarget(c: CallInfo, nodes: Blocks, g: Asg, u: nat, v: nat)
    requires IsTidy(c, nodes) && IsStateGraphOf(g, nodes, c) && IsSucc(nodes, u, v) && v in nodes && g.HasEdge(u, v)
    ensures g.IsBackEdge(u, v) ==> IsBoundedHeader(g, v)
  {
    hide KeptSites, KeptNodes, EdgesOf;
    assert Shows(g.nodes[v], nodes[v]);
    assert InSuccs(g.succs, u, v);
    if g.IsBackEdge(u, v) { assert u in nodes[v].backEdgePredecessors; }
  }

  lemma LandingKept(before: Blocks, c: CallInfo, lim: Limits, entry: nat, w: Journal, nodes: Blocks, g: Asg, i: nat)
    requires IsFinal(before, c, lim, entry, w, nodes, g) && i < |ProgramOf(before, c, entry).sites|
    requires var s := ProgramOf(before, c, entry).sites[i]; s.hasLanding && s.call in g.nodes
    ensures var s := ProgramOf(before, c, entry).sites[i];
            s in c.sites && s.landing in nodes && g.HasEdge(s.call, s.landing)
  {
    hide IsFilled, IsWiring, Pruned, Mirrored, Holds, KeptSites, KeptNodes, EdgesOf;
    var p := ProgramOf(before, c, entry);
    ProgramKept(before, c, lim, entry, w, nodes, g);
    assert (p.sites[i].call, p.sites[i].landing) in p.intra;
    WiredSitesExact(c, c.sites);
    assert p.sites[i] in WiredSites(c, c.sites);
  }

  /** Every kept call with a landing is carried over, so it gets its matching row. */
  lemma SiteCarried(before: Blocks, c: CallInfo, lim: Limits, entry: nat, w: Journal, nodes: Blocks, g: Asg, i: nat)
    requires IsFinal(before, c, lim, entry, w, nodes, g) && i < |ProgramOf(before, c, entry).sites|
    requires var s := ProgramOf(before, c, entry).sites[i]; s.hasLanding && s.call in g.nodes
    ensures exists k :: 0 <= k < |g.callSites| && SiteIs(ProgramOf(before, c, entry), g.callSites[k], i)
    ensures !IsTidy(c, nodes) || !g.IsBackEdge(ProgramOf(before, c, entry).sites[i].call, ProgramOf(before, c, entry).sites[i].landing)
  {
    hide IsFilled, IsWiring, Pruned, Mirrored, KeptSites, KeptNodes, EdgesOf, ProgramOf;
    var p := ProgramOf(before, c, entry);
    var s := p.sites[i];
    LandingKept(before, c, lim, entry, w, nodes, g, i);
    KeptSitesAre(c.sites, nodes);
    var cs := CallSite(s.call, s.landing, s.callee);
    assert s == Site(s.call, s.callee, s.landing, true) && IsKeptSite(c.sites, nodes, cs);
    assert cs in g.callSites;
    var k :| 0 <= k < |g.callSites| && g.callSites[k] == cs;
    assert SiteIs(p, g.callSites[k], i);
    assert InSuccs(g.succs, s.call, s.landing);
  }

  lemma FinalTight(before: Blocks, c: CallInfo, lim: Limits, entry: nat, w: Journal, nodes: Blocks, g: Asg)
    requires IsFinal(before, c, lim, entry, w, nodes, g) && IsTidy(c, nodes)
    ensures Tight(g, ProgramOf(before, c, entry))
  {
    hide IsFinal, IsTidy, Embeds, SitesMatch, IsCallEdge, IsReturnEdge;
    var p := ProgramOf(before, c, entry);
    FinalEmbeds(before, c, lim, entry, w, nodes, g);
    FinalSites(before, c, lim, entry, w, nodes, g);
    forall u: nat, v: nat | g.HasEdge(u, v) ensures (u, v) in p.intra || IsCallEdge(p, u, v) || IsReturnEdge(p, u, v) {
      EdgeIsOfProgram(before, c, lim, entry, w, nodes, g, u, v);
    }
    FinalTidy(before, c, lim, entry, w, nodes, g);
    forall i: nat | i < |p.sites| && p.sites[i].hasLanding && p.sites[i].call in g.nodes
      ensures exists k :: 0 <= k < |g.callSites| && SiteIs(p, g.callSites[k], i)
    {
      SiteCarried(before, c, lim, entry, w, nodes, g, i);
    }
    forall i: nat | i < |p.sites| && p.sites[i].hasLanding ensures !g.IsBackEdge(p.sites[i].call, p.sites[i].landing) {
      if p.sites[i].call in g.nodes { SiteCarried(before, c, lim, entry, w, nodes, g, i); }
    }
  }

  lemma FinalTidy(before: Blocks, c: CallInfo, lim: Limits, entry: nat, w: Journal, nodes: Blocks, g: Asg)
    requires IsFinal(before, c, lim, entry, w, nodes, g) && IsTidy(c, nodes)
    ensures g.Valid() && forall u: nat, v: nat :: g.HasEdge(u, v) ==> !g.nodes[u].isExit && (g.IsBackEdge(u, v) ==> IsBoundedHeader(g, v))
  {
    hide IsFinal, IsTidy, IsBoundedHeader;
    GraphEdges(before, c, lim, entry, w, nodes, g);
    forall u: nat, v: nat | g.HasEdge(u, v) ensures !g.nodes[u].isExit && (g.IsBackEdge(u, v) ==> IsBoundedHeader(g, v)) {
      TidyNode(before, c, lim, entry, w, nodes, g, u, v);
    }
  }
}
