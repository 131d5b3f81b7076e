/** Bounding mutual recursion: which calls are flagged, and why no call cycle escapes. */
module RecursionBounds {
  import opened ReplacementPolicy
  import opened AbstractStateGraph
  import opened Walks
  import opened GraphBlocks
  import opened Runs
  import opened CallWiring
  import opened RecursionScan
  import C = CallCycles

  /** The site is a call from `f` to `g`. */
  predicate IsCall(c: CallInfo, s: Site, f: Fn, g: Fn) { s.call in c.caller && c.caller[s.call] == f && s.callee == g }

  /** `adj` holds the calls of the sites and no others. */
  ghost predicate IsAdjacency(c: CallInfo, sites: seq<Site>, adj: C.Calls) {
    forall f: Fn, g: Fn :: (f, g) in C.EdgesOf(adj) <==> SomeCall(c, sites, f, g)
  }

  ghost predicate SomeCall(c: CallInfo, sites: seq<Site>, f: Fn, g: Fn) { exists s :: s in sites && IsCall(c, s, f, g) }

  lemma SomeCallAppend(c: CallInfo, sites: seq<Site>, s: Site, f: Fn, g: Fn)
    ensures SomeCall(c, sites + [s], f, g) <==> SomeCall(c, sites, f, g) || IsCall(c, s, f, g)
  {
    assert forall t :: t in sites + [s] <==> t in sites || t == s;
  }

  lemma AdjacencyAppend(c: CallInfo, sites: seq<Site>, adj: C.Calls, s: Site)
    requires IsAdjacency(c, sites, adj)
    ensures IsAdjacency(c, sites + [s],
              if s.call in c.caller then adj[c.caller[s.call] := C.Callees(adj, c.caller[s.call]) + {s.callee}] else adj)
  {
    forall f: Fn, g: Fn { SomeCallAppend(c, sites, s, f, g); }
    hide SomeCall;
  }

  method CallAdjacency(c: CallInfo) returns (adj: C.Calls)
    ensures IsAdjacency(c, c.sites, adj)
  {
    adj := map[];
    for k := 0 to |c.sites|
      invariant IsAdjacency(c, c.sites[..k], adj)
    {
      var s := c.sites[k];
      assert c.sites[..k + 1] == c.sites[..k] + [s];
      AdjacencyAppend(c, c.sites[..k], adj, s);
      if s.call in c.caller {
        adj := adj[c.caller[s.call] := C.Callees(adj, c.caller[s.call]) + {s.callee}];
      }
    }
    assert c.sites[..|c.sites|] == c.sites;
  }

  /** A member entered from outside the component, or the start function. */
  ghost predicate IsEntry(c: CallInfo, adj: C.Calls, scc: set<Fn>, f: Fn) {
    f in scc && (c.start == Some(f) || exists g: Fn :: g !in scc && (g, f) in C.EdgesOf(adj))
  }

  method ComponentEntries(c: CallInfo, adj: C.Calls, scc: set<Fn>) returns (entries: set<Fn>)
    ensures forall f :: f in entries <==> IsEntry(c, adj, scc, f)
    ensures forall f :: f in entries <==> f in scc && (c.start == Some(f) || exists g :: g in adj && g !in scc && f in adj[g])
  {
    entries := {};
    var callers := Ascending(adj.Keys);
    AscendingExact(adj.Keys);
    for i := 0 to |callers|
      invariant forall f :: f in entries <==> f in scc && exists g: Fn :: g in callers[..i] && g !in scc && (g, f) in C.EdgesOf(adj)
    {
      var g := callers[i];
      assert g in callers && callers[..i + 1] == callers[..i] + [g];
      if g !in scc { entries := entries + set f | f in adj[g] && f in scc; }
    }
    assert callers[..|callers|] == callers;
    if c.start.Some? && c.start.value in scc { entries := entries + {c.start.value}; }
  }

  // ---------------------------------------------------------------- flags

  /** Every call from `f` to `g` is a flagged back edge into the entry of `g`, which is a header
      with the supplied bound. */
  ghost predicate IsCutCall(c: CallInfo, lim: Limits, nodes: Blocks, f: Fn, g: Fn) {
    && g in c.entryOf && c.entryOf[g] in nodes && BoundOf(lim, g) > 0
    && nodes[c.entryOf[g]].isLoop && nodes[c.entryOf[g]].upperLoopBound == BoundOf(lim, g)
    && forall s :: s in c.sites && IsCall(c, s, f, g) ==> s.call in nodes[c.entryOf[g]].backEdgePredecessors
  }

  /** The block was at most turned into a recursion header of the function it starts. */
  ghost predicate GrownBlock(c: CallInfo, lim: Limits, u: nat, a: Block, b: Block) {
    && b.successors == a.successors && b.predecessors == a.predecessors && a.backEdgePredecessors <= b.backEdgePredecessors
    && b.name == a.name && b.minCycles == a.minCycles && b.maxCycles == a.maxCycles
    && (b == a || exists f :: f in c.entryOf && c.entryOf[f] == u && b.isLoop && b.upperLoopBound == BoundOf(lim, f) && BoundOf(lim, f) > 0)
    && forall q :: q in b.backEdgePredecessors && q !in a.backEdgePredecessors ==> CallsEntry(c, q, u)
  }

  /** Block `q` calls the function that starts at `u`. */
  ghost predicate CallsEntry(c: CallInfo, q: nat, u: nat) {
    exists s :: s in c.sites && s.call == q && s.callee in c.entryOf && c.entryOf[s.callee] == u
  }

  ghost predicate Grown(c: CallInfo, lim: Limits, before: Blocks, after: Blocks) {
    before.Keys == after.Keys && forall u :: u in before ==> GrownBlock(c, lim, u, before[u], after[u])
  }

  lemma GrownTransitive(c: CallInfo, lim: Limits, x: Blocks, y: Blocks, z: Blocks)
    requires Grown(c, lim, x, y) && Grown(c, lim, y, z)
    ensures Grown(c, lim, x, z)
  {
    forall u | u in x ensures GrownBlock(c, lim, u, x[u], z[u]) {
      assert GrownBlock(c, lim, u, x[u], y[u]) && GrownBlock(c, lim, u, y[u], z[u]);
    }
  }

  lemma GrownSelf(c: CallInfo, lim: Limits, x: Blocks)
    ensures Grown(c, lim, x, x)
  {}

  lemma GrownEdges(c: CallInfo, lim: Limits, a: Blocks, b: Blocks)
    requires Grown(c, lim, a, b)
    ensures EdgesOf(a) == EdgesOf(b) && (Mirrored(a) <==> Mirrored(b))
  {
    assert forall u :: u in a ==> GrownBlock(c, lim, u, a[u], b[u]);
    hide GrownBlock, EdgesOf, Mirrored;
    assert forall u :: u in a ==> GrownBlock(c, lim, u, a[u], b[u]);
    GrownLinks(c, lim, a, b);
    Relabelled(a, b);
  }

  lemma GrownLinks(c: CallInfo, lim: Limits, a: Blocks, b: Blocks)
    requires Grown(c, lim, a, b)
    ensures forall u :: u in a ==> a[u].successors == b[u].successors && a[u].predecessors == b[u].predecessors
  {
    assert forall u :: u in a ==> GrownBlock(c, lim, u, a[u], b[u]);
  }

  /** A cut stays cut while blocks only grow. */
  lemma CutStays(c: CallInfo, lim: Limits, a: Blocks, b: Blocks, f: Fn, g: Fn)
    requires DistinctEntries(c) && IsCutCall(c, lim, a, f, g) && Grown(c, lim, a, b)
    ensures IsCutCall(c, lim, b, f, g)
  {
    assert GrownBlock(c, lim, c.entryOf[g], a[c.entryOf[g]], b[c.entryOf[g]]);
  }

  // ---------------------------------------------------------------- coverage

  ghost predicate CutAll(c: CallInfo, lim: Limits, nodes: Blocks, back: Edges) {
    forall f: Fn, g: Fn :: (f, g) in back ==> IsCutCall(c, lim, nodes, f, g)
  }

  /** The walk makes some cut call. */
  ghost predicate CrossesCut(c: CallInfo, lim: Limits, nodes: Blocks, p: seq<Fn>) {
    exists i :: 0 <= i < |p| - 1 && IsCutCall(c, lim, nodes, p[i], p[i + 1])
  }

  /** A call cycle through a component stays inside it. */
  lemma CycleStays(adj: C.Calls, scc: set<Fn>, p: seq<Fn>)
    requires C.IsComponent(adj, scc) && IsCycle(C.EdgesOf(adj), p) && p[0] in scc
    ensures IsCycle(Inner(adj, scc), p)
  {
    var f: Fn :| f in scc && C.InMutualCycle(adj, f) && forall g: Fn :: g in scc <==> C.Mutual(adj, f, g);
    forall i | 0 <= i < |p| ensures p[i] in scc {
      WalkReaches(C.EdgesOf(adj), p, 0, i);
      WalkReaches(C.EdgesOf(adj), p, i, |p| - 1);
      C.MutualTransitive(adj, f, p[0], p[i]);
    }
    forall i | 0 <= i < |p| - 1 ensures (p[i], p[i + 1]) in Inner(adj, scc) {
      assert (p[i], p[i + 1]) in C.EdgesOf(adj);
    }
  }

  /** In a component whose back edges are all cut, every call cycle makes a cut call. */
  lemma ComponentCovered(c: CallInfo, lim: Limits, nodes: Blocks, adj: C.Calls, scc: set<Fn>, back: Edges, p: seq<Fn>)
    requires C.IsComponent(adj, scc) && Acyclic(Inner(adj, scc) - back) && CutAll(c, lim, nodes, back)
    requires IsCycle(C.EdgesOf(adj), p) && p[0] in scc
    ensures CrossesCut(c, lim, nodes, p)
  {
    CycleStays(adj, scc, p);
    hide Inner, IsCutCall, C.IsComponent;
    assert !IsCycle(Inner(adj, scc) - back, p);
    var i :| 0 <= i < |p| - 1 && (p[i], p[i + 1]) !in Inner(adj, scc) - back;
    assert IsCutCall(c, lim, nodes, p[i], p[i + 1]);
  }

  /** Every call cycle through a function of the set makes a cut call. */
  ghost predicate Covered(c: CallInfo, lim: Limits, nodes: Blocks, adj: C.Calls, fs: set<Fn>) {
    forall p :: IsCycle(C.EdgesOf(adj), p) && p[0] in fs ==> CrossesCut(c, lim, nodes, p)
  }

  lemma CoveredStays(c: CallInfo, lim: Limits, a: Blocks, b: Blocks, adj: C.Calls, fs: set<Fn>)
    requires DistinctEntries(c) && Covered(c, lim, a, adj, fs) && Grown(c, lim, a, b)
    ensures Covered(c, lim, b, adj, fs)
  {
    hide Grown, IsCutCall;
    forall p | IsCycle(C.EdgesOf(adj), p) && p[0] in fs ensures CrossesCut(c, lim, b, p) {
      assert CrossesCut(c, lim, a, p);
      var i :| 0 <= i < |p| - 1 && IsCutCall(c, lim, a, p[i], p[i + 1]);
      CutStays(c, lim, a, b, p[i], p[i + 1]);
    }
  }

  // ---------------------------------------------------------------- flagging step by step

  lemma FlagGrows(c: CallInfo, lim: Limits, nodes: Blocks, h: Fn, s: Site)
    requires h in c.entryOf && c.entryOf[h] in nodes && BoundOf(lim, h) > 0 && s in c.sites && s.callee == h
    ensures var e := c.entryOf[h];
            Grown(c, lim, nodes, nodes[e := Flagged(nodes[e], BoundOf(lim, h), s.call)])
  {
    assert CallsEntry(c, s.call, c.entryOf[h]);
  }

  /** The sites looked at so far are flagged. */
  ghost predicate FlaggedSites(c: CallInfo, lim: Limits, nodes: Blocks, sites: seq<Site>, f: Fn, h: Fn)
    requires h in c.entryOf && c.entryOf[h] in nodes
  {
    var b := nodes[c.entryOf[h]];
    forall s :: s in sites && IsCall(c, s, f, h) ==>
      s.call in b.backEdgePredecessors && b.isLoop && b.upperLoopBound == BoundOf(lim, h)
  }

  lemma FlaggedOneMore(c: CallInfo, lim: Limits, nodes: Blocks, sites: seq<Site>, s: Site, f: Fn, h: Fn)
    requires h in c.entryOf && c.entryOf[h] in nodes && FlaggedSites(c, lim, nodes, sites, f, h)
    ensures var e := c.entryOf[h];
            FlaggedSites(c, lim, if IsCall(c, s, f, h) then nodes[e := Flagged(nodes[e], BoundOf(lim, h), s.call)] else nodes,
              sites + [s], f, h)
  {
    assert forall t :: t in sites + [s] <==> t in sites || t == s;
  }

  lemma NowCut(c: CallInfo, lim: Limits, nodes: Blocks, f: Fn, h: Fn)
    requires h in c.entryOf && c.entryOf[h] in nodes && BoundOf(lim, h) > 0 && SomeCall(c, c.sites, f, h)
    requires FlaggedSites(c, lim, nodes, c.sites, f, h)
    ensures IsCutCall(c, lim, nodes, f, h)
  {}

  lemma GrownRefers(c: CallInfo, lim: Limits, a: Blocks, b: Blocks)
    requires Grown(c, lim, a, b) && Refers(c, a)
    ensures Refers(c, b) && a.Keys == b.Keys
  {}

  lemma CutAllStays(c: CallInfo, lim: Limits, a: Blocks, b: Blocks, back: Edges)
    requires DistinctEntries(c) && CutAll(c, lim, a, back) && Grown(c, lim, a, b)
    ensures CutAll(c, lim, b, back)
  {
    hide IsCutCall, Grown;
    forall f: Fn, g: Fn | (f, g) in back ensures IsCutCall(c, lim, b, f, g) { CutStays(c, lim, a, b, f, g); }
  }

  lemma CutOneMore(c: CallInfo, lim: Limits, nodes: Blocks, back: Edges, f: Fn, g: Fn)
    requires CutAll(c, lim, nodes, back) && IsCutCall(c, lim, nodes, f, g)
    ensures CutAll(c, lim, nodes, back + {(f, g)})
  {
    hide IsCutCall;
  }

  lemma CutNothing(c: CallInfo, lim: Limits, nodes: Blocks, adj: C.Calls)
    ensures CutAll(c, lim, nodes, {}) && Covered(c, lim, nodes, adj, {})
  {}

  lemma ComponentIsCovered(c: CallInfo, lim: Limits, nodes: Blocks, adj: C.Calls, scc: set<Fn>, back: Edges)
    requires C.IsComponent(adj, scc) && Acyclic(Inner(adj, scc) - back) && CutAll(c, lim, nodes, back)
    ensures Covered(c, lim, nodes, adj, scc)
  {
    hide C.IsComponent, Acyclic, Inner, CutAll, CrossesCut;
    forall p | IsCycle(C.EdgesOf(adj), p) && p[0] in scc ensures CrossesCut(c, lim, nodes, p) {
      ComponentCovered(c, lim, nodes, adj, scc, back, p);
    }
  }

  lemma CoveredMore(c: CallInfo, lim: Limits, nodes: Blocks, adj: C.Calls, a: set<Fn>, b: set<Fn>)
    requires Covered(c, lim, nodes, adj, a) && Covered(c, lim, nodes, adj, b)
    ensures Covered(c, lim, nodes, adj, a + b)
  {
    hide CrossesCut;
  }

  /** Both ends of a call inside a component are known to the graph as caller and callee. */
  lemma InnerIsCall(c: CallInfo, adj: C.Calls, scc: set<Fn>, f: Fn, g: Fn)
    requires IsAdjacency(c, c.sites, adj) && (f, g) in Inner(adj, scc)
    ensures SomeCall(c, c.sites, f, g)
  {
    assert (f, g) in C.EdgesOf(adj);
  }

  /** Every header can be bounded. */
  ghost predicate AllBounded(c: CallInfo, lim: Limits, back: Edges) {
    forall x :: x in back ==> BoundOf(lim, x.1) > 0 && x.1 in c.entryOf
  }

  lemma NoneBounded(c: CallInfo, lim: Limits, back: Edges)
    requires back == {}
    ensures AllBounded(c, lim, back)
  {}

  lemma BoundedOneMore(c: CallInfo, lim: Limits, back: Edges, x: (Fn, Fn))
    ensures AllBounded(c, lim, back + {x}) <==> AllBounded(c, lim, back) && BoundOf(lim, x.1) > 0 && x.1 in c.entryOf
  {}

  /** Each of the functions is on a cycle with one that has no bound or no entry. */
  ghost predicate Excused(c: CallInfo, lim: Limits, adj: C.Calls, fs: set<Fn>) {
    forall f :: f in fs ==> exists g: Fn :: C.Mutual(adj, f, g) && (BoundOf(lim, g) == 0 || g !in c.entryOf)
  }

  /** A component not counted as bounded has a member without a bound or without an entry. */
  lemma ComponentExcused(c: CallInfo, lim: Limits, adj: C.Calls, scc: set<Fn>, back: Edges)
    requires C.IsComponent(adj, scc) && Acyclic(Inner(adj, scc) - back) && back <= Inner(adj, scc)
    requires !(back != {} && AllBounded(c, lim, back))
    ensures Excused(c, lim, adj, scc)
  {
    hide *;
    SomethingCut(adj, scc, back);
    var x := SomeUnbounded(c, lim, back);
    TargetInside(adj, scc, x);
    forall f | f in scc ensures C.Mutual(adj, f, x.1) { MembersMutual(adj, scc, f, x.1); }
    IsExcused(c, lim, adj, scc, x.1);
  }

  lemma IsExcused(c: CallInfo, lim: Limits, adj: C.Calls, fs: set<Fn>, g: Fn)
    requires BoundOf(lim, g) == 0 || g !in c.entryOf
    requires forall f :: f in fs ==> C.Mutual(adj, f, g)
    ensures Excused(c, lim, adj, fs)
  {}

  lemma SomeUnbounded(c: CallInfo, lim: Limits, back: Edges) returns (x: (Fn, Fn))
    requires !AllBounded(c, lim, back)
    ensures x in back && (BoundOf(lim, x.1) == 0 || x.1 !in c.entryOf)
  {
    x :| x in back && !(BoundOf(lim, x.1) > 0 && x.1 in c.entryOf);
  }

  lemma TargetInside(adj: C.Calls, scc: set<Fn>, x: (Fn, Fn))
    requires x in Inner(adj, scc)
    ensures x.1 in scc
  {}

  lemma MembersMutual(adj: C.Calls, scc: set<Fn>, f: Fn, g: Fn)
    requires C.IsComponent(adj, scc) && f in scc && g in scc
    ensures C.Mutual(adj, f, g)
  {
    hide C.Mutual;
    var m: Fn :| m in scc && C.InMutualCycle(adj, m) && forall h: Fn :: h in scc <==> C.Mutual(adj, m, h);
    MutualBack(adj, m, f, g);
  }

  lemma MutualBack(adj: C.Calls, m: Fn, f: Fn, g: Fn)
    requires C.Mutual(adj, m, f) && C.Mutual(adj, m, g)
    ensures C.Mutual(adj, f, g)
  {
    ReachesTransitive(C.EdgesOf(adj), f, m, g);
    ReachesTransitive(C.EdgesOf(adj), g, m, f);
  }

  /** A component has a cycle, so some call in it is cut. */
  lemma SomethingCut(adj: C.Calls, scc: set<Fn>, back: Edges)
    requires C.IsComponent(adj, scc) && Acyclic(Inner(adj, scc) - back)
    ensures back != {}
  {
    hide C.Mutual, Inner;
    var m: Fn :| m in scc && C.InMutualCycle(adj, m) && forall g: Fn :: g in scc <==> C.Mutual(adj, m, g);
    var p := ComponentCycle(adj, m);
    assert back == {} ==> Inner(adj, scc) - back == Inner(adj, scc);
    CycleStays(adj, scc, p);
  }

  lemma ComponentCycle(adj: C.Calls, m: Fn) returns (p: seq<Fn>)
    requires C.InMutualCycle(adj, m)
    ensures IsCycle(C.EdgesOf(adj), p) && p[0] == m
  {
    var g: Fn :| g != m && C.Mutual(adj, m, g);
    var a, b :| WalkFromTo(C.EdgesOf(adj), a, m, g) && WalkFromTo(C.EdgesOf(adj), b, g, m);
    p := a + b[1..];
    forall i | 0 <= i < |p| - 1 ensures (p[i], p[i + 1]) in C.EdgesOf(adj) {
      if i >= |a| - 1 { assert (b[i - |a| + 1], b[i - |a| + 2]) in C.EdgesOf(adj); }
    }
  }

  lemma ExcusedMore(c: CallInfo, lim: Limits, adj: C.Calls, a: set<Fn>, b: set<Fn>)
    requires Excused(c, lim, adj, a) && Excused(c, lim, adj, b)
    ensures Excused(c, lim, adj, a + b)
  {
    hide C.Mutual;
  }

  lemma NoneExcused(c: CallInfo, lim: Limits, adj: C.Calls)
    ensures Excused(c, lim, adj, {})
  {}

  ghost predicate Splits(sccs: seq<set<Fn>>, fs: set<Fn>) { forall f: Fn :: f in fs <==> C.Covers(sccs, f) }

  lemma SplitsAppend(sccs: seq<set<Fn>>, fs: set<Fn>, scc: set<Fn>)
    requires Splits(sccs, fs)
    ensures Splits(sccs + [scc], fs + scc)
  {
    forall f: Fn ensures f in fs + scc <==> C.Covers(sccs + [scc], f) {
      if f in fs {
        var i :| 0 <= i < |sccs| && f in sccs[i];
        assert (sccs + [scc])[i] == sccs[i];
      }
      if f in scc { assert (sccs + [scc])[|sccs|] == scc; }
    }
  }

  lemma SplitsNothing(sccs: seq<set<Fn>>)
    requires sccs == []
    ensures Splits(sccs, {} + {})
  {}

  lemma SplitsExactly(adj: C.Calls, sccs: seq<set<Fn>>, fs: set<Fn>)
    requires Splits(sccs, fs) && forall f: Fn :: C.Covers(sccs, f) <==> C.InMutualCycle(adj, f)
    ensures forall f: Fn :: f in fs <==> C.InMutualCycle(adj, f)
  {}

  lemma EntriesInside(c: CallInfo, adj: C.Calls, scc: set<Fn>, entries: set<Fn>)
    requires forall f :: f in entries <==> IsEntry(c, adj, scc, f)
    ensures entries <= scc
  {}

  lemma NoSites(c: CallInfo, lim: Limits, nodes: Blocks, f: Fn, h: Fn, sites: seq<Site>)
    requires sites == [] && h in c.entryOf && c.entryOf[h] in nodes
    ensures FlaggedSites(c, lim, nodes, sites, f, h)
  {}

  // ---------------------------------------------------------------- the whole of finalizing

  datatype Findings = Findings(boundedRecursion: set<Fn>, unboundedSelf: set<Fn>, unboundedMutual: set<Fn>, unsoundCallees: set<Fn>)

  /** The blocks after wiring the calls and after bounding the cycles, and what was found about
      recursion on the way. */
  datatype Journal = Journal(
    wired: Blocks, nodes: Blocks, adj: C.Calls,
    boundedSelf: set<Fn>, unboundedSelf: set<Fn>, boundedMutual: set<Fn>, unboundedMutual: set<Fn>)

  ghost predicate IsWiring(c: CallInfo, lim: Limits, before: Blocks, w: Journal) {
    && WiredBlocks(c, lim, c.sites, before, w.wired) && Grown(c, lim, w.wired, w.nodes)
    && EdgesOf(w.nodes) == EdgesOf(before) + WiredEdges(c, c.sites) && Mirrored(w.nodes)
    && SelfExactly(c, lim, c.sites, w.boundedSelf, w.unboundedSelf)
    && IsAdjacency(c, c.sites, w.adj)
    && (forall f :: f in w.boundedMutual + w.unboundedMutual <==> C.InMutualCycle(w.adj, f))
    && Covered(c, lim, w.nodes, w.adj, w.boundedMutual) && Excused(c, lim, w.adj, w.unboundedMutual)
  }

  /** Wiring adds the edges the calls run along, and no others. */
  lemma WiredLinks(c: CallInfo, before: Blocks, after: Blocks)
    requires EdgesOf(after) == EdgesOf(before) + WiredEdges(c, c.sites)
    ensures forall u: nat, v: nat :: IsSucc(after, u, v) <==>
              IsSucc(before, u, v) || exists s :: s in c.sites && Links(c, s, u, v)
  {
    WiredEdgesLink(c, c.sites);
    hide Links;
    assert forall u: nat, v: nat :: IsSucc(after, u, v) <==> (u, v) in EdgesOf(after);
    assert forall u: nat, v: nat :: IsSucc(before, u, v) <==> (u, v) in EdgesOf(before);
  }

  ghost predicate Kept(c: CallInfo, nodes: Blocks, f: Fn) { f in c.entryOf && c.entryOf[f] in nodes }

  /** The findings are those about functions whose entry, or calls whose block, survived. */
  ghost predicate Reports(c: CallInfo, lim: Limits, nodes: Blocks, w: Journal, r: Findings) {
    && (forall f: Fn :: f in r.boundedRecursion <==> f in w.boundedSelf + w.boundedMutual && Kept(c, nodes, f))
    && (forall f: Fn :: f in r.unboundedSelf <==> f in w.unboundedSelf && Kept(c, nodes, f))
    && (forall f: Fn :: f in r.unboundedMutual <==> f in w.unboundedMutual && Kept(c, nodes, f))
    && (forall f: Fn :: f in r.unsoundCallees <==> UncostedCall(c, lim, nodes, f))
  }

  /** A surviving block calls `f`, which has no body and no known cost. */
  ghost predicate UncostedCall(c: CallInfo, lim: Limits, nodes: Blocks, f: Fn) {
    exists s :: s in c.sites && Stages(c, lim, s) && s.callee == f && s.call in nodes
  }

  lemma WiredRefers(c: CallInfo, lim: Limits, before: Blocks, after: Blocks)
    requires WiredBlocks(c, lim, c.sites, before, after) && Refers(c, before)
    ensures Refers(c, after)
  {}

  lemma WiringMade(c: CallInfo, lim: Limits, before: Blocks, w: Journal)
    requires WiredBlocks(c, lim, c.sites, before, w.wired) && Grown(c, lim, w.wired, w.nodes)
    requires EdgesOf(w.nodes) == EdgesOf(before) + WiredEdges(c, c.sites) && Mirrored(w.nodes)
    requires SelfExactly(c, lim, c.sites, w.boundedSelf, w.unboundedSelf)
    requires IsAdjacency(c, c.sites, w.adj) && Covered(c, lim, w.nodes, w.adj, w.boundedMutual)
    requires Excused(c, lim, w.adj, w.unboundedMutual)
    requires forall f :: f in w.boundedMutual + w.unboundedMutual <==> C.InMutualCycle(w.adj, f)
    ensures IsWiring(c, lim, before, w)
  {}

  lemma ReportMade(c: CallInfo, lim: Limits, nodes: Blocks, w: Journal, pending: set<(nat, Fn)>, r: Findings)
    requires StagedExactly(c, lim, c.sites, pending)
    requires r == Findings(
               set f | f in w.boundedSelf + w.boundedMutual && Kept(c, nodes, f),
               set f | f in w.unboundedSelf && Kept(c, nodes, f),
               set f | f in w.unboundedMutual && Kept(c, nodes, f),
               set x | x in pending && x.0 in nodes :: x.1)
    ensures Reports(c, lim, nodes, w, r)
  {
    forall f: Fn ensures f in r.unsoundCallees <==> UncostedCall(c, lim, nodes, f) {
      if f in r.unsoundCallees {
        var x :| x in pending && x.0 in nodes && x.1 == f;
        assert (x.0, x.1) in pending;
      }
      if UncostedCall(c, lim, nodes, f) {
        var s :| s in c.sites && Stages(c, lim, s) && s.callee == f && s.call in nodes;
        assert (s.call, f) in pending;
      }
    }
  }
}
