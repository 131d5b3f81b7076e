/** What finalizing the graph adds for calls: edges, recursion headers and external costs. */
module CallWiring {
  import opened ReplacementPolicy
  import opened AbstractStateGraph
  import opened Walks
  import opened GraphBlocks
  import opened Runs
  import C = CallCycles

  /** Collected while the functions were added: call sites, the function of each node, and the entry
      and return nodes of each function. */
  datatype CallInfo = CallInfo(
    sites: seq<Site>, caller: map<nat, Fn>, entryOf: map<Fn, nat>, returnsOf: map<Fn, seq<nat>>, start: Option<Fn>)

  /** Supplied from outside: recursion bounds, which functions have no body, and what those cost. */
  datatype Limits = Limits(recursionBound: map<Fn, nat>, declared: set<Fn>, externalCost: map<Fn, nat>)

  function BoundOf(lim: Limits, f: Fn): nat { if f in lim.recursionBound then lim.recursionBound[f] else 0 }

  ghost predicate Refers(c: CallInfo, nodes: Blocks) {
    && (forall i :: 0 <= i < |c.sites| ==> c.sites[i].call in nodes && (c.sites[i].hasLanding ==> c.sites[i].landing in nodes))
    && (forall f :: f in c.entryOf ==> c.entryOf[f] in nodes)
    && (forall f, r :: f in c.returnsOf && r in c.returnsOf[f] ==> r in nodes)
  }

  /** No two functions have the same entry. */
  ghost predicate DistinctEntries(c: CallInfo) {
    forall f, g :: f in c.entryOf && g in c.entryOf && c.entryOf[f] == c.entryOf[g] ==> f == g
  }

  /** Calls into the start function and calls to functions without an entry get no edges. */
  predicate IsWired(c: CallInfo, s: Site) { c.start != Some(s.callee) && s.callee in c.entryOf }

  predicate IsSelfCall(c: CallInfo, s: Site) { IsWired(c, s) && s.call in c.caller && c.caller[s.call] == s.callee }

  predicate IsExternal(c: CallInfo, lim: Limits, s: Site) {
    c.start != Some(s.callee) && s.callee !in c.entryOf && s.callee in lim.declared
  }

  // ---------------------------------------------------------------- edges

  ghost function SiteEdges(c: CallInfo, s: Site): Edges {
    if c.start == Some(s.callee) || s.callee !in c.entryOf then {}
    else
      {(s.call, c.entryOf[s.callee])}
      + (if s.hasLanding && s.callee in c.returnsOf then Into(c.returnsOf[s.callee], s.landing) else {})
  }

  ghost function WiredEdges(c: CallInfo, sites: seq<Site>): Edges {
    if sites == [] then {} else WiredEdges(c, sites[..|sites| - 1]) + SiteEdges(c, sites[|sites| - 1])
  }

  /** A call that is not into the start function, to a function with an entry, goes along (u, v), or
      one of that function's return blocks goes back to its landing along it. */
  ghost predicate Links(c: CallInfo, s: Site, u: nat, v: nat) {
    && c.start != Some(s.callee) && s.callee in c.entryOf
    && (|| (u == s.call && v == c.entryOf[s.callee])
        || (s.hasLanding && v == s.landing && s.callee in c.returnsOf && u in c.returnsOf[s.callee]))
  }

  lemma {:induction false} WiredEdgesExact(c: CallInfo, sites: seq<Site>)
    ensures forall x :: x in WiredEdges(c, sites) <==> exists i :: 0 <= i < |sites| && x in SiteEdges(c, sites[i])
  {
    if sites != [] {
      var front, last := sites[..|sites| - 1], sites[|sites| - 1];
      WiredEdgesExact(c, front);
      forall x ensures x in WiredEdges(c, sites) <==> exists i :: 0 <= i < |sites| && x in SiteEdges(c, sites[i]) {
        if x in WiredEdges(c, front) {
          var i :| 0 <= i < |front| && x in SiteEdges(c, front[i]);
          assert sites[i] == front[i];
        }
        if i :| 0 <= i < |sites| && x in SiteEdges(c, sites[i]) {
          if i < |front| { assert front[i] == sites[i]; }
        }
      }
    }
  }

  /** Wiring one site adds the edges its call runs along, and no others. */
  lemma SiteLinks(c: CallInfo, s: Site, before: Blocks, after: Blocks)
    requires EdgesOf(after) == EdgesOf(before) + SiteEdges(c, s)
    ensures forall u: nat, v: nat :: IsSucc(after, u, v) <==> IsSucc(before, u, v) || Links(c, s, u, v)
  {
    forall u: nat, v: nat ensures IsSucc(after, u, v) <==> IsSucc(before, u, v) || Links(c, s, u, v) {
      assert IsSucc(after, u, v) <==> (u, v) in EdgesOf(before) || (u, v) in SiteEdges(c, s);
    }
  }

  lemma WiredEdgesLink(c: CallInfo, sites: seq<Site>)
    ensures forall u: nat, v: nat :: (u, v) in WiredEdges(c, sites) <==> exists s :: s in sites && Links(c, s, u, v)
  {
    WiredEdgesExact(c, sites);
    forall u: nat, v: nat ensures (u, v) in WiredEdges(c, sites) <==> exists s :: s in sites && Links(c, s, u, v) {
      if (u, v) in WiredEdges(c, sites) {
        var i :| 0 <= i < |sites| && (u, v) in SiteEdges(c, sites[i]);
        assert Links(c, sites[i], u, v);
      }
      if s :| s in sites && Links(c, s, u, v) {
        var i :| 0 <= i < |sites| && sites[i] == s;
        assert (u, v) in SiteEdges(c, sites[i]);
      }
    }
  }

  // ---------------------------------------------------------------- recursion headers and costs

  /** A header entered again from `call`, at most `bound` times in all. */
  function Flagged(b: Block, bound: nat, call: nat): Block {
    b.(isLoop := true, upperLoopBound := bound, backEdgePredecessors := b.backEdgePredecessors + {call})
  }

  function Charged(b: Block, cost: nat): Block { b.(minCycles := b.minCycles + cost, maxCycles := b.maxCycles + cost) }

  /** The site makes `h` a recursion header. */
  predicate FlagsSelf(c: CallInfo, lim: Limits, s: Site, h: nat) {
    IsSelfCall(c, s) && BoundOf(lim, s.callee) > 0 && c.entryOf[s.callee] == h
  }

  predicate ChargesNode(c: CallInfo, lim: Limits, s: Site, h: nat) {
    IsExternal(c, lim, s) && s.callee in lim.externalCost && s.call == h
  }

  /** What wiring one site does to the block of node `h`, edges aside. */
  function AfterSite(c: CallInfo, lim: Limits, s: Site, h: nat, b: Block): Block {
    if FlagsSelf(c, lim, s, h) then Flagged(b, BoundOf(lim, s.callee), s.call)
    else if ChargesNode(c, lim, s, h) then Charged(b, lim.externalCost[s.callee])
    else b
  }

  /** The call blocks of bounded self-recursive calls into `h`. */
  ghost function SelfCallers(c: CallInfo, lim: Limits, sites: seq<Site>, h: nat): set<nat> {
    set i | 0 <= i < |sites| && FlagsSelf(c, lim, sites[i], h) :: sites[i].call
  }

  /** The cost of the external calls made in `h`. */
  ghost function ExternalCost(c: CallInfo, lim: Limits, sites: seq<Site>, h: nat): nat {
    if sites == [] then 0
    else
      var s := sites[|sites| - 1];
      ExternalCost(c, lim, sites[..|sites| - 1], h) + (if ChargesNode(c, lim, s, h) then lim.externalCost[s.callee] else 0)
  }

  /** The block of `h` after the sites were wired: recursive calls flagged, external calls charged,
      all else as before. */
  ghost predicate WiredBlock(c: CallInfo, lim: Limits, sites: seq<Site>, h: nat, before: Block, after: Block) {
    var callers := SelfCallers(c, lim, sites, h);
    && after.backEdgePredecessors == before.backEdgePredecessors + callers
    && (callers == {} ==> after.isLoop == before.isLoop && after.upperLoopBound == before.upperLoopBound)
    && (forall s :: s in sites && FlagsSelf(c, lim, s, h) ==> after.isLoop && after.upperLoopBound == BoundOf(lim, s.callee))
    && after.maxCycles == before.maxCycles + ExternalCost(c, lim, sites, h)
    && after.minCycles == before.minCycles + ExternalCost(c, lim, sites, h)
    && after.name == before.name
  }

  lemma WiredNothing(c: CallInfo, lim: Limits, h: nat, b: Block)
    ensures WiredBlock(c, lim, [], h, b, b)
  {
    assert SelfCallers(c, lim, [], h) == {};
  }

  lemma WiredOneMore(c: CallInfo, lim: Limits, sites: seq<Site>, s: Site, h: nat, before: Block, mid: Block)
    requires DistinctEntries(c) && WiredBlock(c, lim, sites, h, before, mid)
    ensures WiredBlock(c, lim, sites + [s], h, before, AfterSite(c, lim, s, h, mid))
  {
    var all := sites + [s];
    assert all[..|sites|] == sites && all[|sites|] == s;
    assert SelfCallers(c, lim, all, h) == SelfCallers(c, lim, sites, h) + (if FlagsSelf(c, lim, s, h) then {s.call} else {}) by {
      forall x ensures x in SelfCallers(c, lim, all, h) <==>
                       x in SelfCallers(c, lim, sites, h) || (FlagsSelf(c, lim, s, h) && x == s.call) {
        if x in SelfCallers(c, lim, sites, h) {
          var i :| 0 <= i < |sites| && FlagsSelf(c, lim, sites[i], h) && sites[i].call == x;
          assert all[i] == sites[i];
        }
        if x in SelfCallers(c, lim, all, h) {
          var i :| 0 <= i < |all| && FlagsSelf(c, lim, all[i], h) && all[i].call == x;
          if i < |sites| { assert all[i] == sites[i]; }
        }
      }
    }
  }

  // ---------------------------------------------------------------- findings

  /** Callees without a body whose cost is unknown, with the node that calls them. */
  ghost predicate Stages(c: CallInfo, lim: Limits, s: Site) { IsExternal(c, lim, s) && s.callee !in lim.externalCost }

  ghost predicate StagedExactly(c: CallInfo, lim: Limits, sites: seq<Site>, pending: set<(nat, Fn)>) {
    forall n: nat, f: Fn :: (n, f) in pending <==> exists s :: s in sites && Stages(c, lim, s) && s.call == n && s.callee == f
  }

  ghost predicate SelfExactly(c: CallInfo, lim: Limits, sites: seq<Site>, bounded: set<Fn>, unbounded: set<Fn>) {
    && (forall f: Fn :: f in bounded <==> BoundOf(lim, f) > 0 && SelfCalled(c, sites, f))
    && (forall f: Fn :: f in unbounded <==> BoundOf(lim, f) == 0 && SelfCalled(c, sites, f))
  }

  ghost predicate SelfCalled(c: CallInfo, sites: seq<Site>, f: Fn) { exists s :: s in sites && IsSelfCall(c, s) && s.callee == f }

  lemma StagedOneMore(c: CallInfo, lim: Limits, sites: seq<Site>, s: Site, pending: set<(nat, Fn)>)
    requires StagedExactly(c, lim, sites, pending)
    ensures StagedExactly(c, lim, sites + [s], if Stages(c, lim, s) then pending + {(s.call, s.callee)} else pending)
  {
    assert forall t :: t in sites + [s] <==> t in sites || t == s;
  }

  lemma SelfCalledOneMore(c: CallInfo, sites: seq<Site>, s: Site, f: Fn)
    ensures SelfCalled(c, sites + [s], f) <==> SelfCalled(c, sites, f) || (IsSelfCall(c, s) && s.callee == f)
  {
    assert forall t :: t in sites + [s] <==> t in sites || t == s;
  }

  lemma SelfOneMore(c: CallInfo, lim: Limits, sites: seq<Site>, s: Site, bounded: set<Fn>, unbounded: set<Fn>)
    requires SelfExactly(c, lim, sites, bounded, unbounded)
    ensures SelfExactly(c, lim, sites + [s],
              if IsSelfCall(c, s) && BoundOf(lim, s.callee) > 0 then bounded + {s.callee} else bounded,
              if IsSelfCall(c, s) && BoundOf(lim, s.callee) == 0 then unbounded + {s.callee} else unbounded)
  {
    forall f { SelfCalledOneMore(c, sites, s, f); }
    hide SelfCalled, IsSelfCall, BoundOf;
  }

  lemma FindNothing(c: CallInfo, lim: Limits)
    ensures StagedExactly(c, lim, [], {}) && SelfExactly(c, lim, [], {}, {}) && WiredEdges(c, []) == {}
  {}

  /** The labels after a site was wired, from the blocks before and after. */
  ghost predicate SiteLabels(c: CallInfo, lim: Limits, s: Site, before: Blocks, after: Blocks) {
    before.Keys == after.Keys && forall h :: h in after ==> after[h].Label() == AfterSite(c, lim, s, h, before[h].Label())
  }

  lemma FlagLabels(c: CallInfo, lim: Limits, s: Site, before: Blocks, mid: Blocks)
    requires SameLabels(before, mid) && IsSelfCall(c, s) && BoundOf(lim, s.callee) > 0 && c.entryOf[s.callee] in mid
    ensures var e := c.entryOf[s.callee];
            SiteLabels(c, lim, s, before, mid[e := Flagged(mid[e], BoundOf(lim, s.callee), s.call)])
  {}

  lemma ChargeLabels(c: CallInfo, lim: Limits, s: Site, before: Blocks, mid: Blocks)
    requires SameLabels(before, mid) && IsExternal(c, lim, s) && s.callee in lim.externalCost && s.call in mid
    ensures SiteLabels(c, lim, s, before, mid[s.call := Charged(mid[s.call], lim.externalCost[s.callee])])
  {}

  lemma PlainLabels(c: CallInfo, lim: Limits, s: Site, before: Blocks, mid: Blocks)
    requires SameLabels(before, mid) && (IsSelfCall(c, s) ==> BoundOf(lim, s.callee) == 0)
    requires IsExternal(c, lim, s) ==> s.callee !in lim.externalCost
    ensures SiteLabels(c, lim, s, before, mid)
  {}

  /** Every block after the sites were wired. */
  ghost predicate WiredBlocks(c: CallInfo, lim: Limits, sites: seq<Site>, before: Blocks, after: Blocks) {
    before.Keys == after.Keys && forall h :: h in after ==> WiredBlock(c, lim, sites, h, before[h].Label(), after[h].Label())
  }

  lemma BlocksNothing(c: CallInfo, lim: Limits, nodes: Blocks)
    ensures WiredBlocks(c, lim, [], nodes, nodes)
  {
    forall h | h in nodes { WiredNothing(c, lim, h, nodes[h].Label()); }
  }

  lemma BlocksOneMore(c: CallInfo, lim: Limits, sites: seq<Site>, s: Site, before: Blocks, mid: Blocks, after: Blocks)
    requires DistinctEntries(c) && WiredBlocks(c, lim, sites, before, mid) && SiteLabels(c, lim, s, mid, after)
    ensures WiredBlocks(c, lim, sites + [s], before, after)
  {
    forall h | h in after ensures WiredBlock(c, lim, sites + [s], h, before[h].Label(), after[h].Label()) {
      WiredOneMore(c, lim, sites, s, h, before[h].Label(), mid[h].Label());
    }
  }

  lemma WiredAppend(c: CallInfo, sites: seq<Site>, s: Site)
    ensures WiredEdges(c, sites + [s]) == WiredEdges(c, sites) + SiteEdges(c, s)
  {
    assert (sites + [s])[..|sites|] == sites;
  }

  lemma StillRefers(c: CallInfo, lim: Limits, s: Site, before: Blocks, after: Blocks)
    requires Refers(c, before) && SiteLabels(c, lim, s, before, after)
    ensures Refers(c, after)
  {}

  lemma AnyLabels(nodes: Blocks)
    ensures SameLabels(nodes, nodes)
  {}

  lemma LabelKeys(a: Blocks, b: Blocks)
    requires SameLabels(a, b)
    ensures a.Keys == b.Keys
  {}
}
