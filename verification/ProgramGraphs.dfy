/** The interprocedural graph of basic blocks: edges, entry and exit journal, and removal of what the
    start function cannot reach. */
module ProgramGraphs {
  import opened AbstractStateGraph
  import opened Walks
  import opened GraphBlocks
  import opened ReplacementPolicy
  import opened Runs
  import opened CallWiring
  import opened RecursionBounds
  import opened RecursionScan
  import opened FinalGraph
  import C = CallCycles

  class ProgramGraph {
    var nodes: Blocks
    var nextNodeId: nat
    var hasEntryNode: bool
    var entryNodeId: nat
    var calls: CallInfo

    ghost predicate Valid()
      reads this
    {
      Mirrored(nodes) && (forall u :: u in nodes ==> u < nextNodeId) && (hasEntryNode ==> entryNodeId in nodes)
    }

    constructor ()
      ensures Valid() && nodes == map[] && !hasEntryNode && nextNodeId == 0
    {
      nodes, nextNodeId, hasEntryNode, entryNodeId := map[], 0, false, 0;
      calls := CallInfo([], map[], map[], map[], None);
    }

    method AddNode(cycles: nat, name: string) returns (id: nat)
      requires Valid()
      modifies this`nodes, this`nextNodeId
      ensures Valid() && id !in old(nodes) && nextNodeId == id + 1
      ensures nodes == old(nodes)[id := Block({}, {}, {}, false, 0, cycles, cycles, name)]
      ensures EdgesOf(nodes) == old(EdgesOf(nodes))
    {
      hide EdgesOf;
      assert nextNodeId !in nodes;
      id := nextNodeId;
      nextNodeId := nextNodeId + 1;
      nodes := nodes[id := Block({}, {}, {}, false, 0, cycles, cycles, name)];
      EqualEdges(EdgesOf(nodes), EdgesOf(old(nodes)));
    }

    method AddEdge(from: nat, to: nat)
      requires Valid() && from in nodes && to in nodes
      modifies this`nodes
      ensures Valid() && SameLabels(old(nodes), nodes)
      ensures EdgesOf(nodes) == old(EdgesOf(nodes)) + {(from, to)}
    {
      LinkedSets(nodes, from, to);
      LinkedEdges(nodes, from, to);
      hide IsSucc, IsPred, EdgesOf;
      nodes := nodes[from := nodes[from].(successors := nodes[from].successors + {to})];
      nodes := nodes[to := nodes[to].(predecessors := nodes[to].predecessors + {from})];
    }

    method RemoveEdge(from: nat, to: nat)
      requires Valid() && from in nodes && to in nodes
      modifies this`nodes
      ensures Valid() && SameLabels(old(nodes), nodes)
      ensures EdgesOf(nodes) == old(EdgesOf(nodes)) - {(from, to)}
    {
      UnlinkedSets(nodes, from, to);
      UnlinkedEdges(nodes, from, to);
      hide IsSucc, IsPred, EdgesOf;
      nodes := nodes[from := nodes[from].(successors := nodes[from].successors - {to})];
      nodes := nodes[to := nodes[to].(predecessors := nodes[to].predecessors - {from})];
    }

    /** Removes a node no edge touches. */
    method RemoveNode(id: nat)
      requires Valid() && id in nodes && nodes[id].IsFree() && (hasEntryNode ==> id != entryNodeId)
      modifies this`nodes
      ensures Valid() && nodes == old(nodes) - {id} && EdgesOf(nodes) == old(EdgesOf(nodes))
    {
      nodes := nodes - {id};
      OnlyTheNode(old(nodes), id);
    }

    // -------------------------------------------------------------- entry and exit

    method WireEntryExit(body: seq<nat>, returns_: seq<nat>, entry: nat, exit: nat) returns (exitStateSet: bool)
      requires Valid() && entry in nodes && exit in nodes
      requires (forall b :: b in body ==> b in nodes) && (forall r :: r in returns_ ==> r in nodes)
      modifies this`nodes
      ensures Valid() && SameLabels(old(nodes), nodes) && exitStateSet
      ensures EdgesOf(nodes) == old(EdgesOf(nodes)) + Wiring(body, returns_, entry, exit)
      ensures forall u: nat, v: nat :: IsSucc(nodes, u, v) <==>
                || IsSucc(old(nodes), u, v)
                || (u == entry && v == if body == [] then exit else body[0])
                || (v == exit && if body != [] && returns_ == [] then u == body[|body| - 1] else u in returns_)
    {
      exitStateSet := false;
      if body != [] { AddEdge(entry, body[0]); }
      ghost var before := EdgesOf(nodes);
      for k := 0 to |returns_|
        invariant Valid() && SameLabels(old(nodes), nodes) && exitStateSet == (k > 0)
        invariant EdgesOf(nodes) == before + Into(returns_[..k], exit)
      {
        assert returns_[k] in returns_ && returns_[..k + 1] == returns_[..k] + [returns_[k]];
        AddEdge(returns_[k], exit);
        exitStateSet := true;
      }
      assert returns_[..|returns_|] == returns_;
      if body == [] {
        AddEdge(entry, exit);
        exitStateSet := true;
      } else if !exitStateSet {
        assert body[|body| - 1] in body;
        AddEdge(body[|body| - 1], exit);
        exitStateSet := true;
      }
      WiringIs(old(nodes), nodes, body, returns_, entry, exit);
    }

    // -------------------------------------------------------------- calls

    /** Every return block back to the landing. */
    method WireReturns(returns_: seq<nat>, landing: nat)
      requires Valid() && landing in nodes && forall r :: r in returns_ ==> r in nodes
      modifies this`nodes
      ensures Valid() && SameLabels(old(nodes), nodes)
      ensures EdgesOf(nodes) == old(EdgesOf(nodes)) + Into(returns_, landing)
    {
      for k := 0 to |returns_|
        invariant Valid() && SameLabels(old(nodes), nodes)
        invariant EdgesOf(nodes) == old(EdgesOf(nodes)) + Into(returns_[..k], landing)
      {
        assert returns_[k] in returns_ && returns_[..k + 1] == returns_[..k] + [returns_[k]];
        AddEdge(returns_[k], landing);
      }
      assert returns_[..|returns_|] == returns_;
    }

    /** The call edge of a site and the edges back to its landing. */
    method WireCallEdges(s: Site)
      requires Valid() && s in calls.sites && IsWired(calls, s) && Refers(calls, nodes)
      modifies this`nodes
      ensures Valid() && SameLabels(old(nodes), nodes)
      ensures EdgesOf(nodes) == old(EdgesOf(nodes)) + SiteEdges(calls, s)
    {
      AddEdge(s.call, calls.entryOf[s.callee]);
      if s.hasLanding && s.callee in calls.returnsOf { WireReturns(calls.returnsOf[s.callee], s.landing); }
    }

    /** Wires one call site: call edge, return edges, self-recursion header or external cost. */
    method WireSite(lim: Limits, s: Site) returns (staged: bool)
      requires Valid() && s in calls.sites && Refers(calls, nodes)
      modifies this`nodes
      ensures Valid() && SiteLabels(calls, lim, s, old(nodes), nodes) && staged == Stages(calls, lim, s)
      ensures EdgesOf(nodes) == old(EdgesOf(nodes)) + SiteEdges(calls, s)
      ensures forall u: nat, v: nat :: IsSucc(nodes, u, v) <==> IsSucc(old(nodes), u, v) || Links(calls, s, u, v)
    {
      hide Mirrored, EdgesOf, IsSucc, IsPred, SameLabels, SiteLabels, Links;
      staged := false;
      AnyLabels(nodes);
      if calls.start == Some(s.callee) {
        PlainLabels(calls, lim, s, old(nodes), nodes);
        SiteLinks(calls, s, old(nodes), nodes);
        return;
      }
      if s.callee in calls.entryOf {
        WireCallEdges(s);
        LabelKeys(old(nodes), nodes);
        if IsSelfCall(calls, s) && BoundOf(lim, s.callee) > 0 {
          var entry := calls.entryOf[s.callee];
          FlagLabels(calls, lim, s, old(nodes), nodes);
          Relabelled(nodes, nodes[entry := Flagged(nodes[entry], BoundOf(lim, s.callee), s.call)]);
          nodes := nodes[entry := Flagged(nodes[entry], BoundOf(lim, s.callee), s.call)];
        } else {
          PlainLabels(calls, lim, s, old(nodes), nodes);
        }
      } else if s.callee in lim.declared && s.callee in lim.externalCost {
        ChargeLabels(calls, lim, s, old(nodes), nodes);
        Relabelled(nodes, nodes[s.call := Charged(nodes[s.call], lim.externalCost[s.callee])]);
        nodes := nodes[s.call := Charged(nodes[s.call], lim.externalCost[s.callee])];
      } else {
        PlainLabels(calls, lim, s, old(nodes), nodes);
        staged := s.callee in lim.declared;
      }
      SiteLinks(calls, s, old(nodes), nodes);
    }

    /** Wires all call sites. */
    method WireCalls(lim: Limits) returns (pending: set<(nat, Fn)>, bounded: set<Fn>, unbounded: set<Fn>)
      requires Valid() && Refers(calls, nodes) && DistinctEntries(calls)
      modifies this`nodes
      ensures Valid() && WiredBlocks(calls, lim, calls.sites, old(nodes), nodes)
      ensures EdgesOf(nodes) == old(EdgesOf(nodes)) + WiredEdges(calls, calls.sites)
      ensures forall u: nat, v: nat :: IsSucc(nodes, u, v) <==>
                IsSucc(old(nodes), u, v) || exists s :: s in calls.sites && Links(calls, s, u, v)
      ensures StagedExactly(calls, lim, calls.sites, pending) && SelfExactly(calls, lim, calls.sites, bounded, unbounded)
    {
      hide Mirrored, EdgesOf, WiredBlocks, StagedExactly, SelfExactly, SiteLabels, Refers, SiteEdges, DistinctEntries, Stages, IsSelfCall, BoundOf, IsSucc, Links;
      pending, bounded, unbounded := {}, {}, {};
      var sites := calls.sites;
      FindNothing(calls, lim);
      BlocksNothing(calls, lim, nodes);
      assert sites[..0] == [];
      for k := 0 to |sites|
        invariant Valid() && WiredBlocks(calls, lim, sites[..k], old(nodes), nodes) && Refers(calls, nodes)
        invariant EdgesOf(nodes) == old(EdgesOf(nodes)) + WiredEdges(calls, sites[..k])
        invariant StagedExactly(calls, lim, sites[..k], pending) && SelfExactly(calls, lim, sites[..k], bounded, unbounded)
      {
        var s := sites[k];
        assert s in sites && sites[..k + 1] == sites[..k] + [s];
        WiredAppend(calls, sites[..k], s);
        StagedOneMore(calls, lim, sites[..k], s, pending);
        SelfOneMore(calls, lim, sites[..k], s, bounded, unbounded);
        ghost var mid := nodes;
        var staged := WireSite(lim, s);
        BlocksOneMore(calls, lim, sites[..k], s, old(nodes), mid, nodes);
        StillRefers(calls, lim, s, mid, nodes);
        if staged { pending := pending + {(s.call, s.callee)}; }
        if IsSelfCall(calls, s) {
          if BoundOf(lim, s.callee) > 0 { bounded := bounded + {s.callee}; } else { unbounded := unbounded + {s.callee}; }
        }
      }
      assert sites[..|sites|] == sites;
      WiredLinks(calls, old(nodes), nodes);
    }

    // -------------------------------------------------------------- mutual recursion

    /** Flags every call from `f` to `h` as a back edge into the entry of `h`. */
    method FlagCalls(lim: Limits, f: Fn, h: Fn)
      requires Valid() && Refers(calls, nodes) && h in calls.entryOf && BoundOf(lim, h) > 0
      requires SomeCall(calls, calls.sites, f, h)
      modifies this`nodes
      ensures Valid() && Grown(calls, lim, old(nodes), nodes) && IsCutCall(calls, lim, nodes, f, h)
    {
      hide Mirrored, EdgesOf, Grown, FlaggedSites, SomeCall, BoundOf, IsCutCall;
      var e, sites := calls.entryOf[h], calls.sites;
      assert e in nodes;
      GrownSelf(calls, lim, nodes);
      NoSites(calls, lim, nodes, f, h, sites[..0]);
      for k := 0 to |sites|
        invariant Valid() && e in nodes && Grown(calls, lim, old(nodes), nodes)
        invariant FlaggedSites(calls, lim, nodes, sites[..k], f, h)
      {
        var s := sites[k];
        assert sites[..k + 1] == sites[..k] + [s];
        FlaggedOneMore(calls, lim, nodes, sites[..k], s, f, h);
        if IsCall(calls, s, f, h) {
          FlagGrows(calls, lim, nodes, h, s);
          GrownTransitive(calls, lim, old(nodes), nodes, nodes[e := Flagged(nodes[e], BoundOf(lim, h), s.call)]);
          GrownEdges(calls, lim, nodes, nodes[e := Flagged(nodes[e], BoundOf(lim, h), s.call)]);
          nodes := nodes[e := Flagged(nodes[e], BoundOf(lim, h), s.call)];
        }
      }
      assert sites[..|sites|] == sites;
      NowCut(calls, lim, nodes, f, h);
    }

    /** Flags the calls along one back edge, if its header has a bound and an entry. */
    method BoundHeader(lim: Limits, f: Fn, h: Fn) returns (ok: bool)
      requires Valid() && Refers(calls, nodes) && SomeCall(calls, calls.sites, f, h)
      modifies this`nodes
      ensures Valid() && Refers(calls, nodes) && Grown(calls, lim, old(nodes), nodes)
      ensures ok <==> BoundOf(lim, h) > 0 && h in calls.entryOf
      ensures ok ==> IsCutCall(calls, lim, nodes, f, h)
    {
      hide Mirrored, EdgesOf, Grown, IsCutCall, Refers, SomeCall, BoundOf;
      GrownSelf(calls, lim, nodes);
      ok := BoundOf(lim, h) > 0 && h in calls.entryOf;
      if ok {
        FlagCalls(lim, f, h);
        GrownRefers(calls, lim, old(nodes), nodes);
      }
    }

    /** Bounds one component: its back edges become flagged calls where their headers have bounds. */
    method BoundComponent(lim: Limits, adj: C.Calls, scc: set<Fn>) returns (allBounded: bool, ghost back: Edges)
      requires Valid() && Refers(calls, nodes) && DistinctEntries(calls)
      requires IsAdjacency(calls, calls.sites, adj) && C.IsComponent(adj, scc)
      modifies this`nodes
      ensures Valid() && Refers(calls, nodes) && Grown(calls, lim, old(nodes), nodes)
      ensures Acyclic(Inner(adj, scc) - back) && back <= Inner(adj, scc)
      ensures allBounded <==> back != {} && AllBounded(calls, lim, back)
      ensures allBounded ==> Covered(calls, lim, nodes, adj, scc)
    {
      hide Mirrored, EdgesOf, Grown, IsCutCall, Refers, DistinctEntries, IsAdjacency, C.IsComponent, IsEntry, Inner, Acyclic, CutAll, Covered, BoundOf;
      var entries := ComponentEntries(calls, adj, scc);
      EntriesInside(calls, adj, scc, entries);
      var found := FindSccBackEdges(adj, scc, entries);
      back := found;
      allBounded := found != {};
      var todo := found;
      ghost var seen: Edges := {};
      GrownSelf(calls, lim, nodes);
      CutNothing(calls, lim, nodes, adj);
      NoneBounded(calls, lim, seen);
      while todo != {}
        invariant seen + todo == found && Valid() && Refers(calls, nodes) && Grown(calls, lim, old(nodes), nodes)
        invariant allBounded <==> found != {} && AllBounded(calls, lim, seen)
        invariant allBounded ==> CutAll(calls, lim, nodes, seen)
        decreases |todo|
      {
        var x :| x in todo;
        Smaller(todo - {x}, todo);
        InnerIsCall(calls, adj, scc, x.0, x.1);
        ghost var before := nodes;
        var ok := BoundHeader(lim, x.0, x.1);
        GrownTransitive(calls, lim, old(nodes), before, nodes);
        BoundedOneMore(calls, lim, seen, x);
        allBounded := allBounded && ok;
        if allBounded {
          CutAllStays(calls, lim, before, nodes, seen);
          CutOneMore(calls, lim, nodes, seen, x.0, x.1);
        }
        todo, seen := todo - {x}, seen + {x};
      }
      assert seen == found;
      if allBounded { ComponentIsCovered(calls, lim, nodes, adj, scc, found); }
    }

    /** Bounds every component; a component counts as bounded only if all its headers do. */
    method BoundCycles(lim: Limits) returns (bounded: set<Fn>, unbounded: set<Fn>, ghost adj: C.Calls)
      requires Valid() && Refers(calls, nodes) && DistinctEntries(calls)
      modifies this`nodes
      ensures Valid() && Grown(calls, lim, old(nodes), nodes)
      ensures IsAdjacency(calls, calls.sites, adj)
      ensures forall f :: f in bounded + unbounded <==> C.InMutualCycle(adj, f)
      ensures Covered(calls, lim, nodes, adj, bounded) && Excused(calls, lim, adj, unbounded)
    {
      hide Mirrored, EdgesOf, Grown, Refers, DistinctEntries, IsAdjacency, C.IsComponent, Inner, Acyclic, Covered, AllBounded, Splits, C.InMutualCycle, C.Covers, C.Disjoint, Excused;
      bounded, unbounded := {}, {};
      var calling := CallAdjacency(calls);
      adj := calling;
      var sccs := C.GroupComponents(calling);
      GrownSelf(calls, lim, nodes);
      CutNothing(calls, lim, nodes, adj);
      SplitsNothing(sccs[..0]);
      NoneExcused(calls, lim, adj);
      for i := 0 to |sccs|
        invariant Valid() && Refers(calls, nodes) && Grown(calls, lim, old(nodes), nodes)
        invariant Splits(sccs[..i], bounded + unbounded) && Covered(calls, lim, nodes, adj, bounded)
        invariant Excused(calls, lim, adj, unbounded)
      {
        assert sccs[..i + 1] == sccs[..i] + [sccs[i]];
        ghost var before := nodes;
        var allBounded, back := BoundComponent(lim, calling, sccs[i]);
        GrownTransitive(calls, lim, old(nodes), before, nodes);
        CoveredStays(calls, lim, before, nodes, adj, bounded);
        SplitsAppend(sccs[..i], bounded + unbounded, sccs[i]);
        if allBounded {
          CoveredMore(calls, lim, nodes, adj, bounded, sccs[i]);
          assert (bounded + sccs[i]) + unbounded == (bounded + unbounded) + sccs[i];
          bounded := bounded + sccs[i];
        } else {
          assert bounded + (unbounded + sccs[i]) == (bounded + unbounded) + sccs[i];
          ComponentExcused(calls, lim, adj, sccs[i], back);
          ExcusedMore(calls, lim, adj, unbounded, sccs[i]);
          unbounded := unbounded + sccs[i];
        }
      }
      assert sccs[..|sccs|] == sccs;
      SplitsExactly(adj, sccs, bounded + unbounded);
    }

    // -------------------------------------------------------------- pruning

    /** Everything reachable from the entry node, by a worklist. */
    method FindReachable() returns (reachable: set<nat>)
      requires Valid() && hasEntryNode
      ensures reachable <= nodes.Keys
      ensures forall b :: b in reachable <==> Reaches(EdgesOf(nodes), entryNodeId, b)
    {
      reachable := {entryNodeId};
      var work := [entryNodeId];
      ReachesSelf(EdgesOf(nodes), entryNodeId);
      while work != []
        invariant Spreading(nodes, entryNodeId, work, reachable, {})
        decreases |nodes.Keys - reachable|, |work|
      {
        var cur := work[|work| - 1];
        SpreadPop(nodes, entryNodeId, work, reachable);
        work := work[..|work| - 1];
        var succs := Ascending(nodes[cur].successors);
        AscendingExact(nodes[cur].successors);
        ghost var before, rest := reachable, work;
        OpenAll(nodes, cur, succs);
        for k := 0 to |succs|
          invariant Spreading(nodes, entryNodeId, work, reachable, Open(cur, succs, k))
          invariant before <= reachable && cur in reachable && (reachable == before ==> work == rest)
        {
          var succ := succs[k];
          assert succ in succs;
          hide Spreading, Ascending, Mirrored, EdgesOf, Open;
          SpreadStep(nodes, entryNodeId, work, reachable, cur, succs, k);
          if succ !in reachable {
            reachable, work := reachable + {succ}, work + [succ];
          }
        }
        assert Open(cur, succs, |succs|) == {};
        if reachable != before { Smaller(nodes.Keys - reachable, nodes.Keys - before); }
      }
      Spread(nodes, entryNodeId, reachable);
    }

    /** Removes the edges leaving `id`. */
    method CutOutgoing(id: nat)
      requires Valid() && id in nodes
      modifies this`nodes
      ensures Valid() && SameLabels(old(nodes), nodes)
      ensures forall x :: x in EdgesOf(nodes) <==> x in old(EdgesOf(nodes)) && x.0 != id
    {
      hide Mirrored, EdgesOf, SameLabels, Ascending, Reaches;
      ghost var e := EdgesOf(nodes);
      var succs := Ascending(nodes[id].successors);
      AscendingExact(nodes[id].successors);
      LabelsSame(nodes);
      for k := 0 to |succs|
        invariant Valid() && SameLabels(old(nodes), nodes)
        invariant forall x :: x in EdgesOf(nodes) <==> x in e && !(x.0 == id && x.1 in succs[..k])
      {
        SuccessorsExist(old(nodes), id, succs[k]);
        assert succs[k] in succs && succs[..k + 1] == succs[..k] + [succs[k]];
        LabelsKeys(old(nodes), nodes);
        ghost var mid := nodes;
        RemoveEdge(id, succs[k]);
        LabelsTransitive(old(nodes), mid, nodes);
      }
      assert succs[..|succs|] == succs;
    }

    /** Removes the edges entering `id`. */
    method CutIncoming(id: nat)
      requires Valid() && id in nodes
      modifies this`nodes
      ensures Valid() && SameLabels(old(nodes), nodes)
      ensures forall x :: x in EdgesOf(nodes) <==> x in old(EdgesOf(nodes)) && x.1 != id
    {
      hide Mirrored, EdgesOf, SameLabels, Ascending, Reaches;
      ghost var e := EdgesOf(nodes);
      var preds := Ascending(nodes[id].predecessors);
      AscendingExact(nodes[id].predecessors);
      LabelsSame(nodes);
      PredecessorsAre(nodes, id);
      for k := 0 to |preds|
        invariant Valid() && SameLabels(old(nodes), nodes)
        invariant forall x :: x in EdgesOf(nodes) <==> x in e && !(x.1 == id && x.0 in preds[..k])
      {
        assert preds[k] in preds && preds[..k + 1] == preds[..k] + [preds[k]];
        LabelsKeys(old(nodes), nodes);
        ghost var mid := nodes;
        RemoveEdge(preds[k], id);
        LabelsTransitive(old(nodes), mid, nodes);
      }
      assert preds[..|preds|] == preds;
    }

    /** Removes every edge of `id`, its own first. */
    method Detach(id: nat)
      requires Valid() && id in nodes
      modifies this`nodes
      ensures Valid() && SameLabels(old(nodes), nodes) && nodes[id].IsFree()
      ensures EdgesOf(nodes) == Without(old(EdgesOf(nodes)), id)
    {
      hide Mirrored, EdgesOf, SameLabels;
      CutOutgoing(id);
      LabelsKeys(old(nodes), nodes);
      ghost var mid := nodes;
      CutIncoming(id);
      LabelsTransitive(old(nodes), mid, nodes);
      LabelsKeys(old(nodes), nodes);
      assert EdgesOf(nodes) == Without(old(EdgesOf(nodes)), id);
      NotTouched(nodes, id);
    }

    /** Keeps exactly the nodes reachable from the entry node, with their edges. */
    method Prune()
      requires Valid()
      modifies this`nodes
      ensures Valid()
      ensures !hasEntryNode ==> nodes == old(nodes)
      ensures hasEntryNode ==> Pruned(old(nodes), nodes, entryNodeId)
    {
      hide EdgesOf, Mirrored, IsSucc, IsPred, Among, Without, Ascending, SameLabels, Reaches;
      if !hasEntryNode { return; }
      var reachable := FindReachable();
      ReachesSelf(EdgesOf(nodes), entryNodeId);
      var toRemove := Ascending(nodes.Keys - reachable);
      AscendingExact(nodes.Keys - reachable);
      AllAmong(nodes);
      for k := 0 to |toRemove|
        invariant Valid() && forall u :: u in nodes <==> u in old(nodes) && u !in toRemove[..k]
        invariant forall u :: u in nodes ==> nodes[u].Label() == old(nodes)[u].Label()
        invariant EdgesOf(nodes) == Among(EdgesOf(old(nodes)), nodes.Keys)
      {
        var id := toRemove[k];
        assert id in toRemove && id !in toRemove[..k] && toRemove[..k + 1] == toRemove[..k] + [id];
        ghost var keys, mid := nodes.Keys, nodes;
        Detach(id);
        LabelsKept(mid, nodes);
        RemoveNode(id);
        AmongLess(EdgesOf(old(nodes)), keys, id);
        assert nodes.Keys == keys - {id};
      }
      assert toRemove[..|toRemove|] == toRemove;
    }

    // -------------------------------------------------------------- finalizing

    /** Whether the entry of `f` survived pruning. */
    predicate IsReachable(f: Fn)
      reads this`nodes, this`calls
    {
      f in calls.entryOf && calls.entryOf[f] in nodes
    }

    method Finalize(lim: Limits) returns (r: Findings, ghost journal: Journal)
      requires Valid() && Refers(calls, nodes) && DistinctEntries(calls)
      modifies this`nodes
      ensures Valid() && IsWiring(calls, lim, old(nodes), journal)
      ensures forall u: nat, v: nat :: IsSucc(journal.nodes, u, v) <==>
                IsSucc(old(nodes), u, v) || exists s :: s in calls.sites && Links(calls, s, u, v)
      ensures if hasEntryNode then Pruned(journal.nodes, nodes, entryNodeId) else nodes == journal.nodes
      ensures BlocksFinal(calls, lim, old(nodes), journal.nodes)
      ensures Reports(calls, lim, nodes, journal, r) && forall f :: Told(calls, lim, nodes, r, f)
    {
      hide Mirrored, EdgesOf, WiredBlocks, Grown, SelfExactly, StagedExactly, IsAdjacency, Covered, Excused, C.InMutualCycle, Refers, DistinctEntries, Pruned, WiredEdges, IsWiring, Reports, IsSucc, Links, BlocksFinal, Told;
      var pending, boundedSelf, unboundedSelf := WireCalls(lim);
      ghost var wired := nodes;
      WiredRefers(calls, lim, old(nodes), nodes);
      var boundedMutual, unboundedMutual, adj := BoundCycles(lim);
      GrownEdges(calls, lim, wired, nodes);
      journal := Journal(wired, nodes, adj, boundedSelf, unboundedSelf, boundedMutual, unboundedMutual);
      Prune();
      r := Findings(
        set f | f in boundedSelf + boundedMutual && IsReachable(f),
        set f | f in unboundedSelf && IsReachable(f),
        set f | f in unboundedMutual && IsReachable(f),
        set x | x in pending && x.0 in nodes :: x.1);
      WiringMade(calls, lim, old(nodes), journal);
      WiredLinks(calls, old(nodes), journal.nodes);
      ReportMade(calls, lim, nodes, journal, pending, r);
      AllFinal(calls, lim, old(nodes), journal);
      forall f ensures Told(calls, lim, nodes, r, f) { FindingsMeaning(calls, lim, old(nodes), journal, nodes, r, f); }
    }
  }
}
