/** Mutual recursion: which functions call each other in cycles, and which calls close the cycles. */
module CallCycles {
  import opened AbstractStateGraph
  import opened Walks

  /** Callers with the functions they call. */
  type Calls = map<Fn, set<Fn>>

  ghost function EdgesOf(adj: Calls): (e: Edges)
    ensures forall f: nat, g: nat :: (f, g) in e <==> f in adj && g in adj[f]
  {
    set f, g | f in adj && g in adj[f] :: (f, g)
  }

  function Callees(adj: Calls, f: Fn): set<Fn> { if f in adj then adj[f] else {} }

  // ---------------------------------------------------------------- reachability

  ghost predicate Visiting(adj: Calls, src: Fn, dst: Fn, work: seq<Fn>, visited: set<Fn>, open: Edges) {
    && (forall b :: b in visited || b in work ==> Reaches(EdgesOf(adj), src, b))
    && (forall b :: b in work ==> b == src || b in visited)
    && (forall u: nat, v: nat :: (u == src || u in visited) && (u, v) in EdgesOf(adj) && u !in work ==> v in visited || (u, v) in open)
    && (dst == src || dst in visited ==> dst in work)
    && (forall b :: b in visited ==> b in AllCallees(adj))
  }

  ghost function AllCallees(adj: Calls): set<Fn> { set f, g | f in adj && g in adj[f] :: g }

  /** The steps from `cur` not yet taken. */
  ghost function Open(cur: Fn, succs: seq<Fn>, k: nat): Edges
    requires k <= |succs|
  {
    set v | v in succs[k..] :: (cur, v)
  }

  lemma NothingOpen(cur: Fn, succs: seq<Fn>)
    ensures Open(cur, succs, |succs|) == {}
  {}

  lemma VisitStarts(adj: Calls, src: Fn, dst: Fn)
    ensures Visiting(adj, src, dst, [src], {}, {})
  {
    ReachesSelf(EdgesOf(adj), src);
  }

  lemma VisitFacts(adj: Calls, src: Fn, dst: Fn, work: seq<Fn>, visited: set<Fn>, open: Edges)
    requires Visiting(adj, src, dst, work, visited, open)
    ensures visited <= AllCallees(adj) && forall b :: b in work ==> Reaches(EdgesOf(adj), src, b)
  {
    hide AllCallees, EdgesOf;
  }

  lemma VisitPop(adj: Calls, src: Fn, dst: Fn, work: seq<Fn>, visited: set<Fn>, succs: seq<Fn>)
    requires Visiting(adj, src, dst, work, visited, {}) && work != [] && work[|work| - 1] != dst
    requires forall g :: g in succs <==> g in Callees(adj, work[|work| - 1])
    ensures Visiting(adj, src, dst, work[..|work| - 1], visited, Open(work[|work| - 1], succs, 0))
  {
    var rest, cur := work[..|work| - 1], work[|work| - 1];
    assert work == rest + [cur] && succs[0..] == succs;
    hide EdgesOf;
    forall u: nat, v: nat | (u == src || u in visited) && (u, v) in EdgesOf(adj) && u !in rest
      ensures v in visited || (u, v) in Open(cur, succs, 0)
    {
      if u == cur { assert v in succs; }
    }
  }

  lemma VisitStep(adj: Calls, src: Fn, dst: Fn, work: seq<Fn>, visited: set<Fn>, cur: Fn, succs: seq<Fn>, k: nat)
    requires k < |succs| && (cur, succs[k]) in EdgesOf(adj) && Reaches(EdgesOf(adj), src, cur)
    requires Visiting(adj, src, dst, work, visited, Open(cur, succs, k))
    ensures var v := succs[k];
            Visiting(adj, src, dst, if v in visited then work else work + [v], visited + {v}, Open(cur, succs, k + 1))
  {
    var v := succs[k];
    assert succs[k..] == [v] + succs[k + 1..];
    ReachesStep(EdgesOf(adj), src, cur, v);
    assert v in AllCallees(adj);
    hide EdgesOf, AllCallees;
    var work', visited' := if v in visited then work else work + [v], visited + {v};
    forall u: nat, w: nat | (u == src || u in visited') && (u, w) in EdgesOf(adj) && u !in work'
      ensures w in visited' || (u, w) in Open(cur, succs, k + 1)
    {
      assert u !in work;
      assert u == src || u in visited;
      assert w in visited || (u, w) in Open(cur, succs, k);
    }
  }

  lemma NotVisited(adj: Calls, src: Fn, dst: Fn, visited: set<Fn>)
    requires Visiting(adj, src, dst, [], visited, {})
    ensures !Reaches(EdgesOf(adj), src, dst)
  {
    if Reaches(EdgesOf(adj), src, dst) {
      ClosedContains(EdgesOf(adj), visited + {src}, src, dst);
    }
  }

  /** Queues the callees not seen before. */
  method VisitCallees(adj: Calls, src: Fn, dst: Fn, cur: Fn, succs: seq<Fn>, work0: seq<Fn>, visited0: set<Fn>)
    returns (work: seq<Fn>, visited: set<Fn>)
    requires Visiting(adj, src, dst, work0, visited0, Open(cur, succs, 0)) && Reaches(EdgesOf(adj), src, cur)
    requires forall v :: v in succs ==> (cur, v) in EdgesOf(adj)
    ensures Visiting(adj, src, dst, work, visited, {})
    ensures visited0 <= visited && (visited == visited0 ==> work == work0)
  {
    work, visited := work0, visited0;
    for k := 0 to |succs|
      invariant Visiting(adj, src, dst, work, visited, Open(cur, succs, k))
      invariant visited0 <= visited && (visited == visited0 ==> work == work0)
    {
      assert succs[k] in succs;
      hide *;
      VisitStep(adj, src, dst, work, visited, cur, succs, k);
      if succs[k] !in visited {
        work := work + [succs[k]];
        visited := visited + {succs[k]};
      } else {
        assert visited + {succs[k]} == visited;
      }
    }
    NothingOpen(cur, succs);
  }

  lemma CalleeList(adj: Calls, f: Fn)
    ensures forall g :: g in Ascending(Callees(adj, f)) <==> g in Callees(adj, f)
    ensures forall g :: g in Ascending(Callees(adj, f)) ==> (f, g) in EdgesOf(adj)
  {
    AscendingExact(Callees(adj, f));
  }

  /** Whether a chain of calls leads from `src` to `dst`. */
  method CallReaches(adj: Calls, src: Fn, dst: Fn) returns (r: bool)
    ensures r <==> Reaches(EdgesOf(adj), src, dst)
  {
    hide *;
    var visited: set<Fn> := {};
    var work := [src];
    VisitStarts(adj, src, dst);
    while work != []
      invariant Visiting(adj, src, dst, work, visited, {})
      decreases |AllCallees(adj) - visited|, |work|
    {
      VisitFacts(adj, src, dst, work, visited, {});
      var cur := work[|work| - 1];
      assert cur in work;
      if cur == dst { return true; }
      var succs := Ascending(Callees(adj, cur));
      CalleeList(adj, cur);
      VisitPop(adj, src, dst, work, visited, succs);
      ghost var before := visited;
      work, visited := VisitCallees(adj, src, dst, cur, succs, work[..|work| - 1], visited);
      VisitFacts(adj, src, dst, work, visited, {});
      if visited != before { Smaller(AllCallees(adj) - visited, AllCallees(adj) - before); }
    }
    NotVisited(adj, src, dst, visited);
    return false;
  }

  /** Each calls the other, directly or not. */
  ghost predicate Mutual(adj: Calls, f: Fn, g: Fn) { Reaches(EdgesOf(adj), f, g) && Reaches(EdgesOf(adj), g, f) }

  /** On a cycle of at least two functions. */
  ghost predicate InMutualCycle(adj: Calls, f: Fn) { exists g: Fn :: g != f && Mutual(adj, f, g) }

  /** A walk that leaves `f` for good leaves it over an edge to another function. */
  lemma {:induction false} LeavesTo(adj: Calls, p: seq<Fn>)
    requires IsWalk(EdgesOf(adj), p) && p[|p| - 1] != p[0]
    ensures exists g: Fn :: g != p[0] && (p[0], g) in EdgesOf(adj) && Reaches(EdgesOf(adj), g, p[|p| - 1])
  {
    assert (p[0], p[1]) in EdgesOf(adj);
    if p[1] == p[0] {
      LeavesTo(adj, p[1..]);
    } else {
      WalkReaches(EdgesOf(adj), p, 1, |p| - 1);
    }
  }

  lemma CycleEdge(adj: Calls, f: Fn)
    requires InMutualCycle(adj, f)
    ensures exists g: Fn :: g != f && (f, g) in EdgesOf(adj) && Reaches(EdgesOf(adj), g, f)
  {
    var h: Fn :| h != f && Mutual(adj, f, h);
    var p :| WalkFromTo(EdgesOf(adj), p, f, h);
    LeavesTo(adj, p);
    var g: Fn :| g != f && (f, g) in EdgesOf(adj) && Reaches(EdgesOf(adj), g, h);
    ReachesTransitive(EdgesOf(adj), g, h, f);
  }

  lemma EdgeReaches(e: Edges, f: nat, g: nat)
    requires (f, g) in e
    ensures Reaches(e, f, g)
  {
    ReachesSelf(e, f);
    ReachesStep(e, f, f, g);
  }

  ghost predicate ClosesPair(adj: Calls, f: Fn, g: Fn) {
    g != f && (f, g) in EdgesOf(adj) && Reaches(EdgesOf(adj), g, f)
  }

  /** Adds the caller and its callees that call it back. */
  method CloseCaller(adj: Calls, caller: Fn, inCycle0: set<Fn>) returns (inCycle: set<Fn>)
    requires caller in adj && forall f :: f in inCycle0 ==> InMutualCycle(adj, f)
    ensures inCycle0 <= inCycle && forall f :: f in inCycle ==> InMutualCycle(adj, f)
    ensures forall g: Fn :: ClosesPair(adj, caller, g) ==> caller in inCycle && g in inCycle
  {
    inCycle := inCycle0;
    var callees := Ascending(adj[caller]);
    AscendingExact(adj[caller]);
    for k := 0 to |callees|
      invariant inCycle0 <= inCycle && forall f :: f in inCycle ==> InMutualCycle(adj, f)
      invariant forall g: Fn :: g in callees[..k] && ClosesPair(adj, caller, g) ==> caller in inCycle && g in inCycle
    {
      var callee := callees[k];
      assert callee in callees && callees[..k + 1] == callees[..k] + [callee];
      if caller != callee {
        var back := CallReaches(adj, callee, caller);
        if back {
          EdgeReaches(EdgesOf(adj), caller, callee);
          assert Mutual(adj, caller, callee) && Mutual(adj, callee, caller);
          inCycle := inCycle + {caller, callee};
        }
      }
    }
    assert callees[..|callees|] == callees;
  }

  /** The functions on call cycles of at least two functions. */
  method FunctionsInCycles(adj: Calls) returns (inCycle: set<Fn>)
    ensures forall f :: f in inCycle <==> InMutualCycle(adj, f)
  {
    inCycle := {};
    var callers := Ascending(adj.Keys);
    AscendingExact(adj.Keys);
    for i := 0 to |callers|
      invariant forall f :: f in inCycle ==> InMutualCycle(adj, f)
      invariant forall f: Fn, g: Fn :: f in callers[..i] && ClosesPair(adj, f, g) ==> f in inCycle && g in inCycle
    {
      assert callers[i] in callers && callers[..i + 1] == callers[..i] + [callers[i]];
      hide *;
      inCycle := CloseCaller(adj, callers[i], inCycle);
    }
    assert callers[..|callers|] == callers;
    forall f | InMutualCycle(adj, f) ensures f in inCycle {
      CycleEdge(adj, f);
      var g: Fn :| g != f && (f, g) in EdgesOf(adj) && Reaches(EdgesOf(adj), g, f);
      assert ClosesPair(adj, f, g) && f in callers;
    }
  }

  // ---------------------------------------------------------------- components

  /** A whole class of mutually calling functions. */
  ghost predicate IsComponent(adj: Calls, scc: set<Fn>) {
    exists f: Fn :: f in scc && InMutualCycle(adj, f) && forall g: Fn :: g in scc <==> Mutual(adj, f, g)
  }

  method ComponentOf(adj: Calls, inCycle: set<Fn>, f: Fn) returns (scc: set<Fn>)
    requires f in inCycle && forall g :: g in inCycle <==> InMutualCycle(adj, g)
    ensures forall g: Fn :: g in scc <==> Mutual(adj, f, g)
  {
    scc := {f};
    ReachesSelf(EdgesOf(adj), f);
    var others := Ascending(inCycle);
    AscendingExact(inCycle);
    for i := 0 to |others|
      invariant f in scc
      invariant forall g: Fn :: g in scc ==> Mutual(adj, f, g)
      invariant forall g: Fn :: g in others[..i] && Mutual(adj, f, g) ==> g in scc
    {
      var g := others[i];
      assert others[..i + 1] == others[..i] + [g];
      if g != f {
        var there := CallReaches(adj, f, g);
        if there {
          var back := CallReaches(adj, g, f);
          if back { scc := scc + {g}; }
        }
      }
    }
    assert others[..|others|] == others;
    forall g: Fn | Mutual(adj, f, g) ensures g in scc {
      if g != f {
        assert Mutual(adj, g, f);
        assert g in others;
      }
    }
  }

  lemma MutualTransitive(adj: Calls, f: Fn, g: Fn, h: Fn)
    requires Mutual(adj, f, g) && Mutual(adj, g, h)
    ensures Mutual(adj, f, h) && Mutual(adj, g, f)
  {
    ReachesTransitive(EdgesOf(adj), f, g, h);
    ReachesTransitive(EdgesOf(adj), h, g, f);
  }

  ghost predicate AllComponents(adj: Calls, sccs: seq<set<Fn>>) { forall i :: 0 <= i < |sccs| ==> IsComponent(adj, sccs[i]) }

  ghost predicate Disjoint(sccs: seq<set<Fn>>) { forall i, j :: 0 <= i < j < |sccs| ==> sccs[i] !! sccs[j] }

  ghost predicate Covers(sccs: seq<set<Fn>>, f: Fn) { exists i :: 0 <= i < |sccs| && f in sccs[i] }

  /** Groups the functions on call cycles into the classes of mutual reachability. */
  method GroupComponents(adj: Calls) returns (sccs: seq<set<Fn>>)
    ensures AllComponents(adj, sccs) && Disjoint(sccs)
    ensures forall f: Fn :: Covers(sccs, f) <==> InMutualCycle(adj, f)
  {
    var inCycle := FunctionsInCycles(adj);
    var order := Ascending(inCycle);
    AscendingExact(inCycle);
    var grouped: set<Fn> := {};
    sccs := [];
    for i := 0 to |order|
      invariant AllComponents(adj, sccs) && Disjoint(sccs)
      invariant forall f: Fn :: f in grouped <==> Covers(sccs, f)
      invariant forall f: Fn :: f in order[..i] ==> f in grouped
      invariant grouped <= inCycle
    {
      var f := order[i];
      assert f in order && order[..i + 1] == order[..i] + [f];
      if f !in grouped {
        var scc := ComponentOf(adj, inCycle, f);
        assert f in scc by { ReachesSelf(EdgesOf(adj), f); }
        NewComponent(adj, inCycle, sccs, grouped, scc, f);
        grouped := grouped + scc;
        sccs := sccs + [scc];
      }
    }
    assert order[..|order|] == order;
  }

  lemma NewComponent(adj: Calls, inCycle: set<Fn>, sccs: seq<set<Fn>>, grouped: set<Fn>, scc: set<Fn>, f: Fn)
    requires AllComponents(adj, sccs) && Disjoint(sccs) && f !in grouped && f in inCycle && f in scc
    requires (forall g: Fn :: g in scc <==> Mutual(adj, f, g)) && forall g :: g in inCycle <==> InMutualCycle(adj, g)
    requires forall g: Fn :: g in grouped <==> Covers(sccs, g)
    ensures AllComponents(adj, sccs + [scc]) && Disjoint(sccs + [scc]) && scc <= inCycle
    ensures forall g: Fn :: g in grouped + scc <==> Covers(sccs + [scc], g)
  {
    assert IsComponent(adj, scc);
    forall i | 0 <= i < |sccs| ensures sccs[i] !! scc { Apart(adj, sccs, i, scc, f); }
    forall g | g in scc ensures g in inCycle {
      if g != f {
        assert Mutual(adj, g, f);
      }
    }
    forall g: Fn ensures g in grouped + scc <==> Covers(sccs + [scc], g) {
      if g in grouped {
        var i :| 0 <= i < |sccs| && g in sccs[i];
        assert (sccs + [scc])[i] == sccs[i];
      }
      if g in scc { assert (sccs + [scc])[|sccs|] == scc; }
    }
  }

  lemma Apart(adj: Calls, sccs: seq<set<Fn>>, i: nat, scc: set<Fn>, f: Fn)
    requires AllComponents(adj, sccs) && i < |sccs| && !Covers(sccs, f) && forall g: Fn :: g in scc <==> Mutual(adj, f, g)
    ensures sccs[i] !! scc
  {
    assert IsComponent(adj, sccs[i]);
    var h: Fn :| h in sccs[i] && forall g: Fn :: g in sccs[i] <==> Mutual(adj, h, g);
    forall g: Fn | g in sccs[i] ensures g !in scc {
      if Mutual(adj, f, g) {
        assert Mutual(adj, g, f);
        MutualTransitive(adj, h, g, f);
      }
    }
  }
}
