/** The pass around the solver: folding block costs into latencies, and the always-miss report. */
module FRAMCacheAnalysis {
  import opened AgeDomain
  import opened CacheGeometry
  import opened ReplacementPolicy
  import opened CacheStates
  import opened CacheAnalysis
  import opened Hardware
  import opened Traces
  import opened Visits
  import opened Fixpoint
  import opened SolverMeasure
  import opened SolverTheory
  import opened SolverMeaning
  import opened AbstractStateGraph
  import opened WorklistSolver

  // ---------------------------------------------------------------- folding the must costs

  function LatencyOf(latency: map<nat, nat>, n: nat): nat { if n in latency then latency[n] else 0 }

  /** The penalties of the listed blocks are added, and nothing else. */
  ghost predicate FoldedFor(nodes: map<nat, Node<CacheState>>, latency: map<nat, nat>, folded: map<nat, nat>, list: seq<nat>) {
    forall n: nat :: LatencyOf(folded, n) == LatencyOf(latency, n) + (if n in list && n in nodes then nodes[n].cost else 0)
  }

  /** Adds each block's cache penalty to its latency; also returns the summed penalty. */
  method FoldPenalties(graph: Graph<CacheState>, latency: map<nat, nat>) returns (folded: map<nat, nat>, total: nat)
    requires graph.Valid() && forall n :: n in graph.nodes ==> graph.nodes[n].mbb == Some(n)
    ensures forall n: nat :: n in graph.nodes && graph.nodes[n].cost > 0 ==>
              n in folded && folded[n] == (if n in latency then latency[n] else 0) + graph.nodes[n].cost
    ensures forall n: nat :: !(n in graph.nodes && graph.nodes[n].cost > 0) ==>
              (if n in folded then folded[n] else 0) == if n in latency then latency[n] else 0
    ensures total == SumCosts(graph.nodes, Ascending(graph.nodes.Keys))
  {
    hide *;
    folded, total := latency, 0;
    var order := Ascending(graph.nodes.Keys);
    AscendingExact(graph.nodes.Keys);
    SumNothing(graph.nodes, order);
    FoldNothing(graph.nodes, latency, order[..0]);
    var i := 0;
    while i < |order|
      invariant 0 <= i <= |order|
      invariant total == SumCosts(graph.nodes, order[..i])
      invariant FoldedFor(graph.nodes, latency, folded, order[..i])
    {
      var n := order[i];
      assert n in order && n !in order[..i] && order[..i + 1] == order[..i] + [n];
      SumOneMore(graph.nodes, order, i);
      FoldOneMore(graph.nodes, latency, folded, order[..i], n);
      var c := graph.nodes[n].cost;
      if c != 0 {
        folded := folded[n := LatencyOf(folded, n) + c];
        total := total + c;
      }
      i := i + 1;
    }
    assert order[..|order|] == order;
    Folded(graph.nodes, latency, folded, order);
  }

  lemma FoldNothing(nodes: map<nat, Node<CacheState>>, latency: map<nat, nat>, list: seq<nat>)
    requires list == []
    ensures FoldedFor(nodes, latency, latency, list)
  {}

  lemma FoldOneMore(nodes: map<nat, Node<CacheState>>, latency: map<nat, nat>, folded: map<nat, nat>, list: seq<nat>, n: nat)
    requires n in nodes && n !in list && FoldedFor(nodes, latency, folded, list)
    ensures var c := nodes[n].cost;
            FoldedFor(nodes, latency, if c != 0 then folded[n := LatencyOf(folded, n) + c] else folded, list + [n])
  {
    LatencyUpdate(folded, n, LatencyOf(folded, n) + nodes[n].cost);
    hide LatencyOf;
  }

  lemma Folded(nodes: map<nat, Node<CacheState>>, latency: map<nat, nat>, folded: map<nat, nat>, list: seq<nat>)
    requires FoldedFor(nodes, latency, folded, list) && forall n :: n in nodes ==> n in list
    ensures forall n: nat :: n in nodes && nodes[n].cost > 0 ==>
              n in folded && folded[n] == (if n in latency then latency[n] else 0) + nodes[n].cost
    ensures forall n: nat :: !(n in nodes && nodes[n].cost > 0) ==>
              (if n in folded then folded[n] else 0) == if n in latency then latency[n] else 0
  {
    forall n: nat
      ensures n in nodes && nodes[n].cost > 0 ==> n in folded && folded[n] == (if n in latency then latency[n] else 0) + nodes[n].cost
      ensures !(n in nodes && nodes[n].cost > 0) ==> (if n in folded then folded[n] else 0) == if n in latency then latency[n] else 0
    {
      assert LatencyOf(folded, n) == LatencyOf(latency, n) + (if n in list && n in nodes then nodes[n].cost else 0);
    }
  }

  lemma LatencyUpdate(latency: map<nat, nat>, n: nat, c: nat)
    ensures forall m: nat :: LatencyOf(latency[n := c], m) == if m == n then c else LatencyOf(latency, m)
  {
    var after := latency[n := c];
    forall m: nat ensures LatencyOf(after, m) == if m == n then c else LatencyOf(latency, m) {
      assert m != n ==> (m in after <==> m in latency);
    }
  }

  lemma SumNothing(nodes: map<nat, Node<CacheState>>, order: seq<nat>)
    ensures SumCosts(nodes, order[..0]) == 0
  {}

  lemma SumOneMore(nodes: map<nat, Node<CacheState>>, order: seq<nat>, i: nat)
    requires i < |order|
    ensures SumCosts(nodes, order[..i + 1]) ==
            SumCosts(nodes, order[..i]) + (if order[i] in nodes then nodes[order[i]].cost else 0)
  {
    assert order[..i + 1][..i] == order[..i] && order[..i + 1][i] == order[i];
  }

  ghost function SumCosts(nodes: map<nat, Node<CacheState>>, order: seq<nat>): nat {
    if order == [] then 0
    else
      var n := order[|order| - 1];
      SumCosts(nodes, order[..|order| - 1]) + (if n in nodes then nodes[n].cost else 0)
  }

  // ---------------------------------------------------------------- the always-miss report

  /** The lines a block accesses while they are not listed, starting from its converged in-value. */
  ghost function MissedLines(su: Setup, f: Function, st: States, n: nat): set<Line>
    requires su.Valid() && Fits(su, st, f) && n < |f|
  {
    set line | line in Unlisted(su, In(su, f, st, n), EventsOf(f, n))
  }

  /** Event `k` of instruction `i` accesses `line`, and the replay does not list it there. */
  ghost predicate IsUnlistedAccess(su: Setup, f: Function, st: States, n: nat, i: nat, k: nat, line: Line)
    requires su.Valid() && Fits(su, st, f) && n < |f|
  {
    && i < |f[n].instrs| && k < |f[n].instrs[i]| && f[n].instrs[i][k] == Access(line)
    && !Lists(su, ReplayedTo(su, In(su, f, st, n), f[n].instrs, i, k), line)
  }

  /** Replays one block from its in-value and collects the lines reported to the sink. */
  method ReplayBlock(solver: Solver, f: Function, ghost st: States, n: nat) returns (lines: set<Line>)
    requires solver.analysis.su.Valid() && solver.analysis.su.kind == May
    requires Mirrors(solver.graph, f) && solver.Carries(st) && Fits(solver.analysis.su, st, f) && n < |f|
    ensures lines == MissedLines(solver.analysis.su, f, st, n)
  {
    hide CacheState.Valid, CacheState.View, Analysis.Fits, AfterEvent;
    var su := solver.analysis.su;
    var inState := solver.JoinPredecessors(f, st, n);
    ghost var v := inState.View();
    lines := {};
    var instrs := f[n].instrs;
    var i := 0;
    while i < |instrs|
      invariant 0 <= i <= |instrs|
      invariant fresh(inState.Repr()) && solver.analysis.Fits(inState)
      invariant inState.View() == Transfer(su, v, Flatten(instrs[..i]))
      invariant lines == set line | line in Unlisted(su, v, Flatten(instrs[..i]))
    {
      assert instrs[..i + 1][..i] == instrs[..i];
      SplitEvents(su, v, Flatten(instrs[..i]), instrs[i]);
      var _, reported := solver.analysis.Process(inState, instrs[i]);
      lines := lines + set line | line in reported;
      i := i + 1;
    }
    assert instrs[..|instrs|] == instrs;
  }

  /** The report: every (block, line) pair classified as always missing, once. */
  method ReportAlwaysMiss(solver: Solver, f: Function, ghost st: States) returns (reported: set<(nat, Line)>)
    requires solver.analysis.su.Valid() && solver.analysis.su.kind == May
    requires Mirrors(solver.graph, f) && solver.Carries(st) && Fits(solver.analysis.su, st, f)
    ensures forall n: nat, line: Line :: (n, line) in reported <==> n < |f| && line in MissedLines(solver.analysis.su, f, st, n)
    ensures forall n: nat, line: Line :: (n, line) in reported <==>
              n < |f| && exists i, k :: IsUnlistedAccess(solver.analysis.su, f, st, n, i, k, line)
  {
    hide CacheState.Valid, CacheState.View, Analysis.Fits, MissedLines, IsUnlistedAccess;
    reported := {};
    var n := 0;
    while n < |f|
      invariant 0 <= n <= |f|
      invariant Mirrors(solver.graph, f) && solver.Carries(st)
      invariant forall m: nat, line: Line :: (m, line) in reported <==> m < n && line in MissedLines(solver.analysis.su, f, st, m)
    {
      var lines := ReplayBlock(solver, f, st, n);
      reported := reported + set line | line in lines :: (n, line);
      n := n + 1;
    }
    forall m: nat, line: Line | m < |f| { MissedAtPlace(solver.analysis.su, f, st, m, line); }
  }

  lemma {:induction false} UnlistedAt(su: Setup, v: Value, evs: seq<Event>, line: Line) returns (j: nat)
    requires su.Valid() && |v| == su.geo.numSets && line in Unlisted(su, v, evs)
    ensures j < |evs| && evs[j] == Access(line) && !Lists(su, Transfer(su, v, evs[..j]), line)
    decreases |evs|
  {
    var k := |evs| - 1;
    OneMoreEvent(su, v, evs, k);
    assert evs[..k + 1] == evs;
    if line in Unlisted(su, v, evs[..k]) {
      j := UnlistedAt(su, v, evs[..k], line);
      assert evs[..k][..j] == evs[..j];
    } else {
      j := k;
    }
  }

  lemma {:induction false} UnlistedFrom(su: Setup, v: Value, evs: seq<Event>, j: nat, line: Line)
    requires su.Valid() && |v| == su.geo.numSets && j < |evs| && evs[j] == Access(line) && !Lists(su, Transfer(su, v, evs[..j]), line)
    ensures line in Unlisted(su, v, evs)
    decreases |evs|
  {
    var k := |evs| - 1;
    OneMoreEvent(su, v, evs, k);
    assert evs[..k + 1] == evs;
    if j < k {
      assert evs[..k][..j] == evs[..j];
      UnlistedFrom(su, v, evs[..k], j, line);
    }
  }

  /** A line is reported exactly if the block accesses it at some place where the replay does not list it. */
  lemma MissedAtPlace(su: Setup, f: Function, st: States, n: nat, line: Line)
    requires su.Valid() && Fits(su, st, f) && n < |f|
    ensures line in MissedLines(su, f, st, n) <==> exists i, k :: IsUnlistedAccess(su, f, st, n, i, k, line)
  {
    var v, instrs := In(su, f, st, n), f[n].instrs;
    hide In, ReplayedTo, Transfer, Unlisted, Lists, Flatten, Before;
    if line in MissedLines(su, f, st, n) {
      var j := UnlistedAt(su, v, EventsOf(f, n), line);
      var i, k := PositionEvent(instrs, j);
      EventPosition(instrs, i, k);
      ReplayedIs(su, v, instrs, i, k);
      assert IsUnlistedAccess(su, f, st, n, i, k, line);
    }
    if i, k :| IsUnlistedAccess(su, f, st, n, i, k, line) {
      EventPosition(instrs, i, k);
      ReplayedIs(su, v, instrs, i, k);
      UnlistedFrom(su, v, EventsOf(f, n), Before(instrs, i) + k, line);
    }
  }

  /** The cache at place `j` of the visit does not hold the line. */
  ghost predicate MissesAt(geo: Geometry, tr: seq<Cache>, j: nat, line: Line) {
    geo.IsValid() && j < |tr| && |tr[j]| == geo.numSets && !Hits(geo, tr[j], line)
  }

  /** An access the replay does not list misses on every visit of every execution, in barrier-free functions
      entered with a cold LRU cache. */
  lemma UnlistedAccessMisses(su: Setup, f: Function, st: States, cost: seq<nat>, n: nat, i: nat, k: nat, line: Line,
                             path: seq<nat>, trs: seq<seq<Cache>>, p: nat)
    requires Solved(su, f, st, cost) && su.kind == May && Covered(su, f, st) && OnlyAccesses(f)
    requires n < |f| && IsUnlistedAccess(su, f, st, n, i, k, line)
    requires IsExecution(Lru(su.policy.ways), su, f, path, trs) && trs[0] != [] && Cold(trs[0][0]) && p < |path| && path[p] == n
    ensures MissesAt(su.geo, trs[p], Before(f[n].instrs, i) + k, line)
  {
    hide *;
    VisitStart(su, f, st, cost, n, path, trs, p);
    UnlistedFacts(su, f, st, n, i, k, line);
    ReplayMisses(su, In(su, f, st, n), f[n].instrs, i, k, line, trs[p]);
  }

  /** Each visit is a trace that starts from a cache the block's in-value describes. */
  lemma VisitStart(su: Setup, f: Function, st: States, cost: seq<nat>, n: nat, path: seq<nat>, trs: seq<seq<Cache>>, p: nat)
    requires Solved(su, f, st, cost) && su.kind == May && Covered(su, f, st) && OnlyAccesses(f) && n < |f|
    requires IsExecution(Lru(su.policy.ways), su, f, path, trs) && trs[0] != [] && Cold(trs[0][0]) && p < |path| && path[p] == n
    ensures su.Valid() && su.policy.LRUPolicy? && Fits(su, st, f) && NoBarriers(Flatten(f[n].instrs)) && p < |trs|
    ensures IsTrace(Lru(su.policy.ways), su.geo, Flatten(f[n].instrs), trs[p]) && MayDescribes(In(su, f, st, n), trs[p][0])
  {
    hide In, Solved, Covered, OnlyAccesses, IsVisit, VisitTime, Cold, Out, Flatten, NoBarriers, MayDescribes;
    EquationsHold(su, f, st, cost);
    MayAlongPath(su, f, st, path, trs, p);
    NoBarriersIn(f, n);
    VisitIsTrace(Lru(su.policy.ways), su.geo, f[n].instrs, trs[p]);
  }

  lemma UnlistedFacts(su: Setup, f: Function, st: States, n: nat, i: nat, k: nat, line: Line)
    requires su.Valid() && Fits(su, st, f) && n < |f| && IsUnlistedAccess(su, f, st, n, i, k, line)
    ensures i < |f[n].instrs| && k < |f[n].instrs[i]| && f[n].instrs[i][k] == Access(line)
    ensures !Lists(su, ReplayedTo(su, In(su, f, st, n), f[n].instrs, i, k), line)
  {}

  lemma EquationsHold(su: Setup, f: Function, st: States, cost: seq<nat>)
    requires Solved(su, f, st, cost) && su.kind == May && Covered(su, f, st)
    ensures Solvable(su) && Fits(su, st, f) && su.policy.LRUPolicy?
    ensures forall n :: 0 <= n < |f| && Reachable(f, n) ==> st[n] == Out(su, f, st, n)
  {
    SettledEverywhereIff(su, f, st, cost);
  }

  /** Instruction by instruction, a replay that describes the cache at the start lists what the cache may hold. */
  lemma ReplayMisses(su: Setup, v: Value, instrs: seq<seq<Event>>, i: nat, k: nat, line: Line, tr: seq<Cache>)
    requires su.Valid() && su.policy.LRUPolicy? && |v| == su.geo.numSets && NoBarriers(Flatten(instrs))
    requires i < |instrs| && k < |instrs[i]| && instrs[i][k] == Access(line) && !Lists(su, ReplayedTo(su, v, instrs, i, k), line)
    requires IsTrace(Lru(su.policy.ways), su.geo, Flatten(instrs), tr) && MayDescribes(v, tr[0])
    ensures MissesAt(su.geo, tr, Before(instrs, i) + k, line)
  {
    hide ReplayedTo, Transfer, Flatten, Before, NoBarriers;
    EventPosition(instrs, i, k);
    ReplayedIs(su, v, instrs, i, k);
    MayTrace(su, v, Flatten(instrs), tr, Before(instrs, i) + k);
  }

  /** Every report is true: for barrier-free functions entered with a cold LRU cache, the reported
      line is accessed at a place in the block that misses on every execution and every visit. */
  lemma AlwaysMissIsSound(su: Setup, f: Function, st: States, cost: seq<nat>, n: nat, line: Line) returns (i: nat, k: nat)
    requires Solved(su, f, st, cost) && su.kind == May && Covered(su, f, st) && OnlyAccesses(f)
    requires n < |f| && line in MissedLines(su, f, st, n)
    ensures i < |f[n].instrs| && k < |f[n].instrs[i]| && f[n].instrs[i][k] == Access(line)
    ensures forall path, trs, p: nat ::
              IsExecution(Lru(su.policy.ways), su, f, path, trs) && trs[0] != [] && Cold(trs[0][0]) && p < |path| && path[p] == n ==>
                MissesAt(su.geo, trs[p], Before(f[n].instrs, i) + k, line)
  {
    hide Solved, Covered, OnlyAccesses, IsVisit, MissesAt, ReplayedTo, In, Before, Lists, MissedLines;
    EquationsHold(su, f, st, cost);
    i, k := SomePlace(su, f, st, n, line);
    forall path, trs, p: nat |
      IsExecution(Lru(su.policy.ways), su, f, path, trs) && trs[0] != [] && Cold(trs[0][0]) && p < |path| && path[p] == n
      ensures MissesAt(su.geo, trs[p], Before(f[n].instrs, i) + k, line)
    {
      UnlistedAccessMisses(su, f, st, cost, n, i, k, line, path, trs, p);
    }
  }

  lemma SomePlace(su: Setup, f: Function, st: States, n: nat, line: Line) returns (i: nat, k: nat)
    requires su.Valid() && Fits(su, st, f) && n < |f| && line in MissedLines(su, f, st, n)
    ensures IsUnlistedAccess(su, f, st, n, i, k, line)
  {
    MissedAtPlace(su, f, st, n, line);
    hide IsUnlistedAccess, MissedLines;
    i, k :| IsUnlistedAccess(su, f, st, n, i, k, line);
  }
}
