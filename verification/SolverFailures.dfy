/** Functions on which the must analysis reports too little: one whose entry lies in a loop, and one with a
    block behind a barrier. */
module SolverFailures {
  import opened AgeDomain
  import opened CacheGeometry
  import opened ReplacementPolicy
  import opened CacheStates
  import opened CacheAnalysis
  import opened Hardware
  import opened Traces
  import opened Visits
  import opened Fixpoint
  import opened SolverMeasure
  import opened SolverTheory
  import opened SolverMeaning
  import opened SolverExactness

  // ---------------------------------------------------------------- an entry with a predecessor

  /** An entry without predecessors is right on every execution. */
  lemma EntryAloneIsRight(su: Setup, hw: Hardware, f: Function, st: States)
    requires Solvable(su) && su.kind == Must && Trusted(su.policy, hw) && |f| > 0
    requires PreFixpoint(su, f, st) && ShapedStates(su, st) && forall u :: !Edge(f, u, 0)
    ensures forall path, trs, i: nat :: IsExecution(hw, su, f, path, trs) && i < |path| ==>
              trs[i] != [] && MustDescribes(hw, In(su, f, st, path[i]), trs[i][0])
  {
    EntryWithoutPredsIsCold(su, f, st);
    EntryMustBeCold(su, hw, f, st);
  }

  /** An entry with one predecessor, which is explored and ends with an access, is wrong on some. */
  lemma EntryInLoopIsWrong(su: Setup, hw: Hardware, f: Function, st: States, cost: seq<nat>, u: nat)
    requires Solved(su, f, st, cost) && su.kind == Must && Trusted(su.policy, hw) && |f| > 0
    requires Preds(f, 0) == [u] && SilentIsPlain(f) && IsExplorable(f, u) && EndsWithAccess(EventsOf(f, u))
    ensures exists path, trs, i: nat :: IsExecution(hw, su, f, path, trs) && i < |path| && trs[i] != [] &&
              !MustDescribes(hw, In(su, f, st, path[i]), trs[i][0])
  {
    PredsBelowExact(f, 0, |f|, u);
    ExploredIff(su, f, st, cost, u);
    ExploredPassesOn(su, f, st, cost, u);
    LoopedIn(su, f, st, u);
    EntryMustBeCold(su, hw, f, st);
  }

  lemma LoopedIn(su: Setup, f: Function, st: States, u: nat)
    requires Fits(su, st, f) && |f| > 0 && Preds(f, 0) == [u] && u < |f|
    ensures In(su, f, st, 0) == st[u]
  {
    assert JoinAll(su, st, [u]) == st[u];
  }

  // ---------------------------------------------------------------- two concrete functions

  /** The solver may end like this, and this execution takes longer in its last block than the cost says. */
  ghost predicate Underestimates(su: Setup, hw: Hardware, f: Function, st: States, cost: seq<nat>, path: seq<nat>, trs: seq<seq<Cache>>) {
    && Solved(su, f, st, cost) && IsExecution(hw, su, f, path, trs)
    && cost[path[|path| - 1]] < VisitTime(su, hw, f[path[|path| - 1]].instrs, trs[|path| - 1])
  }

  /** One set, one way, two-byte lines. */
  function SmallSetup(penalty: nat): Setup { Setup(Geometry(1, 1, 2), LRUPolicy(1), Must, penalty) }

  lemma SmallIsValid(penalty: nat)
    ensures SmallSetup(penalty).Valid() && Solvable(SmallSetup(penalty)) && Trusted(LRUPolicy(1), Lru(1))
    ensures Geometry(1, 1, 2).SetIndex(0) == 0
  {
    assert And(1, 0) == 0 && And(2, 1) == 0;
  }

  /** A single block that accesses line 0 and branches to itself. */
  function EntryLoop(): Function { [Block([[Access(0)]], [0])] }

  /** A block that ends with a barrier, followed by one that accesses line 0. */
  function BehindBarrier(): Function { [Block([[Barrier(0)]], [1]), Block([[Access(0)]], [])] }

  lemma EventsAre()
    ensures EventsOf(EntryLoop(), 0) == [Access(0)]
    ensures EventsOf(BehindBarrier(), 0) == [Barrier(0)] && EventsOf(BehindBarrier(), 1) == [Access(0)]
  {
    assert Flatten([[Access(0)]]) == Flatten([[Access(0)]][..0]) + [Access(0)];
    assert Flatten([[Barrier(0)]]) == Flatten([[Barrier(0)]][..0]) + [Barrier(0)];
  }

  function Hot(): Value { [map[0 := 0]] }

  function Cold(): Cache { [[]] }

  function Warm(): Cache { [[0]] }

  lemma HotShaped(penalty: nat)
    ensures ValueShape(SmallSetup(penalty), Hot()) && ValueShape(SmallSetup(penalty), Empty(1))
  {
    var m: Ages := map[0 := 0];
    forall a: nat ensures |Young(m, a)| <= a + 1 { AtMostOne(m, a); }
    EmptyShaped(SmallSetup(penalty)) by { SmallIsValid(penalty); }
  }

  lemma AtMostOne(m: Ages, a: nat)
    requires m == map[0 := 0]
    ensures |Young(m, a)| <= a + 1
  {
    assert Young(m, a) == {0};
  }

  /** One access to line 0: from the cold value a charged miss, from the hot one a free hit. */
  lemma AccessFrom(penalty: nat)
    ensures var su := SmallSetup(penalty);
            && su.Valid() && Transfer(su, Hot(), [Access(0)]) == Hot() && Charge(su, Hot(), [Access(0)]) == 0
            && Transfer(su, Empty(1), [Access(0)]) == Hot() && Charge(su, Empty(1), [Access(0)]) == penalty
            && Transfer(su, Empty(1), [Barrier(0)]) == Empty(1) && Charge(su, Empty(1), [Barrier(0)]) == 0
  {
    SmallIsValid(penalty);
    var su := SmallSetup(penalty);
    assert LruUpdate(1, map[0 := 0], 0) == map[0 := 0] && LruUpdate(1, map[], 0) == map[0 := 0];
    assert AfterEvent(su, Hot(), Access(0)) == Hot() && AfterEvent(su, Empty(1), Access(0)) == Hot();
    assert [Access(0)][1..] == [] && [Barrier(0)][1..] == [];
  }

  lemma ColdMiss(penalty: nat)
    ensures var su := SmallSetup(penalty);
            && IsTrace(Lru(1), su.geo, [Access(0)], [Cold(), Warm()]) && TraceTime(su, Lru(1), [Access(0)], [Cold(), Warm()]) == penalty
            && IsTrace(Lru(1), su.geo, [Barrier(0)], [Cold(), Cold()])
  {
    SmallIsValid(penalty);
    var su := SmallSetup(penalty);
    assert Touch(1, [], 0) == [0];
    assert Happens(Lru(1), su.geo, Access(0), Cold(), Warm());
    assert [Access(0)][1..] == [];
  }

  lemma LoopIn(penalty: nat)
    ensures In(SmallSetup(penalty), EntryLoop(), [Hot()], 0) == Hot()
  {
    assert Edge(EntryLoop(), 0, 0);
    assert Preds(EntryLoop(), 0) == PredsBelow(EntryLoop(), 0, 0) + [0];
    LoopedIn(SmallSetup(penalty), EntryLoop(), [Hot()], 0);
  }

  lemma LoopSolved(penalty: nat)
    ensures Solved(SmallSetup(penalty), EntryLoop(), [Hot()], [0])
  {
    hide Transfer, Charge, EventsOf, In, Preds, ValueShape, Geometry.IsValid;
    SmallIsValid(penalty);
    EventsAre();
    LoopIn(penalty);
    AccessFrom(penalty);
    HotShaped(penalty);
    EntryActive(SmallSetup(penalty), EntryLoop(), [Hot()]);
  }

  /** The solver ends with the line guaranteed at the entry, so the block is charged nothing. Its first
      visit misses. */
  lemma EntryLoopUnderestimated(penalty: nat)
    requires penalty > 0
    ensures Underestimates(SmallSetup(penalty), Lru(1), EntryLoop(), [Hot()], [0], [0], [[Cold(), Warm()]])
  {
    hide Solved, IsTrace, TraceTime, EventsOf, IsVisit, VisitTime;
    LoopSolved(penalty);
    EventsAre();
    ColdMiss(penalty);
    assert FlatExecution(Lru(1), SmallSetup(penalty), EntryLoop(), [0], [[Cold(), Warm()]]);
    ExecutionsAreFlat(Lru(1), SmallSetup(penalty), EntryLoop(), [0], [[Cold(), Warm()]]);
  }

  lemma BarrierIn(penalty: nat)
    ensures In(SmallSetup(penalty), BehindBarrier(), [Empty(1), Empty(1)], 0) == Empty(1)
    ensures In(SmallSetup(penalty), BehindBarrier(), [Empty(1), Empty(1)], 1) == Empty(1)
  {
    var f, st := BehindBarrier(), [Empty(1), Empty(1)];
    assert !Edge(f, 0, 0) && !Edge(f, 1, 0) && Edge(f, 0, 1) && !Edge(f, 1, 1);
    assert PredsBelow(f, 0, 1) == [] && PredsBelow(f, 0, 2) == [] && PredsBelow(f, 1, 1) == [0] && PredsBelow(f, 1, 2) == [0];
    assert JoinAll(SmallSetup(penalty), st, [0]) == st[0];
  }

  lemma BarrierInactive(penalty: nat)
    ensures !Active(SmallSetup(penalty), BehindBarrier(), [Empty(1), Empty(1)], 1)
    ensures Active(SmallSetup(penalty), BehindBarrier(), [Empty(1), Empty(1)], 0)
  {
    var su, f, st := SmallSetup(penalty), BehindBarrier(), [Empty(1), Empty(1)];
    EntryActive(su, f, st);
    forall path | IsActivePath(su, f, st, path) ensures path[|path| - 1] == 0 {
      assert path[0] == 0 && st[path[0]] == Empty(1);
    }
  }

  lemma BarrierSolved(penalty: nat)
    ensures Solved(SmallSetup(penalty), BehindBarrier(), [Empty(1), Empty(1)], [0, 0])
  {
    hide Transfer, Charge, EventsOf, In, Preds, ValueShape, Geometry.IsValid, Active;
    SmallIsValid(penalty);
    EventsAre();
    BarrierIn(penalty);
    AccessFrom(penalty);
    HotShaped(penalty);
    BarrierInactive(penalty);
  }

  /** The solver never looks at the block behind the barrier and charges it nothing. It misses. */
  lemma BehindBarrierUnderestimated(penalty: nat)
    requires penalty > 0
    ensures Underestimates(SmallSetup(penalty), Lru(1), BehindBarrier(), [Empty(1), Empty(1)], [0, 0], [0, 1], [[Cold(), Cold()], [Cold(), Warm()]])
  {
    hide Solved, IsTrace, TraceTime, EventsOf, Active, Transfer, Charge, Flatten, IsVisit, VisitTime, IsExecution, FlatExecution;
    BarrierSolved(penalty);
    BarrierExecution(penalty);
    EventsAre();
    ColdMiss(penalty);
    ExecutionsAreFlat(Lru(1), SmallSetup(penalty), BehindBarrier(), [0, 1], [[Cold(), Cold()], [Cold(), Warm()]]);
    LastVisit(Lru(1), SmallSetup(penalty), BehindBarrier(), [0, 1], [[Cold(), Cold()], [Cold(), Warm()]]);
  }

  lemma LastVisit(hw: Hardware, su: Setup, f: Function, path: seq<nat>, trs: seq<seq<Cache>>)
    requires IsExecution(hw, su, f, path, trs)
    ensures path != [] && |trs| == |path| && path[|path| - 1] < |f|
    ensures IsVisit(hw, su.geo, f[path[|path| - 1]].instrs, trs[|path| - 1])
  {}

  lemma BarrierExecution(penalty: nat)
    ensures IsExecution(Lru(1), SmallSetup(penalty), BehindBarrier(), [0, 1], [[Cold(), Cold()], [Cold(), Warm()]])
  {
    hide EventsOf, IsTrace, IsVisit;
    EventsAre();
    ColdMiss(penalty);
    BarrierPath();
    assert FlatExecution(Lru(1), SmallSetup(penalty), BehindBarrier(), [0, 1], [[Cold(), Cold()], [Cold(), Warm()]]);
    ExecutionsAreFlat(Lru(1), SmallSetup(penalty), BehindBarrier(), [0, 1], [[Cold(), Cold()], [Cold(), Warm()]]);
  }

  lemma BarrierPath()
    ensures IsPath(BehindBarrier(), [0, 1])
  {
    assert Edge(BehindBarrier(), 0, 1);
  }
}
