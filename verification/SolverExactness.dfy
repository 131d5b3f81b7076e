/** Exactly when the must costs are safe, read off the function: every reachable block is explorable or
    costs nothing from a cold cache. */
module SolverExactness {
  import opened AgeDomain
  import opened CacheGeometry
  import opened ReplacementPolicy
  import opened CacheStates
  import opened CacheAnalysis
  import opened Hardware
  import opened Traces
  import opened Visits
  import opened Fixpoint
  import opened SolverMeasure
  import opened SolverTheory
  import opened SolverMeaning

  function ColdCache(geo: Geometry): Cache { seq(geo.numSets, i => []) }

  ghost predicate EndsWithBarrier(evs: seq<Event>) { evs != [] && evs[|evs| - 1].Barrier? }

  /** Something in the block can take time. */
  ghost predicate Chargeable(evs: seq<Event>) {
    exists i :: 0 <= i < |evs| && (evs[i].Access? || evs[i].cost > 0)
  }

  lemma {:induction false} QuietIsInert(su: Setup, evs: seq<Event>)
    requires su.Valid() && !Chargeable(evs)
    ensures Transfer(su, Empty(su.geo.numSets), evs) == Empty(su.geo.numSets)
    ensures Charge(su, Empty(su.geo.numSets), evs) == 0
    decreases |evs|
  {
    if evs != [] {
      assert !(evs[0].Access? || evs[0].cost > 0);
      forall i | 0 <= i < |evs[1..]| ensures !(evs[1..][i].Access? || evs[1..][i].cost > 0) {
        assert evs[1..][i] == evs[i + 1];
      }
      QuietIsInert(su, evs[1..]);
    }
  }

  lemma FirstStep(su: Setup, hw: Hardware, evs: seq<Event>, c: Cache, rest: seq<Cache>)
    requires evs != [] && su.geo.IsValid() && PossibleCache(hw, su.geo, c) && IsTrace(hw, su.geo, evs[1..], rest)
    requires Happens(hw, su.geo, evs[0], c, rest[0])
    ensures IsTrace(hw, su.geo, evs, [c] + rest)
    ensures TraceTime(su, hw, evs, [c] + rest) == EventTime(su, evs[0], c) + TraceTime(su, hw, evs[1..], rest)
  {
    var tr := [c] + rest;
    forall i | 0 <= i < |evs| ensures Happens(hw, su.geo, evs[i], tr[i], tr[i + 1]) {
      if i > 0 { assert Happens(hw, su.geo, evs[1..][i - 1], rest[i - 1], rest[i - 1 + 1]); }
    }
    assert tr[1..] == rest;
  }

  /** From a cold cache some execution of a chargeable block takes time. */
  lemma {:induction false} ColdTraceTakesTime(su: Setup, hw: Hardware, evs: seq<Event>) returns (tr: seq<Cache>)
    requires su.Valid() && su.missPenalty > 0 && PossibleCache(hw, su.geo, ColdCache(su.geo)) && Chargeable(evs)
    ensures IsTrace(hw, su.geo, evs, tr) && tr[0] == ColdCache(su.geo) && TraceTime(su, hw, evs, tr) > 0
    decreases |evs|
  {
    var cold := ColdCache(su.geo);
    if evs[0].Barrier? && evs[0].cost == 0 {
      var i :| 0 <= i < |evs| && (evs[i].Access? || evs[i].cost > 0);
      assert evs[1..][i - 1] == evs[i];
      var rest := ColdTraceTakesTime(su, hw, evs[1..]);
      FirstStep(su, hw, evs, cold, rest);
      tr := [cold] + rest;
    } else {
      tr := SomeTrace(hw, su.geo, evs, cold);
      if evs[0].Access? { SetIndexInRange(su.geo, evs[0].line); }
      assert TraceTime(su, hw, evs, tr) >= EventTime(su, evs[0], cold);
    }
  }

  /** Every path can be executed. */
  lemma {:induction false} SomeExecution(su: Setup, hw: Hardware, f: Function, path: seq<nat>) returns (trs: seq<seq<Cache>>)
    requires su.Valid() && PossibleCache(hw, su.geo, ColdCache(su.geo)) && IsPath(f, path)
    ensures FlatExecution(hw, su, f, path, trs)
  {
    var k := |path| - 1;
    if k == 0 {
      var tr := SomeTrace(hw, su.geo, EventsOf(f, path[0]), ColdCache(su.geo));
      trs := [tr];
    } else {
      PrefixPath(f, path, k);
      var front := SomeExecution(su, hw, f, path[..k]);
      var last := front[k - 1][|EventsOf(f, path[k - 1])|];
      assert path[..k][k - 1] == path[k - 1];
      var tr := SomeTrace(hw, su.geo, EventsOf(f, path[k]), last);
      ExtendExecution(su, hw, f, path, front, tr);
      trs := front + [tr];
    }
  }

  lemma PrefixPath(f: Function, path: seq<nat>, k: nat)
    requires IsPath(f, path) && 0 < k <= |path|
    ensures IsPath(f, path[..k])
  {
    forall i | 0 <= i < k - 1 ensures Edge(f, path[..k][i], path[..k][i + 1]) {
      assert Edge(f, path[i], path[i + 1]);
    }
  }

  lemma ExtendExecution(su: Setup, hw: Hardware, f: Function, path: seq<nat>, front: seq<seq<Cache>>, tr: seq<Cache>)
    requires IsPath(f, path) && |path| >= 2 && IsPath(f, path[..|path| - 1])
    requires FlatExecution(hw, su, f, path[..|path| - 1], front)
    requires IsTrace(hw, su.geo, EventsOf(f, path[|path| - 1]), tr)
    requires tr[0] == front[|path| - 2][|EventsOf(f, path[|path| - 2])|]
    ensures FlatExecution(hw, su, f, path, front + [tr])
  {
    var k := |path| - 1;
    var trs := front + [tr];
    forall i | 0 <= i < |path| ensures IsTrace(hw, su.geo, EventsOf(f, path[i]), trs[i]) {
      if i < k { assert path[..k][i] == path[i] && IsTrace(hw, su.geo, EventsOf(f, path[..k][i]), front[i]); }
    }
    forall i | 0 <= i < |path| - 1 ensures trs[i + 1][0] == trs[i][|EventsOf(f, path[i])|] {
      if i < k - 1 { assert path[..k][i] == path[i] && front[i + 1][0] == front[i][|EventsOf(f, path[..k][i])|]; }
    }
  }

  /** A barrier may leave the cache cold. */
  lemma EndCold(su: Setup, hw: Hardware, f: Function, path: seq<nat>, trs: seq<seq<Cache>>) returns (trs': seq<seq<Cache>>)
    requires PossibleCache(hw, su.geo, ColdCache(su.geo)) && FlatExecution(hw, su, f, path, trs)
    requires EndsWithBarrier(EventsOf(f, path[|path| - 1]))
    ensures FlatExecution(hw, su, f, path, trs')
    ensures trs'[|path| - 1][|EventsOf(f, path[|path| - 1])|] == ColdCache(su.geo)
  {
    var k := |path| - 1;
    var evs, tr := EventsOf(f, path[k]), trs[k];
    var tr' := tr[|evs| := ColdCache(su.geo)];
    assert IsTrace(hw, su.geo, evs, tr);
    forall i | 0 <= i < |evs| ensures Happens(hw, su.geo, evs[i], tr'[i], tr'[i + 1]) {
      assert Happens(hw, su.geo, evs[i], tr[i], tr[i + 1]);
    }
    trs' := trs[k := tr'];
    forall i | 0 <= i < k ensures trs'[i + 1][0] == trs'[i][|EventsOf(f, path[i])|] {
      assert trs[i + 1][0] == trs[i][|EventsOf(f, path[i])|];
    }
  }

  // ---------------------------------------------------------------- neglected blocks

  /** The block can take time, but the solver never looks at it. */
  ghost predicate Neglected(su: Setup, f: Function, st: States, n: nat)
    requires su.Valid() && Fits(su, st, f) && n < |f|
  {
    !Active(su, f, st, n) && Charge(su, Empty(su.geo.numSets), EventsOf(f, n)) > 0
  }

  /** A block that costs nothing from a cold cache accesses nothing, if misses cost something. */
  lemma {:induction false} FreeHasNoAccess(su: Setup, evs: seq<Event>)
    requires su.Valid() && su.kind == Must && su.missPenalty > 0 && Charge(su, Empty(su.geo.numSets), evs) == 0
    ensures forall i :: 0 <= i < |evs| ==> evs[i].Barrier?
    decreases |evs|
  {
    if evs != [] {
      var cold := Empty(su.geo.numSets);
      if evs[0].Access? { SetIndexInRange(su.geo, evs[0].line); }
      assert AfterEvent(su, cold, evs[0]) == cold;
      FreeHasNoAccess(su, evs[1..]);
      forall i | 0 <= i < |evs| ensures evs[i].Barrier? {
        if i > 0 { assert evs[i] == evs[1..][i - 1]; }
      }
    }
  }

  /** A block that is not neglected and passes nothing on ends with a barrier, or has no events. */
  lemma PassesNothingOn(su: Setup, f: Function, st: States, cost: seq<nat>, u: nat)
    requires Solved(su, f, st, cost) && su.kind == Must && su.missPenalty > 0 && u < |f|
    requires !Neglected(su, f, st, u) && st[u] == Empty(su.geo.numSets) && EventsOf(f, u) != []
    ensures EndsWithBarrier(EventsOf(f, u))
  {
    hide Charge, IsActivePath;
    if Active(su, f, st, u) {
      ExploredPassesOn(su, f, st, cost, u);
    } else {
      FreeHasNoAccess(su, EventsOf(f, u));
    }
  }

  /** Before a block without events that passes nothing on comes one that passes nothing on. */
  lemma SilentBehindSilent(su: Setup, f: Function, st: States, cost: seq<nat>, w: nat, u: nat)
    requires Solved(su, f, st, cost) && SilentIsPlain(f) && u < |f| && w < |f| && Edge(f, w, u)
    requires f[u].succs != [] && EventsOf(f, u) == [] && st[u] == Empty(su.geo.numSets)
    ensures st[w] == Empty(su.geo.numSets)
  {
    hide IsActivePath, Preds;
    SilentPred(f, w, u);
    if Active(su, f, st, u) {
      SilentKeeps(su, f, st, cost, w, u);
    } else if Active(su, f, st, w) && st[w] != Empty(su.geo.numSets) {
      ActiveStep(su, f, st, w, u);
    } else if !Active(su, f, st, w) {
      assert Untouched(su, st, cost, w);
    }
  }

  lemma ColdStart(su: Setup, hw: Hardware, f: Function)
    requires su.Valid() && PossibleCache(hw, su.geo, ColdCache(su.geo)) && |f| > 0 && EventsOf(f, 0) == []
    ensures FlatExecution(hw, su, f, [0], [[ColdCache(su.geo)]])
  {}

  /** Without neglected blocks on the way, some execution ends cold behind a block that passes nothing on. */
  lemma {:induction false} SomeColdExecution(su: Setup, hw: Hardware, f: Function, st: States, cost: seq<nat>, path: seq<nat>)
      returns (trs: seq<seq<Cache>>)
    requires Solved(su, f, st, cost) && su.kind == Must && su.missPenalty > 0 && SilentIsPlain(f)
    requires PossibleCache(hw, su.geo, ColdCache(su.geo)) && IsPath(f, path)
    requires forall i :: 0 <= i < |path| ==> !Neglected(su, f, st, path[i])
    requires st[path[|path| - 1]] == Empty(su.geo.numSets) && f[path[|path| - 1]].succs != []
    ensures FlatExecution(hw, su, f, path, trs)
    ensures trs[|path| - 1][|EventsOf(f, path[|path| - 1])|] == ColdCache(su.geo)
    decreases |path|
  {
    hide Solved, Neglected, SilentIsPlain, EndsWithBarrier, PossibleCache, ColdCache, EventsOf, IsTrace;
    SolvedFits(su, f, st, cost);
    var k := |path| - 1;
    var u := path[k];
    if EventsOf(f, u) != [] {
      PassesNothingOn(su, f, st, cost, u);
      trs := SomeExecution(su, hw, f, path);
      trs := EndCold(su, hw, f, path, trs);
    } else if k == 0 {
      assert path == [0];
      ColdStart(su, hw, f);
      trs := [[ColdCache(su.geo)]];
    } else {
      assert Edge(f, path[k - 1], path[k - 1 + 1]);
      SilentBehindSilent(su, f, st, cost, path[k - 1], u);
      PrefixPath(f, path, k);
      assert path[..k][k - 1] == path[k - 1];
      var front := SomeColdExecution(su, hw, f, st, cost, path[..k]);
      StaysCold(su, hw, f, u);
      ExtendExecution(su, hw, f, path, front, [ColdCache(su.geo)]);
      trs := front + [[ColdCache(su.geo)]];
    }
  }

  lemma StaysCold(su: Setup, hw: Hardware, f: Function, u: nat)
    requires su.Valid() && PossibleCache(hw, su.geo, ColdCache(su.geo)) && u < |f| && EventsOf(f, u) == []
    ensures IsTrace(hw, su.geo, EventsOf(f, u), [ColdCache(su.geo)])
  {}

  lemma FirstNeglected(su: Setup, f: Function, st: States, path: seq<nat>) returns (k: nat)
    requires su.Valid() && Fits(su, st, f) && IsPath(f, path) && Neglected(su, f, st, path[|path| - 1])
    ensures 0 < k < |path| && Neglected(su, f, st, path[k]) && forall i :: 0 <= i < k ==> !Neglected(su, f, st, path[i])
  {
    EntryActive(su, f, st);
    assert !Neglected(su, f, st, path[0]);
    hide Neglected;
    k := 1;
    while !Neglected(su, f, st, path[k])
      invariant 0 < k < |path| && forall i :: 0 <= i < k ==> !Neglected(su, f, st, path[i])
      decreases |path| - k
    {
      k := k + 1;
    }
  }

  /** The block before the first neglected one passes nothing on. */
  lemma BeforeNeglected(su: Setup, f: Function, st: States, cost: seq<nat>, u: nat, n: nat)
    requires Solved(su, f, st, cost) && u < |f| && n < |f| && Edge(f, u, n) && Neglected(su, f, st, n)
    ensures st[u] == Empty(su.geo.numSets) && f[u].succs != []
  {
    hide IsActivePath;
    if Active(su, f, st, u) {
      if st[u] != Empty(su.geo.numSets) { ActiveStep(su, f, st, u, n); }
    } else {
      assert Untouched(su, st, cost, u);
    }
  }

  lemma NeglectedIsChargeable(su: Setup, f: Function, st: States, n: nat)
    requires su.Valid() && Fits(su, st, f) && n < |f| && Neglected(su, f, st, n)
    ensures Chargeable(EventsOf(f, n))
  {
    hide Chargeable, Transfer, Charge, Active;
    if !Chargeable(EventsOf(f, n)) { QuietIsInert(su, EventsOf(f, n)); }
  }

  lemma NeglectedIsFree(su: Setup, f: Function, st: States, cost: seq<nat>, n: nat)
    requires Solved(su, f, st, cost) && n < |f| && Neglected(su, f, st, n)
    ensures cost[n] == 0
  {
    assert Untouched(su, st, cost, n);
  }

  /** Where misses cost nothing, every execution takes what the events cost. */
  lemma {:induction false} FreeMisses(su: Setup, hw: Hardware, v: Value, evs: seq<Event>, tr: seq<Cache>)
    requires su.Valid() && su.kind == Must && su.missPenalty == 0 && |v| == su.geo.numSets && IsTrace(hw, su.geo, evs, tr)
    ensures TraceTime(su, hw, evs, tr) == Charge(su, v, evs)
    decreases |evs|
  {
    if evs != [] {
      forall i | 0 <= i < |evs[1..]| ensures Happens(hw, su.geo, evs[1..][i], tr[1..][i], tr[1..][i + 1]) {
        assert Happens(hw, su.geo, evs[i + 1], tr[i + 1], tr[i + 1 + 1]);
      }
      FreeMisses(su, hw, AfterEvent(su, v, evs[0]), evs[1..], tr[1..]);
    }
  }

  /** A neglected block is charged nothing although some execution takes time in it, or in a neglected
      block before it. */
  lemma NeglectedIsUnderestimated(su: Setup, hw: Hardware, f: Function, st: States, cost: seq<nat>, n: nat)
      returns (path: seq<nat>, trs: seq<seq<Cache>>)
    requires Solved(su, f, st, cost) && su.kind == Must && SilentIsPlain(f) && PossibleCache(hw, su.geo, ColdCache(su.geo))
    requires n < |f| && Reachable(f, n) && Neglected(su, f, st, n)
    ensures IsExecution(hw, su, f, path, trs)
    ensures cost[path[|path| - 1]] < VisitTime(su, hw, f[path[|path| - 1]].instrs, trs[|path| - 1])
  {
    hide Solved, Neglected, EndsWithBarrier, Chargeable, PossibleCache, ColdCache, IsTrace, TraceTime, EventsOf, SilentIsPlain, FlatExecution, IsVisit, VisitTime;
    SolvedFits(su, f, st, cost);
    var whole :| IsPath(f, whole) && whole[|whole| - 1] == n;
    if su.missPenalty == 0 {
      path := whole;
      trs := SomeExecution(su, hw, f, path);
      NeglectedIsFree(su, f, st, cost, n);
      LastTrace(su, hw, f, path, trs);
      CostsWithoutMisses(su, hw, f, st, n, trs[|path| - 1]);
    } else {
      var k := FirstNeglected(su, f, st, whole);
      path := whole[..k + 1];
      PrefixPath(f, whole, k + 1);
      trs := SlowExecution(su, hw, f, st, cost, path);
      NeglectedIsFree(su, f, st, cost, path[k]);
    }
    ExecutionsAreFlat(hw, su, f, path, trs);
  }

  lemma LastTrace(su: Setup, hw: Hardware, f: Function, path: seq<nat>, trs: seq<seq<Cache>>)
    requires FlatExecution(hw, su, f, path, trs)
    ensures IsTrace(hw, su.geo, EventsOf(f, path[|path| - 1]), trs[|path| - 1])
  {}

  /** The first neglected block of a path can be entered with a cold cache, and then takes time. */
  lemma SlowExecution(su: Setup, hw: Hardware, f: Function, st: States, cost: seq<nat>, path: seq<nat>) returns (trs: seq<seq<Cache>>)
    requires Solved(su, f, st, cost) && su.kind == Must && su.missPenalty > 0 && SilentIsPlain(f)
    requires PossibleCache(hw, su.geo, ColdCache(su.geo)) && IsPath(f, path) && |path| >= 2
    requires Neglected(su, f, st, path[|path| - 1]) && forall i :: 0 <= i < |path| - 1 ==> !Neglected(su, f, st, path[i])
    ensures FlatExecution(hw, su, f, path, trs)
    ensures TraceTime(su, hw, EventsOf(f, path[|path| - 1]), trs[|path| - 1]) > 0
  {
    hide Solved, Neglected, EndsWithBarrier, Chargeable, PossibleCache, ColdCache, IsTrace, TraceTime, EventsOf, SilentIsPlain;
    SolvedFits(su, f, st, cost);
    var k := |path| - 1;
    PrefixPath(f, path, k);
    assert Edge(f, path[k - 1], path[k - 1 + 1]);
    BeforeNeglected(su, f, st, cost, path[k - 1], path[k]);
    NeglectedIsChargeable(su, f, st, path[k]);
    assert path[..k][k - 1] == path[k - 1];
    var front := SomeColdExecution(su, hw, f, st, cost, path[..k]);
    var tr := ColdTraceTakesTime(su, hw, EventsOf(f, path[k]));
    ExtendExecution(su, hw, f, path, front, tr);
    trs := front + [tr];
  }

  lemma CostsWithoutMisses(su: Setup, hw: Hardware, f: Function, st: States, n: nat, tr: seq<Cache>)
    requires su.Valid() && Fits(su, st, f) && su.kind == Must && su.missPenalty == 0 && n < |f| && Neglected(su, f, st, n)
    requires IsTrace(hw, su.geo, EventsOf(f, n), tr)
    ensures TraceTime(su, hw, EventsOf(f, n), tr) > 0
  {
    hide Charge, Active;
    FreeMisses(su, hw, Empty(su.geo.numSets), EventsOf(f, n), tr);
  }

  // ---------------------------------------------------------------- the theorem

  ghost predicate Safe(su: Setup, hw: Hardware, f: Function, cost: seq<nat>)
    requires |cost| == |f|
  {
    forall path, trs, i: nat :: IsExecution(hw, su, f, path, trs) && i < |path| ==>
      VisitTime(su, hw, f[path[i]].instrs, trs[i]) <= cost[path[i]]
  }

  /** Every reachable block is explorable or costs nothing from a cold cache: known before the run. */
  ghost predicate WillBeCovered(su: Setup, f: Function)
    requires su.Valid()
  {
    forall n :: 0 <= n < |f| && Reachable(f, n) ==> IsExplorable(f, n) || Charge(su, Empty(su.geo.numSets), EventsOf(f, n)) == 0
  }

  /** If nothing leads back to the entry and paths merge in blocks with events only, the costs the solver
      reports bound every execution exactly when every reachable block is explorable or free. */
  lemma CostsSafeIff(su: Setup, hw: Hardware, f: Function, st: States, cost: seq<nat>)
    requires Solved(su, f, st, cost) && su.kind == Must && Trusted(su.policy, hw)
    requires SilentIsPlain(f) && forall u :: !Edge(f, u, 0)
    ensures Safe(su, hw, f, cost) <==> WillBeCovered(su, f)
  {
    hide Charge, IsExplorable, IsActivePath, SilentIsPlain, EventsOf, Reachable;
    if WillBeCovered(su, f) {
      forall path, trs, i: nat | IsExecution(hw, su, f, path, trs) && i < |path|
        ensures VisitTime(su, hw, f[path[i]].instrs, trs[i]) <= cost[path[i]]
      {
        CoveredVisit(su, hw, f, st, cost, path, trs, i);
      }
    } else {
      var n :| 0 <= n < |f| && Reachable(f, n) && !IsExplorable(f, n) && Charge(su, Empty(su.geo.numSets), EventsOf(f, n)) != 0;
      ExploredIff(su, f, st, cost, n);
      SomeColdPossible(su, hw);
      var path, trs := NeglectedIsUnderestimated(su, hw, f, st, cost, n);
      UnsafeWitness(su, hw, f, cost, path, trs);
    }
  }

  lemma SomeColdPossible(su: Setup, hw: Hardware)
    requires su.Valid() && Trusted(su.policy, hw)
    ensures PossibleCache(hw, su.geo, ColdCache(su.geo))
  {}

  lemma CoveredVisit(su: Setup, hw: Hardware, f: Function, st: States, cost: seq<nat>, path: seq<nat>, trs: seq<seq<Cache>>, i: nat)
    requires Solved(su, f, st, cost) && su.kind == Must && Trusted(su.policy, hw)
    requires SilentIsPlain(f) && (forall u :: !Edge(f, u, 0)) && WillBeCovered(su, f)
    requires IsExecution(hw, su, f, path, trs) && i < |path|
    ensures VisitTime(su, hw, f[path[i]].instrs, trs[i]) <= cost[path[i]]
  {
    hide Charge, IsExplorable, IsActivePath, SilentIsPlain, EventsOf, VisitTime, IsVisit;
    EntryWithoutPredsIsCold(su, f, st);
    PathReaches(f, path, i);
    MustAlongPath(su, hw, f, st, path, trs, i);
    ExploredIff(su, f, st, cost, path[i]);
    if !Active(su, f, st, path[i]) {
      InactiveInIsCold(su, f, st, cost, path[i]);
    }
  }

  lemma UnsafeWitness(su: Setup, hw: Hardware, f: Function, cost: seq<nat>, path: seq<nat>, trs: seq<seq<Cache>>)
    requires |cost| == |f| && IsExecution(hw, su, f, path, trs)
    requires cost[path[|path| - 1]] < VisitTime(su, hw, f[path[|path| - 1]].instrs, trs[|path| - 1])
    ensures !Safe(su, hw, f, cost)
  {
    var i: nat := |path| - 1;
    assert !(VisitTime(su, hw, f[path[i]].instrs, trs[i]) <= cost[path[i]]);
  }
}
