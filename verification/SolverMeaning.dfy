/** What the solver's result is worth: when it covers every reachable block, and what its costs bound. */
module SolverMeaning {
  import opened AgeDomain
  import opened CacheGeometry
  import opened ReplacementPolicy
  import opened CacheStates
  import opened CacheAnalysis
  import opened Hardware
  import opened Traces
  import opened Visits
  import opened Fixpoint
  import opened SolverMeasure
  import opened SolverTheory

  // ---------------------------------------------------------------- which blocks are covered

  /** Run from the cold value the block lists nothing and costs nothing. */
  ghost predicate Inert(su: Setup, f: Function, n: nat)
    requires su.Valid() && n < |f|
  {
    var cold := Empty(su.geo.numSets);
    Transfer(su, cold, EventsOf(f, n)) == cold && Charge(su, cold, EventsOf(f, n)) == 0
  }

  ghost predicate Covered(su: Setup, f: Function, st: States)
    requires su.Valid() && Fits(su, st, f)
  {
    forall n :: 0 <= n < |f| && Reachable(f, n) ==> Active(su, f, st, n) || Inert(su, f, n)
  }

  lemma {:induction false} JoinAllEmpty(su: Setup, st: States, preds: seq<nat>)
    requires preds != [] && forall i :: 0 <= i < |preds| ==> preds[i] < |st|
    requires forall n :: 0 <= n < |st| ==> |st[n]| == su.geo.numSets
    requires forall i :: 0 <= i < |preds| ==> st[preds[i]] == Empty(su.geo.numSets)
    ensures JoinAll(su, st, preds) == Empty(su.geo.numSets)
    decreases |preds|
  {
    if |preds| > 1 {
      JoinAllEmpty(su, st, preds[..|preds| - 1]);
      assert JoinValues(su.kind, Empty(su.geo.numSets), Empty(su.geo.numSets)) == Empty(su.geo.numSets);
    }
  }

  /** A block that is never explored has only silent predecessors. */
  lemma InactiveInIsCold(su: Setup, f: Function, st: States, cost: seq<nat>, n: nat)
    requires Solved(su, f, st, cost) && n < |f| && !Active(su, f, st, n)
    ensures In(su, f, st, n) == Empty(su.geo.numSets)
  {
    PredsInRange(f, n);
    forall i | 0 <= i < |Preds(f, n)| ensures st[Preds(f, n)[i]] == Empty(su.geo.numSets) {
      var u := Preds(f, n)[i];
      PredsBelowExact(f, n, |f|, u);
      if Active(su, f, st, u) && st[u] != Empty(su.geo.numSets) {
        ActiveStep(su, f, st, u, n);
      }
      assert !Active(su, f, st, u) ==> Untouched(su, st, cost, u);
    }
    if Preds(f, n) != [] { JoinAllEmpty(su, st, Preds(f, n)); }
  }

  /** The result solves the equations of every reachable block exactly when each of them was
      explored or is inert. */
  lemma SettledEverywhereIff(su: Setup, f: Function, st: States, cost: seq<nat>)
    requires Solved(su, f, st, cost)
    ensures (forall n :: 0 <= n < |f| && Reachable(f, n) ==> Settled(su, f, st, cost, n)) <==> Covered(su, f, st)
  {
    forall n | 0 <= n < |f| && !Active(su, f, st, n) ensures Settled(su, f, st, cost, n) <==> Inert(su, f, n) {
      InactiveInIsCold(su, f, st, cost, n);
      assert Untouched(su, st, cost, n);
    }
  }

  /** A block leaves something behind when its last event is an access. */
  ghost predicate EndsWithAccess(evs: seq<Event>) { evs != [] && evs[|evs| - 1].Access? }

  lemma LastEvent(su: Setup, v: Value, evs: seq<Event>)
    requires su.Valid() && |v| == su.geo.numSets && evs != []
    ensures Transfer(su, v, evs) == AfterEvent(su, Transfer(su, v, evs[..|evs| - 1]), evs[|evs| - 1])
  {
    assert evs[..|evs| - 1 + 1] == evs;
    OneMoreEvent(su, v, evs, |evs| - 1);
  }

  /** A block with events passes something on exactly when it ends with an access. */
  lemma PassesOnIff(su: Setup, v: Value, evs: seq<Event>)
    requires Solvable(su) && ValueShape(su, v) && evs != []
    ensures Transfer(su, v, evs) != Empty(su.geo.numSets) <==> EndsWithAccess(evs)
  {
    LastEvent(su, v, evs);
    var e := evs[|evs| - 1];
    if e.Access? {
      var m := Transfer(su, v, evs[..|evs| - 1]);
      TransferShape(su, v, evs[..|evs| - 1]);
      SetIndexInRange(su.geo, e.line);
      var s := su.geo.SetIndex(e.line);
      PolicyTransfer(su, m[s], e.line);
      LruUpdateAged(WaysOf(su.policy), m[s], e.line);
      assert e.line in AfterEvent(su, m, e)[s];
    }
  }

  /** Block `i` of the path leaves a line behind: the last block with events up to it ends with an access. */
  ghost predicate LeavesLine(f: Function, path: seq<nat>, i: nat)
    requires i < |path| && forall k :: 0 <= k < |path| ==> path[k] < |f|
    decreases i
  {
    if EventsOf(f, path[i]) != [] then EndsWithAccess(EventsOf(f, path[i])) else i > 0 && LeavesLine(f, path, i - 1)
  }

  /** A path whose blocks but the last all leave a line behind: readable off the function. */
  ghost predicate IsAccessPath(f: Function, path: seq<nat>) {
    IsPath(f, path) && forall i :: 0 <= i < |path| - 1 ==> LeavesLine(f, path, i)
  }

  /** Paths do not merge in a block without events, nor does the entry without events lie in a loop. */
  ghost predicate SilentIsPlain(f: Function) {
    forall u :: 0 <= u < |f| && f[u].succs != [] && EventsOf(f, u) == [] ==> |Preds(f, u)| <= (if u == 0 then 0 else 1)
  }

  /** What the outcome says about one explored block. */
  lemma ExploredBlock(su: Setup, f: Function, st: States, cost: seq<nat>, u: nat)
    requires Solved(su, f, st, cost) && u < |f| && Active(su, f, st, u)
    ensures Settled(su, f, st, cost, u) && Fits(su, st, f) && WellFormed(f) && Solvable(su)
    ensures ValueShape(su, In(su, f, st, u))
  {
    OutShape(su, f, st, u);
  }

  lemma ExploredPassesOn(su: Setup, f: Function, st: States, cost: seq<nat>, u: nat)
    requires Solved(su, f, st, cost) && u < |f| && Active(su, f, st, u) && EventsOf(f, u) != []
    ensures st[u] != Empty(su.geo.numSets) <==> EndsWithAccess(EventsOf(f, u))
  {
    ExploredBlock(su, f, st, cost, u);
    hide Solved;
    PassesOnIff(su, In(su, f, st, u), EventsOf(f, u));
  }

  /** A block without events keeps the value of its only predecessor. */
  lemma SilentKeeps(su: Setup, f: Function, st: States, cost: seq<nat>, w: nat, u: nat)
    requires Solved(su, f, st, cost) && u < |f| && Active(su, f, st, u) && EventsOf(f, u) == []
    requires Edge(f, w, u) && |Preds(f, u)| <= 1
    ensures w < |st| && st[u] == st[w]
  {
    ExploredBlock(su, f, st, cost, u);
    OnlyPred(f, w, u);
    assert st[u] == Out(su, f, st, u);
    hide Solved, Active, Settled, Preds, ValueShape, PreFixpoint;
    assert JoinAll(su, st, [w]) == st[w];
  }

  lemma OnlyPred(f: Function, w: nat, u: nat)
    requires Edge(f, w, u) && |Preds(f, u)| <= 1
    ensures Preds(f, u) == [w]
  {
    PredsBelowExact(f, u, |f|, w);
  }

  lemma SilentEntryIsCold(su: Setup, f: Function, st: States, cost: seq<nat>)
    requires Solved(su, f, st, cost) && |f| > 0 && Active(su, f, st, 0) && EventsOf(f, 0) == [] && Preds(f, 0) == []
    ensures st[0] == Empty(su.geo.numSets)
  {
    ExploredBlock(su, f, st, cost, 0);
  }

  lemma EntryActive(su: Setup, f: Function, st: States)
    requires Fits(su, st, f) && |f| > 0
    ensures Active(su, f, st, 0)
  {
    assert IsActivePath(su, f, st, [0]) && [0][|[0]| - 1] == 0;
  }

  lemma SolvedFits(su: Setup, f: Function, st: States, cost: seq<nat>)
    requires Solved(su, f, st, cost)
    ensures Fits(su, st, f) && WellFormed(f) && su.Valid()
  {}

  /** On a path of explored blocks, a block passes something on exactly when it leaves a line behind. */
  lemma {:induction false} PassesOnAlong(su: Setup, f: Function, st: States, cost: seq<nat>, path: seq<nat>, i: nat)
    requires Solved(su, f, st, cost) && SilentIsPlain(f) && IsPath(f, path) && i < |path| - 1
    requires forall k :: 0 <= k <= i ==> Active(su, f, st, path[k])
    ensures st[path[i]] != Empty(su.geo.numSets) <==> LeavesLine(f, path, i)
    decreases i
  {
    hide Solved, Fits, Active, EventsOf, EndsWithAccess, Preds, PredsBelow;
    SolvedFits(su, f, st, cost);
    var u := path[i];
    assert Edge(f, path[i], path[i + 1]);
    if EventsOf(f, u) != [] {
      ExploredPassesOn(su, f, st, cost, u);
    } else if i == 0 {
      SilentEntryIsCold(su, f, st, cost);
    } else {
      assert Edge(f, path[i - 1], path[i - 1 + 1]);
      SilentPred(f, path[i - 1], u);
      SilentKeeps(su, f, st, cost, path[i - 1], u);
      PassesOnAlong(su, f, st, cost, path, i - 1);
    }
  }

  lemma SilentPred(f: Function, w: nat, u: nat)
    requires SilentIsPlain(f) && u < |f| && f[u].succs != [] && EventsOf(f, u) == [] && Edge(f, w, u)
    ensures |Preds(f, u)| <= 1
  {}

  lemma {:induction false} AccessPathIsActive(su: Setup, f: Function, st: States, cost: seq<nat>, path: seq<nat>, i: nat)
    requires Solved(su, f, st, cost) && SilentIsPlain(f) && IsAccessPath(f, path) && i < |path|
    ensures forall k :: 0 <= k <= i ==> Active(su, f, st, path[k])
  {
    hide Solved, Fits, Active, EventsOf, EndsWithAccess, LeavesLine, SilentIsPlain;
    SolvedFits(su, f, st, cost);
    if i == 0 {
      EntryActive(su, f, st);
    } else {
      AccessPathIsActive(su, f, st, cost, path, i - 1);
      assert Edge(f, path[i - 1], path[i - 1 + 1]) && LeavesLine(f, path, i - 1);
      PassesOnAlong(su, f, st, cost, path, i - 1);
      ActiveStep(su, f, st, path[i - 1], path[i]);
    }
  }

  /** Some path on which every block but the last leaves a line behind leads to `n`. */
  ghost predicate IsExplorable(f: Function, n: nat) { exists path :: IsAccessPath(f, path) && path[|path| - 1] == n }

  /** Known before the run: the explored blocks are exactly those to which such a path leads. */
  lemma ExploredIff(su: Setup, f: Function, st: States, cost: seq<nat>, n: nat)
    requires Solved(su, f, st, cost) && SilentIsPlain(f) && n < |f|
    ensures Active(su, f, st, n) <==> IsExplorable(f, n)
  {
    if path :| IsAccessPath(f, path) && path[|path| - 1] == n {
      AccessPathIsActive(su, f, st, cost, path, |path| - 1);
    }
    if Active(su, f, st, n) {
      var path :| IsActivePath(su, f, st, path) && path[|path| - 1] == n;
      ActivePathLeavesLines(su, f, st, cost, path);
    }
  }

  lemma ActivePathLeavesLines(su: Setup, f: Function, st: States, cost: seq<nat>, path: seq<nat>)
    requires Solved(su, f, st, cost) && SilentIsPlain(f) && IsActivePath(su, f, st, path)
    ensures IsAccessPath(f, path)
  {
    hide Solved, Active, EventsOf, LeavesLine, SilentIsPlain;
    SolvedFits(su, f, st, cost);
    forall k | 0 <= k < |path| ensures Active(su, f, st, path[k]) { PrefixActive(su, f, st, path, k); }
    forall i | 0 <= i < |path| - 1 ensures LeavesLine(f, path, i) { PassesOnAlong(su, f, st, cost, path, i); }
  }

  lemma PrefixActive(su: Setup, f: Function, st: States, path: seq<nat>, i: nat)
    requires Fits(su, st, f) && IsActivePath(su, f, st, path) && i < |path|
    ensures Active(su, f, st, path[i])
  {
    var p := path[..i + 1];
    assert IsActivePath(su, f, st, p) && p[|p| - 1] == path[i];
  }

  /** If every reachable block with successors ends with an access, every reachable block is explored. */
  lemma AccessEndingsCover(su: Setup, f: Function, st: States, cost: seq<nat>)
    requires Solved(su, f, st, cost)
    requires forall u :: 0 <= u < |f| && Reachable(f, u) && f[u].succs != [] ==> EndsWithAccess(EventsOf(f, u))
    ensures Covered(su, f, st)
  {
    forall n | 0 <= n < |f| && Reachable(f, n) ensures Active(su, f, st, n) {
      var path :| IsPath(f, path) && path[|path| - 1] == n;
      EndingsExplore(su, f, st, cost, path, |path| - 1);
    }
  }

  lemma {:induction false} EndingsExplore(su: Setup, f: Function, st: States, cost: seq<nat>, path: seq<nat>, i: nat)
    requires Solved(su, f, st, cost) && IsPath(f, path) && i < |path|
    requires forall u :: 0 <= u < |f| && Reachable(f, u) && f[u].succs != [] ==> EndsWithAccess(EventsOf(f, u))
    ensures path[i] < |f| && Active(su, f, st, path[i])
  {
    hide Solved, Fits, Active, EventsOf;
    SolvedFits(su, f, st, cost);
    if i == 0 {
      EntryActive(su, f, st);
    } else {
      EndingsExplore(su, f, st, cost, path, i - 1);
      PathReaches(f, path, i - 1);
      assert Edge(f, path[i - 1], path[i - 1 + 1]);
      ExploredPassesOn(su, f, st, cost, path[i - 1]);
      ActiveStep(su, f, st, path[i - 1], path[i]);
    }
  }

  // ---------------------------------------------------------------- what the must costs bound

  ghost function TotalTime(su: Setup, hw: Hardware, f: Function, path: seq<nat>, trs: seq<seq<Cache>>, k: nat): nat
    requires IsExecution(hw, su, f, path, trs) && k <= |path|
  {
    if k == 0 then 0
    else TotalTime(su, hw, f, path, trs, k - 1) + VisitTime(su, hw, f[path[k - 1]].instrs, trs[k - 1])
  }

  ghost function TotalCost(cost: seq<nat>, path: seq<nat>): nat
    requires forall i :: 0 <= i < |path| ==> path[i] < |cost|
  {
    if path == [] then 0 else TotalCost(cost, path[..|path| - 1]) + cost[path[|path| - 1]]
  }

  /** Each visit of a block takes at most the cost reported for it. */
  lemma VisitWithinCost(
      su: Setup, hw: Hardware, f: Function, st: States, cost: seq<nat>, path: seq<nat>, trs: seq<seq<Cache>>, i: nat)
    requires Solved(su, f, st, cost) && su.kind == Must && Trusted(su.policy, hw)
    requires Covered(su, f, st) && EntryIsCold(su, f, st)
    requires IsExecution(hw, su, f, path, trs) && i < |path|
    ensures VisitTime(su, hw, f[path[i]].instrs, trs[i]) <= cost[path[i]]
  {
    PathReaches(f, path, i);
    SettledEverywhereIff(su, f, st, cost);
    assert Settled(su, f, st, cost, path[i]);
    MustAlongPath(su, hw, f, st, path, trs, i);
  }

  /** The headline of the must analysis: on every execution, from any starting cache and on any
      hardware the policy is trusted for, the cache cycles spent are within the summed block costs. */
  lemma {:induction false} MustCostsBoundTime(
      su: Setup, hw: Hardware, f: Function, st: States, cost: seq<nat>, path: seq<nat>, trs: seq<seq<Cache>>, k: nat)
    requires Solved(su, f, st, cost) && su.kind == Must && Trusted(su.policy, hw)
    requires Covered(su, f, st) && EntryIsCold(su, f, st)
    requires IsExecution(hw, su, f, path, trs) && k <= |path|
    ensures TotalTime(su, hw, f, path, trs, k) <= TotalCost(cost, path[..k])
  {
    hide Solved, Covered, EntryIsCold, IsVisit, VisitTime;
    if k > 0 {
      MustCostsBoundTime(su, hw, f, st, cost, path, trs, k - 1);
      VisitWithinCost(su, hw, f, st, cost, path, trs, k - 1);
      assert path[..k][..k - 1] == path[..k - 1];
    }
  }

  // ---------------------------------------------------------------- the hypotheses are needed

  /** Some trace exists from every cache the hardware can be in. */
  lemma {:induction false} SomeTrace(hw: Hardware, geo: Geometry, evs: seq<Event>, c: Cache) returns (tr: seq<Cache>)
    requires geo.IsValid() && PossibleCache(hw, geo, c)
    ensures IsTrace(hw, geo, evs, tr) && tr[0] == c
    decreases |evs|
  {
    if evs == [] {
      tr := [c];
    } else {
      var c' := c;
      if evs[0].Access? {
        SetIndexInRange(geo, evs[0].line);
        var s := geo.SetIndex(evs[0].line);
        var q := SomeAccess(hw, c[s], evs[0].line);
        c' := c[s := q];
      }
      var rest := SomeTrace(hw, geo, evs[1..], c');
      tr := [c] + rest;
      forall i | 0 <= i < |evs| ensures Happens(hw, geo, evs[i], tr[i], tr[i + 1]) {
        if i > 0 { assert Happens(hw, geo, evs[1..][i - 1], rest[i - 1], rest[i - 1 + 1]); }
      }
    }
  }

  lemma SomeAccess(hw: Hardware, c: Queue, line: Line) returns (c': Queue)
    requires Possible(hw, c)
    ensures Possible(hw, c') && Accessed(hw, c, line, c')
  {
    match hw {
      case Lru(w) =>
        c' := Touch(w, c, line);
        TouchAge(w, c, line, line);
      case Fifo(w) =>
        c' := if line in c then c else Truncate(w, [line] + c);
        if line !in c { TruncateAge(w, [line] + c, line); }
      case Adversary =>
        c' := if line in c then c else [line];
    }
  }

  /** The in-values describe the real cache on every execution exactly when the entry starts cold.
      An entry block inside a loop does not: its in-value then only reflects the back edge. */
  lemma EntryMustBeCold(su: Setup, hw: Hardware, f: Function, st: States)
    requires Solvable(su) && su.kind == Must && Trusted(su.policy, hw) && |f| > 0
    requires PreFixpoint(su, f, st) && ShapedStates(su, st)
    ensures (forall path, trs, i: nat :: IsExecution(hw, su, f, path, trs) && i < |path| ==>
               trs[i] != [] && MustDescribes(hw, In(su, f, st, path[i]), trs[i][0]))
            <==> EntryIsCold(su, f, st)
  {
    hide IsVisit, In, EntryIsCold, MustDescribes, ShapedStates;
    if EntryIsCold(su, f, st) {
      forall path, trs, i: nat | IsExecution(hw, su, f, path, trs) && i < |path|
        ensures trs[i] != [] && MustDescribes(hw, In(su, f, st, path[i]), trs[i][0])
      {
        MustAlongPath(su, hw, f, st, path, trs, i);
      }
    } else {
      WarmEntry(su, hw, f, st);
    }
  }

  /** An entry that does not start cold claims a line that a cold cache does not hold. */
  lemma WarmEntry(su: Setup, hw: Hardware, f: Function, st: States)
    requires su.Valid() && Trusted(su.policy, hw) && |f| > 0 && Fits(su, st, f) && !EntryIsCold(su, f, st)
    ensures exists path, trs, i: nat :: IsExecution(hw, su, f, path, trs) && i < |path|
              && trs[i] != [] && !MustDescribes(hw, In(su, f, st, path[i]), trs[i][0])
  {
    var cold: Cache := seq(su.geo.numSets, i => []);
    var tr := SomeTrace(hw, su.geo, EventsOf(f, 0), cold);
    assert FlatExecution(hw, su, f, [0], [tr]);
    ExecutionsAreFlat(hw, su, f, [0], [tr]);
    var v := In(su, f, st, 0);
    var s :| 0 <= s < |v| && v[s] != map[];
    var q :| q in v[s];
    assert !MustHolds(hw, v[s], cold[s]);
    assert !MustDescribes(hw, In(su, f, st, [0][0]), [tr][0][0]);
  }
}
