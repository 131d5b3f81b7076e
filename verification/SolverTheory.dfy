/** The invariant of the worklist iteration, and what its final state means. */
module SolverTheory {
  import opened AgeDomain
  import opened CacheGeometry
  import opened ReplacementPolicy
  import opened CacheStates
  import opened CacheAnalysis
  import opened Hardware
  import opened Traces
  import opened Fixpoint
  import opened SolverMeasure

  /** A path all of whose blocks but the last pass on something to their successors. Only the entry
      is seeded and successors are queued on a change only, so these paths are the ones explored. */
  ghost predicate IsActivePath(su: Setup, f: Function, st: States, path: seq<nat>)
    requires Fits(su, st, f)
  {
    IsPath(f, path) && forall i :: 0 <= i < |path| - 1 ==> st[path[i]] != Empty(su.geo.numSets)
  }

  ghost predicate Active(su: Setup, f: Function, st: States, n: nat)
    requires Fits(su, st, f)
  {
    exists path :: IsActivePath(su, f, st, path) && path[|path| - 1] == n
  }

  ghost predicate Settled(su: Setup, f: Function, st: States, cost: seq<nat>, n: nat)
    requires su.Valid() && Fits(su, st, f) && n < |f| == |cost|
  {
    st[n] == Out(su, f, st, n) && cost[n] == BlockCharge(su, f, st, n)
  }

  ghost predicate Untouched(su: Setup, st: States, cost: seq<nat>, n: nat)
    requires n < |st| == |cost|
  {
    st[n] == Empty(su.geo.numSets) && cost[n] == 0
  }

  // The invariant, in parts: `wl` is the worklist, `processed` the blocks taken from it so far.

  ghost predicate Regular(su: Setup, f: Function, st: States, cost: seq<nat>) {
    && Solvable(su) && WellFormed(f)
    && Fits(su, st, f) && ShapedStates(su, st) && |cost| == |f|
    && (forall n :: 0 <= n < |f| ==> Over(Universe(f, |f|), st[n]))
  }

  /** Only active blocks are ever queued. */
  ghost predicate OnlyActive(su: Setup, f: Function, st: States, processed: set<nat>, wl: seq<nat>)
    requires Fits(su, st, f)
  {
    forall n :: n in processed || n in wl ==> n < |f| && Active(su, f, st, n)
  }

  /** A processed block that is not queued again satisfies its equation. */
  ghost predicate SettledOff(su: Setup, f: Function, st: States, cost: seq<nat>, processed: set<nat>, wl: seq<nat>)
    requires su.Valid() && Fits(su, st, f) && |f| == |cost|
  {
    forall n :: 0 <= n < |f| && n in processed && n !in wl ==> Settled(su, f, st, cost, n)
  }

  ghost predicate UntouchedOff(su: Setup, f: Function, st: States, cost: seq<nat>, processed: set<nat>)
    requires Fits(su, st, f) && |f| == |cost|
  {
    forall n :: 0 <= n < |f| && n !in processed ==> Untouched(su, st, cost, n)
  }

  /** Nothing is forgotten: the entry and the successors of every block that passes something on. */
  ghost predicate Agenda(su: Setup, f: Function, st: States, processed: set<nat>, wl: seq<nat>)
    requires Fits(su, st, f)
  {
    && (|f| > 0 ==> 0 in processed || 0 in wl)
    && (forall u, v :: u in processed && u < |f| && Edge(f, u, v) && st[u] != Empty(su.geo.numSets) ==>
          v in processed || v in wl)
  }

  /** Values no iteration gets past: processing a block behind one that passes something on, in a state
      below them, yields a value below theirs. */
  ghost predicate IsCeiling(su: Setup, f: Function, top: States)
    requires su.Valid()
  {
    Fits(su, top, f) && forall low: States, n: nat ::
      Fits(su, low, f) && ShapedStates(su, low) && BelowStates(low, top) && n < |f| && Active(su, f, top, n) ==>
        BelowValue(Out(su, f, low, n), top[n])
  }

  /** No value has risen beyond what every such bound allows. */
  ghost predicate UnderCeilings(su: Setup, f: Function, st: States)
    requires su.Valid()
  {
    forall top: States :: IsCeiling(su, f, top) ==> BelowStates(st, top)
  }

  ghost predicate Invariant(su: Setup, f: Function, st: States, cost: seq<nat>, processed: set<nat>, wl: seq<nat>) {
    && Regular(su, f, st, cost) && PreFixpoint(su, f, st) && UnderCeilings(su, f, st)
    && OnlyActive(su, f, st, processed, wl) && SettledOff(su, f, st, cost, processed, wl)
    && UntouchedOff(su, f, st, cost, processed) && Agenda(su, f, st, processed, wl)
  }

  /** The outcome: explored blocks satisfy their equations, the others were never looked at. */
  ghost predicate Solved(su: Setup, f: Function, st: States, cost: seq<nat>) {
    && Solvable(su) && WellFormed(f)
    && Fits(su, st, f) && ShapedStates(su, st) && |cost| == |f| && PreFixpoint(su, f, st)
    && (forall n :: 0 <= n < |f| && Active(su, f, st, n) ==> Settled(su, f, st, cost, n))
    && (forall n :: 0 <= n < |f| && !Active(su, f, st, n) ==> Untouched(su, st, cost, n))
  }

  // ---------------------------------------------------------------- establishing the invariant

  lemma EmptyBelow(su: Setup, v: Value)
    requires |v| == su.geo.numSets
    ensures BelowValue(Empty(su.geo.numSets), v)
  {}

  lemma InvariantInitially(su: Setup, f: Function, st: States, cost: seq<nat>)
    requires Solvable(su) && WellFormed(f) && |st| == |cost| == |f|
    requires forall n :: 0 <= n < |f| ==> Untouched(su, st, cost, n)
    ensures Invariant(su, f, st, cost, {}, if |f| > 0 then [0] else [])
  {
    EmptyShape(su);
    forall n | 0 <= n < |f| ensures st[n] == Empty(su.geo.numSets) { assert Untouched(su, st, cost, n); }
    forall n | 0 <= n < |f| ensures BelowValue(st[n], Out(su, f, st, n)) {
      EmptyBelow(su, Out(su, f, st, n));
    }
    InitiallyUnder(su, f, st);
    if |f| > 0 {
      assert IsActivePath(su, f, st, [0]) && [0][|[0]| - 1] == 0;
    }
  }

  lemma InitiallyUnder(su: Setup, f: Function, st: States)
    requires su.Valid() && |st| == |f| && forall n :: 0 <= n < |st| ==> st[n] == Empty(su.geo.numSets)
    ensures UnderCeilings(su, f, st)
  {
    forall top: States | IsCeiling(su, f, top) ensures BelowStates(st, top) {
      forall n | 0 <= n < |st| ensures BelowValue(st[n], top[n]) { EmptyBelow(su, top[n]); }
    }
  }

  // ---------------------------------------------------------------- one step

  lemma {:induction false} JoinAllLocal(su: Setup, st: States, preds: seq<nat>, n: nat, v: Value)
    requires n < |st| && n !in preds && |v| == su.geo.numSets
    requires preds != [] && forall i :: 0 <= i < |preds| ==> preds[i] < |st|
    requires forall m :: 0 <= m < |st| ==> |st[m]| == su.geo.numSets
    ensures JoinAll(su, st[n := v], preds) == JoinAll(su, st, preds)
    decreases |preds|
  {
    assert preds[|preds| - 1] in preds;
    if |preds| > 1 { JoinAllLocal(su, st, preds[..|preds| - 1], n, v); }
  }

  /** A block's equation does not depend on the value of a block that is not its predecessor. */
  lemma OutLocal(su: Setup, f: Function, st: States, n: nat, v: Value, m: nat)
    requires su.Valid() && Fits(su, st, f) && n < |f| && m < |f| && |v| == su.geo.numSets && !Edge(f, n, m)
    ensures Fits(su, st[n := v], f)
    ensures Out(su, f, st[n := v], m) == Out(su, f, st, m)
    ensures BlockCharge(su, f, st[n := v], m) == BlockCharge(su, f, st, m)
  {
    PredsInRange(f, m);
    PredsBelowExact(f, m, |f|, n);
    if Preds(f, m) != [] { JoinAllLocal(su, st, Preds(f, m), n, v); }
  }

  lemma NonEmptyGrows(su: Setup, a: Value, b: Value)
    requires |a| == su.geo.numSets && BelowValue(a, b) && a != Empty(su.geo.numSets)
    ensures b != Empty(su.geo.numSets)
  {
    var i :| 0 <= i < |a| && a[i] != map[];
    var q :| q in a[i];
    assert Below(a[i], b[i]) && q in b[i];
  }

  lemma ActiveGrows(su: Setup, f: Function, a: States, b: States, n: nat)
    requires Fits(su, a, f) && Fits(su, b, f) && BelowStates(a, b) && Active(su, f, a, n)
    ensures Active(su, f, b, n)
  {
    var path :| IsActivePath(su, f, a, path) && path[|path| - 1] == n;
    forall i | 0 <= i < |path| - 1 ensures b[path[i]] != Empty(su.geo.numSets) {
      NonEmptyGrows(su, a[path[i]], b[path[i]]);
    }
    assert IsActivePath(su, f, b, path);
  }

  lemma ActiveStep(su: Setup, f: Function, st: States, u: nat, v: nat)
    requires Fits(su, st, f) && WellFormed(f) && Active(su, f, st, u) && u < |f|
    requires st[u] != Empty(su.geo.numSets) && Edge(f, u, v)
    ensures v < |f| && Active(su, f, st, v)
  {
    var path :| IsActivePath(su, f, st, path) && path[|path| - 1] == u;
    var longer := path + [v];
    forall i | 0 <= i < |longer| - 1 ensures Edge(f, longer[i], longer[i + 1]) && st[longer[i]] != Empty(su.geo.numSets) {
      if i < |path| - 1 { assert Edge(f, path[i], path[i + 1]); }
    }
    assert IsActivePath(su, f, st, longer) && longer[|longer| - 1] == v;
  }

  /** Processing a block whose value does not change keeps the invariant. */
  lemma StepUnchanged(su: Setup, f: Function, st: States, cost: seq<nat>, processed: set<nat>, wl: seq<nat>)
    requires Invariant(su, f, st, cost, processed, wl) && wl != []
    requires wl[0] < |f| && Out(su, f, st, wl[0]) == st[wl[0]]
    ensures Invariant(su, f, st, cost[wl[0] := BlockCharge(su, f, st, wl[0])], processed + {wl[0]}, wl[1..])
  {
    hide Regular, PreFixpoint, OnlyActive, SettledOff, UntouchedOff, Agenda, Out, BlockCharge, UnderCeilings;
    UnchangedRest(su, f, st, cost, processed, wl);
    UnchangedSettled(su, f, st, cost, processed, wl);
    UnchangedAgenda(su, f, st, cost, processed, wl);
  }

  lemma UnchangedRest(su: Setup, f: Function, st: States, cost: seq<nat>, processed: set<nat>, wl: seq<nat>)
    requires Invariant(su, f, st, cost, processed, wl) && wl != [] && wl[0] < |f|
    ensures su.Valid() && Fits(su, st, f) && |f| == |cost|
    ensures Regular(su, f, st, cost[wl[0] := BlockCharge(su, f, st, wl[0])])
    ensures OnlyActive(su, f, st, processed + {wl[0]}, wl[1..])
    ensures UntouchedOff(su, f, st, cost[wl[0] := BlockCharge(su, f, st, wl[0])], processed + {wl[0]})
  {
    hide PreFixpoint, SettledOff, Agenda, BlockCharge, Active, Over, Universe, UnderCeilings;
    var n := wl[0];
    assert wl == [n] + wl[1..];
    forall m | 0 <= m < |f| && m !in processed + {n} ensures Untouched(su, st, cost[n := BlockCharge(su, f, st, n)], m) {
      assert Untouched(su, st, cost, m);
    }
    forall m | m in processed + {n} || m in wl[1..] ensures m < |f| && Active(su, f, st, m) {
      assert m in processed || m in wl;
    }
  }

  lemma UnchangedSettled(su: Setup, f: Function, st: States, cost: seq<nat>, processed: set<nat>, wl: seq<nat>)
    requires su.Valid() && Fits(su, st, f) && |f| == |cost| && SettledOff(su, f, st, cost, processed, wl) && wl != []
    requires wl[0] < |f| && Out(su, f, st, wl[0]) == st[wl[0]]
    ensures SettledOff(su, f, st, cost[wl[0] := BlockCharge(su, f, st, wl[0])], processed + {wl[0]}, wl[1..])
  {
    var n := wl[0];
    assert wl == [n] + wl[1..];
    forall m | 0 <= m < |f| && m in processed + {n} && m !in wl[1..]
      ensures Settled(su, f, st, cost[n := BlockCharge(su, f, st, n)], m)
    {
      if m != n { assert m !in wl && Settled(su, f, st, cost, m); }
    }
  }

  lemma UnchangedAgenda(su: Setup, f: Function, st: States, cost: seq<nat>, processed: set<nat>, wl: seq<nat>)
    requires Fits(su, st, f) && |f| == |cost| && wl != [] && wl[0] < |f|
    requires UntouchedOff(su, f, st, cost, processed) && Agenda(su, f, st, processed, wl)
    ensures Agenda(su, f, st, processed + {wl[0]}, wl[1..])
  {
    var n := wl[0];
    assert wl == [n] + wl[1..];
    forall u, v | u in processed + {n} && u < |f| && Edge(f, u, v) && st[u] != Empty(su.geo.numSets)
      ensures v in processed + {n} || v in wl[1..]
    {
      assert u !in processed ==> Untouched(su, st, cost, n);
    }
  }

  /** Processing a block whose value changes, and queueing its successors, keeps the invariant;
      the value only moves up. */
  lemma StepChanged(su: Setup, f: Function, st: States, cost: seq<nat>, processed: set<nat>, wl: seq<nat>, wl': seq<nat>)
    requires Invariant(su, f, st, cost, processed, wl) && wl != []
    requires wl[0] < |f| && Out(su, f, st, wl[0]) != st[wl[0]]
    requires forall m :: m in wl' <==> m in wl[1..] || Edge(f, wl[0], m)
    ensures var n, v := wl[0], Out(su, f, st, wl[0]);
            && BelowValue(st[n], v) && ValueShape(su, v) && Over(Universe(f, |f|), v)
            && Invariant(su, f, st[n := v], cost[n := BlockCharge(su, f, st, n)], processed + {n}, wl')
  {
    hide Regular, PreFixpoint, OnlyActive, SettledOff, UntouchedOff, Agenda, Out, BlockCharge, UnderCeilings, BelowValue, ValueShape;
    var n := wl[0];
    StepFacts(su, f, st, cost, processed, wl);
    ChangedUnder(su, f, st, processed, wl);
    ChangedRegular(su, f, st, cost, n);
    ChangedParts(su, f, st, cost, processed, wl, wl');
    ChangedUntouched(su, f, st, cost, processed, n);
  }

  lemma StepFacts(su: Setup, f: Function, st: States, cost: seq<nat>, processed: set<nat>, wl: seq<nat>)
    requires Invariant(su, f, st, cost, processed, wl) && wl != []
    ensures Solvable(su) && Fits(su, st, f) && ShapedStates(su, st) && |f| == |cost|
    ensures wl[0] < |f| && Active(su, f, st, wl[0])
  {
    assert wl[0] in wl;
  }

  /** The new value stays under every ceiling, as the block is active under it too. */
  lemma ChangedUnder(su: Setup, f: Function, st: States, processed: set<nat>, wl: seq<nat>)
    requires Solvable(su) && Fits(su, st, f) && ShapedStates(su, st) && wl != [] && wl[0] < |f|
    requires Active(su, f, st, wl[0]) && UnderCeilings(su, f, st)
    ensures UnderCeilings(su, f, st[wl[0] := Out(su, f, st, wl[0])])
  {
    var n := wl[0];
    forall top: States | IsCeiling(su, f, top) ensures BelowStates(st[n := Out(su, f, st, n)], top) {
      assert BelowStates(st, top);
      ActiveGrows(su, f, st, top, n);
      hide Out, Active, BelowValue;
      assert BelowValue(Out(su, f, st, n), top[n]);
    }
  }

  lemma ChangedRegular(su: Setup, f: Function, st: States, cost: seq<nat>, n: nat)
    requires Regular(su, f, st, cost) && PreFixpoint(su, f, st) && n < |f|
    ensures var v := Out(su, f, st, n);
            && BelowValue(st[n], v) && ValueShape(su, v) && Over(Universe(f, |f|), v)
            && Regular(su, f, st[n := v], cost[n := BlockCharge(su, f, st, n)])
  {
    hide Out, BlockCharge, Universe, Over, Solvable, WellFormed, BelowValue, ValueShape;
    OutShape(su, f, st, n);
    OutOver(su, f, st, n);
  }

  lemma ChangedParts(su: Setup, f: Function, st: States, cost: seq<nat>, processed: set<nat>, wl: seq<nat>, wl': seq<nat>)
    requires Invariant(su, f, st, cost, processed, wl) && wl != []
    requires wl[0] < |f| && Out(su, f, st, wl[0]) != st[wl[0]]
    requires forall m :: m in wl' <==> m in wl[1..] || Edge(f, wl[0], m)
    ensures var n, v := wl[0], Out(su, f, st, wl[0]);
            && Fits(su, st[n := v], f) && PreFixpoint(su, f, st[n := v])
            && OnlyActive(su, f, st[n := v], processed + {n}, wl')
            && SettledOff(su, f, st[n := v], cost[n := BlockCharge(su, f, st, n)], processed + {n}, wl')
            && Agenda(su, f, st[n := v], processed + {n}, wl')
  {
    var n := wl[0];
    var v := Out(su, f, st, n);
    ChangedIsNonEmpty(su, st[n], v);
    ChangedPreFixpoint(su, f, st, n);
    ChangedActive(su, f, st, st[n := v], processed, wl, wl');
    ChangedSettled(su, f, st, cost, processed, wl, wl');
    ChangedAgenda(su, f, st, v, processed, wl, wl');
  }

  lemma ChangedUntouched(su: Setup, f: Function, st: States, cost: seq<nat>, processed: set<nat>, n: nat)
    requires su.Valid() && Fits(su, st, f) && |f| == |cost| && UntouchedOff(su, f, st, cost, processed) && n < |f|
    ensures UntouchedOff(su, f, st[n := Out(su, f, st, n)], cost[n := BlockCharge(su, f, st, n)], processed + {n})
  {
    forall m | 0 <= m < |f| && m !in processed + {n} ensures Untouched(su, st, cost, m) {}
  }

  lemma ChangedIsNonEmpty(su: Setup, a: Value, b: Value)
    requires |a| == |b| == su.geo.numSets && BelowValue(a, b) && a != b
    ensures b != Empty(su.geo.numSets)
  {
    if a != Empty(su.geo.numSets) { NonEmptyGrows(su, a, b); }
  }

  lemma ChangedPreFixpoint(su: Setup, f: Function, st: States, n: nat)
    requires Solvable(su) && PreFixpoint(su, f, st) && ShapedStates(su, st) && n < |f|
    ensures var st' := st[n := Out(su, f, st, n)];
            PreFixpoint(su, f, st') && ShapedStates(su, st') && BelowStates(st, st')
  {
    var st' := st[n := Out(su, f, st, n)];
    OutShape(su, f, st, n);
    forall m | 0 <= m < |f| ensures BelowValue(st[m], st'[m]) {
      if m != n { BelowReflexive(st[m]); }
    }
    forall m | 0 <= m < |f| ensures BelowValue(st'[m], Out(su, f, st', m)) {
      OutMonotone(su, f, st, st', m);
      if m != n { BelowTransitive(st[m], Out(su, f, st, m), Out(su, f, st', m)); }
    }
  }

  lemma ChangedActive(su: Setup, f: Function, st: States, st': States, processed: set<nat>, wl: seq<nat>, wl': seq<nat>)
    requires WellFormed(f) && Fits(su, st, f) && Fits(su, st', f) && BelowStates(st, st')
    requires OnlyActive(su, f, st, processed, wl) && wl != [] && wl[0] < |f| && st'[wl[0]] != Empty(su.geo.numSets)
    requires forall m :: m in wl' ==> m in wl[1..] || Edge(f, wl[0], m)
    ensures OnlyActive(su, f, st', processed + {wl[0]}, wl')
  {
    var n := wl[0];
    assert n in wl && Active(su, f, st, n);
    forall m | m in processed + {n} || m in wl' ensures m < |f| && Active(su, f, st', m) {
      if m in processed || m in wl {
        ActiveGrows(su, f, st, st', m);
      } else {
        ActiveGrows(su, f, st, st', n);
        ActiveStep(su, f, st', n, m);
      }
    }
  }

  lemma ChangedSettled(su: Setup, f: Function, st: States, cost: seq<nat>, processed: set<nat>, wl: seq<nat>, wl': seq<nat>)
    requires su.Valid() && Fits(su, st, f) && |f| == |cost| && SettledOff(su, f, st, cost, processed, wl)
    requires wl != [] && wl[0] < |f| && forall m :: m in wl[1..] || Edge(f, wl[0], m) ==> m in wl'
    ensures var n, v := wl[0], Out(su, f, st, wl[0]);
            && Fits(su, st[n := v], f)
            && SettledOff(su, f, st[n := v], cost[n := BlockCharge(su, f, st, n)], processed + {n}, wl')
  {
    var n := wl[0];
    var v := Out(su, f, st, n);
    assert wl == [n] + wl[1..];
    forall m | 0 <= m < |f| && m in processed + {n} && m !in wl'
      ensures Settled(su, f, st[n := v], cost[n := BlockCharge(su, f, st, n)], m)
    {
      if m != n { assert m !in wl && Settled(su, f, st, cost, m); }
      OutLocal(su, f, st, n, v, m);
    }
  }

  lemma ChangedAgenda(su: Setup, f: Function, st: States, v: Value, processed: set<nat>, wl: seq<nat>, wl': seq<nat>)
    requires Fits(su, st, f) && wl != [] && wl[0] < |f| && |v| == su.geo.numSets && Agenda(su, f, st, processed, wl)
    requires forall m :: m in wl[1..] || Edge(f, wl[0], m) ==> m in wl'
    ensures Fits(su, st[wl[0] := v], f) && Agenda(su, f, st[wl[0] := v], processed + {wl[0]}, wl')
  {
    var n := wl[0];
    assert wl == [n] + wl[1..];
    forall a, b | a in processed + {n} && a < |f| && Edge(f, a, b) && st[n := v][a] != Empty(su.geo.numSets)
      ensures b in processed + {n} || b in wl'
    {
      assert a != n ==> a in processed && st[a] == st[n := v][a];
    }
  }

  lemma BelowReflexive(v: Value)
    ensures BelowValue(v, v)
  {}

  lemma BelowTransitive(a: Value, b: Value, c: Value)
    requires BelowValue(a, b) && BelowValue(b, c)
    ensures BelowValue(a, c)
  {
    forall i | 0 <= i < |a| ensures Below(a[i], c[i]) {
      assert Below(a[i], b[i]) && Below(b[i], c[i]);
    }
  }

  // ---------------------------------------------------------------- the end

  lemma {:induction false} ActiveIsProcessed(su: Setup, f: Function, st: States, cost: seq<nat>, processed: set<nat>, path: seq<nat>, i: nat)
    requires Invariant(su, f, st, cost, processed, []) && IsActivePath(su, f, st, path) && i < |path|
    ensures path[i] in processed
  {
    hide Over, Universe, PreFixpoint, Out, BlockCharge, ShapedStates, WellFormed, UnderCeilings, Settled, In;
    if i > 0 {
      ActiveIsProcessed(su, f, st, cost, processed, path, i - 1);
      assert Edge(f, path[i - 1], path[i - 1 + 1]);
    }
  }

  lemma ProcessedIsActive(su: Setup, f: Function, st: States, cost: seq<nat>, processed: set<nat>, n: nat)
    requires Invariant(su, f, st, cost, processed, []) && n < |f|
    ensures Fits(su, st, f) && (n in processed <==> Active(su, f, st, n))
  {
    hide Over, Universe, PreFixpoint, Out, BlockCharge, ShapedStates, WellFormed, UnderCeilings, Settled;
    if Active(su, f, st, n) {
      var path :| IsActivePath(su, f, st, path) && path[|path| - 1] == n;
      ActiveIsProcessed(su, f, st, cost, processed, path, |path| - 1);
    }
  }

  /** When the worklist is empty, exactly the active blocks were processed, and all is settled. */
  lemma InvariantFinally(su: Setup, f: Function, st: States, cost: seq<nat>, processed: set<nat>)
    requires Invariant(su, f, st, cost, processed, [])
    ensures Solved(su, f, st, cost) && UnderCeilings(su, f, st)
    ensures forall n :: 0 <= n < |f| ==> (n in processed <==> Active(su, f, st, n))
  {
    hide Active, Over, Universe, PreFixpoint, Agenda, Out, BlockCharge, ShapedStates, WellFormed, UnderCeilings;
    forall n | 0 <= n < |f| ensures n in processed <==> Active(su, f, st, n) {
      ProcessedIsActive(su, f, st, cost, processed, n);
    }
    assert forall n :: 0 <= n < |f| && n in processed ==> Settled(su, f, st, cost, n);
  }
}
