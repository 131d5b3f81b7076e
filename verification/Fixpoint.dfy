/** The data-flow equations of a function, their order, and what their solutions mean on paths. */
module Fixpoint {
  import opened AgeDomain
  import opened CacheGeometry
  import opened ReplacementPolicy
  import opened CacheStates
  import opened CacheAnalysis
  import opened Hardware
  import opened Traces
  import opened Visits

  /** A basic block: the cache events of each instruction in order, and its successor blocks. */
  datatype Block = Block(instrs: seq<seq<Event>>, succs: seq<nat>)

  /** A machine function; block 0 is the entry. */
  type Function = seq<Block>

  ghost predicate WellFormed(f: Function) {
    forall n, i :: 0 <= n < |f| && 0 <= i < |f[n].succs| ==> f[n].succs[i] < |f|
  }

  function EventsOf(f: Function, n: nat): seq<Event>
    requires n < |f|
  {
    Flatten(f[n].instrs)
  }

  predicate Edge(f: Function, u: nat, v: nat) { u < |f| && v in f[u].succs }

  /** `v` is one of the successors listed for `u`. */
  ghost predicate Branches(f: Function, u: nat, v: nat) { u < |f| && exists k :: 0 <= k < |f[u].succs| && f[u].succs[k] == v }

  /** The predecessors of `v` among the first `k` blocks, in ascending order. */
  function PredsBelow(f: Function, v: nat, k: nat): seq<nat>
    requires k <= |f|
  {
    if k == 0 then []
    else PredsBelow(f, v, k - 1) + (if Edge(f, k - 1, v) then [k - 1] else [])
  }

  function Preds(f: Function, v: nat): seq<nat> { PredsBelow(f, v, |f|) }

  lemma {:induction false} PredsBelowExact(f: Function, v: nat, k: nat, u: nat)
    requires k <= |f|
    ensures u in PredsBelow(f, v, k) <==> u < k && Edge(f, u, v)
  {
    if k > 0 { PredsBelowExact(f, v, k - 1, u); }
  }

  lemma PredsInRange(f: Function, v: nat)
    ensures forall i :: 0 <= i < |Preds(f, v)| ==> Preds(f, v)[i] < |f|
  {
    forall i | 0 <= i < |Preds(f, v)| ensures Preds(f, v)[i] < |f| {
      PredsBelowExact(f, v, |f|, Preds(f, v)[i]);
    }
  }

  // ---------------------------------------------------------------- the equations

  /** One value per block. */
  type States = seq<Value>

  ghost predicate Fits(su: Setup, st: States, f: Function) {
    |st| == |f| && forall n :: 0 <= n < |st| ==> |st[n]| == su.geo.numSets
  }

  ghost function JoinAll(su: Setup, st: States, preds: seq<nat>): (r: Value)
    requires preds != [] && forall i :: 0 <= i < |preds| ==> preds[i] < |st|
    requires forall n :: 0 <= n < |st| ==> |st[n]| == su.geo.numSets
    ensures |r| == su.geo.numSets
    decreases |preds|
  {
    var last := st[preds[|preds| - 1]];
    if |preds| == 1 then last else JoinValues(su.kind, JoinAll(su, st, preds[..|preds| - 1]), last)
  }

  /** The value a block starts from: its predecessors' values joined, or the cold value. */
  ghost function In(su: Setup, f: Function, st: States, n: nat): (r: Value)
    requires Fits(su, st, f) && n < |f|
    ensures |r| == su.geo.numSets
  {
    PredsInRange(f, n);
    if Preds(f, n) == [] then Empty(su.geo.numSets) else JoinAll(su, st, Preds(f, n))
  }

  ghost function Out(su: Setup, f: Function, st: States, n: nat): (r: Value)
    requires su.Valid() && Fits(su, st, f) && n < |f|
    ensures |r| == su.geo.numSets
  {
    Transfer(su, In(su, f, st, n), EventsOf(f, n))
  }

  ghost function BlockCharge(su: Setup, f: Function, st: States, n: nat): nat
    requires su.Valid() && Fits(su, st, f) && n < |f|
  {
    Charge(su, In(su, f, st, n), EventsOf(f, n))
  }

  // ---------------------------------------------------------------- order and shape

  ghost predicate BelowValue(a: Value, b: Value) {
    |a| == |b| && forall i :: 0 <= i < |a| ==> Below(a[i], b[i])
  }

  ghost predicate BelowStates(a: States, b: States) {
    |a| == |b| && forall n :: 0 <= n < |a| ==> BelowValue(a[n], b[n])
  }

  ghost predicate ShapedStates(su: Setup, st: States) {
    forall n :: 0 <= n < |st| ==> ValueShape(su, st[n])
  }

  /** The values the solver handles: packed ages for must, plain ages for may. */
  ghost predicate ValueShape(su: Setup, v: Value) {
    && |v| == su.geo.numSets
    && (forall i :: 0 <= i < |v| ==> Aged(WaysOf(su.policy), v[i]))
    && (su.kind == Must ==> Shaped(su, v))
  }

  /** The analyses whose fixpoint iteration is covered: LRU in both directions and unknown in must. */
  ghost predicate Solvable(su: Setup) { su.Valid() && !su.policy.FIFOPolicy? }

  lemma PolicyTransfer(su: Setup, m: Ages, line: Line)
    requires Solvable(su) && Aged(WaysOf(su.policy), m) && (su.kind == Must ==> Packed(m))
    ensures su.policy.Transfer(m, line) == LruUpdate(WaysOf(su.policy), m, line)
  {
    if su.kind == Must { TransferIsLru(su.policy, m, line); }
  }

  lemma AfterEventShape(su: Setup, v: Value, e: Event)
    requires Solvable(su) && ValueShape(su, v)
    ensures ValueShape(su, AfterEvent(su, v, e))
  {
    if su.kind == Must { AfterEventShaped(su, v, e); }
    if e.Access? {
      SetIndexInRange(su.geo, e.line);
      var s := su.geo.SetIndex(e.line);
      PolicyTransfer(su, v[s], e.line);
      LruUpdateAged(WaysOf(su.policy), v[s], e.line);
    }
  }

  lemma AfterEventMonotone(su: Setup, v: Value, w: Value, e: Event)
    requires Solvable(su) && ValueShape(su, v) && ValueShape(su, w) && BelowValue(v, w)
    ensures BelowValue(AfterEvent(su, v, e), AfterEvent(su, w, e))
  {
    if e.Access? {
      SetIndexInRange(su.geo, e.line);
      var s := su.geo.SetIndex(e.line);
      PolicyTransfer(su, v[s], e.line);
      PolicyTransfer(su, w[s], e.line);
      LruUpdateMonotone(WaysOf(su.policy), v[s], w[s], e.line);
    }
  }

  lemma {:induction false} TransferShape(su: Setup, v: Value, evs: seq<Event>)
    requires Solvable(su) && ValueShape(su, v)
    ensures ValueShape(su, Transfer(su, v, evs))
    decreases |evs|
  {
    if evs != [] {
      AfterEventShape(su, v, evs[0]);
      TransferShape(su, AfterEvent(su, v, evs[0]), evs[1..]);
    }
  }

  lemma {:induction false} TransferMonotone(su: Setup, v: Value, w: Value, evs: seq<Event>)
    requires Solvable(su) && ValueShape(su, v) && ValueShape(su, w) && BelowValue(v, w)
    ensures BelowValue(Transfer(su, v, evs), Transfer(su, w, evs))
    decreases |evs|
  {
    if evs != [] {
      AfterEventShape(su, v, evs[0]);
      AfterEventShape(su, w, evs[0]);
      AfterEventMonotone(su, v, w, evs[0]);
      TransferMonotone(su, AfterEvent(su, v, evs[0]), AfterEvent(su, w, evs[0]), evs[1..]);
    }
  }

  lemma JoinValuesShape(su: Setup, v: Value, w: Value)
    requires Solvable(su) && ValueShape(su, v) && ValueShape(su, w)
    ensures ValueShape(su, JoinValues(su.kind, v, w))
  {
    forall i | 0 <= i < |v|
      ensures Aged(WaysOf(su.policy), Join(su.kind, v[i], w[i]))
      ensures su.kind == Must ==> Packed(Join(su.kind, v[i], w[i]))
    {
      JoinAged(WaysOf(su.policy), su.kind, v[i], w[i]);
      if su.kind == Must { MustJoinPacked(v[i], w[i]); }
    }
  }

  lemma JoinValuesMonotone(kind: Kind, v: Value, v': Value, w: Value, w': Value)
    requires BelowValue(v, v') && BelowValue(w, w') && |v| == |w|
    ensures BelowValue(JoinValues(kind, v, w), JoinValues(kind, v', w'))
  {
    forall i | 0 <= i < |v| ensures Below(Join(kind, v[i], w[i]), Join(kind, v'[i], w'[i])) {
      JoinMonotone(kind, v[i], v'[i], w[i], w'[i]);
    }
  }

  lemma {:induction false} JoinAllShape(su: Setup, st: States, preds: seq<nat>)
    requires Solvable(su) && ShapedStates(su, st)
    requires preds != [] && forall i :: 0 <= i < |preds| ==> preds[i] < |st|
    ensures ValueShape(su, JoinAll(su, st, preds))
    decreases |preds|
  {
    if |preds| > 1 {
      JoinAllShape(su, st, preds[..|preds| - 1]);
      JoinValuesShape(su, JoinAll(su, st, preds[..|preds| - 1]), st[preds[|preds| - 1]]);
    }
  }

  lemma {:induction false} JoinAllMonotone(su: Setup, a: States, b: States, preds: seq<nat>)
    requires ShapedStates(su, a) && ShapedStates(su, b) && BelowStates(a, b)
    requires preds != [] && forall i :: 0 <= i < |preds| ==> preds[i] < |a|
    ensures BelowValue(JoinAll(su, a, preds), JoinAll(su, b, preds))
    decreases |preds|
  {
    var p := preds[|preds| - 1];
    if |preds| > 1 {
      var front := preds[..|preds| - 1];
      JoinAllMonotone(su, a, b, front);
      JoinValuesMonotone(su.kind, JoinAll(su, a, front), JoinAll(su, b, front), a[p], b[p]);
    }
  }

  // ---------------------------------------------------------------- what a block starts from

  lemma {:induction false} MustJoinAllIs(su: Setup, st: States, preds: seq<nat>, s: nat, line: Line)
    requires su.kind == Must && preds != [] && s < su.geo.numSets && forall i :: 0 <= i < |preds| ==> preds[i] < |st|
    requires forall n :: 0 <= n < |st| ==> |st[n]| == su.geo.numSets
    ensures line in JoinAll(su, st, preds)[s] <==> forall p :: p in preds ==> line in st[p][s]
    ensures line in JoinAll(su, st, preds)[s] ==>
              (forall p :: p in preds ==> st[p][s][line] <= JoinAll(su, st, preds)[s][line])
              && exists p :: p in preds && st[p][s][line] == JoinAll(su, st, preds)[s][line]
    decreases |preds|
  {
    var front, last := preds[..|preds| - 1], preds[|preds| - 1];
    assert preds == front + [last];
    if |preds| > 1 { MustJoinAllIs(su, st, front, s, line); }
  }

  lemma {:induction false} MayJoinAllIs(su: Setup, st: States, preds: seq<nat>, s: nat, line: Line)
    requires su.kind == May && preds != [] && s < su.geo.numSets && forall i :: 0 <= i < |preds| ==> preds[i] < |st|
    requires forall n :: 0 <= n < |st| ==> |st[n]| == su.geo.numSets
    ensures line in JoinAll(su, st, preds)[s] <==> exists p :: p in preds && line in st[p][s]
    ensures line in JoinAll(su, st, preds)[s] ==>
              (forall p :: p in preds && line in st[p][s] ==> JoinAll(su, st, preds)[s][line] <= st[p][s][line])
              && exists p :: p in preds && line in st[p][s] && st[p][s][line] == JoinAll(su, st, preds)[s][line]
    decreases |preds|
  {
    var front, last := preds[..|preds| - 1], preds[|preds| - 1];
    assert preds == front + [last];
    if |preds| > 1 { MayJoinAllIs(su, st, front, s, line); }
  }

  lemma PredsAre(f: Function, n: nat)
    ensures forall p: nat :: p in Preds(f, n) <==> Branches(f, p, n)
  {
    forall p: nat ensures p in Preds(f, n) <==> Branches(f, p, n) { PredsBelowExact(f, n, |f|, p); }
  }

  /** A block starts with exactly the lines guaranteed by all blocks that branch to it, at the largest
      of their ages, and with none if no block does. */
  lemma MustStartsFrom(su: Setup, f: Function, st: States, n: nat, s: nat, line: Line)
    requires su.kind == Must && Fits(su, st, f) && n < |f| && s < su.geo.numSets
    ensures line in In(su, f, st, n)[s] <==>
              (exists p: nat :: Branches(f, p, n)) && forall p: nat :: Branches(f, p, n) ==> line in st[p][s]
    ensures line in In(su, f, st, n)[s] ==>
              (forall p: nat :: Branches(f, p, n) ==> st[p][s][line] <= In(su, f, st, n)[s][line])
              && exists p: nat :: Branches(f, p, n) && st[p][s][line] == In(su, f, st, n)[s][line]
  {
    PredsInRange(f, n);
    PredsAre(f, n);
    if Preds(f, n) != [] {
      assert Preds(f, n)[0] in Preds(f, n);
      MustJoinAllIs(su, st, Preds(f, n), s, line);
    }
  }

  /** A block starts with exactly the lines possible after some block that branches to it, at the smallest
      of their ages. */
  lemma MayStartsFrom(su: Setup, f: Function, st: States, n: nat, s: nat, line: Line)
    requires su.kind == May && Fits(su, st, f) && n < |f| && s < su.geo.numSets
    ensures line in In(su, f, st, n)[s] <==> exists p: nat :: Branches(f, p, n) && line in st[p][s]
    ensures line in In(su, f, st, n)[s] ==>
              (forall p: nat :: Branches(f, p, n) && line in st[p][s] ==> In(su, f, st, n)[s][line] <= st[p][s][line])
              && exists p: nat :: Branches(f, p, n) && line in st[p][s] && st[p][s][line] == In(su, f, st, n)[s][line]
  {
    PredsInRange(f, n);
    PredsAre(f, n);
    if Preds(f, n) != [] { MayJoinAllIs(su, st, Preds(f, n), s, line); }
  }

  lemma EmptyShape(su: Setup)
    requires Solvable(su)
    ensures ValueShape(su, Empty(su.geo.numSets))
  {
    EmptyShaped(su);
  }

  lemma OutShape(su: Setup, f: Function, st: States, n: nat)
    requires Solvable(su) && Fits(su, st, f) && ShapedStates(su, st) && n < |f|
    ensures ValueShape(su, In(su, f, st, n)) && ValueShape(su, Out(su, f, st, n))
  {
    PredsInRange(f, n);
    EmptyShape(su);
    if Preds(f, n) != [] { JoinAllShape(su, st, Preds(f, n)); }
    TransferShape(su, In(su, f, st, n), EventsOf(f, n));
  }

  /** The right-hand sides of the equations are monotone. */
  lemma OutMonotone(su: Setup, f: Function, a: States, b: States, n: nat)
    requires Solvable(su) && Fits(su, a, f) && Fits(su, b, f) && n < |f|
    requires ShapedStates(su, a) && ShapedStates(su, b) && BelowStates(a, b)
    ensures BelowValue(Out(su, f, a, n), Out(su, f, b, n))
  {
    PredsInRange(f, n);
    OutShape(su, f, a, n);
    OutShape(su, f, b, n);
    if Preds(f, n) != [] { JoinAllMonotone(su, a, b, Preds(f, n)); }
    TransferMonotone(su, In(su, f, a, n), In(su, f, b, n), EventsOf(f, n));
  }

  // ---------------------------------------------------------------- paths

  /** A walk through the function from its entry. */
  ghost predicate IsPath(f: Function, path: seq<nat>) {
    && |path| > 0 && |f| > 0 && path[0] == 0
    && (forall i :: 0 <= i < |path| ==> path[i] < |f|)
    && (forall i :: 0 <= i < |path| - 1 ==> Branches(f, path[i], path[i + 1]))
  }

  ghost predicate Reachable(f: Function, n: nat) {
    exists path :: IsPath(f, path) && path[|path| - 1] == n
  }

  /** `b` starts with the cache `a` ends with. */
  ghost predicate Continues(a: seq<Cache>, b: seq<Cache>) { a != [] && b != [] && b[0] == a[|a| - 1] }

  /** An execution along `path`: one visit per block, each starting where the last ended. */
  ghost predicate IsExecution(hw: Hardware, su: Setup, f: Function, path: seq<nat>, trs: seq<seq<Cache>>) {
    && IsPath(f, path) && |trs| == |path|
    && (forall i :: 0 <= i < |path| ==> IsVisit(hw, su.geo, f[path[i]].instrs, trs[i]))
    && (forall i :: 0 <= i < |path| - 1 ==> Continues(trs[i], trs[i + 1]))
  }

  /** The same with the events of each block as one sequence. */
  ghost predicate FlatExecution(hw: Hardware, su: Setup, f: Function, path: seq<nat>, trs: seq<seq<Cache>>) {
    && IsPath(f, path) && |trs| == |path|
    && (forall i :: 0 <= i < |path| ==> IsTrace(hw, su.geo, EventsOf(f, path[i]), trs[i]))
    && (forall i :: 0 <= i < |path| - 1 ==> trs[i + 1][0] == trs[i][|EventsOf(f, path[i])|])
  }

  lemma ExecutionsAreFlat(hw: Hardware, su: Setup, f: Function, path: seq<nat>, trs: seq<seq<Cache>>)
    ensures IsExecution(hw, su, f, path, trs) <==> FlatExecution(hw, su, f, path, trs)
    ensures IsExecution(hw, su, f, path, trs) ==> forall i :: 0 <= i < |path| ==>
              |trs[i]| == |EventsOf(f, path[i])| + 1
              && VisitTime(su, hw, f[path[i]].instrs, trs[i]) == TraceTime(su, hw, EventsOf(f, path[i]), trs[i])
  {
    hide IsTrace, IsVisit, TraceTime, VisitTime, Flatten;
    if IsPath(f, path) && |trs| == |path| {
      forall i | 0 <= i < |path|
        ensures IsVisit(hw, su.geo, f[path[i]].instrs, trs[i]) <==> IsTrace(hw, su.geo, EventsOf(f, path[i]), trs[i])
        ensures IsTrace(hw, su.geo, EventsOf(f, path[i]), trs[i]) ==> |trs[i]| == |EventsOf(f, path[i])| + 1
        ensures IsVisit(hw, su.geo, f[path[i]].instrs, trs[i]) ==>
                  VisitTime(su, hw, f[path[i]].instrs, trs[i]) == TraceTime(su, hw, EventsOf(f, path[i]), trs[i])
      {
        VisitIsTrace(hw, su.geo, f[path[i]].instrs, trs[i]);
        if IsVisit(hw, su.geo, f[path[i]].instrs, trs[i]) {
          VisitTakes(su, hw, f[path[i]].instrs, trs[i]);
          TraceLength(hw, su.geo, EventsOf(f, path[i]), trs[i]);
        }
      }
    }
  }

  /** Each value claims no more than its equation allows. Holds at every step of the solver. */
  ghost predicate PreFixpoint(su: Setup, f: Function, st: States)
    requires su.Valid()
  {
    Fits(su, st, f) && forall n :: 0 <= n < |f| ==> BelowValue(st[n], Out(su, f, st, n))
  }

  lemma NoPredsOfEntry(f: Function, n: nat)
    requires forall u :: !Edge(f, u, n)
    ensures Preds(f, n) == []
  {
    if Preds(f, n) != [] {
      PredsBelowExact(f, n, |f|, Preds(f, n)[0]);
    }
  }

  lemma {:induction false} MustJoinAll(su: Setup, hw: Hardware, st: States, preds: seq<nat>, k: nat, c: Cache)
    requires su.kind == Must && k < |preds| && forall i :: 0 <= i < |preds| ==> preds[i] < |st|
    requires forall n :: 0 <= n < |st| ==> |st[n]| == su.geo.numSets
    requires MustDescribes(hw, st[preds[k]], c)
    ensures MustDescribes(hw, JoinAll(su, st, preds), c)
    decreases |preds|
  {
    if |preds| > 1 {
      var front, last := preds[..|preds| - 1], st[preds[|preds| - 1]];
      if k < |preds| - 1 { MustJoinAll(su, hw, st, front, k, c); }
      assert |st[preds[k]]| == |c| == su.geo.numSets && |JoinAll(su, st, front)| == |last| == |c|;
      forall i | 0 <= i < |last| ensures MustHolds(hw, Join(Must, JoinAll(su, st, front)[i], last[i]), c[i]) {
        MustJoin(hw, JoinAll(su, st, front)[i], last[i], c[i]);
      }
    }
  }

  lemma MustWeaken(hw: Hardware, v: Value, w: Value, c: Cache)
    requires BelowValue(v, w) && MustDescribes(hw, w, c)
    ensures MustDescribes(hw, v, c)
  {
    forall i | 0 <= i < |v| ensures MustHolds(hw, v[i], c[i]) {
      assert Below(v[i], w[i]) && MustHolds(hw, w[i], c[i]);
    }
  }

  /** The entry starts from the cold value: guaranteed when it has no predecessors. */
  ghost predicate EntryIsCold(su: Setup, f: Function, st: States)
    requires Fits(su, st, f)
  {
    |f| > 0 ==> In(su, f, st, 0) == Empty(su.geo.numSets)
  }

  lemma EntryWithoutPredsIsCold(su: Setup, f: Function, st: States)
    requires Fits(su, st, f) && forall u :: !Edge(f, u, 0)
    ensures EntryIsCold(su, f, st)
  {
    NoPredsOfEntry(f, 0);
  }

  lemma MustArrives(su: Setup, hw: Hardware, f: Function, st: States, u: nat, n: nat, c: Cache)
    requires su.kind == Must && Fits(su, st, f) && n < |f| && Edge(f, u, n) && MustDescribes(hw, st[u], c)
    ensures MustDescribes(hw, In(su, f, st, n), c)
  {
    PredsBelowExact(f, n, |f|, u);
    PredsInRange(f, n);
    var k :| 0 <= k < |Preds(f, n)| && Preds(f, n)[k] == u;
    MustJoinAll(su, hw, st, Preds(f, n), k, c);
  }

  lemma MustVisit(su: Setup, hw: Hardware, f: Function, st: States, n: nat, tr: seq<Cache>)
    requires Solvable(su) && su.kind == Must && Trusted(su.policy, hw)
    requires PreFixpoint(su, f, st) && ShapedStates(su, st) && n < |f|
    requires IsTrace(hw, su.geo, EventsOf(f, n), tr) && MustDescribes(hw, In(su, f, st, n), tr[0])
    ensures MustDescribes(hw, st[n], tr[|EventsOf(f, n)|])
    ensures TraceTime(su, hw, EventsOf(f, n), tr) <= BlockCharge(su, f, st, n)
  {
    assert BelowValue(st[n], Out(su, f, st, n));
    OutShape(su, f, st, n);
    MustTrace(su, hw, In(su, f, st, n), EventsOf(f, n), tr);
    MustWeaken(hw, st[n], Out(su, f, st, n), tr[|EventsOf(f, n)|]);
  }

  lemma ColdDescribes(su: Setup, hw: Hardware, f: Function, st: States, c: Cache)
    requires Fits(su, st, f) && EntryIsCold(su, f, st) && |f| > 0 && |c| == su.geo.numSets
    ensures MustDescribes(hw, In(su, f, st, 0), c)
  {}

  lemma {:induction false} FlatMust(
      su: Setup, hw: Hardware, f: Function, st: States, path: seq<nat>, trs: seq<seq<Cache>>, i: nat)
    requires Solvable(su) && su.kind == Must && Trusted(su.policy, hw)
    requires PreFixpoint(su, f, st) && ShapedStates(su, st) && EntryIsCold(su, f, st)
    requires FlatExecution(hw, su, f, path, trs) && i < |path|
    ensures MustDescribes(hw, In(su, f, st, path[i]), trs[i][0])
    ensures MustDescribes(hw, st[path[i]], trs[i][|EventsOf(f, path[i])|])
    ensures TraceTime(su, hw, EventsOf(f, path[i]), trs[i]) <= BlockCharge(su, f, st, path[i])
  {
    hide In, ShapedStates, EventsOf, EntryIsCold, Solvable, MustDescribes, BlockCharge, TraceTime;
    var n := path[i];
    var evs := EventsOf(f, n);
    assert IsTrace(hw, su.geo, evs, trs[i]);
    if i == 0 {
      ColdDescribes(su, hw, f, st, trs[i][0]);
    } else {
      FlatMust(su, hw, f, st, path, trs, i - 1);
      assert Branches(f, path[i - 1], path[i - 1 + 1]);
      assert trs[i - 1 + 1][0] == trs[i - 1][|EventsOf(f, path[i - 1])|];
      MustArrives(su, hw, f, st, path[i - 1], n, trs[i][0]);
    }
    MustVisit(su, hw, f, st, n, trs[i]);
  }

  /** Must soundness. At any pre-fixpoint, hence at every moment of the solver, along every path,
      from any starting cache and on any hardware the policy is trusted for: the in-value of each
      visited block describes the real cache, and the visit takes at most the cycles charged. */
  lemma MustAlongPath(su: Setup, hw: Hardware, f: Function, st: States, path: seq<nat>, trs: seq<seq<Cache>>, i: nat)
    requires Solvable(su) && su.kind == Must && Trusted(su.policy, hw)
    requires PreFixpoint(su, f, st) && ShapedStates(su, st) && EntryIsCold(su, f, st)
    requires IsExecution(hw, su, f, path, trs) && i < |path|
    ensures trs[i] != [] && MustDescribes(hw, In(su, f, st, path[i]), trs[i][0])
    ensures MustDescribes(hw, st[path[i]], trs[i][|trs[i]| - 1])
    ensures VisitTime(su, hw, f[path[i]].instrs, trs[i]) <= BlockCharge(su, f, st, path[i])
  {
    ExecutionsAreFlat(hw, su, f, path, trs);
    FlatMust(su, hw, f, st, path, trs, i);
  }

  // ---------------------------------------------------------------- may

  lemma {:induction false} MayJoinAll(su: Setup, st: States, preds: seq<nat>, k: nat, c: Cache)
    requires su.kind == May && k < |preds| && forall i :: 0 <= i < |preds| ==> preds[i] < |st|
    requires forall n :: 0 <= n < |st| ==> |st[n]| == su.geo.numSets
    requires MayDescribes(st[preds[k]], c)
    ensures MayDescribes(JoinAll(su, st, preds), c)
    decreases |preds|
  {
    if |preds| > 1 {
      var front, last := preds[..|preds| - 1], st[preds[|preds| - 1]];
      if k < |preds| - 1 { MayJoinAll(su, st, front, k, c); }
      assert |st[preds[k]]| == |c| == su.geo.numSets && |JoinAll(su, st, front)| == |last| == |c|;
      forall i | 0 <= i < |last| ensures MayHolds(Join(May, JoinAll(su, st, front)[i], last[i]), c[i]) {
        MayJoin(JoinAll(su, st, front)[i], last[i], c[i]);
      }
    }
  }

  lemma MayArrives(su: Setup, f: Function, st: States, u: nat, n: nat, c: Cache)
    requires su.kind == May && Fits(su, st, f) && n < |f| && Edge(f, u, n) && MayDescribes(st[u], c)
    ensures MayDescribes(In(su, f, st, n), c)
  {
    PredsBelowExact(f, n, |f|, u);
    PredsInRange(f, n);
    var k :| 0 <= k < |Preds(f, n)| && Preds(f, n)[k] == u;
    MayJoinAll(su, st, Preds(f, n), k, c);
  }

  ghost predicate Cold(c: Cache) { forall i :: 0 <= i < |c| ==> c[i] == [] }

  lemma {:induction false} FlatMay(su: Setup, f: Function, st: States, path: seq<nat>, trs: seq<seq<Cache>>, i: nat)
    requires Solvable(su) && su.kind == May && Fits(su, st, f)
    requires forall n :: 0 <= n < |f| && Reachable(f, n) ==> st[n] == Out(su, f, st, n)
    requires forall n :: 0 <= n < |f| ==> NoBarriers(EventsOf(f, n))
    requires FlatExecution(Lru(su.policy.ways), su, f, path, trs) && i < |path| && Cold(trs[0][0])
    ensures MayDescribes(In(su, f, st, path[i]), trs[i][0])
    ensures MayDescribes(st[path[i]], trs[i][|EventsOf(f, path[i])|])
  {
    var n := path[i];
    var evs := EventsOf(f, n);
    assert IsTrace(Lru(su.policy.ways), su.geo, evs, trs[i]);
    if i > 0 {
      FlatMay(su, f, st, path, trs, i - 1);
      assert Branches(f, path[i - 1], path[i - 1 + 1]);
      assert trs[i - 1 + 1][0] == trs[i - 1][|EventsOf(f, path[i - 1])|];
      MayArrives(su, f, st, path[i - 1], n, trs[i][0]);
    }
    assert evs[..|evs|] == evs;
    MayTrace(su, In(su, f, st, n), evs, trs[i], |evs|);
    PathReaches(f, path, i);
  }

  /** May soundness. Once the equations hold at every reachable block, along every barrier-free path
      from a cold LRU cache, the in-value of each visited block lists every resident line. */
  lemma MayAlongPath(su: Setup, f: Function, st: States, path: seq<nat>, trs: seq<seq<Cache>>, i: nat)
    requires Solvable(su) && su.kind == May && Fits(su, st, f)
    requires forall n :: 0 <= n < |f| && Reachable(f, n) ==> st[n] == Out(su, f, st, n)
    requires OnlyAccesses(f)
    requires IsExecution(Lru(su.policy.ways), su, f, path, trs) && i < |path| && |trs[0]| > 0 && Cold(trs[0][0])
    ensures trs[i] != [] && MayDescribes(In(su, f, st, path[i]), trs[i][0])
    ensures MayDescribes(st[path[i]], trs[i][|trs[i]| - 1])
  {
    ExecutionsAreFlat(Lru(su.policy.ways), su, f, path, trs);
    forall n | 0 <= n < |f| ensures NoBarriers(EventsOf(f, n)) { NoBarriersIn(f, n); }
    FlatMay(su, f, st, path, trs, i);
  }

  /** No instruction wipes the cache. */
  ghost predicate OnlyAccesses(f: Function) {
    forall n, i, k :: 0 <= n < |f| && 0 <= i < |f[n].instrs| && 0 <= k < |f[n].instrs[i]| ==> f[n].instrs[i][k].Access?
  }

  lemma NoBarriersIn(f: Function, n: nat)
    requires OnlyAccesses(f) && n < |f|
    ensures NoBarriers(EventsOf(f, n))
  {
    var evs := EventsOf(f, n);
    forall e | e in evs ensures e.Access? {
      var j :| 0 <= j < |evs| && evs[j] == e;
      var i, k := PositionEvent(f[n].instrs, j);
      EventPosition(f[n].instrs, i, k);
    }
  }

  lemma PathReaches(f: Function, path: seq<nat>, i: nat)
    requires IsPath(f, path) && i < |path|
    ensures Reachable(f, path[i])
  {
    var p := path[..i + 1];
    assert IsPath(f, p) && p[|p| - 1] == path[i];
  }
}
