/** How often an instruction runs, given the address intervals of the backward jumps around it. */
module LoopIntervals {
  /** The addresses from the target of a backward jump to the jump itself. */
  datatype Interval = Interval(lo: nat, hi: nat) {
    predicate Has(a: nat) { lo <= a <= hi }

    predicate Encloses(i: Interval) { lo <= i.lo && i.hi <= hi && this != i }
  }

  const LOOP_BOUND: nat := 64

  /** Any two intervals are nested or apart. */
  ghost predicate Laminar(loops: set<Interval>) {
    forall i, j :: i in loops && j in loops ==> i == j || i.Encloses(j) || j.Encloses(i) || i.hi < j.lo || j.hi < i.lo
  }

  /** The addresses executed: each step moves forward or takes one of the backward jumps. */
  ghost predicate IsPath(loops: set<Interval>, p: seq<nat>) {
    p != [] && forall k :: 0 <= k < |p| - 1 ==> IsMove(loops, p[k], p[k + 1])
  }

  ghost predicate IsMove(loops: set<Interval>, a: nat, b: nat) { a < b || (b <= a && Interval(b, a) in loops) }

  function Visits(p: seq<nat>, a: nat): nat {
    if p == [] then 0 else Visits(p[..|p| - 1], a) + (if p[|p| - 1] == a then 1 else 0)
  }

  /** How often the backward jump of the interval is taken. */
  function Takings(p: seq<nat>, i: Interval): nat {
    if |p| < 2 then 0
    else Takings(p[..|p| - 1], i) + (if p[|p| - 2] == i.hi && p[|p| - 1] == i.lo then 1 else 0)
  }

  /** How often the interval is entered from outside. */
  function Arrivals(p: seq<nat>, i: Interval): nat {
    if p == [] then 0
    else Arrivals(p[..|p| - 1], i) + (if i.Has(p[|p| - 1]) && (|p| == 1 || !i.Has(p[|p| - 2])) then 1 else 0)
  }

  /** Per arrival, every loop goes round at most 64 times: its backward jump is taken 63 times. */
  ghost predicate Bounded(loops: set<Interval>, p: seq<nat>) {
    forall i :: i in loops ==> Takings(p, i) <= 63 * Arrivals(p, i)
  }

  // ---------------------------------------------------------------- sums over intervals

  ghost function TakingsOf(p: seq<nat>, s: set<Interval>): nat {
    if s == {} then 0
    else
      var i :| i in s;
      Takings(p, i) + TakingsOf(p, s - {i})
  }

  lemma {:induction false} TakingsOfRemove(p: seq<nat>, s: set<Interval>, i: Interval)
    requires i in s
    ensures TakingsOf(p, s) == Takings(p, i) + TakingsOf(p, s - {i})
    decreases |s|
  {
    var j :| j in s && TakingsOf(p, s) == Takings(p, j) + TakingsOf(p, s - {j});
    if j != i {
      TakingsOfRemove(p, s - {j}, i);
      TakingsOfRemove(p, s - {i}, j);
      assert s - {j} - {i} == s - {i} - {j};
    }
  }

  /** A step adds one to the sum if it takes one of the jumps, and nothing otherwise. */
  lemma {:induction false} TakingsOfStep(p: seq<nat>, s: set<Interval>)
    requires |p| >= 2
    ensures var k := Interval(p[|p| - 1], p[|p| - 2]);
            TakingsOf(p, s) == TakingsOf(p[..|p| - 1], s) + (if k in s then 1 else 0)
    decreases |s|
  {
    if s != {} {
      var i :| i in s;
      TakingsOfRemove(p, s, i);
      TakingsOfRemove(p[..|p| - 1], s, i);
      TakingsOfStep(p, s - {i});
    }
  }

  lemma {:induction false} TakingsOfStart(p: seq<nat>, s: set<Interval>)
    requires |p| == 1
    ensures TakingsOf(p, s) == 0
    decreases |s|
  {
    if s != {} {
      var i :| i in s;
      TakingsOfRemove(p, s, i);
      TakingsOfStart(p, s - {i});
    }
  }

  // ---------------------------------------------------------------- one instruction, one interval

  ghost function Around(loops: set<Interval>, a: nat): set<Interval> { set i | i in loops && i.Has(a) }

  ghost function Enclosing(loops: set<Interval>, i: Interval): set<Interval> { set j | j in loops && j.Encloses(i) }

  /** Between two visits of an instruction a backward jump across it is taken. */
  lemma {:induction false} VisitsBelowTakings(loops: set<Interval>, p: seq<nat>, a: nat)
    requires IsPath(loops, p)
    ensures Visits(p, a) <= TakingsOf(p, Around(loops, a)) + (if p[|p| - 1] >= a then 1 else 0)
  {
    if |p| == 1 {
      TakingsOfStart(p, Around(loops, a));
    } else {
      var front := p[..|p| - 1];
      VisitsBelowTakings(loops, front, a);
      TakingsOfStep(p, Around(loops, a));
      assert IsMove(loops, p[|p| - 2], p[|p| - 1]);
      assert front[|front| - 1] == p[|p| - 2];
    }
  }

  /** Between two arrivals at a loop the backward jump of an enclosing loop is taken. */
  lemma {:induction false} ArrivalsBelowTakings(loops: set<Interval>, p: seq<nat>, i: Interval)
    requires Laminar(loops) && i in loops && i.lo <= i.hi && IsPath(loops, p)
    ensures Arrivals(p, i) <= TakingsOf(p, Enclosing(loops, i)) + (if p[|p| - 1] >= i.lo then 1 else 0)
  {
    if |p| == 1 {
      assert p[..0] == [];
      TakingsOfStart(p, Enclosing(loops, i));
    } else {
      var front := p[..|p| - 1];
      ArrivalsBelowTakings(loops, front, i);
      TakingsOfStep(p, Enclosing(loops, i));
      assert front[|front| - 1] == p[|p| - 2];
      ArrivalStep(loops, p[|p| - 2], p[|p| - 1], i);
    }
  }

  /** A step into the loop from outside comes from below, or takes an enclosing loop's jump; only
      an enclosing loop's jump leads from the loop or beyond to below it. */
  lemma ArrivalStep(loops: set<Interval>, a: nat, b: nat, i: Interval)
    requires Laminar(loops) && i in loops && i.lo <= i.hi && IsMove(loops, a, b)
    ensures i.Has(b) && !i.Has(a) ==> a < i.lo || Interval(b, a) in Enclosing(loops, i)
    ensures a >= i.lo && b < i.lo ==> Interval(b, a) in Enclosing(loops, i)
    ensures i.Has(b) && !i.Has(a) && a < i.lo ==> Interval(b, a) !in Enclosing(loops, i)
  {
    if b <= a {
      var k := Interval(b, a);
      assert k in loops;
    }
  }

  // ---------------------------------------------------------------- nested loops multiply

  function Power(d: nat): nat { if d == 0 then 1 else LOOP_BOUND * Power(d - 1) }

  /** A chain of nested loops that contains every loop enclosing one of its members. */
  ghost predicate IsChain(loops: set<Interval>, s: set<Interval>) {
    && s <= loops
    && (forall i, j :: i in s && j in s ==> i == j || i.Encloses(j) || j.Encloses(i))
    && (forall i, j :: i in s && j in loops && j.Encloses(i) ==> j in s)
  }

  lemma {:induction false} Innermost(s: set<Interval>) returns (m: Interval)
    requires s != {} && forall i, j :: i in s && j in s ==> i == j || i.Encloses(j) || j.Encloses(i)
    ensures m in s && forall i :: i in s && i != m ==> i.Encloses(m)
    decreases |s|
  {
    m :| m in s;
    if s != {m} {
      var n := Innermost(s - {m});
      assert forall i :: i in s ==> i == m || i in s - {m};
      if m.Encloses(n) { m := n; }
    }
  }

  /** One more inner loop multiplies by at most the loop bound. */
  lemma OneMoreLoop(rest: nat, taken: nat, arrivals: nat, power: nat)
    requires taken <= (LOOP_BOUND - 1) * arrivals && arrivals <= rest + 1 && rest + 1 <= power
    ensures taken + rest + 1 <= LOOP_BOUND * power
  {}

  /** All the takings in a chain of `d` nested loops, plus one, are at most the bound to the `d`. */
  lemma {:induction false} ChainBound(loops: set<Interval>, p: seq<nat>, s: set<Interval>)
    requires Laminar(loops) && IsPath(loops, p) && Bounded(loops, p) && IsChain(loops, s)
    requires forall i :: i in loops ==> i.lo <= i.hi
    ensures TakingsOf(p, s) + 1 <= Power(|s|)
    decreases |s|
  {
    if s != {} {
      var m := Innermost(s);
      var rest := s - {m};
      assert forall i, j :: i in rest && j in loops && j.Encloses(i) ==> j in s && j != m;
      ChainBound(loops, p, rest);
      TakingsOfRemove(p, s, m);
      ArrivalsBelowTakings(loops, p, m);
      assert Enclosing(loops, m) == rest;
      OneMoreLoop(TakingsOf(p, rest), Takings(p, m), Arrivals(p, m), Power(|rest|));
      assert |s| == |rest| + 1;
    }
  }

  /** An instruction inside `d` nested loops runs at most `LOOP_BOUND` to the `d` times. */
  lemma VisitsBound(loops: set<Interval>, p: seq<nat>, a: nat)
    requires Laminar(loops) && IsPath(loops, p) && Bounded(loops, p)
    requires forall i :: i in loops ==> i.lo <= i.hi
    ensures Visits(p, a) <= Power(|Around(loops, a)|)
  {
    VisitsBelowTakings(loops, p, a);
    assert IsChain(loops, Around(loops, a));
    ChainBound(loops, p, Around(loops, a));
  }
}
