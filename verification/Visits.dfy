/** Visits of a block, instruction by instruction, and the block's events as one sequence. */
module Visits {
  import opened ReplacementPolicy
  import opened CacheGeometry
  import opened CacheStates
  import opened CacheAnalysis
  import opened Hardware
  import opened Traces

  // ---------------------------------------------------------------- one sequence of events

  function Flatten(instrs: seq<seq<Event>>): seq<Event> {
    if instrs == [] then [] else Flatten(instrs[..|instrs| - 1]) + instrs[|instrs| - 1]
  }

  /** How many events the first `i` instructions have. */
  function Before(instrs: seq<seq<Event>>, i: nat): nat
    requires i <= |instrs|
  {
    if i == 0 then 0 else Before(instrs, i - 1) + |instrs[i - 1]|
  }

  lemma {:induction false} BeforePrefix(instrs: seq<seq<Event>>, i: nat, j: nat)
    requires j <= i <= |instrs|
    ensures Before(instrs[..i], j) == Before(instrs, j)
  {
    if j > 0 { BeforePrefix(instrs, i, j - 1); }
  }

  lemma {:induction false} BeforeAscends(instrs: seq<seq<Event>>, i: nat, j: nat)
    requires i <= j <= |instrs|
    ensures Before(instrs, i) <= Before(instrs, j)
  {
    if i < j { BeforeAscends(instrs, i, j - 1); }
  }

  lemma {:induction false} FlattenLength(instrs: seq<seq<Event>>)
    ensures |Flatten(instrs)| == Before(instrs, |instrs|)
  {
    if instrs != [] {
      var front := instrs[..|instrs| - 1];
      FlattenLength(front);
      BeforePrefix(instrs, |front|, |front|);
    }
  }

  /** No event is left out or moved: event `k` of instruction `i` stands behind those of the earlier
      instructions and the `k` before it. */
  lemma {:induction false} EventPosition(instrs: seq<seq<Event>>, i: nat, k: nat)
    requires i < |instrs| && k < |instrs[i]|
    ensures |Flatten(instrs)| == Before(instrs, |instrs|) && Before(instrs, i) + k < |Flatten(instrs)|
    ensures Flatten(instrs)[Before(instrs, i) + k] == instrs[i][k]
  {
    FlattenLength(instrs);
    BeforeAscends(instrs, i + 1, |instrs|);
    var front := instrs[..|instrs| - 1];
    FlattenLength(front);
    BeforePrefix(instrs, |front|, |front|);
    if i < |front| {
      EventPosition(front, i, k);
      BeforePrefix(instrs, |front|, i);
    }
  }

  /** And every place holds such an event. */
  lemma {:induction false} PositionEvent(instrs: seq<seq<Event>>, j: nat) returns (i: nat, k: nat)
    requires j < |Flatten(instrs)|
    ensures i < |instrs| && k < |instrs[i]| && j == Before(instrs, i) + k
  {
    var front := instrs[..|instrs| - 1];
    FlattenLength(front);
    BeforePrefix(instrs, |front|, |front|);
    if j < |Flatten(front)| {
      i, k := PositionEvent(front, j);
      BeforePrefix(instrs, |front|, i);
    } else {
      i, k := |front|, j - |Flatten(front)|;
    }
  }

  lemma {:induction false} FirstFirst(instrs: seq<seq<Event>>)
    requires instrs != []
    ensures Flatten(instrs) == instrs[0] + Flatten(instrs[1..])
  {
    var front := instrs[..|instrs| - 1];
    if front == [] {
      assert instrs[1..] == [] && Flatten(front) == [];
    } else {
      assert front[1..] == instrs[1..][..|instrs| - 2] && front[0] == instrs[0];
      FirstFirst(front);
    }
  }

  // ---------------------------------------------------------------- replaying

  /** The value before event `k` of instruction `i`, replayed instruction by instruction from `v`. */
  ghost function ReplayedTo(su: Setup, v: Value, instrs: seq<seq<Event>>, i: nat, k: nat): (r: Value)
    requires su.Valid() && |v| == su.geo.numSets && i < |instrs| && k <= |instrs[i]|
    ensures |r| == su.geo.numSets
    decreases i
  {
    if i == 0 then Transfer(su, v, instrs[0][..k]) else ReplayedTo(su, Transfer(su, v, instrs[0]), instrs[1..], i - 1, k)
  }

  lemma {:induction false} BeforeRest(instrs: seq<seq<Event>>, i: nat)
    requires 0 < i <= |instrs|
    ensures Before(instrs, i) == |instrs[0]| + Before(instrs[1..], i - 1)
  {
    if i > 1 { BeforeRest(instrs, i - 1); }
  }

  lemma {:induction false} ReplayedIs(su: Setup, v: Value, instrs: seq<seq<Event>>, i: nat, k: nat)
    requires su.Valid() && |v| == su.geo.numSets && i < |instrs| && k <= |instrs[i]|
    ensures Before(instrs, i) + k <= |Flatten(instrs)|
    ensures ReplayedTo(su, v, instrs, i, k) == Transfer(su, v, Flatten(instrs)[..Before(instrs, i) + k])
    decreases i
  {
    hide Flatten, Transfer, Before;
    FirstFirst(instrs);
    BeforeNone(instrs);
    if i == 0 {
      assert Flatten(instrs)[..k] == instrs[0][..k];
    } else {
      ReplayedIs(su, Transfer(su, v, instrs[0]), instrs[1..], i - 1, k);
      BeforeRest(instrs, i);
      var j := Before(instrs[1..], i - 1) + k;
      assert Flatten(instrs)[..|instrs[0]| + j] == instrs[0] + Flatten(instrs[1..])[..j];
      SplitEvents(su, v, instrs[0], Flatten(instrs[1..])[..j]);
    }
  }

  lemma BeforeNone(instrs: seq<seq<Event>>)
    ensures Before(instrs, 0) == 0
  {}

  // ---------------------------------------------------------------- visits

  /** `tr` lists the caches of one visit: those of the first instruction, and from its last cache on those
      of the rest. */
  ghost predicate IsVisit(hw: Hardware, geo: Geometry, instrs: seq<seq<Event>>, tr: seq<Cache>) {
    && geo.IsValid()
    && if instrs == [] then |tr| == 1 && PossibleCache(hw, geo, tr[0])
       else
         |tr| > |instrs[0]| && IsTrace(hw, geo, instrs[0], tr[..|instrs[0]| + 1]) && IsVisit(hw, geo, instrs[1..], tr[|instrs[0]|..])
  }

  /** The cycles a visit takes: the sum over its instructions. */
  ghost function VisitTime(su: Setup, hw: Hardware, instrs: seq<seq<Event>>, tr: seq<Cache>): nat
    requires IsVisit(hw, su.geo, instrs, tr)
  {
    if instrs == [] then 0
    else
      TraceTime(su, hw, instrs[0], tr[..|instrs[0]| + 1]) + VisitTime(su, hw, instrs[1..], tr[|instrs[0]|..])
  }

  lemma JoinTraces(hw: Hardware, geo: Geometry, a: seq<Event>, b: seq<Event>, tr: seq<Cache>)
    requires |tr| == |a| + |b| + 1
    ensures IsTrace(hw, geo, a + b, tr) <==> IsTrace(hw, geo, a, tr[..|a| + 1]) && IsTrace(hw, geo, b, tr[|a|..])
  {
    var x, y, evs := tr[..|a| + 1], tr[|a|..], a + b;
    if IsTrace(hw, geo, evs, tr) {
      forall i | 0 <= i < |a| ensures Happens(hw, geo, a[i], x[i], x[i + 1]) { assert Happens(hw, geo, evs[i], tr[i], tr[i + 1]); }
      forall i | 0 <= i < |b| ensures Happens(hw, geo, b[i], y[i], y[i + 1]) {
        assert Happens(hw, geo, evs[|a| + i], tr[|a| + i], tr[|a| + i + 1]);
      }
    }
    if IsTrace(hw, geo, a, x) && IsTrace(hw, geo, b, y) {
      forall i | 0 <= i < |tr| ensures PossibleCache(hw, geo, tr[i]) { assert tr[i] == if i < |a| then x[i] else y[i - |a|]; }
      forall i | 0 <= i < |evs| ensures Happens(hw, geo, evs[i], tr[i], tr[i + 1]) {
        if i < |a| {
          assert Happens(hw, geo, a[i], x[i], x[i + 1]);
        } else {
          assert Happens(hw, geo, b[i - |a|], y[i - |a|], y[i - |a| + 1]);
        }
      }
    }
  }

  lemma {:induction false} JoinTimes(su: Setup, hw: Hardware, a: seq<Event>, b: seq<Event>, tr: seq<Cache>)
    requires |tr| == |a| + |b| + 1 && IsTrace(hw, su.geo, a + b, tr)
    requires IsTrace(hw, su.geo, a, tr[..|a| + 1]) && IsTrace(hw, su.geo, b, tr[|a|..])
    ensures TraceTime(su, hw, a + b, tr) == TraceTime(su, hw, a, tr[..|a| + 1]) + TraceTime(su, hw, b, tr[|a|..])
    decreases |a|
  {
    hide IsTrace;
    if a == [] {
      assert a + b == b && tr[0..] == tr;
    } else {
      var x := tr[..|a| + 1];
      assert (a + b)[1..] == a[1..] + b && tr[1..][..|a|] == x[1..] && tr[1..][|a| - 1..] == tr[|a|..];
      TailTrace(hw, su.geo, a + b, tr);
      TailTrace(hw, su.geo, a, x);
      JoinTimes(su, hw, a[1..], b, tr[1..]);
    }
  }

  /** Instruction by instruction or event by event: the same visits. */
  lemma {:induction false} VisitIsTrace(hw: Hardware, geo: Geometry, instrs: seq<seq<Event>>, tr: seq<Cache>)
    ensures IsVisit(hw, geo, instrs, tr) <==> IsTrace(hw, geo, Flatten(instrs), tr)
    decreases |instrs|
  {
    if instrs != [] {
      FirstFirst(instrs);
      if |tr| > |instrs[0]| { VisitIsTrace(hw, geo, instrs[1..], tr[|instrs[0]|..]); }
      if |tr| == |Flatten(instrs)| + 1 { JoinTraces(hw, geo, instrs[0], Flatten(instrs[1..]), tr); }
    }
  }

  /** And they take the same time. */
  lemma {:induction false} VisitTakes(su: Setup, hw: Hardware, instrs: seq<seq<Event>>, tr: seq<Cache>)
    requires IsVisit(hw, su.geo, instrs, tr) && IsTrace(hw, su.geo, Flatten(instrs), tr)
    ensures VisitTime(su, hw, instrs, tr) == TraceTime(su, hw, Flatten(instrs), tr)
    decreases |instrs|
  {
    hide IsTrace, Flatten;
    FlattenNone();
    if instrs != [] {
      FirstFirst(instrs);
      VisitIsTrace(hw, su.geo, instrs[1..], tr[|instrs[0]|..]);
      VisitTakes(su, hw, instrs[1..], tr[|instrs[0]|..]);
      TraceLength(hw, su.geo, Flatten(instrs), tr);
      JoinTimes(su, hw, instrs[0], Flatten(instrs[1..]), tr);
    }
  }

  lemma FlattenNone()
    ensures Flatten([]) == []
  {}

  lemma TraceLength(hw: Hardware, geo: Geometry, evs: seq<Event>, tr: seq<Cache>)
    requires IsTrace(hw, geo, evs, tr)
    ensures |tr| == |evs| + 1
  {}
}
