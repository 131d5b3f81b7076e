/** The cache analysis engine: what one instruction does to the abstract cache and what it costs. */
module CacheAnalysis {
  import opened AgeDomain
  import opened CacheGeometry
  import opened ReplacementPolicy
  import opened CacheStates

  /** One effect of an instruction on the cache: a fetch of a line, or a data access that cannot be
      placed, which wipes the abstract state and costs `cost` cycles. */
  datatype Event = Access(line: Line) | Barrier(cost: nat)

  datatype Setup = Setup(geo: Geometry, policy: Policy, kind: Kind, missPenalty: nat)
  {
    ghost predicate Valid() { geo.IsValid() && policy.Valid() && policy.Supports(kind) }
  }

  // ---------------------------------------------------------------- what the engine computes

  ghost function AfterEvent(su: Setup, v: Value, e: Event): (r: Value)
    requires su.Valid() && |v| == su.geo.numSets
    ensures |r| == |v|
  {
    match e
    case Access(line) =>
      SetIndexInRange(su.geo, line);
      var s := su.geo.SetIndex(line);
      v[s := su.policy.Transfer(v[s], line)]
    case Barrier(_) => Empty(|v|)
  }

  ghost predicate Lists(su: Setup, v: Value, line: Line)
    requires su.Valid() && |v| == su.geo.numSets
  {
    SetIndexInRange(su.geo, line);
    line in v[su.geo.SetIndex(line)]
  }

  ghost function EventCharge(su: Setup, v: Value, e: Event): nat
    requires su.Valid() && |v| == su.geo.numSets
  {
    if su.kind == May then 0
    else match e
      case Access(line) => if Lists(su, v, line) then 0 else su.missPenalty
      case Barrier(cost) => cost
  }

  /** The value after all the events. */
  ghost function Transfer(su: Setup, v: Value, evs: seq<Event>): (r: Value)
    requires su.Valid() && |v| == su.geo.numSets
    ensures |r| == |v|
    decreases |evs|
  {
    if evs == [] then v else Transfer(su, AfterEvent(su, v, evs[0]), evs[1..])
  }

  /** The cycles charged for all the events. */
  ghost function Charge(su: Setup, v: Value, evs: seq<Event>): nat
    requires su.Valid() && |v| == su.geo.numSets
    decreases |evs|
  {
    if evs == [] then 0
    else EventCharge(su, v, evs[0]) + Charge(su, AfterEvent(su, v, evs[0]), evs[1..])
  }

  /** The lines accessed while not listed, in order: what the may direction reports. */
  ghost function Unlisted(su: Setup, v: Value, evs: seq<Event>): seq<Line>
    requires su.Valid() && |v| == su.geo.numSets
    decreases |evs|
  {
    if evs == [] then []
    else
      (if evs[0].Access? && !Lists(su, v, evs[0].line) then [evs[0].line] else [])
      + Unlisted(su, AfterEvent(su, v, evs[0]), evs[1..])
  }

  lemma {:induction false} SplitEvents(su: Setup, v: Value, a: seq<Event>, b: seq<Event>)
    requires su.Valid() && |v| == su.geo.numSets
    ensures Transfer(su, v, a + b) == Transfer(su, Transfer(su, v, a), b)
    ensures Charge(su, v, a + b) == Charge(su, v, a) + Charge(su, Transfer(su, v, a), b)
    ensures Unlisted(su, v, a + b) == Unlisted(su, v, a) + Unlisted(su, Transfer(su, v, a), b)
    decreases |a|
  {
    hide AfterEvent, EventCharge, Lists;
    if a == [] {
      assert a + b == b;
    } else {
      assert (a + b)[0] == a[0] && (a + b)[1..] == a[1..] + b;
      SplitEvents(su, AfterEvent(su, v, a[0]), a[1..], b);
    }
  }

  lemma OneMoreEvent(su: Setup, v: Value, evs: seq<Event>, i: nat)
    requires su.Valid() && |v| == su.geo.numSets && i < |evs|
    ensures var m := Transfer(su, v, evs[..i]);
            && Transfer(su, v, evs[..i + 1]) == AfterEvent(su, m, evs[i])
            && Charge(su, v, evs[..i + 1]) == Charge(su, v, evs[..i]) + EventCharge(su, m, evs[i])
            && Unlisted(su, v, evs[..i + 1]) ==
               Unlisted(su, v, evs[..i]) + (if evs[i].Access? && !Lists(su, m, evs[i].line) then [evs[i].line] else [])
  {
    assert evs[..i + 1] == evs[..i] + [evs[i]];
    SplitEvents(su, v, evs[..i], [evs[i]]);
    var m := Transfer(su, v, evs[..i]);
    var m' := AfterEvent(su, m, evs[i]);
    assert [evs[i]][1..] == [];
    assert Transfer(su, m', []) == m' && Charge(su, m', []) == 0 && Unlisted(su, m', []) == [];
  }

  // ---------------------------------------------------------------- the engine

  class Analysis {
    const su: Setup

    constructor (su: Setup)
      ensures this.su == su
    {
      this.su := su;
    }

    ghost predicate Fits(state: CacheState)
      reads state, state.sets
    {
      state.Valid() && state.geo == su.geo && state.policy == su.policy && state.kind == su.kind
    }

    method GetInitialState() returns (state: CacheState)
      requires su.Valid()
      ensures Fits(state) && fresh(state.Repr()) && state.View() == Empty(su.geo.numSets)
    {
      state := new CacheState(su.geo, su.policy, su.kind);
    }

    /** Applies one event: `cost` cycles are charged (must), `missed` reports a line certainly not cached (may). */
    method Apply(state: CacheState, e: Event) returns (cost: nat, missed: bool)
      requires su.Valid() && Fits(state)
      modifies state.Repr()
      ensures Fits(state) && fresh(state.Repr() - old(state.Repr()))
      ensures state.View() == AfterEvent(su, old(state.View()), e)
      ensures cost == EventCharge(su, old(state.View()), e)
      ensures missed <==> su.kind == May && e.Access? && !Lists(su, old(state.View()), e.line)
    {
      hide CacheState.Valid, CacheState.View;
      cost, missed := 0, false;
      match e {
        case Access(line) =>
          var present := state.Access(line);
          if su.kind == Must {
            if !present { cost := su.missPenalty; }
          } else {
            missed := !present;
          }
        case Barrier(c) =>
          state.Barrier();
          if su.kind == Must { cost := c; }
      }
    }

    /** Applies the events of one instruction to `state`; returns the cycles charged and, in the
        may direction, the lines reported to the sink. */
    method Process(state: CacheState, events: seq<Event>) returns (cost: nat, reported: seq<Line>)
      requires su.Valid() && Fits(state)
      modifies state.Repr()
      ensures Fits(state) && fresh(state.Repr() - old(state.Repr()))
      ensures state.View() == Transfer(su, old(state.View()), events)
      ensures cost == Charge(su, old(state.View()), events)
      ensures reported == if su.kind == May then Unlisted(su, old(state.View()), events) else []
    {
      hide CacheState.Valid, CacheState.View, AfterEvent, EventCharge;
      cost, reported := 0, [];
      ghost var v := state.View();
      var i := 0;
      while i < |events|
        invariant 0 <= i <= |events|
        invariant Fits(state) && fresh(state.Repr() - old(state.Repr()))
        invariant state.View() == Transfer(su, v, events[..i])
        invariant cost == Charge(su, v, events[..i])
        invariant reported == if su.kind == May then Unlisted(su, v, events[..i]) else []
      {
        OneMoreEvent(su, v, events, i);
        var c, missed := Apply(state, events[i]);
        cost := cost + c;
        if missed { reported := reported + [events[i].line]; }
        i := i + 1;
      }
      assert events[..|events|] == events;
    }
  }
}
