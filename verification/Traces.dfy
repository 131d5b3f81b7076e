/** Executions of an event sequence on a real cache, and what the abstract transfer says about them. */
module Traces {
  import opened AgeDomain
  import opened CacheGeometry
  import opened ReplacementPolicy
  import opened CacheStates
  import opened CacheAnalysis
  import opened Hardware

  /** A real cache: the resident lines of each set. */
  type Cache = seq<Queue>

  ghost predicate PossibleCache(hw: Hardware, geo: Geometry, c: Cache) {
    |c| == geo.numSets && forall i :: 0 <= i < |c| ==> Possible(hw, c[i])
  }

  /** `c'` may follow `c` when `e` happens. A barrier may leave any cache behind. */
  ghost predicate Happens(hw: Hardware, geo: Geometry, e: Event, c: Cache, c': Cache)
    requires geo.IsValid() && PossibleCache(hw, geo, c) && PossibleCache(hw, geo, c')
  {
    match e
    case Access(line) =>
      SetIndexInRange(geo, line);
      var s := geo.SetIndex(line);
      Accessed(hw, c[s], line, c'[s]) && forall i :: 0 <= i < |c| && i != s ==> c'[i] == c[i]
    case Barrier(_) => true
  }

  ghost predicate Hits(geo: Geometry, c: Cache, line: Line)
    requires geo.IsValid() && |c| == geo.numSets
  {
    SetIndexInRange(geo, line);
    line in c[geo.SetIndex(line)]
  }

  /** The cycles one event really takes: nothing on a hit. */
  ghost function EventTime(su: Setup, e: Event, c: Cache): nat
    requires su.geo.IsValid() && |c| == su.geo.numSets
  {
    match e
    case Access(line) => if Hits(su.geo, c, line) then 0 else su.missPenalty
    case Barrier(cost) => cost
  }

  /** `tr` lists the caches before, between and after the events of `evs`. */
  ghost predicate IsTrace(hw: Hardware, geo: Geometry, evs: seq<Event>, tr: seq<Cache>) {
    && geo.IsValid() && |tr| == |evs| + 1
    && (forall i :: 0 <= i < |tr| ==> PossibleCache(hw, geo, tr[i]))
    && (forall i :: 0 <= i < |evs| ==> Happens(hw, geo, evs[i], tr[i], tr[i + 1]))
  }

  ghost function TraceTime(su: Setup, hw: Hardware, evs: seq<Event>, tr: seq<Cache>): nat
    requires IsTrace(hw, su.geo, evs, tr)
    decreases |evs|
  {
    if evs == [] then 0 else EventTime(su, evs[0], tr[0]) + TraceTime(su, hw, evs[1..], tr[1..])
  }

  // ---------------------------------------------------------------- must

  function WaysOf(policy: Policy): nat { if policy.UnknownPolicy? then 1 else policy.ways }

  /** The analysis policy is a valid must analysis for this hardware. */
  ghost predicate Trusted(policy: Policy, hw: Hardware) {
    !policy.FIFOPolicy? && Covers(WaysOf(policy), hw)
  }

  /** The values a must analysis reaches. */
  ghost predicate Shaped(su: Setup, v: Value) {
    |v| == su.geo.numSets && forall i :: 0 <= i < |v| ==> Aged(WaysOf(su.policy), v[i]) && Packed(v[i])
  }

  ghost predicate MustDescribes(hw: Hardware, v: Value, c: Cache) {
    |v| == |c| && forall i :: 0 <= i < |v| ==> MustHolds(hw, v[i], c[i])
  }

  /** On every value it reaches, the unknown policy behaves like LRU with a single way. */
  lemma TransferIsLru(policy: Policy, m: Ages, line: Line)
    requires policy.Valid() && !policy.FIFOPolicy?
    requires Aged(WaysOf(policy), m) && Packed(m)
    ensures policy.Transfer(m, line) == LruUpdate(WaysOf(policy), m, line)
  {
    if policy.UnknownPolicy? { OneWay(m, line); }
  }

  lemma EmptyShaped(su: Setup)
    requires su.Valid()
    ensures Shaped(su, Empty(su.geo.numSets))
  {
    var e: Ages := map[];
    forall a: nat ensures |Young(e, a)| <= a + 1 { assert Young(e, a) == {}; }
    assert Packed(e);
  }

  lemma AfterEventShaped(su: Setup, v: Value, e: Event)
    requires su.Valid() && !su.policy.FIFOPolicy? && Shaped(su, v)
    ensures Shaped(su, AfterEvent(su, v, e))
  {
    match e
    case Access(line) =>
      SetIndexInRange(su.geo, line);
      var s := su.geo.SetIndex(line);
      TransferIsLru(su.policy, v[s], line);
      LruUpdateAged(WaysOf(su.policy), v[s], line);
      LruUpdatePacked(WaysOf(su.policy), v[s], line);
    case Barrier(_) =>
      EmptyShaped(su);
  }

  lemma MustEvent(su: Setup, hw: Hardware, v: Value, e: Event, c: Cache, c': Cache)
    requires su.Valid() && su.kind == Must && Trusted(su.policy, hw) && Shaped(su, v)
    requires PossibleCache(hw, su.geo, c) && PossibleCache(hw, su.geo, c')
    requires MustDescribes(hw, v, c) && Happens(hw, su.geo, e, c, c')
    ensures MustDescribes(hw, AfterEvent(su, v, e), c')
    ensures EventTime(su, e, c) <= EventCharge(su, v, e)
  {
    if e.Access? {
      SetIndexInRange(su.geo, e.line);
      var s := su.geo.SetIndex(e.line);
      TransferIsLru(su.policy, v[s], e.line);
      MustAccess(WaysOf(su.policy), hw, v[s], c[s], e.line, c'[s]);
    }
  }

  lemma TailTrace(hw: Hardware, geo: Geometry, evs: seq<Event>, tr: seq<Cache>)
    requires IsTrace(hw, geo, evs, tr) && evs != []
    ensures IsTrace(hw, geo, evs[1..], tr[1..])
  {
    forall i | 0 <= i < |evs[1..]| ensures Happens(hw, geo, evs[1..][i], tr[1..][i], tr[1..][i + 1]) {
      assert Happens(hw, geo, evs[i + 1], tr[i + 1], tr[i + 1 + 1]);
    }
  }

  /** Whatever the hardware does, the time taken is at most the cycles charged, and the final
      value describes the final cache. */
  lemma {:induction false} MustTrace(su: Setup, hw: Hardware, v: Value, evs: seq<Event>, tr: seq<Cache>)
    requires su.Valid() && su.kind == Must && Trusted(su.policy, hw) && Shaped(su, v)
    requires IsTrace(hw, su.geo, evs, tr) && MustDescribes(hw, v, tr[0])
    ensures Shaped(su, Transfer(su, v, evs))
    ensures MustDescribes(hw, Transfer(su, v, evs), tr[|evs|])
    ensures TraceTime(su, hw, evs, tr) <= Charge(su, v, evs)
    decreases |evs|
  {
    if evs != [] {
      assert Happens(hw, su.geo, evs[0], tr[0], tr[0 + 1]);
      AfterEventShaped(su, v, evs[0]);
      MustEvent(su, hw, v, evs[0], tr[0], tr[1]);
      TailTrace(hw, su.geo, evs, tr);
      MustTrace(su, hw, AfterEvent(su, v, evs[0]), evs[1..], tr[1..]);
    }
  }

  // ---------------------------------------------------------------- may

  ghost predicate MayDescribes(v: Value, c: Cache) {
    |v| == |c| && forall i :: 0 <= i < |v| ==> MayHolds(v[i], c[i])
  }

  ghost predicate NoBarriers(evs: seq<Event>) { forall e :: e in evs ==> e.Access? }

  lemma MayEvent(su: Setup, v: Value, e: Event, c: Cache, c': Cache)
    requires su.Valid() && su.policy.LRUPolicy? && e.Access? && |v| == su.geo.numSets
    requires PossibleCache(Lru(su.policy.ways), su.geo, c) && PossibleCache(Lru(su.policy.ways), su.geo, c')
    requires MayDescribes(v, c) && Happens(Lru(su.policy.ways), su.geo, e, c, c')
    ensures MayDescribes(AfterEvent(su, v, e), c')
    ensures !Lists(su, v, e.line) ==> !Hits(su.geo, c, e.line)
  {
    SetIndexInRange(su.geo, e.line);
    var s := su.geo.SetIndex(e.line);
    MayAccess(su.policy.ways, v[s], c[s], e.line);
  }

  /** Along any barrier-free LRU execution the may value stays a description of the cache, and
      every access made to an unlisted line is a miss. */
  lemma {:induction false} MayTrace(su: Setup, v: Value, evs: seq<Event>, tr: seq<Cache>, j: nat)
    requires su.Valid() && su.policy.LRUPolicy? && NoBarriers(evs) && |v| == su.geo.numSets
    requires IsTrace(Lru(su.policy.ways), su.geo, evs, tr) && MayDescribes(v, tr[0]) && j <= |evs|
    ensures MayDescribes(Transfer(su, v, evs[..j]), tr[j])
    ensures j < |evs| && !Lists(su, Transfer(su, v, evs[..j]), evs[j].line) ==> !Hits(su.geo, tr[j], evs[j].line)
    decreases j
  {
    if j > 0 {
      var m := Transfer(su, v, evs[..j - 1]);
      MayTrace(su, v, evs, tr, j - 1);
      OneMoreEvent(su, v, evs, j - 1);
      assert evs[j - 1] in evs;
      MayEvent(su, m, evs[j - 1], tr[j - 1], tr[j - 1 + 1]);
    }
    if j < |evs| {
      assert evs[j] in evs;
      MayEvent(su, Transfer(su, v, evs[..j]), evs[j], tr[j], tr[j + 1]);
    }
  }
}
