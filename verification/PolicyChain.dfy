/** The must policies ordered by precision: unknown is one-way LRU, and more ways only add hits. */
module PolicyChain {
  import opened AgeDomain
  import opened CacheGeometry
  import opened ReplacementPolicy
  import opened CacheStates
  import opened CacheAnalysis
  import opened Traces

  /** Every way a set's must value can come about: accesses, joins of two histories, wipes. */
  datatype History = Cold | Accessing(before: History, line: Line) | Joining(left: History, right: History) | Wiping(before: History)

  ghost function ValueOf(policy: Policy, h: History): Ages {
    match h
    case Cold => map[]
    case Accessing(b, line) => policy.Transfer(ValueOf(policy, b), line)
    case Joining(l, r) => Join(Must, ValueOf(policy, l), ValueOf(policy, r))
    case Wiping(_) => map[]
  }

  /** Whatever the history, the value stays within the ways and obeys the counting law. */
  lemma {:induction false} HistoryShape(ways: nat, h: History)
    requires ways >= 1
    ensures Aged(ways, ValueOf(LRUPolicy(ways), h)) && Packed(ValueOf(LRUPolicy(ways), h))
  {
    match h
    case Cold => NothingPacked();
    case Wiping(_) => NothingPacked();
    case Accessing(b, line) =>
      HistoryShape(ways, b);
      LruUpdateAged(ways, ValueOf(LRUPolicy(ways), b), line);
      LruUpdatePacked(ways, ValueOf(LRUPolicy(ways), b), line);
    case Joining(l, r) =>
      HistoryShape(ways, l);
      HistoryShape(ways, r);
      MustJoinPacked(ValueOf(LRUPolicy(ways), l), ValueOf(LRUPolicy(ways), r));
  }

  lemma NothingPacked()
    ensures Packed(map[])
  {
    var e: Ages := map[];
    forall a: nat ensures |Young(e, a)| <= a + 1 { assert Young(e, a) == {}; }
  }

  /** The unknown policy is LRU with a single way, joins and wipes included. */
  lemma {:induction false} UnknownIsOneWay(h: History)
    ensures ValueOf(UnknownPolicy, h) == ValueOf(LRUPolicy(1), h)
  {
    match h
    case Cold =>
    case Wiping(_) =>
    case Accessing(b, line) =>
      UnknownIsOneWay(b);
      HistoryShape(1, b);
      OneWay(ValueOf(LRUPolicy(1), b), line);
    case Joining(l, r) =>
      UnknownIsOneWay(l);
      UnknownIsOneWay(r);
  }

  /** An access keeps the order between a value over fewer ways and one over more. */
  lemma MoreWaysAccess(j: nat, k: nat, a: Ages, b: Ages, line: Line)
    requires j <= k && Below(a, b)
    ensures Below(LruUpdate(j, a, line), LruUpdate(k, b, line))
  {}

  /** What fewer ways guarantee, more ways guarantee, at no greater age. */
  lemma {:induction false} MoreWaysGuaranteeMore(j: nat, k: nat, h: History)
    requires j <= k
    ensures Below(ValueOf(LRUPolicy(j), h), ValueOf(LRUPolicy(k), h))
  {
    match h
    case Cold =>
    case Wiping(_) =>
    case Accessing(b, line) =>
      MoreWaysGuaranteeMore(j, k, b);
      MoreWaysAccess(j, k, ValueOf(LRUPolicy(j), b), ValueOf(LRUPolicy(k), b), line);
    case Joining(l, r) =>
      MoreWaysGuaranteeMore(j, k, l);
      MoreWaysGuaranteeMore(j, k, r);
  }

  // ---------------------------------------------------------------- costs

  /** Two must setups over the same sets, the second at least as precise. */
  ghost predicate AtLeastAsPrecise(su: Setup, tu: Setup) {
    && su.Valid() && tu.Valid() && su.kind == Must && tu.kind == Must && su.missPenalty == tu.missPenalty
    // the geometries may differ in their number of ways only
    && su.geo.numSets == tu.geo.numSets && su.geo.lineBytes == tu.geo.lineBytes && tu.policy.LRUPolicy?
    && (su.policy.UnknownPolicy? || (su.policy.LRUPolicy? && su.policy.ways <= tu.policy.ways))
  }

  ghost predicate AllBelow(v: Value, w: Value) { |v| == |w| && forall i :: 0 <= i < |v| ==> Below(v[i], w[i]) }

  lemma PreciseEvent(su: Setup, tu: Setup, v: Value, w: Value, e: Event)
    requires AtLeastAsPrecise(su, tu) && |v| == su.geo.numSets && AllBelow(v, w)
    requires Shaped(su, v)
    ensures Shaped(su, AfterEvent(su, v, e)) && AllBelow(AfterEvent(su, v, e), AfterEvent(tu, w, e))
    ensures EventCharge(tu, w, e) <= EventCharge(su, v, e)
  {
    AfterEventShaped(su, v, e);
    match e
    case Access(line) =>
      SetIndexInRange(su.geo, line);
      var s := su.geo.SetIndex(line);
      TransferIsLru(su.policy, v[s], line);
      MoreWaysAccess(WaysOf(su.policy), tu.policy.ways, v[s], w[s], line);
    case Barrier(_) =>
  }

  /** The more precise policy never charges more, event by event and in total. */
  lemma {:induction false} PreciseCostsLess(su: Setup, tu: Setup, v: Value, w: Value, evs: seq<Event>)
    requires AtLeastAsPrecise(su, tu) && |v| == su.geo.numSets && AllBelow(v, w) && Shaped(su, v)
    ensures AllBelow(Transfer(su, v, evs), Transfer(tu, w, evs))
    ensures Charge(tu, w, evs) <= Charge(su, v, evs)
    decreases |evs|
  {
    if evs != [] {
      PreciseEvent(su, tu, v, w, evs[0]);
      PreciseCostsLess(su, tu, AfterEvent(su, v, evs[0]), AfterEvent(tu, w, evs[0]), evs[1..]);
    }
  }
}
