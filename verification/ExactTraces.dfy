/** Without joins and from a cold cache the abstract sets are the real queues: LRU and FIFO lose
    nothing, and every access is classified as it really behaves. */
module ExactTraces {
  import opened AgeDomain
  import opened CacheGeometry
  import opened ReplacementPolicy
  import opened CacheStates
  import opened CacheAnalysis
  import opened Hardware
  import opened Traces

  /** The value lists exactly the resident lines, at their exact ages. */
  ghost predicate Exact(m: Ages, c: Queue) { forall q :: (q in m <==> q in c) && (q in c ==> m[q] == Age(c, q)) }

  ghost predicate HasAge(m: Ages, a: nat) { exists q :: q in m && m[q] == a }

  /** The ages of an exact value are a permutation of 0 .. n - 1. */
  lemma ExactAges(m: Ages, c: Queue)
    requires Distinct(c) && Exact(m, c)
    ensures forall q :: q in m ==> m[q] < |c|
    ensures forall a: nat :: a < |c| ==> HasAge(m, a)
    ensures forall q, r :: q in m && r in m && q != r ==> m[q] != m[r]
  {
    forall q | q in m ensures m[q] < |c| { AgeBound(c, q); }
    forall a: nat | a < |c| ensures HasAge(m, a) {
      AgeAt(c, a);
      assert c[a] in m;
    }
    forall q, r | q in m && r in m && q != r ensures m[q] != m[r] { AgeInjective(c, q, r); }
  }

  lemma LruStaysExact(ways: nat, m: Ages, c: Queue, line: Line)
    requires Possible(Lru(ways), c) && Exact(m, c)
    ensures Exact(LruUpdate(ways, m, line), Touch(ways, c, line))
  {
    var r, t := LruUpdate(ways, m, line), Touch(ways, c, line);
    forall q ensures (q in r <==> q in t) && (q in t ==> r[q] == Age(t, q)) { TouchAge(ways, c, line, q); }
  }

  lemma FifoStaysExact(ways: nat, m: Ages, c: Queue, line: Line, c': Queue)
    requires Possible(Fifo(ways), c) && Exact(m, c) && Accessed(Fifo(ways), c, line, c')
    ensures Exact(FifoUpdate(ways, m, line), c')
  {
    if line !in c {
      var full := [line] + c;
      assert full[1..] == c;
      assert Distinct(full);
      var r := FifoUpdate(ways, m, line);
      forall q ensures (q in r <==> q in c') && (q in c' ==> r[q] == Age(c', q)) {
        TruncateAge(ways, full, q);
        AgeBound(c, q);
        assert q in full <==> q == line || q in c;
      }
    }
  }

  /** The policy tracks the hardware with the same number of ways. */
  ghost predicate Tracks(policy: Policy, hw: Hardware) {
    match policy
    case LRUPolicy(w) => hw == Lru(w)
    case FIFOPolicy(w) => hw == Fifo(w)
    case UnknownPolicy => false
  }

  ghost predicate ExactCache(v: Value, c: Cache) { |v| == |c| && forall i :: 0 <= i < |v| ==> Exact(v[i], c[i]) }

  lemma ExactEvent(su: Setup, hw: Hardware, v: Value, line: Line, c: Cache, c': Cache)
    requires su.Valid() && Tracks(su.policy, hw) && |v| == su.geo.numSets
    requires PossibleCache(hw, su.geo, c) && PossibleCache(hw, su.geo, c')
    requires ExactCache(v, c) && Happens(hw, su.geo, Access(line), c, c')
    ensures ExactCache(AfterEvent(su, v, Access(line)), c')
    ensures Lists(su, v, line) <==> Hits(su.geo, c, line)
  {
    SetIndexInRange(su.geo, line);
    var s := su.geo.SetIndex(line);
    if su.policy.LRUPolicy? { LruStaysExact(su.policy.ways, v[s], c[s], line); }
    if su.policy.FIFOPolicy? { FifoStaysExact(su.policy.ways, v[s], c[s], line, c'[s]); }
  }

  /** Along any access sequence the value stays exact, and the cycles charged are the time taken. */
  lemma {:induction false} ExactTrace(su: Setup, hw: Hardware, v: Value, evs: seq<Event>, tr: seq<Cache>)
    requires su.Valid() && su.kind == Must && Tracks(su.policy, hw) && |v| == su.geo.numSets && NoBarriers(evs)
    requires IsTrace(hw, su.geo, evs, tr) && ExactCache(v, tr[0])
    ensures ExactCache(Transfer(su, v, evs), tr[|evs|])
    ensures Charge(su, v, evs) == TraceTime(su, hw, evs, tr)
    decreases |evs|
  {
    if evs != [] {
      assert evs[0] in evs && forall e :: e in evs[1..] ==> e in evs;
      assert Happens(hw, su.geo, evs[0], tr[0], tr[0 + 1]);
      ExactEvent(su, hw, v, evs[0].line, tr[0], tr[1]);
      TailTrace(hw, su.geo, evs, tr);
      ExactTrace(su, hw, AfterEvent(su, v, evs[0]), evs[1..], tr[1..]);
    }
  }

  /** Started cold, the analysis of a join-free access sequence is exact. */
  lemma ColdTraceIsExact(su: Setup, hw: Hardware, evs: seq<Event>, tr: seq<Cache>)
    requires su.Valid() && su.kind == Must && Tracks(su.policy, hw) && NoBarriers(evs)
    requires IsTrace(hw, su.geo, evs, tr) && tr[0] == seq(su.geo.numSets, i => [])
    ensures ExactCache(Transfer(su, Empty(su.geo.numSets), evs), tr[|evs|])
    ensures Charge(su, Empty(su.geo.numSets), evs) == TraceTime(su, hw, evs, tr)
  {
    ExactTrace(su, hw, Empty(su.geo.numSets), evs, tr);
  }
}
