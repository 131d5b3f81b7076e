/** The events of an instruction, and the exact cost of fetching straight-line code. */
module FetchCost {
  import opened AgeDomain
  import opened CacheGeometry
  import opened ReplacementPolicy
  import opened CacheStates
  import opened CacheAnalysis
  import opened Traces

  /** An instruction with its resolved address, its code words, and the data words it may touch
      outside memory without wait states; each may be unknown. */
  datatype Instruction = Instruction(address: Option<nat>, words: Option<nat>, dataWords: Option<nat>)

  datatype Mapper = Mapper(geo: Geometry, framStart: nat, dataAccessCost: nat) {
    ghost predicate Valid() { geo.IsValid() && 2 <= geo.lineBytes < ADDRESS_LIMIT }
  }

  /** One access per code word in FRAM among the first `n` words at `addr`. */
  function WordEvents(mp: Mapper, addr: nat, n: nat): seq<Event>
    requires 1 <= mp.geo.lineBytes < ADDRESS_LIMIT
  {
    if n == 0 then []
    else
      var w := addr + 2 * (n - 1);
      WordEvents(mp, addr, n - 1) + (if w >= mp.framStart then [Access(mp.geo.LineId(w))] else [])
  }

  function EventsFor(mp: Mapper, mi: Instruction): seq<Event>
    requires 1 <= mp.geo.lineBytes < ADDRESS_LIMIT
  {
    (if mi.words.Some? && mi.address.Some? then WordEvents(mp, mi.address.value, mi.words.value) else [])
    + (if mi.dataWords.Some? then [Barrier(mp.dataAccessCost * mi.dataWords.value)] else [])
  }

  /** Appends the events of one instruction. */
  method MapEvents(mp: Mapper, mi: Instruction, out0: seq<Event>) returns (out: seq<Event>)
    requires 1 <= mp.geo.lineBytes < ADDRESS_LIMIT
    ensures out == out0 + EventsFor(mp, mi)
  {
    out := out0;
    if mi.words.Some? && mi.address.Some? {
      for w := 0 to mi.words.value
        invariant out == out0 + WordEvents(mp, mi.address.value, w)
      {
        var wordAddr := mi.address.value + 2 * w;
        if wordAddr >= mp.framStart { out := out + [Access(mp.geo.LineId(wordAddr))]; }
      }
    }
    if mi.dataWords.Some? { out := out + [Barrier(mp.dataAccessCost * mi.dataWords.value)]; }
  }

  function AllEvents(mp: Mapper, code: seq<Instruction>): seq<Event>
    requires 1 <= mp.geo.lineBytes < ADDRESS_LIMIT
  {
    if code == [] then [] else AllEvents(mp, code[..|code| - 1]) + EventsFor(mp, code[|code| - 1])
  }

  // ---------------------------------------------------------------- straight-line code

  /** The code occupies the `n` words from `start` on, without gaps and without data accesses. */
  ghost predicate Straight(code: seq<Instruction>, start: nat, n: nat) {
    if code == [] then n == 0
    else
      var mi := code[|code| - 1];
      && mi.words.Some? && mi.words.value <= n && mi.dataWords.None?
      && mi.address == Some(start + 2 * (n - mi.words.value))
      && Straight(code[..|code| - 1], start, n - mi.words.value)
  }

  lemma {:induction false} WordsConcat(mp: Mapper, addr: nat, m: nat, n: nat)
    requires 1 <= mp.geo.lineBytes < ADDRESS_LIMIT
    ensures WordEvents(mp, addr, m) + WordEvents(mp, addr + 2 * m, n) == WordEvents(mp, addr, m + n)
  {
    if n > 0 {
      WordsConcat(mp, addr, m, n - 1);
      assert addr + 2 * m + 2 * (n - 1) == addr + 2 * (m + n - 1);
    }
  }

  /** How the code is cut into instructions does not matter for what is fetched. */
  lemma {:induction false} StraightEvents(mp: Mapper, code: seq<Instruction>, start: nat, n: nat)
    requires 1 <= mp.geo.lineBytes < ADDRESS_LIMIT && Straight(code, start, n)
    ensures AllEvents(mp, code) == WordEvents(mp, start, n)
  {
    if code != [] {
      var mi := code[|code| - 1];
      StraightEvents(mp, code[..|code| - 1], start, n - mi.words.value);
      WordsConcat(mp, start, n - mi.words.value, mi.words.value);
    }
  }

  // ---------------------------------------------------------------- lines of consecutive words

  lemma NextPage(w: nat, d: nat)
    requires d >= 2
    ensures w / d <= (w + 2) / d <= w / d + 1
  {
    DivBounds(w, d);
    DivBounds(w + 2, d);
    if (w + 2) / d >= w / d + 2 { Scale(w / d + 2, (w + 2) / d, d); }
    if (w + 2) / d < w / d { Scale((w + 2) / d + 1, w / d, d); }
  }

  lemma DivBounds(w: nat, d: nat)
    requires d >= 1
    ensures (w / d) * d <= w < (w / d) * d + d
  {}

  lemma Scale(a: nat, b: nat, d: nat)
    requires a <= b
    ensures a * d <= b * d
  {}

  /** Line ids order like page numbers. */
  lemma LineOrder(geo: Geometry, x: nat, y: nat)
    requires geo.IsValid() && geo.lineBytes < ADDRESS_LIMIT && x < ADDRESS_LIMIT && y < ADDRESS_LIMIT
    ensures x / geo.lineBytes == y / geo.lineBytes ==> geo.LineId(x) == geo.LineId(y)
    ensures x / geo.lineBytes < y / geo.lineBytes ==> geo.LineId(x) < geo.LineId(y)
  {
    hide And;
    var d := geo.lineBytes;
    IdIsPage(geo, x);
    IdIsPage(geo, y);
    if x / d < y / d { Scale(x / d + 1, y / d, d); }
  }

  lemma IdIsPage(geo: Geometry, x: nat)
    requires geo.IsValid() && geo.lineBytes < ADDRESS_LIMIT && x < ADDRESS_LIMIT
    ensures geo.LineId(x) == (x / geo.lineBytes) * geo.lineBytes
  {
    hide And;
    LineIdRoundsDown(geo, x);
    Rounding(x, geo.lineBytes);
  }

  lemma Rounding(x: nat, d: nat)
    requires d >= 1
    ensures x - x % d == (x / d) * d
  {}

  // ---------------------------------------------------------------- the cost

  /** Setups whose sets list an accessed line and drop nothing into existence. */
  ghost predicate Simple(su: Setup) { su.Valid() && su.kind == Must && !su.policy.FIFOPolicy? }

  ghost predicate NoneAbove(v: Value, line: Line) { forall i, q :: 0 <= i < |v| && q in v[i] ==> q <= line }

  lemma AccessLists(su: Setup, v: Value, line: Line)
    requires Simple(su) && |v| == su.geo.numSets
    ensures Lists(su, AfterEvent(su, v, Access(line)), line)
    ensures forall bound: Line :: NoneAbove(v, bound) && bound <= line ==> NoneAbove(AfterEvent(su, v, Access(line)), line)
  {
    hide And, IsPow2;
    SetIndexInRange(su.geo, line);
  }

  /** The number of the line-sized page an address lies in. */
  function Page(geo: Geometry, addr: nat): nat
    requires geo.lineBytes >= 1
  {
    addr / geo.lineBytes
  }

  function Penalties(penalty: nat, misses: nat): nat { penalty * misses }

  /** What is known after fetching `n` words: the last line is listed, and the cost is at most, and
      from cold exactly, one miss per line touched. */
  ghost predicate Fetched(su: Setup, mp: Mapper, v: Value, start: nat, n: nat)
    requires Simple(su) && mp.Valid() && mp.geo == su.geo && |v| == su.geo.numSets && n >= 1
  {
    var evs, last := WordEvents(mp, start, n), start + 2 * (n - 1);
    && Lists(su, Transfer(su, v, evs), mp.geo.LineId(last))
    && Page(mp.geo, start) <= Page(mp.geo, last)
    && Charge(su, v, evs) <= Penalties(su.missPenalty, Page(mp.geo, last) - Page(mp.geo, start) + 1)
    && (v == Empty(su.geo.numSets) ==>
          && NoneAbove(Transfer(su, v, evs), mp.geo.LineId(last))
          && Charge(su, v, evs) == Penalties(su.missPenalty, Page(mp.geo, last) - Page(mp.geo, start) + 1))
  }

  lemma WordAppend(su: Setup, mp: Mapper, v: Value, start: nat, n: nat)
    requires Simple(su) && mp.Valid() && |v| == su.geo.numSets && start >= mp.framStart
    ensures var evs, e := WordEvents(mp, start, n), Access(mp.geo.LineId(start + 2 * n));
            && Transfer(su, v, WordEvents(mp, start, n + 1)) == AfterEvent(su, Transfer(su, v, evs), e)
            && Charge(su, v, WordEvents(mp, start, n + 1)) == Charge(su, v, evs) + EventCharge(su, Transfer(su, v, evs), e)
  {
    var evs, all := WordEvents(mp, start, n), WordEvents(mp, start, n + 1);
    OneMoreEvent(su, v, all, |evs|);
    assert all[..|evs|] == evs && all[..|all|] == all;
  }

  /** The next word costs a miss only if it starts a new line, and then, if nothing above the last
      line is listed, certainly does. */
  lemma WordCharge(su: Setup, mp: Mapper, m: Value, last: nat)
    requires Simple(su) && mp.Valid() && mp.geo == su.geo && |m| == su.geo.numSets && last + 2 < ADDRESS_LIMIT
    requires Lists(su, m, mp.geo.LineId(last))
    ensures Page(mp.geo, last) <= Page(mp.geo, last + 2) <= Page(mp.geo, last) + 1
    ensures Page(mp.geo, last + 2) == Page(mp.geo, last) ==> EventCharge(su, m, Access(mp.geo.LineId(last + 2))) == 0
    ensures EventCharge(su, m, Access(mp.geo.LineId(last + 2))) <= su.missPenalty
    ensures NoneAbove(m, mp.geo.LineId(last)) && Page(mp.geo, last + 2) > Page(mp.geo, last) ==>
              EventCharge(su, m, Access(mp.geo.LineId(last + 2))) == su.missPenalty
    ensures mp.geo.LineId(last) <= mp.geo.LineId(last + 2)
  {
    hide And;
    NextPage(last, mp.geo.lineBytes);
    LineOrder(mp.geo, last, last + 2);
    SetIndexInRange(su.geo, mp.geo.LineId(last + 2));
  }

  /** A charge of one penalty per page stays one when a page is added, or not. */
  lemma PageArithmetic(penalty: nat, old_: nat, new_: nat, first: nat, charge: nat, event: nat, exact: bool)
    requires first <= old_ <= new_ <= old_ + 1 && charge <= Penalties(penalty, old_ - first + 1) && event <= penalty
    requires new_ == old_ ==> event == 0
    requires exact ==> charge == Penalties(penalty, old_ - first + 1) && (new_ > old_ ==> event == penalty)
    ensures charge + event <= Penalties(penalty, new_ - first + 1)
    ensures exact ==> charge + event == Penalties(penalty, new_ - first + 1)
  {
    hide *;
    if new_ > old_ { OneMorePenalty(penalty, old_ - first + 1); }
  }

  lemma OneMorePenalty(penalty: nat, n: nat)
    ensures Penalties(penalty, n + 1) == Penalties(penalty, n) + penalty
  {}

  lemma FetchStep(su: Setup, mp: Mapper, v: Value, start: nat, n: nat)
    requires Simple(su) && mp.Valid() && mp.geo == su.geo && |v| == su.geo.numSets && n >= 1
    requires start >= mp.framStart && start + 2 * n < ADDRESS_LIMIT && Fetched(su, mp, v, start, n)
    ensures Fetched(su, mp, v, start, n + 1)
  {
    hide And, Transfer, Charge, AfterEvent, WordEvents, EventCharge, Lists, NoneAbove, Page, Penalties;
    var last, evs := start + 2 * (n - 1), WordEvents(mp, start, n);
    var m := Transfer(su, v, evs);
    var e := Access(mp.geo.LineId(last + 2));
    WordAppend(su, mp, v, start, n);
    WordCharge(su, mp, m, last);
    AccessLists(su, m, mp.geo.LineId(last + 2));
    PageArithmetic(su.missPenalty, Page(mp.geo, last), Page(mp.geo, last + 2), Page(mp.geo, start),
                   Charge(su, v, evs), EventCharge(su, m, e), v == Empty(su.geo.numSets));
    assert start + 2 * (n + 1 - 1) == last + 2;
  }

  lemma OneWord(su: Setup, mp: Mapper, v: Value, start: nat)
    requires Simple(su) && mp.Valid() && mp.geo == su.geo && |v| == su.geo.numSets && start >= mp.framStart
    ensures Transfer(su, v, WordEvents(mp, start, 1)) == AfterEvent(su, v, Access(mp.geo.LineId(start)))
    ensures Charge(su, v, WordEvents(mp, start, 1)) == EventCharge(su, v, Access(mp.geo.LineId(start)))
  {
    hide And, AfterEvent, EventCharge, Transfer, Charge;
    assert WordEvents(mp, start, 0) == [] && start + 2 * 0 == start;
    NothingYet(su, v);
    WordAppend(su, mp, v, start, 0);
  }

  lemma NothingYet(su: Setup, v: Value)
    requires Simple(su) && |v| == su.geo.numSets
    ensures Transfer(su, v, []) == v && Charge(su, v, []) == 0
  {
    hide And;
  }

  lemma ColdAccess(su: Setup, line: Line)
    requires Simple(su)
    ensures EventCharge(su, Empty(su.geo.numSets), Access(line)) == su.missPenalty
    ensures NoneAbove(Empty(su.geo.numSets), 0)
  {
    hide And;
    SetIndexInRange(su.geo, line);
  }

  lemma OnePenalty(penalty: nat)
    ensures Penalties(penalty, 1) == penalty
  {}

  lemma FetchFirst(su: Setup, mp: Mapper, v: Value, start: nat)
    requires Simple(su) && mp.Valid() && mp.geo == su.geo && |v| == su.geo.numSets && start >= mp.framStart
    ensures Fetched(su, mp, v, start, 1)
  {
    hide And, Transfer, Charge, AfterEvent, WordEvents, Lists, NoneAbove, Page, Penalties;
    OneWord(su, mp, v, start);
    AccessLists(su, v, mp.geo.LineId(start));
    ColdAccess(su, mp.geo.LineId(start));
    OnePenalty(su.missPenalty);
    assert start + 2 * (1 - 1) == start;
  }

  lemma {:induction false} FetchWords(su: Setup, mp: Mapper, v: Value, start: nat, n: nat)
    requires Simple(su) && mp.Valid() && mp.geo == su.geo && |v| == su.geo.numSets && n >= 1
    requires start >= mp.framStart && start + 2 * n < ADDRESS_LIMIT
    ensures Fetched(su, mp, v, start, n)
  {
    if n == 1 {
      FetchFirst(su, mp, v, start);
    } else {
      FetchWords(su, mp, v, start, n - 1);
      FetchStep(su, mp, v, start, n - 1);
    }
  }

  /** Straight-line code over the words [a, b) costs one miss per line it touches when fetched with
      a cold cache, under the unknown and the LRU policy alike, and never more from any state. */
  lemma StraightLineCost(su: Setup, mp: Mapper, v: Value, code: seq<Instruction>, a: nat, b: nat)
    requires Simple(su) && mp.Valid() && mp.geo == su.geo && |v| == su.geo.numSets
    requires mp.framStart <= a < b < ADDRESS_LIMIT && (b - a) % 2 == 0 && Straight(code, a, (b - a) / 2)
    ensures var pages := (b - 2) / mp.geo.lineBytes - a / mp.geo.lineBytes + 1;
            && Charge(su, v, AllEvents(mp, code)) <= su.missPenalty * pages
            && (v == Empty(su.geo.numSets) ==> Charge(su, v, AllEvents(mp, code)) == su.missPenalty * pages)
  {
    hide Transfer, Charge, WordEvents, AllEvents, Straight, NoneAbove, Lists, And, IsPow2;
    var n := (b - a) / 2;
    assert a + 2 * (n - 1) == b - 2;
    StraightEvents(mp, code, a, n);
    FetchWords(su, mp, v, a, n);
  }

  // ---------------------------------------------------------------- one instruction

  /** How many of the first `n` words at `addr` lie below `limit`. */
  function WordsBelow(addr: nat, n: nat, limit: nat): (k: nat)
    ensures k <= n
    ensures forall w :: 0 <= w < n ==> (addr + 2 * w < limit <==> w < k)
  {
    if n == 0 || addr + 2 * (n - 1) < limit then n else WordsBelow(addr, n - 1, limit)
  }

  lemma {:induction false} NothingBelow(mp: Mapper, addr: nat, n: nat)
    requires 1 <= mp.geo.lineBytes < ADDRESS_LIMIT && forall w :: 0 <= w < n ==> addr + 2 * w < mp.framStart
    ensures WordEvents(mp, addr, n) == []
  {
    if n > 0 {
      NothingBelow(mp, addr, n - 1);
      assert addr + 2 * (n - 1) < mp.framStart;
    }
  }

  /** An instruction that begins below FRAM fetches only its words in FRAM. */
  lemma SkipsBelow(mp: Mapper, addr: nat, n: nat)
    requires 1 <= mp.geo.lineBytes < ADDRESS_LIMIT
    ensures var k := WordsBelow(addr, n, mp.framStart);
            WordEvents(mp, addr, n) == WordEvents(mp, addr + 2 * k, n - k)
  {
    var k := WordsBelow(addr, n, mp.framStart);
    NothingBelow(mp, addr, k);
    WordsConcat(mp, addr, k, n - k);
    assert k + (n - k) == n;
  }

  /** Where the line-sized page of an address begins. */
  function PageStart(geo: Geometry, addr: nat): nat
    requires geo.lineBytes >= 1
  {
    (addr / geo.lineBytes) * geo.lineBytes
  }

  lemma {:induction false} WordsInOrder(mp: Mapper, addr: nat, n: nat)
    requires mp.Valid() && addr >= mp.framStart && addr + 2 * n <= ADDRESS_LIMIT
    ensures |WordEvents(mp, addr, n)| == n
    ensures forall w :: 0 <= w < n ==> WordEvents(mp, addr, n)[w] == Access(PageStart(mp.geo, addr + 2 * w))
  {
    hide And, IsPow2, PageStart;
    if n > 0 {
      WordsInOrder(mp, addr, n - 1);
      StartIsLine(mp.geo, addr + 2 * (n - 1));
    }
  }

  lemma StartIsLine(geo: Geometry, addr: nat)
    requires geo.IsValid() && geo.lineBytes < ADDRESS_LIMIT && addr < ADDRESS_LIMIT
    ensures geo.LineId(addr) == PageStart(geo, addr)
  {
    hide And, IsPow2;
    IdIsPage(geo, addr);
  }

  /** The accesses of an instruction: one to the line of each of its words in FRAM, in order. */
  ghost predicate Fetches(mp: Mapper, addr: nat, n: nat, evs: seq<Event>)
    requires mp.Valid()
  {
    var below := WordsBelow(addr, n, mp.framStart);
    |evs| == n - below && forall w :: 0 <= w < n - below ==> evs[w] == Access(PageStart(mp.geo, addr + 2 * (below + w)))
  }

  lemma FetchesAre(mp: Mapper, addr: nat, n: nat)
    requires mp.Valid() && addr + 2 * n <= ADDRESS_LIMIT
    ensures Fetches(mp, addr, n, WordEvents(mp, addr, n))
  {
    hide And, IsPow2, PageStart, WordEvents;
    var k := WordsBelow(addr, n, mp.framStart);
    SkipsBelow(mp, addr, n);
    if k < n {
      assert addr + 2 * k >= mp.framStart;
      WordsInOrder(mp, addr + 2 * k, n - k);
      forall w | 0 <= w < n - k ensures WordEvents(mp, addr, n)[w] == Access(PageStart(mp.geo, addr + 2 * (k + w))) {
        assert addr + 2 * k + 2 * w == addr + 2 * (k + w);
      }
    } else {
      NoEvents(mp, addr + 2 * k);
    }
  }

  lemma NoEvents(mp: Mapper, addr: nat)
    requires 1 <= mp.geo.lineBytes < ADDRESS_LIMIT
    ensures WordEvents(mp, addr, 0) == []
  {}

  /** The events of one instruction: its accesses, and then, if it may touch `d` data words outside
      memory without wait states, a barrier of `d` times the access cost. */
  lemma EventsAre(mp: Mapper, mi: Instruction) returns (fetched: seq<Event>)
    requires mp.Valid()
    requires mi.address.Some? && mi.words.Some? ==> mi.address.value + 2 * mi.words.value <= ADDRESS_LIMIT
    ensures if mi.address.Some? && mi.words.Some? then Fetches(mp, mi.address.value, mi.words.value, fetched) else fetched == []
    ensures EventsFor(mp, mi) == if mi.dataWords.Some? then fetched + [Barrier(mp.dataAccessCost * mi.dataWords.value)] else fetched
  {
    hide And, IsPow2, Fetches, WordEvents;
    fetched := [];
    if mi.address.Some? && mi.words.Some? {
      FetchesAre(mp, mi.address.value, mi.words.value);
      fetched := WordEvents(mp, mi.address.value, mi.words.value);
    }
  }

  /** The lines among the words of an instruction that lie in FRAM. */
  function LinesFetched(mp: Mapper, addr: nat, n: nat): int
    requires mp.geo.lineBytes >= 1
  {
    var k := WordsBelow(addr, n, mp.framStart);
    if k == n then 0 else (addr + 2 * (n - 1)) / mp.geo.lineBytes - (addr + 2 * k) / mp.geo.lineBytes + 1
  }

  /** What one instruction costs: from a cold cache one miss for each line its words in FRAM touch, from any
      other state at most that, and in both cases the wait states of its data words, which also leave the
      cache cold. */
  lemma InstructionCharge(su: Setup, mp: Mapper, v: Value, mi: Instruction)
    requires Simple(su) && mp.Valid() && mp.geo == su.geo && |v| == su.geo.numSets
    requires mi.address.Some? && mi.words.Some? && mi.address.value + 2 * mi.words.value < ADDRESS_LIMIT
    ensures var data := if mi.dataWords.Some? then mp.dataAccessCost * mi.dataWords.value else 0;
            var lines := LinesFetched(mp, mi.address.value, mi.words.value);
            && Charge(su, v, EventsFor(mp, mi)) <= su.missPenalty * lines + data
            && (v == Empty(su.geo.numSets) ==> Charge(su, v, EventsFor(mp, mi)) == su.missPenalty * lines + data)
    ensures mi.dataWords.Some? ==> Transfer(su, v, EventsFor(mp, mi)) == Empty(su.geo.numSets)
  {
    hide And, IsPow2, WordEvents, Lists, NoneAbove, AfterEvent, EventCharge;
    var addr, n := mi.address.value, mi.words.value;
    var k := WordsBelow(addr, n, mp.framStart);
    SkipsBelow(mp, addr, n);
    var evs := WordEvents(mp, addr, n);
    if k < n {
      assert addr + 2 * k >= mp.framStart;
      FetchWords(su, mp, v, addr + 2 * k, n - k);
      assert addr + 2 * k + 2 * (n - k - 1) == addr + 2 * (n - 1);
    } else {
      NoEvents(mp, addr + 2 * k);
      NothingYet(su, v);
    }
    if mi.dataWords.Some? {
      BarrierLast(su, v, evs, mp.dataAccessCost * mi.dataWords.value);
    } else {
      assert EventsFor(mp, mi) == evs;
    }
  }

  lemma BarrierLast(su: Setup, v: Value, evs: seq<Event>, cost: nat)
    requires Simple(su) && |v| == su.geo.numSets
    ensures Transfer(su, v, evs + [Barrier(cost)]) == Empty(su.geo.numSets)
    ensures Charge(su, v, evs + [Barrier(cost)]) == Charge(su, v, evs) + cost
  {
    hide And, IsPow2;
    var all := evs + [Barrier(cost)];
    OneMoreEvent(su, v, all, |evs|);
    assert all[..|evs|] == evs && all[..|all|] == all;
  }
}
