/** Matching instructions to disassembled entries in order, and the fetch lengths derived from the
    addresses found. */
module AddressAlignment {
  import opened ReplacementPolicy

  const RESYNC_WINDOW: nat := 32

  type Bytes = seq<bv8>

  /** An instruction; `encoding` is None when its bytes depend on relocation. */
  datatype Instr = Instr(emitsCode: bool, encoding: Option<Bytes>)

  datatype DumpEntry = DumpEntry(address: nat, bytes: Bytes, target: Option<nat>)

  /** The instruction is an anchor whose bytes contradict the entry at the cursor. */
  predicate Drifted(mi: Instr, e: DumpEntry) {
    mi.encoding.Some? && |mi.encoding.value| == |e.bytes| && mi.encoding.value != e.bytes
  }

  /** The instruction says nothing against the entry: its bytes are unknown, as many as the entry's but
      the same, or of another number. */
  ghost predicate Agrees(mi: Instr, e: DumpEntry) {
    mi.encoding == None || |mi.encoding.value| != |e.bytes| || e.bytes == mi.encoding.value
  }

  /** Where the cursor moves: nowhere unless the entry there has as many bytes as the instruction but others,
      and then to the first of the next 32 entries with the instruction's bytes, if there is one. */
  ghost predicate IsResync(mi: Instr, dump: seq<DumpEntry>, cursor: nat, k: nat)
    requires cursor < |dump|
  {
    && cursor <= k < |dump| && k <= cursor + 32
    && (k == cursor ==>
          mi.encoding == None || |mi.encoding.value| != |dump[cursor].bytes| || dump[cursor].bytes == mi.encoding.value
          || forall j :: cursor < j < |dump| && j <= cursor + 32 ==> dump[j].bytes != mi.encoding.value)
    && (k > cursor ==>
          && mi.encoding.Some? && |mi.encoding.value| == |dump[cursor].bytes| && dump[k].bytes == mi.encoding.value
          && forall j :: cursor <= j < k ==> dump[j].bytes != mi.encoding.value)
  }

  method Resync(mi: Instr, dump: seq<DumpEntry>, cursor: nat) returns (k: nat)
    requires cursor < |dump|
    ensures IsResync(mi, dump, cursor, k)
  {
    k := cursor;
    if Drifted(mi, dump[cursor]) {
      var next := cursor + 1;
      var lim := if |dump| < cursor + 1 + RESYNC_WINDOW then |dump| else cursor + 1 + RESYNC_WINDOW;
      while next < lim && dump[next].bytes != mi.encoding.value
        invariant cursor < next <= lim
        invariant forall j :: cursor < j < next ==> dump[j].bytes != mi.encoding.value
      {
        next := next + 1;
      }
      if next < lim { k := next; }
    }
  }

  /** One past the last entry matched. */
  function Cursor(at: seq<Option<nat>>): nat {
    if at == [] then 0 else if at[|at| - 1].Some? then at[|at| - 1].value + 1 else Cursor(at[..|at| - 1])
  }

  /** What happens at one instruction: pseudo instructions and those past the last entry are not
      matched, all others are matched to the cursor or to where it re-synchronises. */
  ghost predicate IsChoice(mi: Instr, dump: seq<DumpEntry>, cursor: nat, choice: Option<nat>) {
    if !mi.emitsCode || cursor >= |dump| then choice == None else choice.Some? && IsResync(mi, dump, cursor, choice.value)
  }

  /** `at` gives the entry each of the first instructions was matched to. */
  ghost predicate Aligned(mis: seq<Instr>, dump: seq<DumpEntry>, at: seq<Option<nat>>) {
    at != [] ==>
      var n := |at| - 1;
      n < |mis| && Aligned(mis, dump, at[..n]) && IsChoice(mis[n], dump, Cursor(at[..n]), at[n])
  }

  lemma {:induction false} AlignedAt(mis: seq<Instr>, dump: seq<DumpEntry>, at: seq<Option<nat>>, i: nat)
    requires Aligned(mis, dump, at) && i < |at|
    ensures Aligned(mis, dump, at[..i]) && i < |mis| && IsChoice(mis[i], dump, Cursor(at[..i]), at[i])
  {
    if i < |at| - 1 {
      AlignedAt(mis, dump, at[..|at| - 1], i);
      assert at[..|at| - 1][..i] == at[..i];
    }
  }

  lemma AlignOneMore(mis: seq<Instr>, dump: seq<DumpEntry>, at: seq<Option<nat>>, choice: Option<nat>)
    requires |at| < |mis| && Aligned(mis, dump, at) && IsChoice(mis[|at|], dump, Cursor(at), choice)
    ensures Aligned(mis, dump, at + [choice])
    ensures Cursor(at + [choice]) == if choice.Some? then choice.value + 1 else Cursor(at)
  {
    assert (at + [choice])[..|at|] == at;
  }

  /** The maps record exactly the addresses and branch targets of the matched entries. */
  ghost predicate Records(dump: seq<DumpEntry>, at: seq<Option<nat>>, addresses: map<nat, nat>, targets: map<nat, nat>) {
    && (forall i: nat :: i in addresses <==> i < |at| && at[i].Some?)
    && (forall i :: i in addresses ==> at[i].value < |dump| && addresses[i] == dump[at[i].value].address)
    && (forall i :: i in targets <==> i in addresses && dump[at[i].value].target.Some?)
    && (forall i :: i in targets ==> Some(targets[i]) == dump[at[i].value].target)
  }

  lemma RecordOneMore(dump: seq<DumpEntry>, at: seq<Option<nat>>, addresses: map<nat, nat>, targets: map<nat, nat>, choice: Option<nat>)
    requires Records(dump, at, addresses, targets) && (choice.Some? ==> choice.value < |dump|)
    ensures Records(dump, at + [choice], if choice.Some? then addresses[|at| := dump[choice.value].address] else addresses,
              if choice.Some? && dump[choice.value].target.Some? then targets[|at| := dump[choice.value].target.value] else targets)
  {}

  /** The addresses and branch targets recorded for the matched instructions. */
  method AlignFunction(mis: seq<Instr>, dump: seq<DumpEntry>)
    returns (addresses: map<nat, nat>, targets: map<nat, nat>, leftover: nat, ghost at: seq<Option<nat>>)
    ensures |at| == |mis| && Aligned(mis, dump, at) && Cursor(at) + leftover == |dump|
    ensures Records(dump, at, addresses, targets)
    ensures InAddressOrder(dump) ==> forall i, j :: i in addresses && j in addresses && i < j ==> addresses[i] < addresses[j]
    ensures forall i :: i in addresses ==> i < |mis| && mis[i].emitsCode
    ensures targets.Keys <= addresses.Keys
  {
    hide Aligned, Records, Cursor;
    addresses, targets, at := map[], map[], [];
    var dumpIdx := 0;
    NothingAligned(mis, dump);
    for n := 0 to |mis|
      invariant |at| == n && Aligned(mis, dump, at) && Cursor(at) == dumpIdx <= |dump|
      invariant Records(dump, at, addresses, targets)
    {
      var mi := mis[n];
      if !mi.emitsCode || dumpIdx >= |dump| {
        AlignOneMore(mis, dump, at, None);
        RecordOneMore(dump, at, addresses, targets, None);
        at := at + [None];
        continue;
      }
      var k := Resync(mi, dump, dumpIdx);
      AlignOneMore(mis, dump, at, Some(k));
      RecordOneMore(dump, at, addresses, targets, Some(k));
      at := at + [Some(k)];
      addresses := addresses[n := dump[k].address];
      if dump[k].target.Some? { targets := targets[n := dump[k].target.value]; }
      dumpIdx := k + 1;
    }
    leftover := |dump| - dumpIdx;
    AddressesOrdered(mis, dump, at, addresses, targets);
  }

  ghost predicate InAddressOrder(dump: seq<DumpEntry>) { forall k, l :: 0 <= k < l < |dump| ==> dump[k].address < dump[l].address }

  lemma AddressesOrdered(mis: seq<Instr>, dump: seq<DumpEntry>, at: seq<Option<nat>>, addresses: map<nat, nat>, targets: map<nat, nat>)
    requires |at| == |mis| && Aligned(mis, dump, at) && Records(dump, at, addresses, targets)
    ensures InAddressOrder(dump) ==> forall i, j :: i in addresses && j in addresses && i < j ==> addresses[i] < addresses[j]
    ensures forall i :: i in addresses ==> i < |mis| && mis[i].emitsCode
    ensures targets.Keys <= addresses.Keys
  {
    forall i | i in addresses ensures i < |mis| && mis[i].emitsCode { AlignedAt(mis, dump, at, i); }
    if InAddressOrder(dump) {
      forall i, j | i in addresses && j in addresses && i < j ensures addresses[i] < addresses[j] {
        AddressesAscend(mis, dump, at, i, j);
      }
    }
  }

  lemma NothingAligned(mis: seq<Instr>, dump: seq<DumpEntry>)
    ensures Aligned(mis, dump, []) && Cursor([]) == 0 && Records(dump, [], map[], map[])
  {}

  lemma {:induction false} CursorAbove(mis: seq<Instr>, dump: seq<DumpEntry>, at: seq<Option<nat>>, i: nat)
    requires Aligned(mis, dump, at) && i < |at| && at[i].Some?
    ensures at[i].value < Cursor(at)
  {
    var n := |at| - 1;
    if i < n {
      CursorAbove(mis, dump, at[..n], i);
      assert IsChoice(mis[n], dump, Cursor(at[..n]), at[n]);
    }
  }

  /** Matching is strictly increasing, so with entries in address order the instructions get strictly
      ascending addresses. */
  lemma AddressesAscend(mis: seq<Instr>, dump: seq<DumpEntry>, at: seq<Option<nat>>, i: nat, j: nat)
    requires Aligned(mis, dump, at) && i < j < |at| && at[i].Some? && at[j].Some? && InAddressOrder(dump)
    ensures at[i].value < at[j].value < |dump| && dump[at[i].value].address < dump[at[j].value].address
  {
    AlignedAt(mis, dump, at, j);
    CursorAbove(mis, dump, at[..j], i);
  }

  lemma {:induction false} CursorIs(at: seq<Option<nat>>, i: nat)
    requires i < |at| && at[i].Some? && forall k :: i < k < |at| ==> at[k].None?
    ensures Cursor(at) == at[i].value + 1
  {
    if i < |at| - 1 { CursorIs(at[..|at| - 1], i); }
  }

  /** Between consecutive matches at most 32 entries are skipped. */
  lemma GapsAreSmall(mis: seq<Instr>, dump: seq<DumpEntry>, at: seq<Option<nat>>, i: nat, j: nat)
    requires Aligned(mis, dump, at) && i < j < |at| && at[i].Some? && at[j].Some?
    requires forall k :: i < k < j ==> at[k].None?
    ensures at[j].value <= at[i].value + 33
  {
    AlignedAt(mis, dump, at, j);
    CursorIs(at[..j], i);
  }

  /** How many of the first `n` instructions emit code: the position of the next one's own entry. */
  function Emitting(mis: seq<Instr>, n: nat): nat
    requires n <= |mis|
  {
    if n == 0 then 0 else Emitting(mis, n - 1) + (if mis[n - 1].emitsCode then 1 else 0)
  }

  lemma {:induction false} EmittingAscends(mis: seq<Instr>, m: nat, n: nat)
    requires m <= n <= |mis|
    ensures Emitting(mis, m) <= Emitting(mis, n)
  {
    if m < n { EmittingAscends(mis, m, n - 1); }
  }

  /** If each instruction's own entry has the instruction's bytes, or another number of bytes, or the
      instruction's bytes are unknown, every instruction is matched to its own entry. */
  lemma {:induction false} NoDriftIsIdentity(mis: seq<Instr>, dump: seq<DumpEntry>, at: seq<Option<nat>>)
    requires Aligned(mis, dump, at) && |at| <= |mis|
    requires forall i: nat :: i < |mis| && mis[i].emitsCode ==> Emitting(mis, i) < |dump| && Agrees(mis[i], dump[Emitting(mis, i)])
    ensures Cursor(at) == Emitting(mis, |at|)
    ensures forall i :: 0 <= i < |at| ==> at[i] == if mis[i].emitsCode then Some(Emitting(mis, i)) else None
  {
    if at != [] {
      var n := |at| - 1;
      NoDriftIsIdentity(mis, dump, at[..n]);
      assert IsChoice(mis[n], dump, Cursor(at[..n]), at[n]);
      assert forall i :: 0 <= i < n ==> at[i] == at[..n][i];
    }
  }

  /** Instruction `n` is an anchor with its own entry, and its bytes are as many as those of the first
      stray entry but are those of none. */
  ghost predicate Anchors(mis: seq<Instr>, own: seq<DumpEntry>, strays: seq<DumpEntry>, n: nat) {
    && n < |mis| && mis[n].emitsCode && mis[n].encoding.Some? && Emitting(mis, n) < |own|
    && own[Emitting(mis, n)].bytes == mis[n].encoding.value
    && strays != [] && |strays[0].bytes| == |mis[n].encoding.value|
    && forall j :: 0 <= j < |strays| ==> strays[j].bytes != mis[n].encoding.value
  }

  /** Where the entry of instruction `i` stands when strays were inserted before that of `n`. */
  function Shifted(mis: seq<Instr>, n: nat, strays: nat, i: nat): nat
    requires i <= |mis|
  {
    Emitting(mis, i) + (if i < n then 0 else strays)
  }

  /** Up to 32 entries no instruction accounts for, before an anchor, are skipped: the anchor, and every
      other instruction that agrees with its own entry, is matched to it. */
  lemma {:induction false} Recovers(mis: seq<Instr>, own: seq<DumpEntry>, strays: seq<DumpEntry>, n: nat, at: seq<Option<nat>>)
    requires |strays| <= 32 && Anchors(mis, own, strays, n)
    requires forall i: nat :: i < |mis| && mis[i].emitsCode ==> Emitting(mis, i) < |own| && Agrees(mis[i], own[Emitting(mis, i)])
    requires Aligned(mis, own[..Emitting(mis, n)] + strays + own[Emitting(mis, n)..], at) && |at| <= |mis|
    ensures Cursor(at) == if |at| <= n then Emitting(mis, |at|) else Emitting(mis, |at|) + |strays|
    ensures forall i :: 0 <= i < |at| ==> at[i] == if mis[i].emitsCode then Some(Shifted(mis, n, |strays|, i)) else None
  {
    if at != [] {
      var k, p := |at| - 1, Emitting(mis, n);
      var dump := own[..p] + strays + own[p..];
      Recovers(mis, own, strays, n, at[..k]);
      assert IsChoice(mis[k], dump, Cursor(at[..k]), at[k]);
      if mis[k].emitsCode { MatchedToOwn(mis, own, strays, n, k, at[k]); }
      assert forall i :: 0 <= i < k ==> at[i] == at[..k][i];
    }
  }

  lemma MatchedToOwn(mis: seq<Instr>, own: seq<DumpEntry>, strays: seq<DumpEntry>, n: nat, k: nat, choice: Option<nat>)
    requires |strays| <= 32 && Anchors(mis, own, strays, n) && k < |mis| && mis[k].emitsCode
    requires Emitting(mis, k) < |own| && Agrees(mis[k], own[Emitting(mis, k)])
    requires IsChoice(mis[k], own[..Emitting(mis, n)] + strays + own[Emitting(mis, n)..],
                      if k <= n then Emitting(mis, k) else Emitting(mis, k) + |strays|, choice)
    ensures choice == Some(Shifted(mis, n, |strays|, k))
  {
    var p, q := Emitting(mis, n), Emitting(mis, k);
    var dump := own[..p] + strays + own[p..];
    if k < n {
      EmittingAscends(mis, k + 1, n);
      assert dump[q] == own[q];
    } else if k > n {
      EmittingAscends(mis, n + 1, k);
      assert dump[q + |strays|] == own[q];
    } else {
      assert dump[p] == strays[0] && dump[p + |strays|] == own[p];
      assert forall j :: p <= j < p + |strays| ==> dump[j] == strays[j - p];
      assert dump[choice.value].bytes == mis[k].encoding.value;
    }
  }

  // ---------------------------------------------------------------- fetch lengths

  datatype Resolved = Resolved(address: nat, mi: nat)

  ghost predicate ByAddress(s: seq<Resolved>) { forall i, j :: 0 <= i < j < |s| ==> s[i].address <= s[j].address }

  function InsertResolved(r: Resolved, s: seq<Resolved>): seq<Resolved> {
    if s == [] || r.address <= s[0].address then [r] + s else [s[0]] + InsertResolved(r, s[1..])
  }

  lemma {:induction false} InsertMultiset(r: Resolved, s: seq<Resolved>)
    ensures multiset(InsertResolved(r, s)) == multiset(s) + multiset{r}
  {
    if s != [] && r.address > s[0].address {
      assert s == [s[0]] + s[1..];
      InsertMultiset(r, s[1..]);
    }
  }

  lemma {:induction false} InsertSorted(r: Resolved, s: seq<Resolved>)
    requires ByAddress(s)
    ensures ByAddress(InsertResolved(r, s))
  {
    if s != [] && r.address > s[0].address {
      InsertSorted(r, s[1..]);
      InsertMultiset(r, s[1..]);
      var t := InsertResolved(r, s[1..]);
      forall i | 0 <= i < |t| ensures s[0].address <= t[i].address {
        assert t[i] in multiset(t);
        assert t[i] == r || t[i] in multiset(s[1..]);
      }
    }
  }

  /** Each instruction among the first `n` with an address is listed once, and nothing else. */
  ghost predicate ListsResolved(addresses: seq<Option<nat>>, n: nat, s: seq<Resolved>)
    requires n <= |addresses|
  {
    forall r: Resolved :: multiset(s)[r] == if r.mi < n && addresses[r.mi] == Some(r.address) then 1 else 0
  }

  /** The resolved instructions in address order. */
  method SortByAddress(addresses: seq<Option<nat>>) returns (s: seq<Resolved>)
    ensures ByAddress(s) && ListsResolved(addresses, |addresses|, s)
  {
    s := [];
    for i := 0 to |addresses|
      invariant ByAddress(s) && ListsResolved(addresses, i, s)
    {
      if addresses[i].Some? {
        InsertSorted(Resolved(addresses[i].value, i), s);
        InsertMultiset(Resolved(addresses[i].value, i), s);
        s := InsertResolved(Resolved(addresses[i].value, i), s);
      }
    }
  }

  /** The gap to the next address in words if it is a plausible length, and otherwise 1. */
  function WordsAt(s: seq<Resolved>, maxWords: nat, i: nat): nat
    requires i < |s| && ByAddress(s)
  {
    if i + 1 < |s| && 1 <= (s[i + 1].address - s[i].address) / 2 <= maxWords then (s[i + 1].address - s[i].address) / 2 else 1
  }

  /** The counts of the first `n` listed instructions, and no others. */
  ghost predicate CountsUpTo(s: seq<Resolved>, maxWords: nat, n: nat, words: map<nat, nat>)
    requires n <= |s| && ByAddress(s)
  {
    && (forall k :: 0 <= k < n ==> s[k].mi in words && words[s[k].mi] == WordsAt(s, maxWords, k))
    && (forall m :: m in words ==> exists k :: 0 <= k < n && s[k].mi == m)
  }

  method ComputeInstructionWords(addresses: seq<Option<nat>>, maxWords: nat) returns (words: map<nat, nat>, ghost s: seq<Resolved>)
    ensures ByAddress(s) && ListsResolved(addresses, |addresses|, s) && CountsUpTo(s, maxWords, |s|, words)
    ensures forall m: nat :: m in words <==> m < |addresses| && addresses[m].Some?
  {
    hide ListsResolved, CountsUpTo, WordsAt, ByAddress;
    var resolved := SortByAddress(addresses);
    s := resolved;
    words := map[];
    CountNothing(s, maxWords);
    for i := 0 to |resolved|
      invariant CountsUpTo(s, maxWords, i, words)
    {
      CountOneMore(addresses, s, maxWords, i, words);
      var w := 1;
      if i + 1 < |resolved| {
        Ordered(s, i);
        var wd := (resolved[i + 1].address - resolved[i].address) / 2;
        if 1 <= wd <= maxWords { w := wd; }
      }
      words := words[resolved[i].mi := w];
    }
    AllCounted(addresses, s, maxWords, words);
  }

  lemma CountNothing(s: seq<Resolved>, maxWords: nat)
    requires ByAddress(s)
    ensures CountsUpTo(s, maxWords, 0, map[])
  {}

  lemma Ordered(s: seq<Resolved>, i: nat)
    requires ByAddress(s) && i + 1 < |s|
    ensures s[i].address <= s[i + 1].address
  {}

  lemma CountOneMore(addresses: seq<Option<nat>>, s: seq<Resolved>, maxWords: nat, i: nat, words: map<nat, nat>)
    requires ByAddress(s) && ListsResolved(addresses, |addresses|, s) && i < |s| && CountsUpTo(s, maxWords, i, words)
    ensures CountsUpTo(s, maxWords, i + 1, words[s[i].mi := WordsAt(s, maxWords, i)])
    ensures WordsAt(s, maxWords, i) ==
            if i + 1 < |s| && s[i].address <= s[i + 1].address && 1 <= (s[i + 1].address - s[i].address) / 2 <= maxWords
            then (s[i + 1].address - s[i].address) / 2 else 1
  {
    OneEntryEach(addresses, s, i);
    hide ListsResolved, WordsAt;
    var more := words[s[i].mi := WordsAt(s, maxWords, i)];
    forall m | m in more ensures exists k :: 0 <= k < i + 1 && s[k].mi == m {
      if m in words {
        var k :| 0 <= k < i && s[k].mi == m;
      } else {
        assert s[i].mi == m;
      }
    }
    WordsAtIs(s, maxWords, i);
  }

  lemma WordsAtIs(s: seq<Resolved>, maxWords: nat, i: nat)
    requires ByAddress(s) && i < |s|
    ensures WordsAt(s, maxWords, i) ==
            if i + 1 < |s| && s[i].address <= s[i + 1].address && 1 <= (s[i + 1].address - s[i].address) / 2 <= maxWords
            then (s[i + 1].address - s[i].address) / 2 else 1
  {}

  lemma AllCounted(addresses: seq<Option<nat>>, s: seq<Resolved>, maxWords: nat, words: map<nat, nat>)
    requires ByAddress(s) && ListsResolved(addresses, |addresses|, s) && CountsUpTo(s, maxWords, |s|, words)
    ensures forall m: nat :: m in words <==> m < |addresses| && addresses[m].Some?
  {
    hide WordsAt, ByAddress;
    forall m: nat ensures m in words <==> m < |addresses| && addresses[m].Some? {
      if m in words {
        var k :| 0 <= k < |s| && s[k].mi == m;
        assert s[k] in multiset(s);
      }
      if m < |addresses| && addresses[m].Some? {
        assert Resolved(addresses[m].value, m) in multiset(s);
        var k :| 0 <= k < |s| && s[k] == Resolved(addresses[m].value, m);
      }
    }
  }

  /** No instruction is listed twice. */
  lemma OneEntryEach(addresses: seq<Option<nat>>, s: seq<Resolved>, i: nat)
    requires i < |s| && ListsResolved(addresses, |addresses|, s)
    ensures forall k :: 0 <= k < i ==> s[k].mi != s[i].mi
  {
    forall k | 0 <= k < i ensures s[k].mi != s[i].mi {
      assert s[k] in multiset(s) && s[i] in multiset(s);
      if s[k] == s[i] { TwiceCounts(s, k, i); }
    }
  }

  lemma TwiceCounts(s: seq<Resolved>, k: nat, i: nat)
    requires k < i < |s| && s[k] == s[i]
    ensures multiset(s)[s[i]] >= 2
  {
    assert s == s[..i] + s[i..];
    assert s[k] in multiset(s[..i]) by { assert s[..i][k] == s[k]; }
    assert s[i] in multiset(s[i..]) by { assert s[i..][0] == s[i]; }
  }

  /** Distinct even addresses give counts between 1 and the maximum, and disjoint word ranges. */
  lemma RangesDisjoint(s: seq<Resolved>, maxWords: nat, i: nat, j: nat)
    requires ByAddress(s) && maxWords >= 1 && i < j < |s|
    requires forall k :: 0 <= k < |s| - 1 ==> s[k + 1].address >= s[k].address + 2
    ensures 1 <= WordsAt(s, maxWords, i) <= maxWords && s[i].address + 2 * WordsAt(s, maxWords, i) <= s[j].address
  {
    assert s[i + 1].address >= s[i].address + 2 && s[i + 1].address <= s[j].address;
  }

  /** The count covers the instruction's real length exactly when it is a single word, or another
      instruction follows within the maximum distance. In particular the last instruction of a
      function, and one followed by a wide gap, are counted as one word whatever their length. */
  lemma CountCoversIff(s: seq<Resolved>, maxWords: nat, i: nat, size: nat)
    requires ByAddress(s) && i < |s| && 1 <= size <= maxWords
    requires i + 1 < |s| ==> s[i].address + 2 * size <= s[i + 1].address
    ensures WordsAt(s, maxWords, i) >= size <==>
            size == 1 || (i + 1 < |s| && (s[i + 1].address - s[i].address) / 2 <= maxWords)
  {}
}
