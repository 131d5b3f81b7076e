/** The cycle bound of library routines: each instruction is charged once per possible round of the
    loops around it, and calls add the bound of their callee. */
module AbiCost {
  import opened ReplacementPolicy
  import opened LoopIntervals
  import opened Routines

  const DEFAULT_CYC: nat := 8
  const MAX_DEPTH: nat := 4

  function Cyc(i: Insn): nat {
    match i.op
    case PushPop(Some(n)) => 2 + n
    case PushPop(None) => 2 + 16
    case _ => DEFAULT_CYC
  }

  /** The instructions from `start` up to the next symbol. */
  function RoutineRange(img: Image, start: nat): seq<Insn> { InRange(img, img.insns, start) }

  function InRange(img: Image, insns: seq<Insn>, start: nat): seq<Insn> {
    if insns == [] then []
    else
      var i := insns[|insns| - 1];
      InRange(img, insns[..|insns| - 1], start)
      + (if start <= i.addr && (forall e :: e in img.entries && e > start ==> i.addr < e) then [i] else [])
  }

  /** The target of a call; for a call through a register, what was last moved into the register. */
  function ResolveCallTarget(body: seq<Insn>, idx: nat): Option<nat>
    requires idx < |body|
  {
    if body[idx].target.Some? then body[idx].target
    else if body[idx].op.Call? then LastMoved(body, idx, body[idx].op.reg)
    else None
  }

  function LastMoved(body: seq<Insn>, j: nat, reg: string): Option<nat>
    requires j <= |body|
  {
    if j == 0 then None
    else
      var p := body[j - 1];
      if p.op.MovA? && p.op.dest == reg && p.target.Some? then p.target
      else if p.op.MovA? && p.op.dest == reg && p.op.imm.Some? then p.op.imm
      else if p.op.Call? || p.op.Ret? then None
      else LastMoved(body, j - 1, reg)
  }

  // ---------------------------------------------------------------- loops

  predicate IsBackJump(body: seq<Insn>, i: Insn)
    requires body != []
  {
    i.op.Jump? && i.target.Some? && body[0].addr <= i.target.value <= body[|body| - 1].addr && i.target.value <= i.addr
  }

  /** The intervals of the backward jumps among the first `n` instructions. */
  function LoopList(body: seq<Insn>, n: nat): seq<Interval>
    requires body != [] && n <= |body|
  {
    if n == 0 then []
    else
      var i := body[n - 1];
      LoopList(body, n - 1) + (if IsBackJump(body, i) then [Interval(i.target.value, i.addr)] else [])
  }

  ghost function Loops(body: seq<Insn>): set<Interval>
    requires body != []
  {
    AsSet(LoopList(body, |body|))
  }

  ghost function AsSet(list: seq<Interval>): set<Interval> { set i | i in list }

  /** How many of the listed intervals contain the address. */
  function Depth(loops: seq<Interval>, a: nat): nat {
    if loops == [] then 0 else Depth(loops[..|loops| - 1], a) + (if loops[|loops| - 1].Has(a) then 1 else 0)
  }

  lemma {:induction false} LoopListDistinct(body: seq<Insn>, n: nat)
    requires body != [] && n <= |body| && InOrder(body)
    ensures forall i :: i in LoopList(body, n) ==> i.lo <= i.hi && exists k :: 0 <= k < n && body[k].addr == i.hi
    ensures forall i, j :: 0 <= i < j < |LoopList(body, n)| ==> LoopList(body, n)[i] != LoopList(body, n)[j]
  {
    if n > 0 {
      LoopListDistinct(body, n - 1);
      var front := LoopList(body, n - 1);
      assert forall i :: 0 <= i < |front| ==> front[i] in front;
      if IsBackJump(body, body[n - 1]) { assert body[n - 1].addr == Interval(body[n - 1].target.value, body[n - 1].addr).hi; }
    }
  }

  lemma {:induction false} DepthIsCount(loops: seq<Interval>, a: nat)
    requires forall i, j :: 0 <= i < j < |loops| ==> loops[i] != loops[j]
    ensures Depth(loops, a) == |Around(AsSet(loops), a)|
  {
    if loops == [] {
      assert Around(AsSet(loops), a) == {};
    } else {
      var front, last := loops[..|loops| - 1], loops[|loops| - 1];
      assert loops == front + [last] && last !in front;
      DepthIsCount(front, a);
      var inner := Around(AsSet(front), a);
      assert last !in inner;
      assert Around(AsSet(loops), a) == if last.Has(a) then inner + {last} else inner;
    }
  }

  // ---------------------------------------------------------------- the routine in the image

  /** What lies between two instructions of a routine belongs to it. */
  lemma NoGaps(img: Image, s: nat, i: nat, j: nat, k: nat)
    requires img.Valid() && i < j < k < |img.insns| && Has(img, s, i) && Has(img, s, k)
    ensures Has(img, s, j)
  {}

  lemma {:induction false} SliceUpTo(img: Image, s: nat, n: nat) returns (lo: nat)
    requires img.Valid() && n <= |img.insns|
    ensures var m := |InRange(img, img.insns[..n], s)|;
            && lo + m <= n && InRange(img, img.insns[..n], s) == img.insns[lo..lo + m]
            && (forall k: nat :: k < n ==> (Has(img, s, k) <==> lo <= k < lo + m))
  {
    if n == 0 {
      lo := 0;
    } else {
      lo := SliceUpTo(img, s, n - 1);
      assert img.insns[..n][..n - 1] == img.insns[..n - 1];
      var m := |InRange(img, img.insns[..n - 1], s)|;
      var i := img.insns[n - 1];
      assert Has(img, s, n - 1) <==> s <= i.addr && forall e :: e in img.entries && e > s ==> i.addr < e;
      if Has(img, s, n - 1) {
        if m == 0 {
          lo := n - 1;
        } else if lo + m < n - 1 {
          NoGaps(img, s, lo, n - 2, n - 1);
          assert false;
        }
      }
    }
  }

  /** The routine's list of instructions is the slice of the image that starts at `lo`. */
  ghost predicate IsSlice(img: Image, s: nat, lo: nat) {
    var body := RoutineRange(img, s);
    && lo + |body| <= |img.insns| && body == img.insns[lo..lo + |body|]
    && forall k: nat :: Has(img, s, k) <==> lo <= k < lo + |body|
  }

  lemma RangeIsSlice(img: Image, s: nat) returns (lo: nat)
    requires img.Valid()
    ensures IsSlice(img, s, lo)
  {
    lo := SliceUpTo(img, s, |img.insns|);
    assert img.insns[..|img.insns|] == img.insns;
  }

  lemma SliceFacts(img: Image, s: nat, lo: nat)
    requires img.Valid() && IsSlice(img, s, lo)
    ensures var body := RoutineRange(img, s);
            && InOrder(body) && lo + |body| <= |img.insns|
            && (forall i :: 0 <= i < |body| ==> body[i] == img.insns[lo + i] && Has(img, s, lo + i))
            && (forall k: nat :: Has(img, s, k) <==> lo <= k < lo + |body|)
            && (forall k: nat :: Has(img, s, k) ==> body[k - lo] == img.insns[k])
  {
    hide RoutineRange, Has;
  }

  /** The routine's instructions are exactly those of the image from its address up to the next symbol. */
  lemma RangeIs(img: Image, s: nat, i: Insn)
    requires img.Valid()
    ensures i in RoutineRange(img, s) <==> i in img.insns && s <= i.addr && !exists e :: e in img.entries && s < e <= i.addr
  {
    var lo := RangeIsSlice(img, s);
    SliceFacts(img, s, lo);
    hide RoutineRange;
    var body := RoutineRange(img, s);
    if i in body {
      var k :| 0 <= k < |body| && body[k] == i;
      assert img.insns[lo + k] == i && Has(img, s, lo + k);
    }
    if i in img.insns && Inside(img, s, i.addr) {
      var k :| 0 <= k < |img.insns| && img.insns[k] == i;
      assert Has(img, s, k) && body[k - lo] == i;
    }
  }

  /** They are listed in order, each once. */
  lemma RangeInOrder(img: Image, s: nat)
    requires img.Valid()
    ensures InOrder(RoutineRange(img, s))
  {
    var lo := RangeIsSlice(img, s);
    SliceFacts(img, s, lo);
  }

  /** An instruction at the symbol itself comes first. */
  lemma StartsAtSymbol(img: Image, i: Insn)
    requires img.Valid() && i in img.insns
    ensures RoutineRange(img, i.addr) != [] && RoutineRange(img, i.addr)[0] == i
  {
    var body := RoutineRange(img, i.addr);
    RangeIs(img, i.addr, i);
    RangeInOrder(img, i.addr);
    hide RoutineRange;
    var k :| 0 <= k < |body| && body[k] == i;
    if k > 0 { RangeIs(img, i.addr, body[0]); }
  }

  lemma {:induction false} LoopListMembers(body: seq<Insn>, n: nat, i: Interval)
    requires body != [] && n <= |body|
    ensures i in LoopList(body, n) <==>
              exists k :: 0 <= k < n && IsBackJump(body, body[k]) && i == Interval(body[k].target.value, body[k].addr)
  {
    if n > 0 { LoopListMembers(body, n - 1, i); }
  }

  lemma BackJumpIs(img: Image, s: nat, lo: nat, k: nat)
    requires img.Valid() && IsSlice(img, s, lo) && k < |RoutineRange(img, s)|
    ensures IsBackJump(RoutineRange(img, s), RoutineRange(img, s)[k]) <==> JumpsBack(img, s, lo + k)
  {
    SliceFacts(img, s, lo);
    hide RoutineRange, Has, IsSlice;
    var body := RoutineRange(img, s);
    assert body[0] == img.insns[lo] && body[|body| - 1] == img.insns[lo + |body| - 1];
    assert Has(img, s, lo) && Has(img, s, lo + k);
    assert forall m: nat :: Has(img, s, m) ==> img.insns[lo].addr <= img.insns[m].addr <= img.insns[lo + |body| - 1].addr;
  }

  lemma BackJumps(img: Image, s: nat, lo: nat, i: Interval)
    requires img.Valid() && IsSlice(img, s, lo) && RoutineRange(img, s) != []
    ensures (exists k :: 0 <= k < |RoutineRange(img, s)| && IsBackJump(RoutineRange(img, s), RoutineRange(img, s)[k])
                    && i == Interval(RoutineRange(img, s)[k].target.value, RoutineRange(img, s)[k].addr))
            <==> i in LoopsOf(img, s)
  {
    SliceFacts(img, s, lo);
    hide RoutineRange, IsBackJump, IsSlice;
    var body := RoutineRange(img, s);
    if k :| 0 <= k < |body| && IsBackJump(body, body[k]) && i == Interval(body[k].target.value, body[k].addr) {
      BackJumpIs(img, s, lo, k);
    }
    if k: nat :| JumpsBack(img, s, k) && i == Interval(img.insns[k].target.value, img.insns[k].addr) {
      assert Has(img, s, k);
      BackJumpIs(img, s, lo, k - lo);
      assert body[k - lo] == img.insns[k];
    }
  }

  /** The listed intervals are the loops of the routine. */
  lemma LoopsAre(img: Image, s: nat)
    requires img.Valid() && RoutineRange(img, s) != []
    ensures Loops(RoutineRange(img, s)) == LoopsOf(img, s)
  {
    hide RoutineRange, LoopList, IsSlice, IsBackJump;
    var body := RoutineRange(img, s);
    var lo := RangeIsSlice(img, s);
    forall i ensures i in Loops(body) <==> i in LoopsOf(img, s) {
      LoopListMembers(body, |body|, i);
      BackJumps(img, s, lo, i);
    }
  }

  /** Nesting by the listed intervals is nesting in the loops of the routine. */
  lemma DepthIs(img: Image, s: nat, a: nat)
    requires img.Valid() && RoutineRange(img, s) != []
    ensures Depth(LoopList(RoutineRange(img, s), |RoutineRange(img, s)|), a) == |Around(LoopsOf(img, s), a)|
  {
    hide RoutineRange;
    var body := RoutineRange(img, s);
    RangeInOrder(img, s);
    LoopsAre(img, s);
    LoopListDistinct(body, |body|);
    DepthIsCount(LoopList(body, |body|), a);
  }

  /** The scan from `j` down finds `t` exactly if the last load of the register put it there. */
  lemma {:induction false} LastMovedIs(img: Image, s: nat, lo: nat, j: nat, k: nat, reg: string, t: nat)
    requires img.Valid() && IsSlice(img, s, lo) && j <= |RoutineRange(img, s)| && k == lo + j < |img.insns|
    ensures LastMoved(RoutineRange(img, s), j, reg) == Some(t) <==>
              exists m: nat :: LastLoad(img, s, m, k, reg) && t == Loaded(img.insns[m])
    decreases j
  {
    SliceFacts(img, s, lo);
    hide RoutineRange, Has, IsSlice;
    var body := RoutineRange(img, s);
    if j == 0 {
      assert forall m: nat :: LastLoad(img, s, m, k, reg) ==> Has(img, s, m);
    } else {
      var p := body[j - 1];
      assert p == img.insns[k - 1] && Has(img, s, k - 1);
      LastMovedIs(img, s, lo, j - 1, k - 1, reg, t);
      if Loads(img, k - 1, reg) {
        assert LastLoad(img, s, k - 1, k, reg);
        forall m: nat | LastLoad(img, s, m, k, reg) ensures m == k - 1 {}
      } else if p.op.Call? || p.op.Ret? {
        forall m: nat ensures !LastLoad(img, s, m, k, reg) {}
      } else {
        EarlierLoads(img, s, k, reg);
      }
    }
  }

  lemma EarlierLoads(img: Image, s: nat, k: nat, reg: string)
    requires 0 < k < |img.insns| && !Loads(img, k - 1, reg) && !img.insns[k - 1].op.Call? && !img.insns[k - 1].op.Ret?
    ensures forall m: nat :: LastLoad(img, s, m, k, reg) <==> m < k - 1 && LastLoad(img, s, m, k - 1, reg)
  {
    hide Has;
    forall m: nat ensures LastLoad(img, s, m, k, reg) <==> m < k - 1 && LastLoad(img, s, m, k - 1, reg) {}
  }

  /** The resolved target of a call is what the call enters. */
  lemma ResolvedIs(img: Image, s: nat, lo: nat, i: nat, t: nat)
    requires img.Valid() && IsSlice(img, s, lo) && i < |RoutineRange(img, s)| && RoutineRange(img, s)[i].op.Call?
    ensures ResolveCallTarget(RoutineRange(img, s), i) == Some(t) <==> Enters(img, s, lo + i, t)
  {
    SliceFacts(img, s, lo);
    hide RoutineRange, Has, IsSlice;
    var body := RoutineRange(img, s);
    assert body[i] == img.insns[lo + i] && Has(img, s, lo + i);
    LastMovedIs(img, s, lo, i, lo + i, body[i].op.reg, t);
  }

  // ---------------------------------------------------------------- the bound

  /** What one execution of an instruction costs, given the bounds of the callees. */
  function Weight(img: Image, memo: map<nat, nat>, body: seq<Insn>, i: nat): nat
    requires i < |body|
  {
    Cyc(body[i]) + (if body[i].op.Call? then CalleeCost(memo, ResolveCallTarget(body, i)) else 0)
  }

  function CalleeCost(memo: map<nat, nat>, target: Option<nat>): nat {
    if target.Some? && target.value in memo then memo[target.value] else 0
  }

  /** The charge for the first `n` instructions. */
  function Total(img: Image, memo: map<nat, nat>, body: seq<Insn>, n: nat): nat
    requires body != [] && n <= |body|
  {
    if n == 0 then 0
    else
      Total(img, memo, body, n - 1)
      + Weight(img, memo, body, n - 1) * Power(Depth(LoopList(body, |body|), body[n - 1].addr))
  }

  /** The first `n` instructions can be bounded: nesting is limited, and calls go to known routines
      whose bound is in the table. */
  ghost predicate Resolved(img: Image, memo: map<nat, nat>, body: seq<Insn>, n: nat)
    requires body != [] && n <= |body|
  {
    forall i :: 0 <= i < n ==>
      && Depth(LoopList(body, |body|), body[i].addr) <= MAX_DEPTH
      && (body[i].op.Call? ==> IsKnown(img, memo, ResolveCallTarget(body, i)))
  }

  ghost predicate IsKnown(img: Image, memo: map<nat, nat>, target: Option<nat>) {
    target.Some? && target.value in img.entries && target.value in memo
  }

  /** Every entry of the table is the charge of its routine, with all callees in the table. */
  ghost predicate Closed(img: Image, memo: map<nat, nat>) { forall s :: s in memo ==> Explained(img, memo, s) }

  ghost predicate Explained(img: Image, memo: map<nat, nat>, s: nat)
    requires s in memo
  {
    var body := RoutineRange(img, s);
    body != [] && Resolved(img, memo, body, |body|) && memo[s] == Total(img, memo, body, |body|)
  }

  ghost predicate Extends(a: map<nat, nat>, b: map<nat, nat>) { forall s :: s in a ==> s in b && b[s] == a[s] }

  lemma {:induction false} TotalStable(img: Image, a: map<nat, nat>, b: map<nat, nat>, body: seq<Insn>, n: nat)
    requires body != [] && n <= |body| && Extends(a, b) && Resolved(img, a, body, n)
    ensures Resolved(img, b, body, n) && Total(img, b, body, n) == Total(img, a, body, n)
  {
    if n > 0 {
      TotalStable(img, a, b, body, n - 1);
      assert Weight(img, b, body, n - 1) == Weight(img, a, body, n - 1);
    }
  }

  lemma ClosedInsert(img: Image, memo: map<nat, nat>, s: nat, body: seq<Insn>)
    requires Closed(img, memo) && body == RoutineRange(img, s) && body != [] && Resolved(img, memo, body, |body|) && s !in memo
    ensures Closed(img, memo[s := Total(img, memo, body, |body|)])
  {
    var more := memo[s := Total(img, memo, body, |body|)];
    forall t | t in more ensures Explained(img, more, t) {
      if t == s {
        TotalStable(img, memo, more, body, |body|);
      } else {
        assert Explained(img, memo, t);
        TotalStable(img, memo, more, RoutineRange(img, t), |RoutineRange(img, t)|);
      }
    }
  }

  // ---------------------------------------------------------------- which routines have a bound

  /** Nesting is within the limit, calls resolve to symbols, and no chain of calls is longer than `h`. */
  ghost predicate IsCostable(img: Image, s: nat, h: nat)
    decreases h
  {
    var body := RoutineRange(img, s);
    body != [] && forall i :: 0 <= i < |body| ==>
      && Depth(LoopList(body, |body|), body[i].addr) <= MAX_DEPTH
      && (body[i].op.Call? ==>
            var t := ResolveCallTarget(body, i);
            t.Some? && t.value in img.entries && h > 0 && IsCostable(img, t.value, h - 1))
  }

  ghost predicate HasBound(img: Image, s: nat) { exists h: nat :: IsCostable(img, s, h) }

  lemma {:induction false} CostableIs(img: Image, s: nat, h: nat)
    requires img.Valid()
    ensures IsCostable(img, s, h) <==> Costable(img, s, h)
    decreases h, 1
  {
    var lo := RangeIsSlice(img, s);
    SliceFacts(img, s, lo);
    LocalFits(img, s, h);
    ImageFits(img, s, h);
    hide RoutineRange, Has, FitsAt, Fits, IsCostable, Costable, IsSlice;
    var body := RoutineRange(img, s);
    forall i: nat | i < |body| ensures FitsAt(img, s, i, h) <==> Fits(img, s, lo + i, h) { FitsIs(img, s, lo, i, h); }
    if body != [] {
      assert Has(img, s, lo + 0);
      if forall i: nat :: i < |body| ==> FitsAt(img, s, i, h) {
        forall k: nat | Has(img, s, k) ensures Fits(img, s, k, h) { assert FitsAt(img, s, k - lo, h); }
      }
      if forall k: nat :: Has(img, s, k) ==> Fits(img, s, k, h) {
        forall i: nat | i < |body| ensures FitsAt(img, s, i, h) { assert Has(img, s, lo + i) && Fits(img, s, lo + i, h); }
      }
    }
  }

  /** What `IsCostable` asks of instruction `i` of the list. */
  ghost predicate FitsAt(img: Image, s: nat, i: nat, h: nat)
    requires i < |RoutineRange(img, s)|
  {
    var body := RoutineRange(img, s);
    && Depth(LoopList(body, |body|), body[i].addr) <= MAX_DEPTH
    && (body[i].op.Call? ==>
          var t := ResolveCallTarget(body, i);
          t.Some? && t.value in img.entries && h > 0 && IsCostable(img, t.value, h - 1))
  }

  /** What `Costable` asks of instruction `k` of the image. */
  ghost predicate Fits(img: Image, s: nat, k: nat, h: nat)
    requires k < |img.insns|
  {
    && |Around(LoopsOf(img, s), img.insns[k].addr)| <= 4
    && (img.insns[k].op.Call? ==> h > 0 && exists t :: Enters(img, s, k, t) && t in img.entries && Costable(img, t, h - 1))
  }

  lemma LocalFits(img: Image, s: nat, h: nat)
    ensures IsCostable(img, s, h) <==>
              RoutineRange(img, s) != [] && forall i: nat :: i < |RoutineRange(img, s)| ==> FitsAt(img, s, i, h)
  {
    hide RoutineRange, Depth, LoopList, ResolveCallTarget;
    var body := RoutineRange(img, s);
    if body != [] && forall i: nat :: i < |body| ==> FitsAt(img, s, i, h) {
      forall i | 0 <= i < |body|
        ensures Depth(LoopList(body, |body|), body[i].addr) <= MAX_DEPTH
        ensures body[i].op.Call? ==>
                  var t := ResolveCallTarget(body, i);
                  t.Some? && t.value in img.entries && h > 0 && IsCostable(img, t.value, h - 1)
      {
        assert FitsAt(img, s, i, h);
      }
    }
  }

  lemma ImageFits(img: Image, s: nat, h: nat)
    ensures Costable(img, s, h) <==>
              (exists k: nat :: Has(img, s, k)) && forall k: nat :: Has(img, s, k) ==> Fits(img, s, k, h)
  {
    hide LoopsOf, Around, Enters, Inside;
  }

  lemma {:induction false} FitsIs(img: Image, s: nat, lo: nat, i: nat, h: nat)
    requires img.Valid() && IsSlice(img, s, lo) && i < |RoutineRange(img, s)|
    ensures FitsAt(img, s, i, h) <==> Fits(img, s, lo + i, h)
    decreases h, 0
  {
    SliceFacts(img, s, lo);
    hide RoutineRange, Has, Depth, LoopList, LoopsOf, Around, ResolveCallTarget, Enters, IsCostable, Costable, IsSlice;
    var body := RoutineRange(img, s);
    assert body[i] == img.insns[lo + i];
    DepthIs(img, s, body[i].addr);
    var k := lo + i;
    if body[i].op.Call? && h > 0 {
      forall t: nat ensures ResolveCallTarget(body, i) == Some(t) <==> Enters(img, s, k, t) { ResolvedIs(img, s, lo, i, t); }
      var g := h - 1;
      forall t: nat ensures IsCostable(img, t, g) <==> Costable(img, t, g) { CostableIs(img, t, g); }
    }
  }

  lemma BoundIs(img: Image, s: nat)
    requires img.Valid()
    ensures HasBound(img, s) <==> CanBeBounded(img, s)
  {
    hide IsCostable, Costable;
    forall h: nat ensures IsCostable(img, s, h) <==> Costable(img, s, h) { CostableIs(img, s, h); }
  }

  /** The same, and no chain of calls meets a routine of the stack or itself. */
  ghost predicate IsCostableOff(img: Image, s: nat, stack: set<nat>, h: nat)
    decreases h
  {
    var body := RoutineRange(img, s);
    s !in stack && body != [] && forall i :: 0 <= i < |body| ==>
      && Depth(LoopList(body, |body|), body[i].addr) <= MAX_DEPTH
      && (body[i].op.Call? ==>
            var t := ResolveCallTarget(body, i);
            t.Some? && t.value in img.entries && h > 0 && IsCostableOff(img, t.value, stack + {s}, h - 1))
  }

  ghost predicate HasBoundOff(img: Image, s: nat, stack: set<nat>) { exists h: nat :: IsCostableOff(img, s, stack, h) }

  lemma {:induction false} Taller(img: Image, s: nat, h: nat, k: nat)
    requires IsCostable(img, s, h) && h <= k
    ensures IsCostable(img, s, k)
    decreases h
  {
    hide RoutineRange, Depth, LoopList, ResolveCallTarget;
    var body := RoutineRange(img, s);
    forall i | 0 <= i < |body| && body[i].op.Call? ensures k > 0 && IsCostable(img, ResolveCallTarget(body, i).value, k - 1) {
      Taller(img, ResolveCallTarget(body, i).value, h - 1, k - 1);
    }
  }

  lemma {:induction false} TallerOff(img: Image, s: nat, stack: set<nat>, h: nat, k: nat)
    requires IsCostableOff(img, s, stack, h) && h <= k
    ensures IsCostableOff(img, s, stack, k)
    decreases h
  {
    hide RoutineRange, Depth, LoopList, ResolveCallTarget;
    var body := RoutineRange(img, s);
    forall i | 0 <= i < |body| && body[i].op.Call? ensures k > 0 && IsCostableOff(img, ResolveCallTarget(body, i).value, stack + {s}, k - 1) {
      TallerOff(img, ResolveCallTarget(body, i).value, stack + {s}, h - 1, k - 1);
    }
  }

  lemma {:induction false} LeastHeight(img: Image, s: nat, h: nat) returns (k: nat)
    requires IsCostable(img, s, h)
    ensures k <= h && IsCostable(img, s, k) && (k > 0 ==> !IsCostable(img, s, k - 1))
  {
    hide IsCostable;
    if h > 0 && IsCostable(img, s, h - 1) { k := LeastHeight(img, s, h - 1); } else { k := h; }
  }

  /** Chains of calls that end never come back, so the stack stays out of the way. */
  lemma {:induction false} NeverComesBack(img: Image, s: nat, stack: set<nat>, h: nat)
    requires IsCostable(img, s, h) && forall t :: t in stack ==> !IsCostable(img, t, h)
    ensures IsCostableOff(img, s, stack, h)
    decreases h
  {
    var k := LeastHeight(img, s, h);
    var body := RoutineRange(img, s);
    forall i | 0 <= i < |body| && body[i].op.Call?
      ensures k > 0 && IsCostableOff(img, ResolveCallTarget(body, i).value, stack + {s}, k - 1)
    {
      hide RoutineRange, Depth, LoopList, ResolveCallTarget;
      assert k > 0 && IsCostable(img, ResolveCallTarget(body, i).value, k - 1);
      forall t | t in stack + {s} ensures !IsCostable(img, t, k - 1) {
        if IsCostable(img, t, k - 1) { Taller(img, t, k - 1, h); }
      }
      NeverComesBack(img, ResolveCallTarget(body, i).value, stack + {s}, k - 1);
    }
    TallerOff(img, s, stack, k, h);
  }

  lemma BoundOffNothing(img: Image, s: nat)
    requires HasBound(img, s)
    ensures HasBoundOff(img, s, {})
  {
    var h: nat :| IsCostable(img, s, h);
    NeverComesBack(img, s, {}, h);
  }

  lemma {:induction false} WeightBelowTotal(img: Image, memo: map<nat, nat>, body: seq<Insn>, n: nat, i: nat)
    requires body != [] && i < n <= |body|
    ensures Weight(img, memo, body, i) <= Total(img, memo, body, n)
  {
    hide Weight;
    var w, q := Weight(img, memo, body, n - 1), Power(Depth(LoopList(body, |body|), body[n - 1].addr));
    PowerPositive(Depth(LoopList(body, |body|), body[n - 1].addr));
    AtLeastOnce(w, q);
    if i < n - 1 { WeightBelowTotal(img, memo, body, n - 1, i); }
  }

  lemma AtLeastOnce(w: nat, q: nat)
    requires q >= 1
    ensures w <= w * q
  {}

  lemma {:induction false} PowerPositive(d: nat)
    ensures Power(d) >= 1
  {
    if d > 0 { PowerPositive(d - 1); }
  }

  /** A table entry exceeds those of the routines called, so its chains of calls end. */
  lemma {:induction false} TableIsCostable(img: Image, memo: map<nat, nat>, s: nat)
    requires Closed(img, memo) && s in memo
    ensures IsCostable(img, s, memo[s])
    decreases memo[s]
  {
    var body := RoutineRange(img, s);
    assert Explained(img, memo, s);
    hide RoutineRange, Depth, LoopList, ResolveCallTarget, Closed, Explained, Total;
    forall i | 0 <= i < |body| && body[i].op.Call?
      ensures memo[s] > 0 && IsCostable(img, ResolveCallTarget(body, i).value, memo[s] - 1)
    {
      var t := ResolveCallTarget(body, i).value;
      assert IsKnown(img, memo, ResolveCallTarget(body, i));
      WeightBelowTotal(img, memo, body, |body|, i);
      assert Weight(img, memo, body, i) == Cyc(body[i]) + memo[t];
      TableIsCostable(img, memo, t);
      Taller(img, t, memo[t], memo[s] - 1);
    }
  }

  lemma TableHasBound(img: Image, memo: map<nat, nat>, s: nat)
    requires Closed(img, memo) && s in memo
    ensures HasBound(img, s)
  {
    TableIsCostable(img, memo, s);
  }

  lemma NothingThere(img: Image, s: nat, stack: set<nat>)
    requires RoutineRange(img, s) == [] || s in stack
    ensures !HasBoundOff(img, s, stack)
  {}

  /** An instruction that cannot be bounded is the routine's undoing. */
  lemma Blocked(img: Image, s: nat, stack: set<nat>, body: seq<Insn>, i: nat)
    requires body == RoutineRange(img, s) && i < |body|
    requires || Depth(LoopList(body, |body|), body[i].addr) > MAX_DEPTH
             || (body[i].op.Call? &&
                 var t := ResolveCallTarget(body, i); t.None? || t.value !in img.entries || !HasBoundOff(img, t.value, stack + {s}))
    ensures !HasBoundOff(img, s, stack)
  {
    hide RoutineRange, Depth, LoopList, ResolveCallTarget;
    forall h: nat ensures !IsCostableOff(img, s, stack, h) {
      var t := ResolveCallTarget(body, i);
      assert h > 0 && t.Some? && !HasBoundOff(img, t.value, stack + {s}) ==> !IsCostableOff(img, t.value, stack + {s}, h - 1);
    }
  }

  // ---------------------------------------------------------------- the computation

  lemma FewerLeft(entries: set<nat>, stack: set<nat>, s: nat)
    requires s in entries && s !in stack
    ensures |entries - (stack + {s})| < |entries - stack|
  {
    assert entries - stack == (entries - (stack + {s})) + {s};
  }

  /** The bound of the routine at `start`, or None if it recurses, is empty, nests too deep or makes
      a call that cannot be resolved. From an empty stack it is found exactly when there is one. */
  method Cost(img: Image, start: nat, memo0: map<nat, nat>, stack0: set<nat>) returns (r: Option<nat>, memo: map<nat, nat>)
    requires img.Valid() && Closed(img, memo0) && start in img.entries
    ensures Closed(img, memo) && Extends(memo0, memo)
    ensures r.Some? ==> start in memo && memo[start] == r.value
    ensures start in memo0 ==> r == Some(memo0[start]) && memo == memo0
    ensures start !in memo0 && start in stack0 ==> r == None
    ensures r.Some? ==> HasBound(img, start)
    ensures HasBoundOff(img, start, stack0) ==> r.Some?
    ensures stack0 == {} ==> (r.Some? <==> CanBeBounded(img, start))
    ensures r.Some? ==> r.value == RoutineCharge(img, memo, start, |img.insns|)
    decreases |img.entries - stack0|
  {
    hide Closed, Resolved, Total, Explained, LoopList, RoutineRange, Depth, Power, ResolveCallTarget, InOrder, HasBound, IsCostableOff, CanBeBounded, RoutineCharge;
    memo := memo0;
    BoundIs(img, start);
    if start in memo {
      TableHasBound(img, memo, start);
      EntryIsCharge(img, memo, start);
      return Some(memo[start]), memo;
    }
    if stack0 == {} && HasBound(img, start) { BoundOffNothing(img, start); }
    if start in stack0 {
      NothingThere(img, start, stack0);
      return None, memo;
    }
    FewerLeft(img.entries, stack0, start);
    var stack := stack0 + {start};
    var body := RoutineRange(img, start);
    if body == [] {
      NothingThere(img, start, stack0);
      return None, memo;
    }
    var loops := LoopList(body, |body|);
    var total := 0;
    NothingCharged(img, memo, body);
    for idx := 0 to |body|
      invariant Closed(img, memo) && Extends(memo0, memo)
      invariant Resolved(img, memo, body, idx) && total == Total(img, memo, body, idx)
    {
      var d := Depth(loops, body[idx].addr);
      if d > MAX_DEPTH {
        Blocked(img, start, stack0, body, idx);
        return None, memo;
      }
      var sub := 0;
      if body[idx].op.Call? {
        var target := ResolveCallTarget(body, idx);
        if target.None? || target.value !in img.entries {
          Blocked(img, start, stack0, body, idx);
          return None, memo;
        }
        ghost var before := memo;
        var inner;
        inner, memo := Cost(img, target.value, memo, stack);
        TotalStable(img, before, memo, body, idx);
        if inner.None? {
          Blocked(img, start, stack0, body, idx);
          return None, memo;
        }
        sub := inner.value;
      }
      Charge(img, memo, body, idx, sub, total, d);
      total := total + Cyc(body[idx]) * Power(d) + sub * Power(d);
    }
    if start in memo { InsertAgain(img, memo, start, body); } else { ClosedInsert(img, memo, start, body); }
    memo := memo[start := total];
    TableHasBound(img, memo, start);
    EntryIsCharge(img, memo, start);
    return Some(total), memo;
  }

  lemma NothingCharged(img: Image, memo: map<nat, nat>, body: seq<Insn>)
    requires body != []
    ensures Resolved(img, memo, body, 0) && Total(img, memo, body, 0) == 0
  {}

  lemma InsertAgain(img: Image, memo: map<nat, nat>, s: nat, body: seq<Insn>)
    requires Closed(img, memo) && s in memo && body == RoutineRange(img, s) && body != []
    ensures memo[s := Total(img, memo, body, |body|)] == memo
  {
    assert Explained(img, memo, s);
  }

  lemma Charge(img: Image, memo: map<nat, nat>, body: seq<Insn>, idx: nat, sub: nat, total: nat, d: nat)
    requires body != [] && idx < |body| && Resolved(img, memo, body, idx) && total == Total(img, memo, body, idx)
    requires d == Depth(LoopList(body, |body|), body[idx].addr) && d <= MAX_DEPTH
    requires if body[idx].op.Call? then
               IsKnown(img, memo, ResolveCallTarget(body, idx)) && memo[ResolveCallTarget(body, idx).value] == sub
             else sub == 0
    ensures Resolved(img, memo, body, idx + 1)
    ensures total + Cyc(body[idx]) * Power(d) + sub * Power(d) == Total(img, memo, body, idx + 1)
  {
    assert Weight(img, memo, body, idx) == Cyc(body[idx]) + sub;
    Distribute(Cyc(body[idx]), sub, Power(d));
  }

  lemma Distribute(a: nat, b: nat, c: nat)
    ensures (a + b) * c == a * c + b * c
  {}

  // ---------------------------------------------------------------- positions in the routine

  function BodyAddresses(body: seq<Insn>, steps: seq<nat>): seq<nat>
    requires forall k :: 0 <= k < |steps| ==> steps[k] < |body|
  {
    seq(|steps|, k requires 0 <= k < |steps| => body[steps[k]].addr)
  }

  // ---------------------------------------------------------------- the bound holds

  /** The summed weights of the instructions executed. */
  ghost function Weights(img: Image, memo: map<nat, nat>, body: seq<Insn>, steps: seq<nat>): nat
    requires forall k :: 0 <= k < |steps| ==> steps[k] < |body|
  {
    if steps == [] then 0 else Weights(img, memo, body, steps[..|steps| - 1]) + Weight(img, memo, body, steps[|steps| - 1])
  }

  /** The same sum, instruction by instruction. */
  ghost function ByInsn(img: Image, memo: map<nat, nat>, body: seq<Insn>, steps: seq<nat>, n: nat): nat
    requires n <= |body| && forall k :: 0 <= k < |steps| ==> steps[k] < |body|
  {
    if n == 0 then 0
    else ByInsn(img, memo, body, steps, n - 1) + Weight(img, memo, body, n - 1) * Visits(BodyAddresses(body, steps), body[n - 1].addr)
  }

  lemma VisitStep(body: seq<Insn>, steps: seq<nat>, a: nat)
    requires steps != [] && forall k :: 0 <= k < |steps| ==> steps[k] < |body|
    ensures Visits(BodyAddresses(body, steps), a) ==
            Visits(BodyAddresses(body, steps[..|steps| - 1]), a) + (if body[steps[|steps| - 1]].addr == a then 1 else 0)
  {
    assert BodyAddresses(body, steps)[..|steps| - 1] == BodyAddresses(body, steps[..|steps| - 1]);
  }

  lemma {:induction false} ByInsnStep(img: Image, memo: map<nat, nat>, body: seq<Insn>, steps: seq<nat>, n: nat)
    requires InOrder(body) && n <= |body| && steps != [] && forall k :: 0 <= k < |steps| ==> steps[k] < |body|
    ensures var j := steps[|steps| - 1];
            ByInsn(img, memo, body, steps, n) ==
            ByInsn(img, memo, body, steps[..|steps| - 1], n) + (if j < n then Weight(img, memo, body, j) else 0)
  {
    hide Weight, Addresses, Visits, InOrder;
    if n > 0 {
      ByInsnStep(img, memo, body, steps, n - 1);
      VisitStep(body, steps, body[n - 1].addr);
      SameAddress(body, steps[|steps| - 1], n - 1);
      OneMoreVisit(Weight(img, memo, body, n - 1), Visits(BodyAddresses(body, steps[..|steps| - 1]), body[n - 1].addr));
    }
  }

  lemma SameAddress(body: seq<Insn>, i: nat, j: nat)
    requires InOrder(body) && i < |body| && j < |body|
    ensures body[i].addr == body[j].addr <==> i == j
  {}

  lemma OneMoreVisit(w: nat, v: nat)
    ensures w * (v + 1) == w * v + w && w * (v + 0) == w * v
  {}

  lemma {:induction false} ByInsnNone(img: Image, memo: map<nat, nat>, body: seq<Insn>, n: nat)
    requires n <= |body|
    ensures ByInsn(img, memo, body, [], n) == 0
  {
    if n > 0 { ByInsnNone(img, memo, body, n - 1); }
  }

  lemma {:induction false} WeightsByInsn(img: Image, memo: map<nat, nat>, body: seq<Insn>, steps: seq<nat>)
    requires InOrder(body) && forall k :: 0 <= k < |steps| ==> steps[k] < |body|
    ensures Weights(img, memo, body, steps) == ByInsn(img, memo, body, steps, |body|)
  {
    if steps == [] {
      ByInsnNone(img, memo, body, |body|);
    } else {
      WeightsByInsn(img, memo, body, steps[..|steps| - 1]);
      ByInsnStep(img, memo, body, steps, |body|);
    }
  }

  lemma ScaleUp(w: nat, v: nat, p: nat)
    requires v <= p
    ensures w * v <= w * p
  {}

  /** Charged per visit, the instructions cost no more than charged per possible round. */
  lemma {:induction false} ByInsnBelowTotal(img: Image, memo: map<nat, nat>, body: seq<Insn>, steps: seq<nat>, n: nat)
    requires InOrder(body) && body != [] && n <= |body| && forall k :: 0 <= k < |steps| ==> steps[k] < |body|
    requires Laminar(Loops(body)) && LoopIntervals.IsPath(Loops(body), BodyAddresses(body, steps)) && Bounded(Loops(body), BodyAddresses(body, steps))
    ensures ByInsn(img, memo, body, steps, n) <= Total(img, memo, body, n)
  {
    if n > 0 {
      ByInsnBelowTotal(img, memo, body, steps, n - 1);
      LoopListDistinct(body, |body|);
      DepthIsCount(LoopList(body, |body|), body[n - 1].addr);
      VisitsBound(Loops(body), BodyAddresses(body, steps), body[n - 1].addr);
      ScaleUp(Weight(img, memo, body, n - 1), Visits(BodyAddresses(body, steps), body[n - 1].addr),
              Power(Depth(LoopList(body, |body|), body[n - 1].addr)));
    }
  }

  /** The steps of a run as positions in the routine's list of instructions. */
  ghost function Local(img: Image, r: Run, lo: nat): seq<nat>
    requires IsRun(img, r) && forall k: nat :: Has(img, r.start, k) ==> lo <= k
  {
    seq(|r.steps|, k requires 0 <= k < |r.steps| => r.steps[k] - lo)
  }

  lemma {:induction false} StepsBelowWeights(img: Image, memo: map<nat, nat>, r: Run, lo: nat, k: nat)
    requires img.Valid() && Closed(img, memo) && r.start in memo && IsRun(img, r) && IsSlice(img, r.start, lo) && k <= |r.steps|
    requires |Local(img, r, lo)| == |r.steps| && forall i :: 0 <= i < |r.steps| ==> Local(img, r, lo)[i] < |RoutineRange(img, r.start)|
    ensures StepsCost(img, r, k) <= Weights(img, memo, RoutineRange(img, r.start), Local(img, r, lo)[..k])
    decreases r, k
  {
    if k > 0 {
      var steps := Local(img, r, lo);
      StepsBelowWeights(img, memo, r, lo, k - 1);
      assert steps[..k][..k - 1] == steps[..k - 1];
      StepBelowWeight(img, memo, r, lo, k);
    }
  }

  /** What the last of the first `k` steps costs, with the call it makes. */
  ghost function StepCost(img: Image, r: Run, k: nat): nat
    requires 0 < k <= |r.steps| && IsRun(img, r)
  {
    Takes(img.insns[r.steps[k - 1]]) + (if r.calls[k - 1].Some? then RunCost(img, r.calls[k - 1].value) else 0)
  }

  lemma {:induction false} StepBelowWeight(img: Image, memo: map<nat, nat>, r: Run, lo: nat, k: nat)
    requires img.Valid() && Closed(img, memo) && r.start in memo && IsRun(img, r) && IsSlice(img, r.start, lo) && 0 < k <= |r.steps|
    requires |Local(img, r, lo)| == |r.steps| && forall i :: 0 <= i < |r.steps| ==> Local(img, r, lo)[i] < |RoutineRange(img, r.start)|
    ensures StepCost(img, r, k) <= Weight(img, memo, RoutineRange(img, r.start), Local(img, r, lo)[k - 1])
    decreases r, k, 0
  {
    hide *;
    StepFacts(img, memo, r, lo, k);
    var body, i := RoutineRange(img, r.start), Local(img, r, lo)[k - 1];
    TakesIsCyc(body[i]);
    if r.calls[k - 1].Some? {
      ResolvedIs(img, r.start, lo, i, r.calls[k - 1].value.start);
      WithinBound(img, memo, r.calls[k - 1].value);
      CallWeight(img, memo, body, i, r.calls[k - 1].value.start);
    } else {
      PlainWeight(img, memo, body, i);
    }
    StepCostIs(img, r, k);
  }

  lemma StepCostIs(img: Image, r: Run, k: nat)
    requires 0 < k <= |r.steps| && IsRun(img, r)
    ensures |r.calls| == |r.steps| && r.steps[k - 1] < |img.insns| && (r.calls[k - 1].Some? ==> IsRun(img, r.calls[k - 1].value))
    ensures StepCost(img, r, k) ==
            Takes(img.insns[r.steps[k - 1]]) + (if r.calls[k - 1].Some? then RunCost(img, r.calls[k - 1].value) else 0)
  {}

  lemma CallWeight(img: Image, memo: map<nat, nat>, body: seq<Insn>, i: nat, t: nat)
    requires i < |body| && body[i].op.Call? && ResolveCallTarget(body, i) == Some(t) && t in memo
    ensures Weight(img, memo, body, i) == Cyc(body[i]) + memo[t]
  {}

  lemma PlainWeight(img: Image, memo: map<nat, nat>, body: seq<Insn>, i: nat)
    requires i < |body|
    ensures Weight(img, memo, body, i) >= Cyc(body[i])
  {}

  /** A step of a run is one of the routine's instructions; its call goes to a routine in the table. */
  lemma StepFacts(img: Image, memo: map<nat, nat>, r: Run, lo: nat, k: nat)
    requires img.Valid() && Closed(img, memo) && r.start in memo && IsRun(img, r) && IsSlice(img, r.start, lo) && 0 < k <= |r.steps|
    requires |Local(img, r, lo)| == |r.steps| && forall i :: 0 <= i < |r.steps| ==> Local(img, r, lo)[i] < |RoutineRange(img, r.start)|
    ensures |r.calls| == |r.steps| && r.steps[k - 1] < |img.insns|
    ensures forall m: nat :: Has(img, r.start, m) ==> lo <= m
    ensures var body, i := RoutineRange(img, r.start), Local(img, r, lo)[k - 1];
            && lo + i == r.steps[k - 1] && body[i] == img.insns[r.steps[k - 1]]
            && (r.calls[k - 1].Some? ==>
                  && body[i].op.Call? && Enters(img, r.start, lo + i, r.calls[k - 1].value.start) && IsRun(img, r.calls[k - 1].value)
                  && r.calls[k - 1].value.start in memo)
  {
    hide RoutineRange, Closed, StepsCost, Laminar, Bounded, IsPath, ResolveCallTarget, Depth, LoopList, Total, LoopsOf, Enters;
    var body, i := RoutineRange(img, r.start), Local(img, r, lo)[k - 1];
    assert Has(img, r.start, r.steps[k - 1]);
    if r.calls[k - 1].Some? {
      ResolvedIs(img, r.start, lo, i, r.calls[k - 1].value.start);
      CalleesKnown(img, memo, r.start, i);
    }
  }

  lemma CalleesKnown(img: Image, memo: map<nat, nat>, s: nat, i: nat)
    requires Closed(img, memo) && s in memo && i < |RoutineRange(img, s)| && RoutineRange(img, s)[i].op.Call?
    ensures IsKnown(img, memo, ResolveCallTarget(RoutineRange(img, s), i))
  {
    assert Explained(img, memo, s);
  }

  lemma TakesIsCyc(i: Insn)
    ensures Takes(i) == Cyc(i)
  {}

  /** A whole run of a routine, nested calls included, costs at most the routine's table entry. */
  lemma {:induction false} WithinBound(img: Image, memo: map<nat, nat>, r: Run)
    requires img.Valid() && Closed(img, memo) && r.start in memo && IsRun(img, r)
    ensures RunCost(img, r) <= memo[r.start]
    decreases r, |r.steps| + 1
  {
    var body := RoutineRange(img, r.start);
    var lo := RangeIsSlice(img, r.start);
    assert Explained(img, memo, r.start);
    var steps := Local(img, r, lo);
    StepsBelowWeights(img, memo, r, lo, |r.steps|);
    assert steps[..|steps|] == steps;
    LocalRun(img, r, lo);
    hide IsRun, RoutineRange, Closed, Explained, Has, IsSlice;
    WeightsByInsn(img, memo, body, steps);
    ByInsnBelowTotal(img, memo, body, steps, |body|);
  }

  /** In its list of instructions the run makes the same moves. */
  lemma LocalRun(img: Image, r: Run, lo: nat)
    requires img.Valid() && IsRun(img, r) && IsSlice(img, r.start, lo) && RoutineRange(img, r.start) != []
    ensures var body, steps := RoutineRange(img, r.start), Local(img, r, lo);
            && InOrder(body) && (forall k :: 0 <= k < |steps| ==> steps[k] < |body|)
            && Laminar(Loops(body)) && IsPath(Loops(body), BodyAddresses(body, steps)) && Bounded(Loops(body), BodyAddresses(body, steps))
  {
    var body, steps := RoutineRange(img, r.start), Local(img, r, lo);
    RangeInOrder(img, r.start);
    LoopsAre(img, r.start);
    forall k | 0 <= k < |steps| ensures steps[k] < |body| && body[steps[k]] == img.insns[r.steps[k]] {
      assert Has(img, r.start, r.steps[k]);
    }
    assert BodyAddresses(body, steps) == Addresses(img, r.steps);
  }

  // ---------------------------------------------------------------- what the table holds

  lemma {:induction false} RoundsArePower(d: nat)
    ensures Rounds(d) == Power(d)
  {
    if d > 0 { RoundsArePower(d - 1); }
  }

  lemma EntersOne(img: Image, s: nat, k: nat, t: nat, u: nat)
    requires Enters(img, s, k, t) && Enters(img, s, k, u)
    ensures t == u
  {
    if img.insns[k].target.None? {
      var reg := img.insns[k].op.reg;
      var i: nat :| LastLoad(img, s, i, k, reg) && t == Loaded(img.insns[i]);
      var j: nat :| LastLoad(img, s, j, k, reg) && u == Loaded(img.insns[j]);
      assert i == j;
    }
  }

  lemma WeightIs(img: Image, memo: map<nat, nat>, s: nat, lo: nat, k: nat)
    requires img.Valid() && Closed(img, memo) && s in memo && IsSlice(img, s, lo) && k < |RoutineRange(img, s)|
    ensures Weight(img, memo, RoutineRange(img, s), k) == Takes(img.insns[lo + k]) + CalleeBound(img, memo, s, lo + k)
  {
    var body := RoutineRange(img, s);
    TakesIsCyc(body[k]);
    assert Explained(img, memo, s);
    if body[k].op.Call? {
      assert IsKnown(img, memo, ResolveCallTarget(body, k));
      var t := ResolveCallTarget(body, k).value;
      ResolvedIs(img, s, lo, k, t);
      var j := lo + k;
      forall u: nat | Enters(img, s, j, u) ensures u == t { EntersOne(img, s, j, t, u); }
    }
  }

  lemma {:induction false} TotalIs(img: Image, memo: map<nat, nat>, s: nat, lo: nat, n: nat)
    requires img.Valid() && Closed(img, memo) && s in memo && IsSlice(img, s, lo) && n <= |img.insns| && RoutineRange(img, s) != []
    ensures var body := RoutineRange(img, s);
            RoutineCharge(img, memo, s, n) ==
            if n <= lo then 0 else Total(img, memo, body, if n - lo <= |body| then n - lo else |body|)
  {
    hide RoutineRange, Closed, Weight, CalleeBound, Has, Takes, Depth, LoopList, LoopsOf, Around, Rounds, Power;
    if n > 0 {
      TotalIs(img, memo, s, lo, n - 1);
      var body := RoutineRange(img, s);
      if lo < n <= lo + |body| {
        var k := n - 1 - lo;
        WeightIs(img, memo, s, lo, k);
        DepthIs(img, s, img.insns[n - 1].addr);
        RoundsArePower(|Around(LoopsOf(img, s), img.insns[n - 1].addr)|);
        assert body[k] == img.insns[n - 1];
      }
    }
  }

  /** A table entry is exactly the charge of its routine, read off the image. */
  lemma EntryIsCharge(img: Image, memo: map<nat, nat>, s: nat)
    requires img.Valid() && Closed(img, memo) && s in memo
    ensures memo[s] == RoutineCharge(img, memo, s, |img.insns|)
  {
    var lo := RangeIsSlice(img, s);
    assert Explained(img, memo, s);
    TotalIs(img, memo, s, lo, |img.insns|);
  }
}
