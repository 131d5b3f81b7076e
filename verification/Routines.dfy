/** Disassembled library routines: which instructions, loops and callees a routine has, how it runs
    and what a run takes. */
module Routines {
  import opened ReplacementPolicy
  import opened LoopIntervals

  /** What matters of a disassembled instruction. Register lists push or pop `count` registers. */
  datatype Op = PushPop(count: Option<nat>) | Call(reg: string) | Ret | Jump | MovA(dest: string, imm: Option<nat>) | Other

  /** `target` is the address the disassembler resolved for the instruction, if any. */
  datatype Insn = Insn(addr: nat, op: Op, target: Option<nat>)

  /** The instructions in address order and the addresses of the real symbols. */
  datatype Image = Image(insns: seq<Insn>, entries: set<nat>) {
    ghost predicate Valid() { InOrder(insns) }
  }

  ghost predicate InOrder(body: seq<Insn>) { forall i, j :: 0 <= i < j < |body| ==> body[i].addr < body[j].addr }

  // ---------------------------------------------------------------- what belongs to a routine

  /** The address is at or behind `s`, and no other symbol lies on the way. */
  ghost predicate Inside(img: Image, s: nat, a: nat) { s <= a && !exists e :: e in img.entries && s < e <= a }

  /** Instruction `k` belongs to the routine at `s`. */
  ghost predicate Has(img: Image, s: nat, k: nat) { k < |img.insns| && Inside(img, s, img.insns[k].addr) }

  /** Instruction `k` jumps back inside the routine, or to itself. */
  ghost predicate JumpsBack(img: Image, s: nat, k: nat) {
    && Has(img, s, k) && img.insns[k].op.Jump? && img.insns[k].target.Some?
    && img.insns[k].target.value <= img.insns[k].addr
    && exists m: nat :: Has(img, s, m) && img.insns[m].addr <= img.insns[k].target.value
  }

  /** The loops of the routine: from the target of each such jump to the jump. */
  ghost function LoopsOf(img: Image, s: nat): (loops: set<Interval>)
    ensures forall i :: i in loops <==> exists k: nat :: JumpsBack(img, s, k) && i == Interval(img.insns[k].target.value, img.insns[k].addr)
  {
    set k | 0 <= k < |img.insns| && JumpsBack(img, s, k) :: Interval(img.insns[k].target.value, img.insns[k].addr)
  }

  /** Instruction `j` tells what register `reg` holds: the resolved target, or else the operand. */
  ghost predicate Loads(img: Image, j: nat, reg: string)
    requires j < |img.insns|
  {
    img.insns[j].op.MovA? && img.insns[j].op.dest == reg && (img.insns[j].target.Some? || img.insns[j].op.imm.Some?)
  }

  /** The call at `k` enters `t`: its resolved target, or else what the last load of its register in the
      routine put there, with no call or return since. */
  ghost predicate Enters(img: Image, s: nat, k: nat, t: nat) {
    && Has(img, s, k) && img.insns[k].op.Call?
    && if img.insns[k].target.Some? then t == img.insns[k].target.value
       else exists j: nat :: LastLoad(img, s, j, k, img.insns[k].op.reg) && t == Loaded(img.insns[j])
  }

  function Loaded(i: Insn): nat {
    if i.target.Some? then i.target.value else if i.op.MovA? && i.op.imm.Some? then i.op.imm.value else 0
  }

  ghost predicate LastLoad(img: Image, s: nat, j: nat, k: nat, reg: string) {
    && j < k < |img.insns| && Has(img, s, j) && Loads(img, j, reg)
    && forall m: nat :: j < m < k ==> !Loads(img, m, reg) && !img.insns[m].op.Call? && !img.insns[m].op.Ret?
  }

  // ---------------------------------------------------------------- what can be bounded, and by what

  /** The cycles allowed for one execution. */
  function Takes(i: Insn): nat {
    match i.op
    case PushPop(Some(n)) => 2 + n
    case PushPop(None) => 18
    case _ => 8
  }

  /** The routine has instructions, none inside more than four loops, and every call enters a symbol whose
      routine is so too, with chains of at most `h` calls. */
  ghost predicate Costable(img: Image, s: nat, h: nat)
    decreases h
  {
    && (exists k: nat :: Has(img, s, k))
    && forall k: nat :: Has(img, s, k) ==>
         && |Around(LoopsOf(img, s), img.insns[k].addr)| <= 4
         && (img.insns[k].op.Call? ==>
               h > 0 && exists t :: Enters(img, s, k, t) && t in img.entries && Costable(img, t, h - 1))
  }

  ghost predicate CanBeBounded(img: Image, s: nat) { exists h: nat :: Costable(img, s, h) }

  function Rounds(depth: nat): nat { if depth == 0 then 1 else 64 * Rounds(depth - 1) }

  /** What the call at `k` adds, by the table. */
  ghost function CalleeBound(img: Image, memo: map<nat, nat>, s: nat, k: nat): nat {
    if t :| Enters(img, s, k, t) && t in memo then memo[t] else 0
  }

  /** The charge for those of the first `n` instructions of the image that belong to the routine: each with
      its callee, 64 times for each loop around it. */
  ghost function RoutineCharge(img: Image, memo: map<nat, nat>, s: nat, n: nat): nat
    requires n <= |img.insns|
  {
    if n == 0 then 0
    else
      RoutineCharge(img, memo, s, n - 1)
      + (if Has(img, s, n - 1) then
           (Takes(img.insns[n - 1]) + CalleeBound(img, memo, s, n - 1)) * Rounds(|Around(LoopsOf(img, s), img.insns[n - 1].addr)|)
         else 0)
  }

  // ---------------------------------------------------------------- runs

  /** An activation: the instructions of the image it executed, with the activation each call made. */
  datatype Run = Run(start: nat, steps: seq<nat>, calls: seq<Option<Run>>)

  /** The activation stays in its routine, moves forward or along backward jumps whose intervals nest, goes
      round each loop at most 64 times per arrival, and its calls enter what they resolve to. */
  ghost predicate IsRun(img: Image, r: Run)
    decreases r
  {
    && r.steps != [] && |r.calls| == |r.steps|
    && (forall k :: 0 <= k < |r.steps| ==> Has(img, r.start, r.steps[k]))
    && Laminar(LoopsOf(img, r.start)) && IsPath(LoopsOf(img, r.start), Addresses(img, r.steps))
    && Bounded(LoopsOf(img, r.start), Addresses(img, r.steps))
    && (forall k :: 0 <= k < |r.steps| ==>
          if img.insns[r.steps[k]].op.Call? then
            r.calls[k].Some? && Enters(img, r.start, r.steps[k], r.calls[k].value.start) && IsRun(img, r.calls[k].value)
          else r.calls[k].None?)
  }

  ghost function Addresses(img: Image, steps: seq<nat>): seq<nat>
    requires forall k :: 0 <= k < |steps| ==> steps[k] < |img.insns|
  {
    seq(|steps|, k requires 0 <= k < |steps| => img.insns[steps[k]].addr)
  }

  /** The cycles of the first `k` instructions executed, calls included. */
  ghost function StepsCost(img: Image, r: Run, k: nat): nat
    requires k <= |r.steps| && IsRun(img, r)
    decreases r, k
  {
    if k == 0 then 0
    else
      StepsCost(img, r, k - 1) + Takes(img.insns[r.steps[k - 1]])
      + (if r.calls[k - 1].Some? then StepsCost(img, r.calls[k - 1].value, |r.calls[k - 1].value.steps|) else 0)
  }

  ghost function RunCost(img: Image, r: Run): nat
    requires IsRun(img, r)
  {
    StepsCost(img, r, |r.steps|)
  }
}
