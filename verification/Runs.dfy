/** Real executions of a program with calls, loops and recursion, and how often they use each
    node and edge. */
module Runs {
  import opened ReplacementPolicy
  import opened AbstractStateGraph
  import opened WcetModel

  /** A call site; `landing` is where control continues when the callee returns. */
  datatype Site = Site(call: nat, callee: Fn, landing: nat, hasLanding: bool)

  datatype Program = Program(
    entry: nat,
    intra: set<(nat, nat)>,
    entryOf: map<Fn, nat>,
    returnsOf: map<Fn, set<nat>>,
    sites: seq<Site>)
  {
    ghost predicate Valid() {
      && (forall i :: 0 <= i < |sites| ==> sites[i].callee in entryOf && sites[i].callee in returnsOf)
      // no call block branches to the entry of a called function, return blocks do not branch
      && (forall i, j :: 0 <= i < |sites| && 0 <= j < |sites| ==> (sites[j].call, entryOf[sites[i].callee]) !in intra)
      && (forall i, r, v: nat :: 0 <= i < |sites| && r in returnsOf[sites[i].callee] ==> (r, v) !in intra)
      // the landing is a branch target of the call block
      && (forall i :: 0 <= i < |sites| && sites[i].hasLanding ==> (sites[i].call, sites[i].landing) in intra)
      // one call per block; functions do not share blocks
      && (forall i, j :: 0 <= i < j < |sites| ==> sites[i].call != sites[j].call)
      && (forall i, j, r :: 0 <= i < |sites| && 0 <= j < |sites| && sites[i].callee != sites[j].callee ==>
            !(r in returnsOf[sites[i].callee] && r in returnsOf[sites[j].callee]))
    }

    function CallEdge(i: nat): (nat, nat)
      requires i < |sites| && sites[i].callee in entryOf
    {
      (sites[i].call, entryOf[sites[i].callee])
    }
  }

  /** One step: a branch, a call from a site, or a return to the site on top of the stack. */
  datatype Step = Branch(from: nat, to: nat) | Call(site: nat) | Return(from: nat)

  /** An activation: the site it was called from, and for each loop or recursion header entered
      in it, how many back edges have been taken since. */
  datatype Frame = Frame(site: Option<nat>, taken: map<nat, nat>)

  datatype Config = Config(node: nat, stack: seq<Frame>)

  /** The headers with their bounds, and the edges that count as going round again. */
  datatype Bounds = Bounds(bound: map<nat, nat>, back: set<(nat, nat)>)

  // ---------------------------------------------------------------- counting activations

  /** The topmost activation of header `h`, if any. */
  function Owner(stack: seq<Frame>, h: nat): Option<nat> {
    if stack == [] then None
    else if h in stack[|stack| - 1].taken then Some(|stack| - 1)
    else Owner(stack[..|stack| - 1], h)
  }

  lemma {:induction false} OwnerOwns(stack: seq<Frame>, h: nat)
    ensures Owner(stack, h).Some? ==> Owner(stack, h).value < |stack| && h in stack[Owner(stack, h).value].taken
  {
    if stack != [] && h !in stack[|stack| - 1].taken { OwnerOwns(stack[..|stack| - 1], h); }
  }

  /** Entering `v` over `e` respects the bounds: going round again is charged to the topmost
      activation of the header, which has taken fewer than `bound - 1` back edges so far. */
  ghost predicate MayEnter(b: Bounds, stack: seq<Frame>, e: (nat, nat)) {
    e.1 in b.bound && e in b.back ==>
      var o := Owner(stack, e.1);
      OwnerOwns(stack, e.1);
      o.Some? && stack[o.value].taken[e.1] + 1 < b.bound[e.1]
  }

  /** The stack after entering over `e`: a new activation in the top frame, or one more back edge
      for the owner. */
  ghost function Enter(b: Bounds, stack: seq<Frame>, e: (nat, nat)): (r: seq<Frame>)
    requires stack != [] && MayEnter(b, stack, e)
    ensures |r| == |stack|
  {
    if e.1 !in b.bound then stack
    else if e in b.back then
      var k := Owner(stack, e.1).value;
      OwnerOwns(stack, e.1);
      stack[k := stack[k].(taken := stack[k].taken[e.1 := stack[k].taken[e.1] + 1])]
    else
      var k := |stack| - 1;
      stack[k := stack[k].(taken := stack[k].taken[e.1 := 0])]
  }

  // ---------------------------------------------------------------- steps

  ghost predicate Enabled(p: Program, b: Bounds, c: Config, s: Step)
    requires p.Valid()
  {
    && c.stack != []
    && match s
       case Branch(u, v) => c.node == u && (u, v) in p.intra && MayEnter(b, c.stack, (u, v))
       case Call(i) =>
         && i < |p.sites| && c.node == p.sites[i].call
         && MayEnter(b, c.stack + [Frame(Some(i), map[])], p.CallEdge(i))
       case Return(r) =>
         && |c.stack| >= 2 && c.node == r
         && var top := c.stack[|c.stack| - 1];
            && top.site.Some? && top.site.value < |p.sites| && p.sites[top.site.value].hasLanding
            && r in p.returnsOf[p.sites[top.site.value].callee]
            && MayEnter(b, c.stack[..|c.stack| - 1], (r, p.sites[top.site.value].landing))
  }

  /** The edge of the state graph a step runs along. */
  ghost function EdgeOf(p: Program, b: Bounds, c: Config, s: Step): (nat, nat)
    requires p.Valid() && Enabled(p, b, c, s)
  {
    match s
    case Branch(u, v) => (u, v)
    case Call(i) => p.CallEdge(i)
    case Return(r) => (r, p.sites[c.stack[|c.stack| - 1].site.value].landing)
  }

  ghost function StackBefore(p: Program, b: Bounds, c: Config, s: Step): (r: seq<Frame>)
    requires p.Valid() && Enabled(p, b, c, s)
    ensures r != [] && MayEnter(b, r, EdgeOf(p, b, c, s))
  {
    match s
    case Branch(_, _) => c.stack
    case Call(i) => c.stack + [Frame(Some(i), map[])]
    case Return(_) => c.stack[..|c.stack| - 1]
  }

  ghost function Next(p: Program, b: Bounds, c: Config, s: Step): (r: Config)
    requires p.Valid() && Enabled(p, b, c, s)
    ensures r.stack != []
  {
    var e := EdgeOf(p, b, c, s);
    Config(e.1, Enter(b, StackBefore(p, b, c, s), e))
  }

  function Start(p: Program): Config { Config(p.entry, [Frame(None, map[])]) }

  ghost predicate IsRun(p: Program, b: Bounds, steps: seq<Step>)
    requires p.Valid()
    decreases |steps|, 0
  {
    steps != [] ==>
      var front := steps[..|steps| - 1];
      IsRun(p, b, front) && Enabled(p, b, Final(p, b, front), steps[|steps| - 1])
  }

  /** The configuration a run ends in. */
  ghost function Final(p: Program, b: Bounds, steps: seq<Step>): (c: Config)
    requires p.Valid() && IsRun(p, b, steps)
    ensures c.stack != []
    decreases |steps|, 1
  {
    if steps == [] then Start(p)
    else Next(p, b, Final(p, b, steps[..|steps| - 1]), steps[|steps| - 1])
  }

  ghost function LastEdge(p: Program, b: Bounds, steps: seq<Step>): (nat, nat)
    requires p.Valid() && IsRun(p, b, steps) && steps != []
  {
    EdgeOf(p, b, Final(p, b, steps[..|steps| - 1]), steps[|steps| - 1])
  }

  // ---------------------------------------------------------------- counts

  ghost function EdgeCount(p: Program, b: Bounds, steps: seq<Step>, e: (nat, nat)): nat
    requires p.Valid() && IsRun(p, b, steps)
    decreases |steps|
  {
    if steps == [] then 0
    else EdgeCount(p, b, steps[..|steps| - 1], e) + (if LastEdge(p, b, steps) == e then 1 else 0)
  }

  ghost function NodeCount(p: Program, b: Bounds, steps: seq<Step>, u: nat): nat
    requires p.Valid() && IsRun(p, b, steps)
    decreases |steps|
  {
    if steps == [] then (if u == p.entry then 1 else 0)
    else NodeCount(p, b, steps[..|steps| - 1], u) + (if LastEdge(p, b, steps).1 == u then 1 else 0)
  }

  /** The counts of a run as a point of the integer program. */
  ghost function Counts(p: Program, b: Bounds, steps: seq<Step>): Point
    requires p.Valid() && IsRun(p, b, steps)
  {
    (v: Var) => match v
      case NodeVar(u) => NodeCount(p, b, steps, u)
      case EdgeVar(u, w) => EdgeCount(p, b, steps, (u, w))
  }

  /** The cycles of a run, given the cost of each node. */
  ghost function RunCost(p: Program, b: Bounds, steps: seq<Step>, cost: nat -> nat): nat
    requires p.Valid() && IsRun(p, b, steps)
    decreases |steps|
  {
    if steps == [] then cost(p.entry)
    else RunCost(p, b, steps[..|steps| - 1], cost) + cost(LastEdge(p, b, steps).1)
  }
}
