/** The integer program whose maximum is the worst-case execution time. */
module WcetModel {
  import opened ReplacementPolicy
  import opened AbstractStateGraph

  datatype Attributes = Attributes(cost: nat, isEntry: bool, isExit: bool, isLoopHeader: bool, upperLoopBound: nat)

  datatype CallSite = CallSite(callNode: nat, returnNode: nat, callee: Fn)

  /** What the solver reads of the state graph. */
  datatype Asg = Asg(
    nodes: map<nat, Attributes>,
    succs: map<nat, map<nat, bool>>,
    preds: map<nat, set<nat>>,
    functionEntries: map<Fn, nat>,
    functionReturns: map<Fn, seq<nat>>,
    callSites: seq<CallSite>)
  {
    function Successors(u: nat): map<nat, bool> { if u in succs then succs[u] else map[] }

    function Predecessors(u: nat): set<nat> { if u in preds then preds[u] else {} }

    predicate HasEdge(u: nat, v: nat) { v in Successors(u) }

    predicate IsBackEdge(u: nat, v: nat) { v in Successors(u) && Successors(u)[v] }

    ghost predicate Valid() {
      && (forall u: nat, v: nat :: v in Successors(u) <==> u in Predecessors(v))
      && (forall u: nat, v: nat :: HasEdge(u, v) ==> u in nodes && v in nodes)
    }
  }

  // ---------------------------------------------------------------- what a point must satisfy

  datatype Var = NodeVar(node: nat) | EdgeVar(from: nat, to: nat)

  /** An assignment of execution counts to nodes and edges. */
  type Point = Var -> int

  function InSum(x: Point, preds: seq<nat>, u: nat): int {
    if preds == [] then 0 else InSum(x, preds[..|preds| - 1], u) + x(EdgeVar(preds[|preds| - 1], u))
  }

  function OutSum(x: Point, succs: seq<nat>, u: nat): int {
    if succs == [] then 0 else OutSum(x, succs[..|succs| - 1], u) + x(EdgeVar(u, succs[|succs| - 1]))
  }

  /** The flow over the flagged back edges into `u`. */
  function BackSum(g: Asg, x: Point, preds: seq<nat>, u: nat): int {
    if preds == [] then 0
    else
      var p := preds[|preds| - 1];
      BackSum(g, x, preds[..|preds| - 1], u) + (if g.IsBackEdge(p, u) then x(EdgeVar(p, u)) else 0)
  }

  function PredList(g: Asg, u: nat): seq<nat> { Ascending(g.Predecessors(u)) }

  function SuccList(g: Asg, u: nat): seq<nat> { Ascending(g.Successors(u).Keys) }

  predicate IsBoundedHeader(g: Asg, u: nat) {
    u in g.nodes && g.nodes[u].isLoopHeader && g.nodes[u].upperLoopBound > 0
  }

  ghost predicate InflowHolds(g: Asg, x: Point, u: nat) { x(NodeVar(u)) == InSum(x, PredList(g, u), u) }

  ghost predicate OutflowHolds(g: Asg, x: Point, u: nat) { x(NodeVar(u)) == OutSum(x, SuccList(g, u), u) }

  ghost predicate LoopBoundHolds(g: Asg, x: Point, u: nat)
    requires u in g.nodes
  {
    var b := g.nodes[u].upperLoopBound;
    (b - 1) * x(NodeVar(u)) - b * BackSum(g, x, PredList(g, u), u) >= 0
  }

  ghost predicate NodeRowsHold(g: Asg, x: Point, u: nat)
    requires u in g.nodes
  {
    && (!g.nodes[u].isEntry ==> InflowHolds(g, x, u))
    && (!g.nodes[u].isExit ==> OutflowHolds(g, x, u))
    && (g.nodes[u].isEntry ==> x(NodeVar(u)) == 1)
    && (IsBoundedHeader(g, u) ==> LoopBoundHolds(g, x, u))
  }

  /** The return edges of a call site that exist in the graph. */
  function ReturnEdges(g: Asg, rets: seq<nat>, landing: nat): seq<nat> {
    if rets == [] then []
    else
      var r := rets[|rets| - 1];
      ReturnEdges(g, rets[..|rets| - 1], landing) + (if g.HasEdge(r, landing) then [r] else [])
  }

  function ReturnsOf(g: Asg, f: Fn): seq<nat> { if f in g.functionReturns then g.functionReturns[f] else [] }

  /** A matching row is written for a site whose call edge and at least one return edge exist. */
  predicate IsMatched(g: Asg, cs: CallSite) {
    && cs.callee in g.functionEntries
    && g.HasEdge(cs.callNode, g.functionEntries[cs.callee])
    && ReturnEdges(g, ReturnsOf(g, cs.callee), cs.returnNode) != []
  }

  ghost predicate MatchingHolds(g: Asg, x: Point, cs: CallSite) {
    IsMatched(g, cs) ==>
      x(EdgeVar(cs.callNode, g.functionEntries[cs.callee])) ==
      InSum(x, ReturnEdges(g, ReturnsOf(g, cs.callee), cs.returnNode), cs.returnNode)
  }

  ghost predicate NonNegative(g: Asg, x: Point) {
    && (forall u :: u in g.nodes ==> x(NodeVar(u)) >= 0)
    && (forall u: nat, v: nat :: g.HasEdge(u, v) ==> x(EdgeVar(u, v)) >= 0)
  }

  ghost predicate Feasible(g: Asg, x: Point) {
    && NonNegative(g, x)
    && (forall u :: u in g.nodes ==> NodeRowsHold(g, x, u))
    && (forall i :: 0 <= i < |g.callSites| ==> MatchingHolds(g, x, g.callSites[i]))
  }

  /** The objective: the summed cost of all node executions. */
  function CostSum(g: Asg, x: Point, order: seq<nat>): int {
    if order == [] then 0
    else
      var u := order[|order| - 1];
      CostSum(g, x, order[..|order| - 1]) + (if u in g.nodes then g.nodes[u].cost * x(NodeVar(u)) else 0)
  }

  function Objective(g: Asg, x: Point): int { CostSum(g, x, Ascending(g.nodes.Keys)) }
}
