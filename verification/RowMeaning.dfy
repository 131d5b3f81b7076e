/** The integer program written out over sets of edges, apart from the lists the rows are made of. */
module RowMeaning {
  import opened AbstractStateGraph
  import opened WcetModel
  import opened Walks
  import opened IpetSoundness
  import opened HighsModel
  import opened EdgeSums

  /** The edges into a node. */
  ghost function Entering(g: Asg, u: nat): Edges { set q | u in g.preds && q in g.preds[u] :: (q, u) }

  /** The edges out of a node. */
  ghost function Leaving(g: Asg, u: nat): Edges { set v | u in g.succs && v in g.succs[u] :: (u, v) }

  /** The flagged edges into a node. */
  ghost function Again(g: Asg, u: nat): Edges {
    set q | u in g.preds && q in g.preds[u] && q in g.succs && u in g.succs[q] && g.succs[q][u] :: (q, u)
  }

  /** The edges from the callee's return blocks to the landing of a call. */
  ghost function Answering(g: Asg, cs: CallSite): Edges {
    set r | cs.callee in g.functionReturns && r in g.functionReturns[cs.callee] && r in g.succs && cs.returnNode in g.succs[r]
      :: (r, cs.returnNode)
  }

  /** What the rows ask of one node: it runs as often as it is entered and as often as it is left, the entry
      node once, and a bounded header takes at most bound - 1 of every bound visits over flagged edges. */
  ghost predicate NodeObeys(g: Asg, x: Point, u: nat)
    requires u in g.nodes
  {
    var a, n := g.nodes[u], x(NodeVar(u));
    && (a.isEntry ==> n == 1)
    && (!a.isEntry ==> n == EdgeSum(x, Entering(g, u)))
    && (!a.isExit ==> n == EdgeSum(x, Leaving(g, u)))
    && (a.isLoopHeader && a.upperLoopBound > 0 ==> a.upperLoopBound * EdgeSum(x, Again(g, u)) <= (a.upperLoopBound - 1) * n)
  }

  /** A call whose edge exists, and that some edge answers, is answered as often as it is made. */
  ghost predicate CallObeys(g: Asg, x: Point, cs: CallSite) {
    cs.callee in g.functionEntries && cs.callNode in g.succs && g.functionEntries[cs.callee] in g.succs[cs.callNode]
    && Answering(g, cs) != {} ==>
      x(EdgeVar(cs.callNode, g.functionEntries[cs.callee])) == EdgeSum(x, Answering(g, cs))
  }

  ghost predicate Obeys(g: Asg, x: Point) {
    && (forall u :: u in g.nodes ==> x(NodeVar(u)) >= 0)
    && (forall u, v :: u in g.succs && v in g.succs[u] ==> x(EdgeVar(u, v)) >= 0)
    && (forall u :: u in g.nodes ==> NodeObeys(g, x, u))
    && (forall k :: 0 <= k < |g.callSites| ==> CallObeys(g, x, g.callSites[k]))
  }

  /** The flagged edges into a node from the listed ones. */
  ghost function AgainFrom(g: Asg, list: seq<nat>, u: nat): Edges { set q | q in list && g.IsBackEdge(q, u) :: (q, u) }

  lemma {:induction false} BackSumIs(g: Asg, x: Point, list: seq<nat>, u: nat)
    requires DistinctSeq(list)
    ensures BackSum(g, x, list, u) == EdgeSum(x, AgainFrom(g, list, u))
  {
    if list == [] {
      assert AgainFrom(g, list, u) == {};
    } else {
      var front, q := list[..|list| - 1], list[|list| - 1];
      assert list == front + [q] && q !in front;
      BackSumIs(g, x, front, u);
      if g.IsBackEdge(q, u) {
        assert AgainFrom(g, list, u) == AgainFrom(g, front, u) + {(q, u)};
        SumOfUnion(x, AgainFrom(g, front, u), {(q, u)});
        SumOfOne(x, (q, u));
      } else {
        assert AgainFrom(g, list, u) == AgainFrom(g, front, u);
      }
    }
  }

  lemma SumsAre(g: Asg, x: Point, u: nat)
    ensures InSum(x, PredList(g, u), u) == EdgeSum(x, Entering(g, u))
    ensures OutSum(x, SuccList(g, u), u) == EdgeSum(x, Leaving(g, u))
    ensures BackSum(g, x, PredList(g, u), u) == EdgeSum(x, Again(g, u))
  {
    hide InSum, OutSum, BackSum, EdgeSum, Ascending;
    AscendingDistinct(g.Predecessors(u));
    AscendingDistinct(g.Successors(u).Keys);
    InSumIsEdgeSum(x, PredList(g, u), u);
    OutSumIsEdgeSum(x, SuccList(g, u), u);
    BackSumIs(g, x, PredList(g, u), u);
    assert Into(PredList(g, u), u) == Entering(g, u);
    assert From(u, SuccList(g, u)) == Leaving(g, u);
    assert AgainFrom(g, PredList(g, u), u) == Again(g, u);
  }

  lemma NodeIff(g: Asg, x: Point, u: nat)
    requires u in g.nodes
    ensures NodeRowsHold(g, x, u) <==> NodeObeys(g, x, u)
  {
    hide InSum, OutSum, BackSum, EdgeSum, Ascending, PredList, SuccList, Entering, Leaving, Again;
    SumsAre(g, x, u);
    var a := g.nodes[u];
    LoopIff(a.upperLoopBound, x(NodeVar(u)), EdgeSum(x, Again(g, u)));
  }

  lemma LoopIff(b: int, n: int, again: int)
    ensures (b - 1) * n - b * again >= 0 <==> b * again <= (b - 1) * n
  {}

  lemma CallIff(g: Asg, x: Point, cs: CallSite)
    requires DistinctSeq(ReturnsOf(g, cs.callee))
    ensures MatchingHolds(g, x, cs) <==> CallObeys(g, x, cs)
  {
    var list := ReturnEdges(g, ReturnsOf(g, cs.callee), cs.returnNode);
    ReturnEdgesExact(g, ReturnsOf(g, cs.callee), cs.returnNode);
    InSumIsEdgeSum(x, list, cs.returnNode);
    assert Into(list, cs.returnNode) == Answering(g, cs);
    if list != [] { assert (list[0], cs.returnNode) in Into(list, cs.returnNode); }
    if Answering(g, cs) != {} {
      var e :| e in Answering(g, cs);
      assert e.0 in list;
    }
  }

  /** The rows hold exactly at the counts that obey the rules stated over sets of edges. */
  lemma FeasibleIff(g: Asg, x: Point)
    requires forall f :: f in g.functionReturns ==> DistinctSeq(g.functionReturns[f])
    ensures Feasible(g, x) <==> Obeys(g, x)
  {
    forall u | u in g.nodes { NodeIff(g, x, u); }
    forall k | 0 <= k < |g.callSites| { CallIff(g, x, g.callSites[k]); }
    assert NonNegative(g, x) <==>
      (forall u :: u in g.nodes ==> x(NodeVar(u)) >= 0) && (forall u, v :: u in g.succs && v in g.succs[u] ==> x(EdgeVar(u, v)) >= 0) by {
      assert forall u: nat, v: nat :: g.HasEdge(u, v) <==> u in g.succs && v in g.succs[u];
    }
    hide NodeRowsHold, NodeObeys, MatchingHolds, CallObeys, NonNegative;
  }

  /** The model that is built admits exactly the column values whose counts obey these rules. */
  lemma ModelObeys(g: Asg, m: Model, cols: Columns, y: Values)
    requires Encodes(m, cols, g) && forall f :: f in g.functionReturns ==> DistinctSeq(g.functionReturns[f])
    ensures Admissible(m, y) <==> Obeys(g, PointOf(cols, y))
  {
    FeasibleIff(g, PointOf(cols, y));
    hide Feasible, Obeys, Admissible;
  }
}
