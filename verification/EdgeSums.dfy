/** Flow summed over sets of edges, and its balance at the border of a set of nodes. */
module EdgeSums {
  import opened AbstractStateGraph
  import opened WcetModel
  import opened Runs
  import opened IpetSoundness
  import opened FiniteWcet
  import opened Walks

  ghost function EdgeSum(x: Point, e: Edges): int {
    if e == {} then 0
    else
      var a :| a in e;
      EdgeSum(x, e - {a}) + x(EdgeVar(a.0, a.1))
  }

  lemma {:induction false} TakeOne(x: Point, e: Edges, a: (nat, nat))
    requires a in e
    ensures EdgeSum(x, e) == EdgeSum(x, e - {a}) + x(EdgeVar(a.0, a.1))
  {
    var b :| b in e && EdgeSum(x, e) == EdgeSum(x, e - {b}) + x(EdgeVar(b.0, b.1));
    if a != b {
      TakeOne(x, e - {b}, a);
      TakeOne(x, e - {a}, b);
      assert e - {b} - {a} == e - {a} - {b};
    }
  }

  lemma {:induction false} SumOfUnion(x: Point, e: Edges, f: Edges)
    requires e !! f
    ensures EdgeSum(x, e + f) == EdgeSum(x, e) + EdgeSum(x, f)
    decreases |e|
  {
    if e == {} {
      assert e + f == f;
    } else {
      var a :| a in e;
      TakeOne(x, e, a);
      TakeOne(x, e + f, a);
      assert e + f - {a} == (e - {a}) + f;
      SumOfUnion(x, e - {a}, f);
    }
  }

  lemma SumOfOne(x: Point, a: (nat, nat))
    ensures EdgeSum(x, {a}) == x(EdgeVar(a.0, a.1))
  {
    TakeOne(x, {a}, a);
    assert {a} - {a} == {};
  }

  ghost predicate InGraph(g: Asg, e: Edges) { forall u: nat, v: nat :: (u, v) in e ==> g.HasEdge(u, v) }

  lemma {:induction false} SumNonNegative(g: Asg, x: Point, e: Edges)
    requires NonNegative(g, x) && InGraph(g, e)
    ensures EdgeSum(x, e) >= 0
    decreases |e|
  {
    if e != {} {
      var a :| a in e;
      TakeOne(x, e, a);
      assert g.HasEdge(a.0, a.1);
      SumNonNegative(g, x, e - {a});
    }
  }

  lemma SumMonotone(g: Asg, x: Point, e: Edges, f: Edges)
    requires NonNegative(g, x) && InGraph(g, f) && e <= f
    ensures EdgeSum(x, e) <= EdgeSum(x, f)
  {
    assert f == e + (f - e);
    SumOfUnion(x, e, f - e);
    SumNonNegative(g, x, f - e);
  }

  ghost function Into(list: seq<nat>, v: nat): Edges { set u | u in list :: (u, v) }

  ghost function From(u: nat, list: seq<nat>): Edges { set v | v in list :: (u, v) }

  lemma {:induction false} InSumIsEdgeSum(x: Point, list: seq<nat>, v: nat)
    requires DistinctSeq(list)
    ensures InSum(x, list, v) == EdgeSum(x, Into(list, v))
  {
    if list == [] {
      assert Into(list, v) == {};
    } else {
      var front, q := list[..|list| - 1], list[|list| - 1];
      assert list == front + [q] && q !in front;
      InSumIsEdgeSum(x, front, v);
      assert Into(list, v) == Into(front, v) + {(q, v)};
      SumOfUnion(x, Into(front, v), {(q, v)});
      SumOfOne(x, (q, v));
    }
  }

  lemma {:induction false} OutSumIsEdgeSum(x: Point, list: seq<nat>, u: nat)
    requires DistinctSeq(list)
    ensures OutSum(x, list, u) == EdgeSum(x, From(u, list))
  {
    if list == [] {
      assert From(u, list) == {};
    } else {
      var front, q := list[..|list| - 1], list[|list| - 1];
      assert list == front + [q] && q !in front;
      OutSumIsEdgeSum(x, front, u);
      assert From(u, list) == From(u, front) + {(u, q)};
      SumOfUnion(x, From(u, front), {(u, q)});
      SumOfOne(x, (u, q));
    }
  }

  // ---------------------------------------------------------------- the border of a set of nodes

  /** The edges into, and out of, the nodes of `a`. */
  ghost function InEdges(g: Asg, a: set<nat>): Edges { set v, u | v in a && u in g.Predecessors(v) :: (u, v) }

  ghost function OutEdges(g: Asg, a: set<nat>): Edges { set u, v | u in a && v in g.Successors(u) :: (u, v) }

  /** What leaves one node is at most what enters it, plus the unit that starts at the entry. */
  lemma NodeBalance(g: Asg, p: Program, x: Point, v: nat)
    requires Tight(g, p) && Feasible(g, x) && v in g.nodes
    ensures EdgeSum(x, OutEdges(g, {v})) <= EdgeSum(x, InEdges(g, {v})) + One(v == p.entry)
  {
    AscendingDistinct(g.Predecessors(v));
    AscendingDistinct(g.Successors(v).Keys);
    InSumIsEdgeSum(x, PredList(g, v), v);
    OutSumIsEdgeSum(x, SuccList(g, v), v);
    assert InEdges(g, {v}) == Into(PredList(g, v), v) && OutEdges(g, {v}) == From(v, SuccList(g, v));
    assert NodeRowsHold(g, x, v);
    EntryAndExit(g, p, x, v);
  }

  lemma EntryAndExit(g: Asg, p: Program, x: Point, v: nat)
    requires Tight(g, p) && Feasible(g, x) && v in g.nodes
    ensures g.nodes[v].isEntry ==> v == p.entry && InEdges(g, {v}) == {}
    ensures g.nodes[v].isExit ==> OutEdges(g, {v}) == {}
    ensures EdgeSum(x, InEdges(g, {v})) >= 0
  {
    if g.nodes[v].isEntry {
      assert forall u: nat :: u in g.Predecessors(v) ==> g.HasEdge(u, v);
    }
    if g.nodes[v].isExit {
      assert forall u: nat :: u in g.Successors(v) ==> g.HasEdge(v, u);
    }
    forall u: nat, w: nat | (u, w) in InEdges(g, {v}) ensures g.HasEdge(u, w) {
      assert u in g.Predecessors(w);
    }
    SumNonNegative(g, x, InEdges(g, {v}));
  }

  lemma NoEdges(g: Asg)
    ensures OutEdges(g, {}) == {} && InEdges(g, {}) == {}
  {}

  lemma OneNodeMore(g: Asg, b: set<nat>, v: nat)
    requires v !in b
    ensures OutEdges(g, b + {v}) == OutEdges(g, b) + OutEdges(g, {v}) && OutEdges(g, b) !! OutEdges(g, {v})
    ensures InEdges(g, b + {v}) == InEdges(g, b) + InEdges(g, {v}) && InEdges(g, b) !! InEdges(g, {v})
  {}

  lemma {:induction false} SetBalance(g: Asg, p: Program, x: Point, a: set<nat>)
    requires Tight(g, p) && Feasible(g, x) && a <= g.nodes.Keys
    ensures EdgeSum(x, OutEdges(g, a)) <= EdgeSum(x, InEdges(g, a)) + One(p.entry in a)
    decreases |a|
  {
    hide Tight, Feasible, InEdges, OutEdges;
    if a == {} {
      NoEdges(g);
    } else {
      var v :| v in a;
      var b := a - {v};
      SetBalance(g, p, x, b);
      NodeBalance(g, p, x, v);
      assert a == b + {v};
      OneNodeMore(g, b, v);
      SumOfUnion(x, OutEdges(g, b), OutEdges(g, {v}));
      SumOfUnion(x, InEdges(g, b), InEdges(g, {v}));
    }
  }

  /** The edges that enter, and that leave, `a` across its border. */
  ghost function Entering(g: Asg, a: set<nat>): Edges { set e | e in InEdges(g, a) && e.0 !in a }

  ghost function Leaving(g: Asg, a: set<nat>): Edges { set e | e in OutEdges(g, a) && e.1 !in a }

  /** At a feasible point at most one unit more leaves a set of nodes than enters it. */
  lemma BorderBalance(g: Asg, p: Program, x: Point, a: set<nat>)
    requires Tight(g, p) && Feasible(g, x) && a <= g.nodes.Keys
    ensures EdgeSum(x, Leaving(g, a)) <= EdgeSum(x, Entering(g, a)) + 1
  {
    SetBalance(g, p, x, a);
    assert g.Valid();
    hide Tight, Feasible;
    var within := set e | e in InEdges(g, a) && e.0 in a;
    forall u: nat, v: nat ensures (u, v) in within <==> (u, v) in OutEdges(g, a) && v in a {
      assert v in g.Successors(u) <==> u in g.Predecessors(v);
    }
    assert InEdges(g, a) == within + Entering(g, a);
    assert OutEdges(g, a) == within + Leaving(g, a);
    SumOfUnion(x, within, Entering(g, a));
    SumOfUnion(x, within, Leaving(g, a));
  }
}
