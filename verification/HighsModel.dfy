/** The columns and rows handed to the optimiser, and what they say about execution counts. */
module HighsModel {
  import opened ReplacementPolicy
  import opened AbstractStateGraph
  import opened WcetModel
  import opened Runs
  import opened IpetSoundness

  /** lower <= sum of vals[k] * y(inds[k]) <= upper; no upper bound when `upper` is None. */
  datatype Row = Row(lower: int, upper: Option<int>, inds: seq<nat>, vals: seq<int>)

  datatype Model = Model(colCost: seq<nat>, rows: seq<Row>)

  /** Which column stands for which node or edge. */
  datatype Columns = Columns(node: map<nat, nat>, edge: map<(nat, nat), nat>)

  /** A value for every column. */
  type Values = nat -> int

  function RowSum(inds: seq<nat>, vals: seq<int>, y: Values): int
    requires |inds| == |vals|
  {
    if inds == [] then 0
    else RowSum(inds[..|inds| - 1], vals[..|vals| - 1], y) + vals[|vals| - 1] * y(inds[|inds| - 1])
  }

  predicate RowHolds(r: Row, y: Values) {
    |r.inds| == |r.vals| && r.lower <= RowSum(r.inds, r.vals, y) && (r.upper.Some? ==> RowSum(r.inds, r.vals, y) <= r.upper.value)
  }

  predicate RowsHold(rows: seq<Row>, y: Values) { forall i :: 0 <= i < |rows| ==> RowHolds(rows[i], y) }

  function ColumnCost(costs: seq<nat>, y: Values): int {
    if costs == [] then 0 else ColumnCost(costs[..|costs| - 1], y) + costs[|costs| - 1] * y(|costs| - 1)
  }

  /** All columns are bounded below by zero and unbounded above. */
  ghost predicate Admissible(m: Model, y: Values) {
    (forall c :: 0 <= c < |m.colCost| ==> y(c) >= 0) && RowsHold(m.rows, y)
  }

  /** The counts that values for the columns stand for. */
  function PointOf(cols: Columns, y: Values): Point {
    (v: Var) => match v
      case NodeVar(u) => if u in cols.node then y(cols.node[u]) else 0
      case EdgeVar(u, w) => if (u, w) in cols.edge then y(cols.edge[(u, w)]) else 0
  }

  // ---------------------------------------------------------------- columns

  ghost predicate IsColumn(cols: Columns, v: Var, c: nat) {
    match v
    case NodeVar(u) => u in cols.node && cols.node[u] == c
    case EdgeVar(u, w) => (u, w) in cols.edge && cols.edge[(u, w)] == c
  }

  /** `vars` lists what the columns made so far stand for; no two stand for the same thing. */
  ghost predicate Layout(g: Asg, costs: seq<nat>, cols: Columns, vars: seq<Var>) {
    && |vars| == |costs|
    && (forall c :: 0 <= c < |vars| ==> IsColumn(cols, vars[c], c))
    && (forall u :: u in cols.node ==> cols.node[u] < |vars| && vars[cols.node[u]] == NodeVar(u))
    && (forall e :: e in cols.edge ==> cols.edge[e] < |vars| && vars[cols.edge[e]] == EdgeVar(e.0, e.1))
    && (forall c :: 0 <= c < |vars| ==> costs[c] == CostOfVar(g, vars[c]))
  }

  function CostOfVar(g: Asg, v: Var): nat { if v.NodeVar? && v.node in g.nodes then g.nodes[v.node].cost else 0 }

  ghost predicate NodesFirst(order: seq<nat>, vars: seq<Var>) {
    |order| <= |vars| && (forall i :: 0 <= i < |order| ==> vars[i] == NodeVar(order[i]))
    && forall i :: |order| <= i < |vars| ==> vars[i].EdgeVar?
  }

  method NodeColumns(g: Asg) returns (costs: seq<nat>, cols: Columns, ghost vars: seq<Var>)
    ensures Layout(g, costs, cols, vars) && NodesFirst(Ascending(g.nodes.Keys), vars)
    ensures cols.node.Keys == g.nodes.Keys && cols.edge == map[]
  {
    var order := Ascending(g.nodes.Keys);
    AscendingDistinct(g.nodes.Keys);
    costs, cols, vars := [], Columns(map[], map[]), [];
    for i := 0 to |order|
      invariant Layout(g, costs, cols, vars) && NodesFirst(order[..i], vars) && |vars| == i
      invariant cols.edge == map[] && forall u :: u in cols.node <==> u in order[..i]
    {
      var u := order[i];
      assert u in order && u !in order[..i];
      TakeOne(order, i);
      hide Layout, Ascending;
      ExtendNode(g, costs, cols, vars, u);
      costs, cols, vars := costs + [g.nodes[u].cost], Columns(cols.node[u := |costs|], cols.edge), vars + [NodeVar(u)];
    }
    assert order[..|order|] == order;
  }

  lemma ExtendNode(g: Asg, costs: seq<nat>, cols: Columns, vars: seq<Var>, u: nat)
    requires Layout(g, costs, cols, vars) && u !in cols.node && u in g.nodes
    ensures Layout(g, costs + [g.nodes[u].cost], Columns(cols.node[u := |costs|], cols.edge), vars + [NodeVar(u)])
  {}

  lemma TakeOne<T>(s: seq<T>, i: nat)
    requires i < |s|
    ensures s[..i + 1] == s[..i] + [s[i]] && forall x :: x in s[..i + 1] <==> x in s[..i] || x == s[i]
  {
    assert s[..i + 1] == s[..i] + [s[i]];
  }

  /** The columns of the edges leaving the listed nodes exist. */
  ghost predicate EdgesListed(g: Asg, order: seq<nat>, cols: Columns) {
    forall u: nat, v: nat :: (u, v) in cols.edge <==> u in order && g.HasEdge(u, v)
  }

  /** One column for each edge leaving `u`. */
  method EdgeColumnsOf(g: Asg, u: nat, costs0: seq<nat>, cols0: Columns, ghost vars0: seq<Var>, ghost done: seq<nat>)
    returns (costs: seq<nat>, cols: Columns, ghost vars: seq<Var>)
    requires Layout(g, costs0, cols0, vars0) && EdgesListed(g, done, cols0) && u !in done
    ensures Layout(g, costs, cols, vars) && vars0 <= vars && (forall i :: |vars0| <= i < |vars| ==> vars[i].EdgeVar?)
    ensures cols.node == cols0.node && EdgesListed(g, done + [u], cols)
  {
    var succs := SuccList(g, u);
    AscendingDistinct(g.Successors(u).Keys);
    costs, cols, vars := costs0, cols0, vars0;
    for k := 0 to |succs|
      invariant Layout(g, costs, cols, vars) && vars0 <= vars && (forall i :: |vars0| <= i < |vars| ==> vars[i].EdgeVar?)
      invariant cols.node == cols0.node
      invariant forall a: nat, b: nat :: (a, b) in cols.edge <==> (a, b) in cols0.edge || (a == u && b in succs[..k])
    {
      var v := succs[k];
      assert v !in succs[..k];
      TakeOne(succs, k);
      assert (u, v) !in cols.edge;
      hide Layout, Ascending;
      ExtendEdge(g, costs, cols, vars, u, v);
      costs, cols, vars := costs + [0], Columns(cols.node, cols.edge[(u, v) := |costs|]), vars + [EdgeVar(u, v)];
    }
    assert succs[..|succs|] == succs;
  }

  lemma ExtendEdge(g: Asg, costs: seq<nat>, cols: Columns, vars: seq<Var>, u: nat, v: nat)
    requires Layout(g, costs, cols, vars) && (u, v) !in cols.edge
    ensures Layout(g, costs + [0], Columns(cols.node, cols.edge[(u, v) := |costs|]), vars + [EdgeVar(u, v)])
  {}

  /** Columns for every node and every edge, the nodes first. */
  method MakeColumns(g: Asg) returns (costs: seq<nat>, cols: Columns, ghost vars: seq<Var>)
    requires g.Valid()
    ensures Layout(g, costs, cols, vars) && NodesFirst(Ascending(g.nodes.Keys), vars)
    ensures CoversAll(g, cols)
  {
    costs, cols, vars := NodeColumns(g);
    var order := Ascending(g.nodes.Keys);
    AscendingDistinct(g.nodes.Keys);
    for i := 0 to |order|
      invariant Layout(g, costs, cols, vars) && NodesFirst(order, vars)
      invariant cols.node.Keys == g.nodes.Keys && EdgesListed(g, order[..i], cols)
    {
      assert order[i] !in order[..i];
      TakeOne(order, i);
      hide *;
      ghost var before := vars;
      costs, cols, vars := EdgeColumnsOf(g, order[i], costs, cols, vars, order[..i]);
      NodesFirstExtends(order, before, vars);
    }
    assert order[..|order|] == order;
    AllEdges(g, order, cols);
  }

  lemma NodesFirstExtends(order: seq<nat>, a: seq<Var>, b: seq<Var>)
    requires NodesFirst(order, a) && a <= b && forall i :: |a| <= i < |b| ==> b[i].EdgeVar?
    ensures NodesFirst(order, b)
  {}

  lemma AllEdges(g: Asg, order: seq<nat>, cols: Columns)
    requires g.Valid() && EdgesListed(g, order, cols) && cols.node.Keys == g.nodes.Keys && forall u :: u in order <==> u in g.nodes
    ensures CoversAll(g, cols)
  {}

  /** Exactly the nodes and the edges have a column. */
  ghost predicate CoversAll(g: Asg, cols: Columns) {
    && cols.node.Keys == g.nodes.Keys
    && forall u: nat, v: nat :: (u, v) in cols.edge <==> g.HasEdge(u, v)
  }

  // ---------------------------------------------------------------- rows

  lemma RowSumAppend(inds: seq<nat>, vals: seq<int>, c: nat, w: int, y: Values)
    requires |inds| == |vals|
    ensures RowSum(inds + [c], vals + [w], y) == RowSum(inds, vals, y) + w * y(c)
  {
    assert (inds + [c])[..|inds|] == inds && (vals + [w])[..|vals|] == vals;
  }

  /** x_u equals the sum over incoming edges. */
  method InflowRow(g: Asg, cols: Columns, u: nat) returns (r: Row)
    requires CoversAll(g, cols) && g.Valid() && u in g.nodes
    ensures forall y: Values :: RowHolds(r, y) <==> InflowHolds(g, PointOf(cols, y), u)
  {
    var preds := PredList(g, u);
    AscendingDistinct(g.Predecessors(u));
    var inds, vals := [cols.node[u]], [1];
    for k := 0 to |preds|
      invariant |inds| == |vals|
      invariant forall y: Values :: RowSum(inds, vals, y) == PointOf(cols, y)(NodeVar(u)) - InSum(PointOf(cols, y), preds[..k], u)
    {
      var q := preds[k];
      assert q in g.Predecessors(u);
      assert preds[..k + 1][..k] == preds[..k];
      if (q, u) in cols.edge {
        forall y: Values { RowSumAppend(inds, vals, cols.edge[(q, u)], -1, y); }
        inds, vals := inds + [cols.edge[(q, u)]], vals + [-1];
      }
    }
    assert preds[..|preds|] == preds;
    r := Row(0, Some(0), inds, vals);
  }

  /** x_u equals the sum over outgoing edges. */
  method OutflowRow(g: Asg, cols: Columns, u: nat) returns (r: Row)
    requires CoversAll(g, cols) && g.Valid() && u in g.nodes
    ensures forall y: Values :: RowHolds(r, y) <==> OutflowHolds(g, PointOf(cols, y), u)
  {
    var succs := SuccList(g, u);
    AscendingDistinct(g.Successors(u).Keys);
    var inds, vals := [cols.node[u]], [1];
    for k := 0 to |succs|
      invariant |inds| == |vals|
      invariant forall y: Values :: RowSum(inds, vals, y) == PointOf(cols, y)(NodeVar(u)) - OutSum(PointOf(cols, y), succs[..k], u)
    {
      var q := succs[k];
      assert q in g.Successors(u);
      assert succs[..k + 1][..k] == succs[..k];
      if (u, q) in cols.edge {
        forall y: Values { RowSumAppend(inds, vals, cols.edge[(u, q)], -1, y); }
        inds, vals := inds + [cols.edge[(u, q)]], vals + [-1];
      }
    }
    assert succs[..|succs|] == succs;
    r := Row(0, Some(0), inds, vals);
  }

  /** (bound - 1) * x_h - bound * (flow over flagged back edges) is not negative. */
  method LoopBoundRow(g: Asg, cols: Columns, u: nat) returns (r: Row)
    requires CoversAll(g, cols) && g.Valid() && IsBoundedHeader(g, u)
    ensures forall y: Values :: RowHolds(r, y) <==> LoopBoundHolds(g, PointOf(cols, y), u)
  {
    var preds := PredList(g, u);
    AscendingDistinct(g.Predecessors(u));
    var b: int := g.nodes[u].upperLoopBound;
    var inds, vals := [cols.node[u]], [b - 1];
    for k := 0 to |preds|
      invariant |inds| == |vals|
      invariant forall y: Values :: RowSum(inds, vals, y) == LoopValue(g, PointOf(cols, y), b, preds[..k], u)
    {
      var q := preds[k];
      assert q in g.Predecessors(u);
      assert preds[..k + 1][..k] == preds[..k];
      if g.IsBackEdge(q, u) && (q, u) in cols.edge {
        forall y: Values ensures RowSum(inds + [cols.edge[(q, u)]], vals + [-b], y) == LoopValue(g, PointOf(cols, y), b, preds[..k + 1], u) {
          LoopStep(g, cols, y, b, preds, k, u, inds, vals);
        }
        inds, vals := inds + [cols.edge[(q, u)]], vals + [-b];
      }
    }
    assert preds[..|preds|] == preds;
    r := Row(0, None, inds, vals);
  }

  function LoopValue(g: Asg, x: Point, b: int, preds: seq<nat>, u: nat): int {
    (b - 1) * x(NodeVar(u)) - b * BackSum(g, x, preds, u)
  }

  lemma LoopStep(g: Asg, cols: Columns, y: Values, b: int, preds: seq<nat>, k: nat, u: nat, inds: seq<nat>, vals: seq<int>)
    requires k < |preds| && g.IsBackEdge(preds[k], u) && (preds[k], u) in cols.edge && |inds| == |vals|
    requires RowSum(inds, vals, y) == LoopValue(g, PointOf(cols, y), b, preds[..k], u)
    ensures RowSum(inds + [cols.edge[(preds[k], u)]], vals + [-b], y) == LoopValue(g, PointOf(cols, y), b, preds[..k + 1], u)
  {
    var x, q := PointOf(cols, y), preds[k];
    assert preds[..k + 1][..k] == preds[..k];
    assert BackSum(g, x, preds[..k + 1], u) == BackSum(g, x, preds[..k], u) + x(EdgeVar(q, u));
    assert x(EdgeVar(q, u)) == y(cols.edge[(q, u)]);
    hide RowSum, BackSum, PointOf;
    RowSumAppend(inds, vals, cols.edge[(q, u)], -b, y);
    Distribute(b, BackSum(g, x, preds[..k], u), x(EdgeVar(q, u)));
  }

  lemma Distribute(b: int, s: int, t: int)
    ensures b * (s + t) == b * s - (-b) * t
  {}

  method EntryRow(g: Asg, cols: Columns, u: nat) returns (r: Row)
    requires CoversAll(g, cols) && u in g.nodes
    ensures forall y: Values :: RowHolds(r, y) <==> PointOf(cols, y)(NodeVar(u)) == 1
  {
    r := Row(1, Some(1), [cols.node[u]], [1]);
    forall y: Values ensures RowSum(r.inds, r.vals, y) == y(cols.node[u]) { RowSumAppend([], [], cols.node[u], 1, y); }
  }

  lemma RowsAppend(rows: seq<Row>, r: Row, y: Values)
    ensures RowsHold(rows + [r], y) <==> RowsHold(rows, y) && RowHolds(r, y)
  {
    assert (rows + [r])[|rows|] == r;
    assert forall i :: 0 <= i < |rows| ==> (rows + [r])[i] == rows[i];
  }

  lemma RowsConcat(a: seq<Row>, b: seq<Row>, y: Values)
    ensures RowsHold(a + b, y) <==> RowsHold(a, y) && RowsHold(b, y)
  {
    assert forall i :: 0 <= i < |a| ==> (a + b)[i] == a[i];
    assert forall i :: 0 <= i < |b| ==> (a + b)[|a| + i] == b[i];
  }

  /** The rows of one node: inflow, outflow, entry and loop bound, each only where it applies. */
  method RowsOfNode(g: Asg, cols: Columns, u: nat) returns (rows: seq<Row>)
    requires CoversAll(g, cols) && g.Valid() && u in g.nodes
    ensures forall y: Values :: RowsHold(rows, y) <==> NodeRowsHold(g, PointOf(cols, y), u)
  {
    hide InflowHolds, OutflowHolds, LoopBoundHolds, RowHolds, PointOf;
    rows := [];
    if !g.nodes[u].isEntry {
      var r := InflowRow(g, cols, u);
      forall y: Values { RowsAppend(rows, r, y); }
      rows := rows + [r];
    }
    if !g.nodes[u].isExit {
      var r := OutflowRow(g, cols, u);
      forall y: Values { RowsAppend(rows, r, y); }
      rows := rows + [r];
    }
    if g.nodes[u].isEntry {
      var r := EntryRow(g, cols, u);
      forall y: Values { RowsAppend(rows, r, y); }
      rows := rows + [r];
    }
    if g.nodes[u].isLoopHeader && g.nodes[u].upperLoopBound > 0 {
      var r := LoopBoundRow(g, cols, u);
      forall y: Values { RowsAppend(rows, r, y); }
      rows := rows + [r];
    }
  }

  /** What the return edges collected so far leave of the call's flow. */
  function Unreturned(g: Asg, x: Point, call: (nat, nat), rets: seq<nat>, to: nat): int {
    x(EdgeVar(call.0, call.1)) - InSum(x, ReturnEdges(g, rets, to), to)
  }

  /** The row collected so far says what is left of the call's flow, for all values. */
  ghost predicate Collected(g: Asg, cols: Columns, call: (nat, nat), rets: seq<nat>, to: nat, inds: seq<nat>, vals: seq<int>) {
    && |inds| == |vals| && |inds| == 1 + |ReturnEdges(g, rets, to)|
    && forall y: Values :: RowSum(inds, vals, y) == Unreturned(g, PointOf(cols, y), call, rets, to)
  }

  lemma CollectCall(g: Asg, cols: Columns, call: (nat, nat), to: nat)
    requires call in cols.edge
    ensures Collected(g, cols, call, [], to, [cols.edge[call]], [1])
  {
    forall y: Values ensures RowSum([cols.edge[call]], [1], y) == Unreturned(g, PointOf(cols, y), call, [], to) {
      RowSumAppend([], [], cols.edge[call], 1, y);
    }
  }

  lemma CollectReturn(g: Asg, cols: Columns, call: (nat, nat), rets: seq<nat>, q: nat, to: nat, inds: seq<nat>, vals: seq<int>)
    requires CoversAll(g, cols) && Collected(g, cols, call, rets, to, inds, vals)
    ensures if (q, to) in cols.edge then Collected(g, cols, call, rets + [q], to, inds + [cols.edge[(q, to)]], vals + [-1])
            else Collected(g, cols, call, rets + [q], to, inds, vals)
  {
    ReturnEdgesTake(g, rets + [q], |rets|, to);
    assert (rets + [q])[..|rets|] == rets && (rets + [q])[..|rets| + 1] == rets + [q];
    if (q, to) in cols.edge {
      forall y: Values ensures RowSum(inds + [cols.edge[(q, to)]], vals + [-1], y) == Unreturned(g, PointOf(cols, y), call, rets + [q], to) {
        RowSumAppend(inds, vals, cols.edge[(q, to)], -1, y);
        InSumAppend(PointOf(cols, y), ReturnEdges(g, rets, to), q, to);
      }
    }
  }

  lemma CollectedRow(g: Asg, cols: Columns, cs: CallSite, inds: seq<nat>, vals: seq<int>, y: Values)
    requires cs.callee in g.functionEntries
    requires var call := (cs.callNode, g.functionEntries[cs.callee]);
             (call in cols.edge <==> g.HasEdge(call.0, call.1)) && call in cols.edge
             && Collected(g, cols, call, ReturnsOf(g, cs.callee), cs.returnNode, inds, vals)
    ensures RowsHold(if |inds| > 1 then [Row(0, Some(0), inds, vals)] else [], y) <==> MatchingHolds(g, PointOf(cols, y), cs)
  {
    if |inds| > 1 { SingleRow(Row(0, Some(0), inds, vals), y); }
  }

  /** The matching row of a call site, or no row. */
  method MatchingRow(g: Asg, cols: Columns, cs: CallSite) returns (rows: seq<Row>)
    requires CoversAll(g, cols)
    ensures forall y: Values :: RowsHold(rows, y) <==> MatchingHolds(g, PointOf(cols, y), cs)
  {
    hide RowHolds, Collected, PointOf, ReturnEdges, Unreturned, RowSum;
    rows := [];
    if cs.callee in g.functionEntries && (cs.callNode, g.functionEntries[cs.callee]) in cols.edge {
      var call := (cs.callNode, g.functionEntries[cs.callee]);
      var inds, vals := [cols.edge[call]], [1];
      var rets := ReturnsOf(g, cs.callee);
      var to := cs.returnNode;
      CollectCall(g, cols, call, to);
      assert rets[..0] == [];
      for k := 0 to |rets|
        invariant Collected(g, cols, call, rets[..k], to, inds, vals)
      {
        assert rets[..k + 1] == rets[..k] + [rets[k]];
        CollectReturn(g, cols, call, rets[..k], rets[k], to, inds, vals);
        if (rets[k], to) in cols.edge {
          inds, vals := inds + [cols.edge[(rets[k], to)]], vals + [-1];
        }
      }
      assert rets[..|rets|] == rets;
      SameSize(g, cols, call, rets, to, inds, vals);
      if |inds| > 1 { rows := [Row(0, Some(0), inds, vals)]; }
      forall y: Values { CollectedRow(g, cols, cs, inds, vals, y); }
    }
  }

  lemma SameSize(g: Asg, cols: Columns, call: (nat, nat), rets: seq<nat>, to: nat, inds: seq<nat>, vals: seq<int>)
    requires Collected(g, cols, call, rets, to, inds, vals)
    ensures |inds| == |vals|
  {}

  lemma ReturnEdgesTake(g: Asg, rets: seq<nat>, k: nat, to: nat)
    requires k < |rets|
    ensures ReturnEdges(g, rets[..k + 1], to) ==
            if g.HasEdge(rets[k], to) then ReturnEdges(g, rets[..k], to) + [rets[k]] else ReturnEdges(g, rets[..k], to)
  {
    assert rets[..k + 1][..k] == rets[..k];
  }

  lemma SingleRow(r: Row, y: Values)
    ensures RowsHold([r], y) <==> RowHolds(r, y)
  {
    RowsAppend([], r, y);
    assert [] + [r] == [r];
  }

  lemma InSumAppend(x: Point, list: seq<nat>, q: nat, u: nat)
    ensures InSum(x, list + [q], u) == InSum(x, list, u) + x(EdgeVar(q, u))
  {
    assert (list + [q])[..|list|] == list;
  }

  // ---------------------------------------------------------------- the model

  ghost predicate NodesHold(g: Asg, x: Point, order: seq<nat>) {
    forall i :: 0 <= i < |order| && order[i] in g.nodes ==> NodeRowsHold(g, x, order[i])
  }

  ghost predicate SitesHold(g: Asg, x: Point, n: nat)
    requires n <= |g.callSites|
  {
    forall i :: 0 <= i < n ==> MatchingHolds(g, x, g.callSites[i])
  }

  method AllRows(g: Asg, cols: Columns) returns (rows: seq<Row>)
    requires CoversAll(g, cols) && g.Valid()
    ensures forall y: Values :: RowsHold(rows, y) <==>
              NodesHold(g, PointOf(cols, y), Ascending(g.nodes.Keys)) && SitesHold(g, PointOf(cols, y), |g.callSites|)
  {
    hide NodeRowsHold, MatchingHolds, RowHolds, PointOf;
    var order := Ascending(g.nodes.Keys);
    AscendingDistinct(g.nodes.Keys);
    rows := [];
    for i := 0 to |order|
      invariant forall y: Values :: RowsHold(rows, y) <==> NodesHold(g, PointOf(cols, y), order[..i])
    {
      assert order[i] in g.nodes;
      var more := RowsOfNode(g, cols, order[i]);
      forall y: Values ensures RowsHold(rows + more, y) <==> NodesHold(g, PointOf(cols, y), order[..i + 1]) {
        RowsConcat(rows, more, y);
        assert order[..i + 1] == order[..i] + [order[i]];
      }
      rows := rows + more;
    }
    assert order[..|order|] == order;
    for k := 0 to |g.callSites|
      invariant forall y: Values :: RowsHold(rows, y) <==>
                  NodesHold(g, PointOf(cols, y), order) && SitesHold(g, PointOf(cols, y), k)
    {
      var more := MatchingRow(g, cols, g.callSites[k]);
      forall y: Values { RowsConcat(rows, more, y); }
      rows := rows + more;
    }
  }

  /** What the columns and rows mean: admissible values are exactly the feasible counts, and the
      objective is the cost of the counts. */
  ghost predicate Encodes(m: Model, cols: Columns, g: Asg) {
    && CoversAll(g, cols)
    && (forall y: Values :: Admissible(m, y) <==> Feasible(g, PointOf(cols, y)))
    && (forall y: Values :: ColumnCost(m.colCost, y) == Objective(g, PointOf(cols, y)))
    && (forall x: Point :: Realisable(g, cols, x))
  }

  ghost predicate Realisable(g: Asg, cols: Columns, x: Point) { exists y: Values :: SameCounts(g, x, PointOf(cols, y)) }

  /** The two points give every node and every edge of the graph the same count. */
  ghost predicate SameCounts(g: Asg, x: Point, z: Point) {
    && (forall u :: u in g.nodes ==> z(NodeVar(u)) == x(NodeVar(u)))
    && (forall u: nat, v: nat :: g.HasEdge(u, v) ==> z(EdgeVar(u, v)) == x(EdgeVar(u, v)))
  }

  /** What a column adds to the objective, in terms of the counts. */
  lemma ColumnAdds(g: Asg, costs: seq<nat>, cols: Columns, vars: seq<Var>, y: Values, c: nat)
    requires Layout(g, costs, cols, vars) && c < |costs|
    ensures costs[c] == CostOfVar(g, vars[c])
    ensures vars[c].NodeVar? ==> PointOf(cols, y)(vars[c]) == y(c)
  {
    assert IsColumn(cols, vars[c], c);
  }

  lemma {:induction false} CostPrefix(g: Asg, costs: seq<nat>, cols: Columns, vars: seq<Var>, order: seq<nat>, y: Values, n: nat)
    requires Layout(g, costs, cols, vars) && NodesFirst(order, vars) && n <= |costs| && forall u :: u in order ==> u in g.nodes
    ensures ColumnCost(costs[..n], y) == CostSum(g, PointOf(cols, y), order[..if n < |order| then n else |order|])
  {
    hide Layout, PointOf;
    if n > 0 {
      CostPrefix(g, costs, cols, vars, order, y, n - 1);
      assert costs[..n][..n - 1] == costs[..n - 1];
      SameLength(g, costs, cols, vars);
      ColumnAdds(g, costs, cols, vars, y, n - 1);
      if n <= |order| {
        assert order[..n][..n - 1] == order[..n - 1];
        assert vars[n - 1] == NodeVar(order[n - 1]) && order[n - 1] in order;
      } else {
        assert vars[n - 1].EdgeVar?;
      }
    }
  }

  lemma SameLength(g: Asg, costs: seq<nat>, cols: Columns, vars: seq<Var>)
    requires Layout(g, costs, cols, vars)
    ensures |vars| == |costs|
  {}

  lemma LowerBounds(g: Asg, costs: seq<nat>, cols: Columns, vars: seq<Var>, y: Values)
    requires Layout(g, costs, cols, vars) && CoversAll(g, cols)
    ensures (forall c :: 0 <= c < |costs| ==> y(c) >= 0) <==> NonNegative(g, PointOf(cols, y))
  {
    var x := PointOf(cols, y);
    if NonNegative(g, x) {
      forall c | 0 <= c < |costs| ensures y(c) >= 0 {
        assert IsColumn(cols, vars[c], c);
        match vars[c]
        case NodeVar(u) => assert u in g.nodes && x(NodeVar(u)) == y(c);
        case EdgeVar(u, w) => assert g.HasEdge(u, w) && x(EdgeVar(u, w)) == y(c);
      }
    }
  }

  lemma AllNodes(g: Asg, x: Point)
    ensures NodesHold(g, x, Ascending(g.nodes.Keys)) <==> forall u :: u in g.nodes ==> NodeRowsHold(g, x, u)
  {
    AscendingDistinct(g.nodes.Keys);
    hide NodeRowsHold;
    if NodesHold(g, x, Ascending(g.nodes.Keys)) {
      forall u | u in g.nodes ensures NodeRowsHold(g, x, u) { assert u in Ascending(g.nodes.Keys); }
    }
  }

  lemma Realised(g: Asg, costs: seq<nat>, cols: Columns, vars: seq<Var>, x: Point)
    requires Layout(g, costs, cols, vars) && CoversAll(g, cols)
    ensures Realisable(g, cols, x)
  {
    var y: Values := (c: nat) => if c < |vars| then x(vars[c]) else 0;
    assert SameCounts(g, x, PointOf(cols, y));
  }

  lemma AdmissibleIff(g: Asg, costs: seq<nat>, rows: seq<Row>, cols: Columns, vars: seq<Var>, y: Values)
    requires Layout(g, costs, cols, vars) && CoversAll(g, cols)
    requires RowsHold(rows, y) <==>
             NodesHold(g, PointOf(cols, y), Ascending(g.nodes.Keys)) && SitesHold(g, PointOf(cols, y), |g.callSites|)
    ensures Admissible(Model(costs, rows), y) <==> Feasible(g, PointOf(cols, y))
  {
    hide RowsHold, NodesHold, NodeRowsHold, MatchingHolds, NonNegative, Layout, PointOf;
    LowerBounds(g, costs, cols, vars, y);
    AllNodes(g, PointOf(cols, y));
  }

  lemma ObjectiveIs(g: Asg, costs: seq<nat>, cols: Columns, vars: seq<Var>, y: Values)
    requires Layout(g, costs, cols, vars) && NodesFirst(Ascending(g.nodes.Keys), vars)
    ensures ColumnCost(costs, y) == Objective(g, PointOf(cols, y))
  {
    hide PointOf;
    var order := Ascending(g.nodes.Keys);
    AscendingDistinct(g.nodes.Keys);
    CostPrefix(g, costs, cols, vars, order, y, |costs|);
    assert costs[..|costs|] == costs && order[..|order|] == order;
  }

  /** The columns and rows of the integer program, as handed to the optimiser. */
  method BuildModel(g: Asg) returns (m: Model, cols: Columns)
    requires g.Valid()
    ensures Encodes(m, cols, g)
  {
    hide Admissible, Feasible, Layout, NodesFirst, RowsHold, NodesHold, SitesHold, CoversAll, PointOf, Objective, ColumnCost, Realisable;
    var costs;
    ghost var vars;
    costs, cols, vars := MakeColumns(g);
    var rows := AllRows(g, cols);
    m := Model(costs, rows);
    forall y: Values { AdmissibleIff(g, costs, rows, cols, vars, y); }
    forall y: Values { ObjectiveIs(g, costs, cols, vars, y); }
    forall x: Point { Realised(g, costs, cols, vars, x); }
  }

  // ---------------------------------------------------------------- any maximiser will do

  lemma {:induction false} InSumsAgree(g: Asg, x: Point, z: Point, list: seq<nat>, u: nat)
    requires SameCounts(g, x, z) && forall q :: q in list ==> g.HasEdge(q, u)
    ensures InSum(x, list, u) == InSum(z, list, u) && BackSum(g, x, list, u) == BackSum(g, z, list, u)
  {
    if list != [] {
      var front, q := list[..|list| - 1], list[|list| - 1];
      assert list == front + [q] && g.HasEdge(q, u);
      InSumsAgree(g, x, z, front, u);
    }
  }

  lemma {:induction false} OutSumsAgree(g: Asg, x: Point, z: Point, list: seq<nat>, u: nat)
    requires SameCounts(g, x, z) && forall q :: q in list ==> g.HasEdge(u, q)
    ensures OutSum(x, list, u) == OutSum(z, list, u)
  {
    if list != [] {
      var front, q := list[..|list| - 1], list[|list| - 1];
      assert list == front + [q] && g.HasEdge(u, q);
      OutSumsAgree(g, x, z, front, u);
    }
  }

  lemma NodeRowsAgree(g: Asg, x: Point, z: Point, u: nat)
    requires g.Valid() && SameCounts(g, x, z) && u in g.nodes && NodeRowsHold(g, x, u)
    ensures NodeRowsHold(g, z, u)
  {
    AscendingDistinct(g.Predecessors(u));
    AscendingDistinct(g.Successors(u).Keys);
    InSumsAgree(g, x, z, PredList(g, u), u);
    OutSumsAgree(g, x, z, SuccList(g, u), u);
  }

  lemma {:induction false} ReturnEdgesExist(g: Asg, rets: seq<nat>, to: nat)
    ensures forall r :: r in ReturnEdges(g, rets, to) ==> g.HasEdge(r, to)
  {
    if rets != [] { ReturnEdgesExist(g, rets[..|rets| - 1], to); }
  }

  lemma FeasibleAgree(g: Asg, x: Point, z: Point)
    requires g.Valid() && SameCounts(g, x, z) && Feasible(g, x)
    ensures Feasible(g, z)
  {
    forall u | u in g.nodes ensures NodeRowsHold(g, z, u) { NodeRowsAgree(g, x, z, u); }
    forall i | 0 <= i < |g.callSites| ensures MatchingHolds(g, z, g.callSites[i]) {
      var cs := g.callSites[i];
      assert MatchingHolds(g, x, cs);
      ReturnEdgesExist(g, ReturnsOf(g, cs.callee), cs.returnNode);
      InSumsAgree(g, x, z, ReturnEdges(g, ReturnsOf(g, cs.callee), cs.returnNode), cs.returnNode);
    }
  }

  lemma {:induction false} CostAgrees(g: Asg, x: Point, z: Point, order: seq<nat>)
    requires SameCounts(g, x, z)
    ensures CostSum(g, x, order) == CostSum(g, z, order)
  {
    if order != [] { CostAgrees(g, x, z, order[..|order| - 1]); }
  }

  /** No values allowed by the columns and rows have a larger objective. */
  ghost predicate IsOptimal(m: Model, best: Values) {
    Admissible(m, best) && forall y: Values :: Admissible(m, y) ==> ColumnCost(m.colCost, y) <= ColumnCost(m.colCost, best)
  }

  /** Whatever optimum the solver returns for the model, it is the largest objective over all counts
      that satisfy the rows, whether or not they came from column values. */
  lemma OptimumIsMaximum(g: Asg, m: Model, cols: Columns, best: Values, x: Point)
    requires g.Valid() && Encodes(m, cols, g) && IsOptimal(m, best) && Feasible(g, x)
    ensures Objective(g, x) <= ColumnCost(m.colCost, best)
  {
    assert Realisable(g, cols, x);
    var y: Values :| SameCounts(g, x, PointOf(cols, y));
    var z := PointOf(cols, y);
    FeasibleAgree(g, x, z);
    CostAgrees(g, x, z, Ascending(g.nodes.Keys));
    assert Admissible(m, y);
  }

  /** The optimum of the model is at least the cost of every real run. */
  lemma OptimumBoundsRuns(g: Asg, p: Program, b: Bounds, steps: seq<Step>, m: Model, cols: Columns, best: Values)
    requires Embeds(g, p) && SitesMatch(g, p) && BoundsMatch(g, b) && DistinctLandings(p)
    requires IsComplete(g, p, b, steps) && |Final(p, b, steps).stack| == 1
    requires Encodes(m, cols, g) && IsOptimal(m, best)
    ensures RunCost(p, b, steps, CostOf(g)) <= ColumnCost(m.colCost, best)
  {
    forall x: Point | Feasible(g, x) ensures Objective(g, x) <= ColumnCost(m.colCost, best) {
      OptimumIsMaximum(g, m, cols, best, x);
    }
    WcetIsUpperBound(g, p, b, steps, ColumnCost(m.colCost, best));
  }
}
