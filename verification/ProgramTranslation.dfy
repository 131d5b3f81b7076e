/** From the finalized program graph to the state graph whose integer program is solved. */
module ProgramTranslation {
  import opened ReplacementPolicy
  import opened AbstractStateGraph
  import opened Walks
  import opened GraphBlocks
  import opened WcetModel
  import opened Runs
  import opened CallWiring

  /** A block as the solver sees it. Only blocks with flagged predecessors are headers. */
  ghost predicate Shows(a: Attributes, b: Block) {
    && a.cost == b.maxCycles
    && (a.isEntry <==> b.name == "Entry" || b.predecessors == {})
    && (a.isExit <==> b.name == "Exit" || b.successors == {})
    && (a.isLoopHeader <==> b.backEdgePredecessors != {})
    && a.upperLoopBound == if b.backEdgePredecessors != {} then b.upperLoopBound else 0
  }

  /** The listed nodes that were kept, in order. */
  function KeptNodes(list: seq<nat>, nodes: Blocks): seq<nat> {
    if list == [] then []
    else
      var r := list[|list| - 1];
      KeptNodes(list[..|list| - 1], nodes) + (if r in nodes then [r] else [])
  }

  predicate KeepsSite(s: Site, nodes: Blocks) { s.hasLanding && s.call in nodes && s.landing in nodes }

  /** The call sites with a landing whose ends were kept, in order. */
  function KeptSites(sites: seq<Site>, nodes: Blocks): seq<CallSite> {
    if sites == [] then []
    else
      var s := sites[|sites| - 1];
      KeptSites(sites[..|sites| - 1], nodes) + (if KeepsSite(s, nodes) then [CallSite(s.call, s.landing, s.callee)] else [])
  }

  /** Exactly the listed nodes that were kept, each as often as listed. */
  lemma {:induction false} KeptNodesExact(list: seq<nat>, nodes: Blocks)
    ensures forall r :: multiset(KeptNodes(list, nodes))[r] == if r in nodes then multiset(list)[r] else 0
    ensures forall r :: r in KeptNodes(list, nodes) <==> r in list && r in nodes
  {
    if list != [] {
      var front, r := list[..|list| - 1], list[|list| - 1];
      assert list == front + [r];
      KeptNodesExact(front, nodes);
    }
  }

  /** Exactly the sites with a landing and both ends kept, each as often as recorded. */
  lemma {:induction false} KeptSitesExact(sites: seq<Site>, nodes: Blocks)
    ensures forall cs :: multiset(KeptSites(sites, nodes))[cs] ==
                           if cs.callNode in nodes && cs.returnNode in nodes
                           then multiset(sites)[Site(cs.callNode, cs.callee, cs.returnNode, true)] else 0
  {
    if sites != [] {
      var front, s := sites[..|sites| - 1], sites[|sites| - 1];
      assert sites == front + [s];
      KeptSitesExact(front, nodes);
    }
  }

  lemma KeptSitesAre(sites: seq<Site>, nodes: Blocks)
    ensures forall cs :: cs in KeptSites(sites, nodes) <==> IsKeptSite(sites, nodes, cs)
  {
    KeptSitesExact(sites, nodes);
    forall cs ensures cs in KeptSites(sites, nodes) <==> IsKeptSite(sites, nodes, cs) {
      assert cs in KeptSites(sites, nodes) <==> multiset(KeptSites(sites, nodes))[cs] > 0;
    }
  }

  ghost predicate IsKeptSite(sites: seq<Site>, nodes: Blocks, cs: CallSite) {
    cs.callNode in nodes && cs.returnNode in nodes && Site(cs.callNode, cs.callee, cs.returnNode, true) in sites
  }

  type SuccMap = map<nat, map<nat, bool>>

  type PredMap = map<nat, set<nat>>

  ghost predicate InSuccs(succs: SuccMap, u: nat, v: nat) { u in succs && v in succs[u] }

  ghost predicate InPreds(preds: PredMap, u: nat, v: nat) { v in preds && u in preds[v] }

  /** The maps hold exactly the edges `done`, flagged as the target's block says. */
  ghost predicate Holds(nodes: Blocks, done: Edges, succs: SuccMap, preds: PredMap) {
    && (forall u: nat, v: nat :: InSuccs(succs, u, v) <==> (u, v) in done)
    && (forall u: nat, v: nat :: InPreds(preds, u, v) <==> (u, v) in done)
    && (forall u: nat, v: nat :: InSuccs(succs, u, v) && v in nodes ==> succs[u][v] == (u in nodes[v].backEdgePredecessors))
  }

  /** The state graph has the graph's blocks and edges, and what survives of its functions. */
  ghost predicate IsStateGraphOf(g: Asg, nodes: Blocks, c: CallInfo) {
    && g.nodes.Keys == nodes.Keys && (forall u :: u in nodes ==> Shows(g.nodes[u], nodes[u]))
    && Holds(nodes, EdgesOf(nodes), g.succs, g.preds)
    && (forall f :: f in g.functionEntries <==> f in c.entryOf && c.entryOf[f] in nodes)
    && (forall f :: f in g.functionEntries ==> g.functionEntries[f] == c.entryOf[f])
    && (forall f :: ReturnsOf(g, f) == if f in c.returnsOf then KeptNodes(c.returnsOf[f], nodes) else [])
    && g.callSites == KeptSites(c.sites, nodes)
  }

  // ---------------------------------------------------------------- edges

  lemma HoldsOneMore(nodes: Blocks, done: Edges, succs: SuccMap, preds: PredMap, u: nat, v: nat)
    requires Holds(nodes, done, succs, preds) && v in nodes
    ensures Holds(nodes, done + {(u, v)}, WithSucc(nodes, succs, u, v), WithPred(preds, u, v))
  {
    var succs', preds' := WithSucc(nodes, succs, u, v), WithPred(preds, u, v);
    forall a: nat, b: nat ensures InSuccs(succs', a, b) <==> InSuccs(succs, a, b) || (a == u && b == v) {}
    forall a: nat, b: nat ensures InPreds(preds', a, b) <==> InPreds(preds, a, b) || (a == u && b == v) {}
  }

  /** An edge that is already there keeps its flag. */
  function WithSucc(nodes: Blocks, succs: SuccMap, u: nat, v: nat): SuccMap
    requires v in nodes
  {
    var out := if u in succs then succs[u] else map[];
    succs[u := if v in out then out else out[v := u in nodes[v].backEdgePredecessors]]
  }

  function WithPred(preds: PredMap, u: nat, v: nat): PredMap { preds[v := (if v in preds then preds[v] else {}) + {u}] }

  /** The edges leaving the listed nodes. */
  ghost function EdgesFrom(nodes: Blocks, list: seq<nat>): Edges { set x | x in EdgesOf(nodes) && x.0 in list }

  method AddEdgesOf(nodes: Blocks, u: nat, succs0: SuccMap, preds0: PredMap, ghost list: seq<nat>) returns (succs: SuccMap, preds: PredMap)
    requires Mirrored(nodes) && u in nodes && Holds(nodes, EdgesFrom(nodes, list), succs0, preds0)
    ensures Holds(nodes, EdgesFrom(nodes, list + [u]), succs, preds)
  {
    hide Mirrored, Holds, EdgesOf, WithSucc, WithPred, Ascending;
    succs, preds := succs0, preds0;
    var targets := Ascending(nodes[u].successors);
    AscendingExact(nodes[u].successors);
    ghost var done := EdgesFrom(nodes, list);
    for k := 0 to |targets|
      invariant Holds(nodes, done, succs, preds)
      invariant forall x :: x in done <==> x in EdgesFrom(nodes, list) || (x.0 == u && x.1 in targets[..k])
    {
      var v := targets[k];
      assert v in targets && targets[..k + 1] == targets[..k] + [v];
      SuccessorsExist(nodes, u, v);
      if v in nodes {
        HoldsOneMore(nodes, done, succs, preds, u, v);
        succs, preds, done := WithSucc(nodes, succs, u, v), WithPred(preds, u, v), done + {(u, v)};
      }
    }
    assert targets[..|targets|] == targets;
    EqualEdges(done, EdgesFrom(nodes, list + [u]));
  }

  method AddEdges(nodes: Blocks) returns (succs: SuccMap, preds: PredMap)
    requires Mirrored(nodes)
    ensures Holds(nodes, EdgesOf(nodes), succs, preds)
  {
    hide Mirrored, Holds, Ascending;
    succs, preds := map[], map[];
    var order := Ascending(nodes.Keys);
    AscendingExact(nodes.Keys);
    HoldsNothing(nodes, EdgesFrom(nodes, order[..0]));
    for i := 0 to |order|
      invariant Holds(nodes, EdgesFrom(nodes, order[..i]), succs, preds)
    {
      assert order[i] in order && order[..i + 1] == order[..i] + [order[i]];
      succs, preds := AddEdgesOf(nodes, order[i], succs, preds, order[..i]);
    }
    assert order[..|order|] == order;
    EqualEdges(EdgesFrom(nodes, order), EdgesOf(nodes));
  }

  lemma HoldsNothing(nodes: Blocks, done: Edges)
    requires done == {}
    ensures Holds(nodes, done, map[], map[])
  {}

  // ---------------------------------------------------------------- the graph

  /** The attributes before nodes without predecessors or successors become entries and exits. */
  function NamedAttributes(b: Block): Attributes {
    var header := b.backEdgePredecessors != {};
    Attributes(b.maxCycles, b.name == "Entry", b.name == "Exit", header, if header then b.upperLoopBound else 0)
  }

  ghost predicate Named(nodes: Blocks, attributes: map<nat, Attributes>, list: seq<nat>) {
    forall u :: (u in attributes <==> u in list) && (u in list ==> u in nodes && attributes[u] == NamedAttributes(nodes[u]))
  }

  method AddNodes(nodes: Blocks) returns (attributes: map<nat, Attributes>)
    ensures attributes.Keys == nodes.Keys && forall u :: u in nodes ==> attributes[u] == NamedAttributes(nodes[u])
  {
    hide *;
    attributes := map[];
    var order := Ascending(nodes.Keys);
    AscendingExact(nodes.Keys);
    NamedNothing(nodes, order[..0]);
    for i := 0 to |order|
      invariant Named(nodes, attributes, order[..i])
    {
      assert order[i] in order && order[..i + 1] == order[..i] + [order[i]];
      NamedOneMore(nodes, attributes, order[..i], order[i]);
      attributes := attributes[order[i] := NamedAttributes(nodes[order[i]])];
    }
    assert order[..|order|] == order;
    AllNamed(nodes, attributes, order);
  }

  lemma NamedNothing(nodes: Blocks, list: seq<nat>)
    requires list == []
    ensures Named(nodes, map[], list)
  {}

  lemma NamedOneMore(nodes: Blocks, attributes: map<nat, Attributes>, list: seq<nat>, u: nat)
    requires Named(nodes, attributes, list) && u in nodes
    ensures Named(nodes, attributes[u := NamedAttributes(nodes[u])], list + [u])
  {
    hide NamedAttributes;
  }

  lemma AllNamed(nodes: Blocks, attributes: map<nat, Attributes>, list: seq<nat>)
    requires Named(nodes, attributes, list) && forall u :: u in list <==> u in nodes
    ensures attributes.Keys == nodes.Keys && forall u :: u in nodes ==> attributes[u] == NamedAttributes(nodes[u])
  {
    hide NamedAttributes;
    assert forall u :: u in attributes <==> u in nodes;
  }

  /** Nodes without predecessors become entries, nodes without successors exits. */
  method SetEnds(nodes: Blocks, attributes0: map<nat, Attributes>) returns (attributes: map<nat, Attributes>)
    requires attributes0.Keys == nodes.Keys && forall u :: u in nodes ==> attributes0[u] == NamedAttributes(nodes[u])
    ensures attributes.Keys == nodes.Keys && forall u :: u in nodes ==> Shows(attributes[u], nodes[u])
  {
    hide *;
    attributes := attributes0;
    var order := Ascending(nodes.Keys);
    AscendingExact(nodes.Keys);
    NoneEnded(nodes, attributes, order[..0]);
    for i := 0 to |order|
      invariant Ended(nodes, attributes, order[..i])
    {
      var u := order[i];
      assert u in order && u !in order[..i] && order[..i + 1] == order[..i] + [u];
      EndOneMore(nodes, attributes, order[..i], u);
      var a := attributes[u];
      if nodes[u].predecessors == {} { a := a.(isEntry := true); }
      if nodes[u].successors == {} { a := a.(isExit := true); }
      attributes := attributes[u := a];
    }
    assert order[..|order|] == order;
    AllEnded(nodes, attributes, order);
  }

  /** The listed nodes have their final attributes, the others only those from their names. */
  ghost predicate Ended(nodes: Blocks, attributes: map<nat, Attributes>, list: seq<nat>) {
    && attributes.Keys == nodes.Keys
    && forall u :: u in nodes ==> if u in list then Shows(attributes[u], nodes[u]) else attributes[u] == NamedAttributes(nodes[u])
  }

  lemma NoneEnded(nodes: Blocks, attributes: map<nat, Attributes>, list: seq<nat>)
    requires attributes.Keys == nodes.Keys && list == [] && forall u :: u in nodes ==> attributes[u] == NamedAttributes(nodes[u])
    ensures Ended(nodes, attributes, list)
  {}

  lemma EndOneMore(nodes: Blocks, attributes: map<nat, Attributes>, list: seq<nat>, u: nat)
    requires Ended(nodes, attributes, list) && u in nodes && u !in list
    ensures u in attributes
    ensures var a := if nodes[u].predecessors == {} then attributes[u].(isEntry := true) else attributes[u];
            var b := if nodes[u].successors == {} then a.(isExit := true) else a;
            Ended(nodes, attributes[u := b], list + [u])
  {
    EndsOf(nodes[u]);
    hide Shows, NamedAttributes;
  }

  lemma AllEnded(nodes: Blocks, attributes: map<nat, Attributes>, list: seq<nat>)
    requires Ended(nodes, attributes, list) && forall u :: u in nodes ==> u in list
    ensures attributes.Keys == nodes.Keys && forall u :: u in nodes ==> Shows(attributes[u], nodes[u])
  {
    hide Shows, NamedAttributes;
  }

  lemma EndsOf(b: Block)
    ensures var a := NamedAttributes(b);
            Shows(a.(isEntry := a.isEntry || b.predecessors == {}, isExit := a.isExit || b.successors == {}), b)
  {}

  method KeepEntries(nodes: Blocks, c: CallInfo) returns (entries: map<Fn, nat>)
    ensures forall f :: f in entries <==> f in c.entryOf && c.entryOf[f] in nodes
    ensures forall f :: f in entries ==> entries[f] == c.entryOf[f]
  {
    entries := map[];
    var order := Ascending(c.entryOf.Keys);
    AscendingExact(c.entryOf.Keys);
    for i := 0 to |order|
      invariant forall f :: f in entries <==> f in order[..i] && c.entryOf[f] in nodes
      invariant forall f :: f in entries ==> entries[f] == c.entryOf[f]
    {
      var f := order[i];
      assert f in order && order[..i + 1] == order[..i] + [f];
      if c.entryOf[f] in nodes { entries := entries[f := c.entryOf[f]]; }
    }
    assert order[..|order|] == order;
  }

  function ListFor(m: map<Fn, seq<nat>>, f: Fn): seq<nat> { if f in m then m[f] else [] }

  /** Appends the kept return nodes of one function. */
  method KeepReturnsOf(nodes: Blocks, kept0: map<Fn, seq<nat>>, f: Fn, rets: seq<nat>) returns (kept: map<Fn, seq<nat>>)
    requires f !in kept0
    ensures ListFor(kept, f) == KeptNodes(rets, nodes) && forall h :: h != f ==> ListFor(kept, h) == ListFor(kept0, h)
    ensures kept.Keys <= kept0.Keys + {f}
  {
    kept := kept0;
    for k := 0 to |rets|
      invariant forall h :: h != f ==> ListFor(kept, h) == ListFor(kept0, h)
      invariant ListFor(kept, f) == KeptNodes(rets[..k], nodes) && kept.Keys <= kept0.Keys + {f}
    {
      assert rets[..k + 1][..k] == rets[..k];
      if rets[k] in nodes { kept := kept[f := ListFor(kept, f) + [rets[k]]]; }
    }
    assert rets[..|rets|] == rets;
  }

  method KeepReturns(nodes: Blocks, c: CallInfo) returns (kept: map<Fn, seq<nat>>)
    ensures forall f :: ListFor(kept, f) == if f in c.returnsOf then KeptNodes(c.returnsOf[f], nodes) else []
  {
    hide Ascending, KeptNodes;
    kept := map[];
    var order := Ascending(c.returnsOf.Keys);
    AscendingExact(c.returnsOf.Keys);
    for i := 0 to |order|
      invariant forall f :: f in kept ==> f in order[..i]
      invariant forall f :: f in order[..i] ==> ListFor(kept, f) == KeptNodes(c.returnsOf[f], nodes)
    {
      var f := order[i];
      assert f in order && f !in order[..i] && order[..i + 1] == order[..i] + [f];
      kept := KeepReturnsOf(nodes, kept, f, c.returnsOf[f]);
    }
    assert order[..|order|] == order;
  }

  method KeepSites(nodes: Blocks, c: CallInfo) returns (sites: seq<CallSite>)
    ensures sites == KeptSites(c.sites, nodes)
  {
    sites := [];
    for k := 0 to |c.sites|
      invariant sites == KeptSites(c.sites[..k], nodes)
    {
      var s := c.sites[k];
      assert c.sites[..k + 1][..k] == c.sites[..k];
      if s.hasLanding && s.call in nodes && s.landing in nodes {
        sites := sites + [CallSite(s.call, s.landing, s.callee)];
      }
    }
    assert c.sites[..|c.sites|] == c.sites;
  }

  /** The edges of the state graph are those of the blocks, flagged as the blocks say. */
  lemma ShownEdges(g: Asg, nodes: Blocks)
    requires Mirrored(nodes) && Holds(nodes, EdgesOf(nodes), g.succs, g.preds)
    ensures forall u: nat, v: nat :: g.HasEdge(u, v) <==> IsSucc(nodes, u, v)
    ensures forall u: nat, v: nat :: u in g.Predecessors(v) <==> IsSucc(nodes, u, v)
    ensures forall u: nat, v: nat :: g.IsBackEdge(u, v) <==> IsSucc(nodes, u, v) && v in nodes && u in nodes[v].backEdgePredecessors
  {
    assert forall u: nat, v: nat :: g.HasEdge(u, v) <==> InSuccs(g.succs, u, v);
    assert forall u: nat, v: nat :: u in g.Predecessors(v) <==> InPreds(g.preds, u, v);
    forall u: nat, v: nat ensures g.IsBackEdge(u, v) <==> IsSucc(nodes, u, v) && v in nodes && u in nodes[v].backEdgePredecessors {
      if IsSucc(nodes, u, v) { assert IsPred(nodes, u, v) && InSuccs(g.succs, u, v); }
      if g.IsBackEdge(u, v) { assert InSuccs(g.succs, u, v); }
    }
  }

  lemma ShownCalls(g: Asg, nodes: Blocks, c: CallInfo)
    requires g.callSites == KeptSites(c.sites, nodes)
    requires forall f :: ReturnsOf(g, f) == if f in c.returnsOf then KeptNodes(c.returnsOf[f], nodes) else []
    ensures forall f, r :: r in ReturnsOf(g, f) <==> f in c.returnsOf && r in c.returnsOf[f] && r in nodes
    ensures forall cs :: cs in g.callSites <==>
              cs.callNode in nodes && cs.returnNode in nodes && Site(cs.callNode, cs.callee, cs.returnNode, true) in c.sites
  {
    KeptSitesAre(c.sites, nodes);
    forall f ensures forall r :: r in ReturnsOf(g, f) <==> f in c.returnsOf && r in c.returnsOf[f] && r in nodes {
      if f in c.returnsOf { KeptNodesExact(c.returnsOf[f], nodes); }
    }
  }

  lemma ShownFields(g: Asg, nodes: Blocks)
    requires g.nodes.Keys == nodes.Keys && forall u :: u in nodes ==> Shows(g.nodes[u], nodes[u])
    ensures forall u :: u in nodes ==> g.nodes[u].cost == nodes[u].maxCycles
    ensures forall u :: u in nodes ==> (g.nodes[u].isEntry <==> nodes[u].name == "Entry" || nodes[u].predecessors == {})
    ensures forall u :: u in nodes ==> (g.nodes[u].isExit <==> nodes[u].name == "Exit" || nodes[u].successors == {})
    ensures forall u :: u in nodes ==> (g.nodes[u].isLoopHeader <==> nodes[u].backEdgePredecessors != {})
    ensures forall u :: u in nodes && nodes[u].backEdgePredecessors != {} ==> g.nodes[u].upperLoopBound == nodes[u].upperLoopBound
  {}

  method InitializeGraph(nodes: Blocks, c: CallInfo) returns (g: Asg)
    requires Mirrored(nodes)
    ensures IsStateGraphOf(g, nodes, c) && g.nodes.Keys == nodes.Keys
    ensures forall u :: u in nodes ==> g.nodes[u].cost == nodes[u].maxCycles
    ensures forall u :: u in nodes ==> (g.nodes[u].isEntry <==> nodes[u].name == "Entry" || nodes[u].predecessors == {})
    ensures forall u :: u in nodes ==> (g.nodes[u].isExit <==> nodes[u].name == "Exit" || nodes[u].successors == {})
    ensures forall u :: u in nodes ==> (g.nodes[u].isLoopHeader <==> nodes[u].backEdgePredecessors != {})
    ensures forall u :: u in nodes && nodes[u].backEdgePredecessors != {} ==> g.nodes[u].upperLoopBound == nodes[u].upperLoopBound
    ensures forall u: nat, v: nat :: g.HasEdge(u, v) <==> IsSucc(nodes, u, v)
    ensures forall u: nat, v: nat :: g.IsBackEdge(u, v) <==> IsSucc(nodes, u, v) && v in nodes && u in nodes[v].backEdgePredecessors
    ensures forall f, r :: r in ReturnsOf(g, f) <==> f in c.returnsOf && r in c.returnsOf[f] && r in nodes
    ensures forall cs :: cs in g.callSites <==>
              cs.callNode in nodes && cs.returnNode in nodes && Site(cs.callNode, cs.callee, cs.returnNode, true) in c.sites
  {
    hide Mirrored, EdgesOf, Holds, KeptNodes, KeptSites, Shows, IsSucc;
    var attributes := AddNodes(nodes);
    var succs, preds := AddEdges(nodes);
    attributes := SetEnds(nodes, attributes);
    var entries := KeepEntries(nodes, c);
    var returns_ := KeepReturns(nodes, c);
    var sites := KeepSites(nodes, c);
    g := Asg(attributes, succs, preds, entries, returns_, sites);
    assert forall f :: ReturnsOf(g, f) == ListFor(returns_, f);
    ShownFields(g, nodes);
    ShownEdges(g, nodes);
    ShownCalls(g, nodes, c);
  }
}
