/** The worklist fixpoint solver over one function. */
module WorklistSolver {
  import opened AgeDomain
  import opened ReplacementPolicy
  import opened CacheStates
  import opened CacheAnalysis
  import opened Traces
  import opened Visits
  import opened Fixpoint
  import opened SolverMeasure
  import opened SolverTheory
  import opened AbstractStateGraph

  /** The graph has one node per block, numbered like the blocks, and the function's edges. */
  ghost predicate Mirrors(g: Graph<CacheState>, f: Function)
    reads g
  {
    && g.Valid()
    && (forall n: nat :: n in g.nodes <==> n < |f|)
    && (forall n :: n in g.nodes ==> g.nodes[n].mbb == Some(n))
    && (forall u: nat, v: nat :: g.HasEdge(u, v) <==> Edge(f, u, v))
  }

  lemma {:induction false} PredsBelowIncreasing(f: Function, v: nat, k: nat)
    requires k <= |f|
    ensures Increasing(PredsBelow(f, v, k))
  {
    if k > 0 {
      PredsBelowIncreasing(f, v, k - 1);
      var p := PredsBelow(f, v, k - 1);
      forall i | 0 <= i < |p| ensures p[i] < k - 1 {
        PredsBelowExact(f, v, k - 1, p[i]);
      }
    }
  }

  /** Traversing the predecessor set visits exactly the predecessors, in ascending order. */
  lemma PredecessorOrder(g: Graph<CacheState>, f: Function, v: nat)
    requires Mirrors(g, f)
    ensures Ascending(g.GetPredecessors(v)) == Preds(f, v)
  {
    AscendingExact(g.GetPredecessors(v));
    PredsBelowIncreasing(f, v, |f|);
    forall u ensures u in g.GetPredecessors(v) <==> u in Preds(f, v) {
      assert u in g.GetPredecessors(v) <==> g.HasEdge(u, v);
      PredsBelowExact(f, v, |f|, u);
    }
    IncreasingUnique(Ascending(g.GetPredecessors(v)), Preds(f, v));
  }

  class Solver {
    const analysis: Analysis
    const graph: Graph<CacheState>
    var worklist: seq<nat>
    var inWorklist: set<nat>

    constructor (analysis: Analysis, graph: Graph<CacheState>)
      ensures this.analysis == analysis && this.graph == graph
      ensures worklist == [] && inWorklist == {}
    {
      this.analysis, this.graph := analysis, graph;
      worklist, inWorklist := [], {};
    }

    /** The set tracks the queue, which holds no node twice. */
    ghost predicate Consistent()
      reads this
    {
      && (forall n :: n in worklist <==> n in inWorklist)
      && (forall i, j :: 0 <= i < j < |worklist| ==> worklist[i] != worklist[j])
    }

    method AddToWorklist(n: nat)
      requires Consistent()
      modifies this
      ensures Consistent()
      ensures worklist == if n in old(worklist) then old(worklist) else old(worklist) + [n]
    {
      if n !in inWorklist {
        worklist := worklist + [n];
        inWorklist := inWorklist + {n};
      }
    }

    method TakeFromWorklist() returns (n: nat)
      requires Consistent() && worklist != []
      modifies this
      ensures Consistent()
      ensures n == old(worklist)[0] && worklist == old(worklist)[1..]
    {
      n := worklist[0];
      assert worklist == [n] + worklist[1..];
      worklist := worklist[1..];
      inWorklist := inWorklist - {n};
    }

    /** Queues every target of `n`. */
    method AddSuccessors(n: nat)
      requires Consistent()
      modifies this
      ensures Consistent()
      ensures forall m :: m in worklist <==> m in old(worklist) || m in graph.GetSuccessors(n)
    {
      var targets := Ascending(graph.GetSuccessors(n).Keys);
      AscendingExact(graph.GetSuccessors(n).Keys);
      var i := 0;
      while i < |targets|
        invariant 0 <= i <= |targets| && Consistent()
        invariant forall m :: m in worklist <==> m in old(worklist) || m in targets[..i]
      {
        AddToWorklist(targets[i]);
        assert targets[..i + 1] == targets[..i] + [targets[i]];
        i := i + 1;
      }
      assert targets[..|targets|] == targets;
    }

    /** The node states, with the values `st`. */
    ghost predicate Carries(st: States)
      reads *
    {
      && (forall n: nat :: n in graph.nodes <==> n < |st|)
      && (forall n :: n in graph.nodes ==> analysis.Fits(graph.nodes[n].state) && graph.nodes[n].state.View() == st[n])
    }

    /** Creates one node per block, holding the initial state. */
    method AddNodes(f: Function)
      requires analysis.su.Valid() && graph.Valid() && graph.nextNodeId == 0 && graph.nodes == map[]
      requires forall u: nat, v: nat :: !graph.HasEdge(u, v)
      modifies graph
      ensures graph.Valid() && graph.nextNodeId == |f|
      ensures forall u: nat, v: nat :: !graph.HasEdge(u, v)
      ensures forall n :: n in graph.nodes ==> graph.nodes[n].mbb == Some(n) && graph.nodes[n].cost == 0
      ensures Carries(seq(|f|, n => Empty(analysis.su.geo.numSets)))
    {
      var i := 0;
      while i < |f|
        invariant 0 <= i <= |f| && graph.Valid() && graph.nextNodeId == i
        invariant graph.adjacency == old(graph.adjacency)
        invariant forall n :: n in graph.nodes ==> graph.nodes[n].mbb == Some(n) && graph.nodes[n].cost == 0
        invariant forall n: nat :: n in graph.nodes <==> n < i
        invariant forall n :: n in graph.nodes ==>
                    && analysis.Fits(graph.nodes[n].state)
                    && graph.nodes[n].state.View() == Empty(analysis.su.geo.numSets)
      {
        var state := analysis.GetInitialState();
        var id := graph.AddNode(state, Some(i));
        i := i + 1;
      }
    }

    /** Adds the edge of every successor entry of every block. */
    method AddEdges(f: Function)
      requires graph.Valid() && forall u: nat, v: nat :: !graph.HasEdge(u, v)
      modifies graph`adjacency, graph`predecessors
      ensures graph.Valid()
      ensures forall u: nat, v: nat :: graph.HasEdge(u, v) <==> Edge(f, u, v)
    {
      var u := 0;
      while u < |f|
        invariant 0 <= u <= |f| && graph.Valid()
        invariant forall a: nat, b: nat :: graph.HasEdge(a, b) <==> a < u && Edge(f, a, b)
      {
        var i := 0;
        while i < |f[u].succs|
          invariant 0 <= i <= |f[u].succs| && graph.Valid()
          invariant forall a: nat, b: nat :: graph.HasEdge(a, b) <==> (a < u && Edge(f, a, b)) || (a == u && b in f[u].succs[..i])
        {
          assert f[u].succs[..i + 1] == f[u].succs[..i] + [f[u].succs[i]];
          graph.AddEdge(u, f[u].succs[i], false);
          i := i + 1;
        }
        assert f[u].succs[..|f[u].succs|] == f[u].succs;
        u := u + 1;
      }
    }

    method MarkEntry(f: Function, ghost st: States)
      requires Mirrors(graph, f) && Carries(st) && |f| > 0
      modifies graph`nodes
      ensures Mirrors(graph, f) && Carries(st)
      ensures forall n :: n in graph.nodes ==> graph.nodes[n].cost == old(graph.nodes)[n].cost
    {
      graph.SetNode(0, graph.nodes[0].(isEntry := true));
      assert forall n :: n in graph.nodes ==> graph.nodes[n].state == old(graph.nodes)[n].state;
    }

    /** Builds the graph of `f` and queues the entry block. */
    method InitializeGraph(f: Function)
      requires analysis.su.Valid()
      requires graph.Valid() && graph.nextNodeId == 0 && graph.nodes == map[] && forall u: nat, v: nat :: !graph.HasEdge(u, v)
      requires Consistent() && worklist == []
      modifies this, graph
      ensures Consistent() && worklist == if |f| > 0 then [0] else []
      ensures Mirrors(graph, f) && Carries(seq(|f|, n => Empty(analysis.su.geo.numSets)))
      ensures forall n :: n in graph.nodes ==> graph.nodes[n].cost == 0
    {
      AddNodes(f);
      AddEdges(f);
      if |f| > 0 {
        AddToWorklist(0);
        MarkEntry(f, seq(|f|, n => Empty(analysis.su.geo.numSets)));
      }
    }

    /** Adds one predecessor's state to the state being built. */
    method AddPredecessor(built: CacheState, pred: CacheState, firstPred: bool) returns (inState: CacheState)
      requires analysis.su.Valid() && analysis.Fits(built) && analysis.Fits(pred)
      requires forall s :: s in built.sets ==> s !in pred.sets
      modifies built.Repr()
      ensures analysis.Fits(inState) && (inState == built || fresh(inState.Repr())) && built.sets == old(built.sets)
      ensures inState.View() == if firstPred then old(pred.View()) else JoinValues(analysis.su.kind, old(built.View()), old(pred.View()))
    {
      if firstPred {
        inState := new CacheState.Clone(pred);
      } else {
        inState := built;
        var _ := inState.JoinWith(pred);
      }
    }

    /** The state a block starts from: the first predecessor's state cloned, the others joined in. */
    method JoinPredecessors(f: Function, ghost st: States, n: nat) returns (inState: CacheState)
      requires analysis.su.Valid() && Mirrors(graph, f) && Carries(st) && Fixpoint.Fits(analysis.su, st, f) && n < |f|
      ensures fresh(inState.Repr()) && analysis.Fits(inState)
      ensures inState.View() == In(analysis.su, f, st, n)
    {
      hide CacheState.Valid;
      hide CacheState.View;
      hide Analysis.Fits;
      hide JoinAll;
      PredecessorOrder(graph, f, n);
      PredsInRange(f, n);
      var preds := Ascending(graph.GetPredecessors(n));
      inState := analysis.GetInitialState();
      var firstPred := true;
      var i := 0;
      while i < |preds|
        invariant 0 <= i <= |preds| && (firstPred <==> i == 0)
        invariant fresh(inState.Repr()) && analysis.Fits(inState)
        invariant inState.View() == Joined(analysis.su, st, preds, i)
      {
        var pred := graph.nodes[preds[i]].state;
        assert forall s: CacheSetState :: s in inState.sets ==> s as object in inState.Repr();
        JoinOneMore(analysis.su, st, preds, i);
        inState := AddPredecessor(inState, pred, firstPred);
        firstPred := false;
        i := i + 1;
      }
      assert preds[..|preds|] == preds;
    }

    /** Runs the instructions of a block on `inState` and adds up their cost. */
    method ProcessBlock(inState: CacheState, instrs: seq<seq<Event>>) returns (blockCost: nat)
      requires analysis.su.Valid() && analysis.Fits(inState)
      modifies inState.Repr()
      ensures analysis.Fits(inState) && fresh(inState.Repr() - old(inState.Repr()))
      ensures inState.View() == Transfer(analysis.su, old(inState.View()), Flatten(instrs))
      ensures blockCost == Charge(analysis.su, old(inState.View()), Flatten(instrs))
    {
      hide CacheState.Valid;
      hide CacheState.View;
      blockCost := 0;
      ghost var v := inState.View();
      var i := 0;
      while i < |instrs|
        invariant 0 <= i <= |instrs|
        invariant analysis.Fits(inState) && fresh(inState.Repr() - old(inState.Repr()))
        invariant inState.View() == Transfer(analysis.su, v, Flatten(instrs[..i]))
        invariant blockCost == Charge(analysis.su, v, Flatten(instrs[..i]))
      {
        FlattenStep(analysis.su, v, instrs, i);
        var c, _ := analysis.Process(inState, instrs[i]);
        blockCost := blockCost + c;
        i := i + 1;
      }
      assert instrs[..|instrs|] == instrs;
    }

    ghost predicate Costs(cost: seq<nat>)
      reads graph
    {
      forall n :: n in graph.nodes ==> n < |cost| && graph.nodes[n].cost == cost[n]
    }

    /** Stores a new state in node `n`. */
    method InstallState(f: Function, n: nat, inState: CacheState, ghost st: States)
      requires Mirrors(graph, f) && Carries(st) && n < |st| && |st| == |f| && analysis.Fits(inState)
      modifies graph`nodes
      ensures Mirrors(graph, f) && Carries(st[n := inState.View()])
      ensures forall cost :: old(Costs(cost)) ==> Costs(cost)
    {
      graph.SetNode(n, graph.nodes[n].(state := inState));
      assert forall m :: m in graph.nodes && m != n ==> graph.nodes[m].state == old(graph.nodes)[m].state;
    }

    /** Stores a new cost in node `n`. */
    method InstallCost(f: Function, n: nat, blockCost: nat, ghost st: States, ghost cost: seq<nat>)
      requires Mirrors(graph, f) && Carries(st) && Costs(cost) && n < |st| == |f| == |cost|
      modifies graph`nodes
      ensures Mirrors(graph, f) && Carries(st) && Costs(cost[n := blockCost])
      ensures forall s: CacheState :: old(allocated(s) && analysis.Fits(s)) ==> analysis.Fits(s) && s.View() == old(s.View())
    {
      graph.SetNode(n, graph.nodes[n].(cost := blockCost));
      assert forall m :: m in graph.nodes ==> graph.nodes[m].state == old(graph.nodes)[m].state;
    }

    /** Evaluates the equation of node `n` into a fresh state. */
    method Recompute(f: Function, ghost st: States, n: nat) returns (inState: CacheState, blockCost: nat)
      requires analysis.su.Valid() && Mirrors(graph, f) && Carries(st) && Fixpoint.Fits(analysis.su, st, f) && n < |f|
      ensures fresh(inState.Repr()) && analysis.Fits(inState)
      ensures inState.View() == Out(analysis.su, f, st, n) && blockCost == BlockCharge(analysis.su, f, st, n)
      ensures Mirrors(graph, f) && Carries(st)
    {
      hide CacheState.Valid;
      hide CacheState.View;
      hide Analysis.Fits;
      inState := JoinPredecessors(f, st, n);
      blockCost := ProcessBlock(inState, f[n].instrs);
    }

    /** Whether the recomputed state differs from the one node `n` holds. */
    method Changed(f: Function, ghost st: States, n: nat, inState: CacheState) returns (changed: bool)
      requires Mirrors(graph, f) && Carries(st) && analysis.Fits(inState) && n < |f|
      ensures n < |st| && (changed <==> inState.View() != st[n])
    {
      var same := graph.nodes[n].state.Equals(inState);
      changed := !same;
    }

    /** Recomputes node `n` and stores its cost. */
    method RefreshCost(f: Function, n: nat, ghost st: States, ghost cost: seq<nat>) returns (inState: CacheState)
      requires analysis.su.Valid() && Fixpoint.Fits(analysis.su, st, f) && n < |f| == |cost|
      requires Mirrors(graph, f) && Carries(st) && Costs(cost)
      modifies graph`nodes
      ensures Mirrors(graph, f) && Carries(st) && Costs(cost[n := BlockCharge(analysis.su, f, st, n)])
      ensures analysis.Fits(inState) && inState.View() == Out(analysis.su, f, st, n)
    {
      hide CacheState.Valid, CacheState.View, Analysis.Fits, Mirrors, Carries, Out, BlockCharge;
      var blockCost;
      inState, blockCost := Recompute(f, st, n);
      InstallCost(f, n, blockCost, st, cost);
    }

    /** Recomputes node `n`, stores the cost, and on a change stores the state. */
    method Refresh(f: Function, n: nat, ghost st: States, ghost cost: seq<nat>) returns (changed: bool)
      requires analysis.su.Valid() && Fixpoint.Fits(analysis.su, st, f) && n < |f| == |cost|
      requires Mirrors(graph, f) && Carries(st) && Costs(cost)
      modifies graph`nodes
      ensures changed <==> Out(analysis.su, f, st, n) != st[n]
      ensures Mirrors(graph, f)
      ensures Carries(if changed then st[n := Out(analysis.su, f, st, n)] else st)
      ensures Costs(cost[n := BlockCharge(analysis.su, f, st, n)])
    {
      hide CacheState.Valid, CacheState.View, Analysis.Fits, Mirrors, Carries, Costs, Out, BlockCharge;
      var inState := RefreshCost(f, n, st, cost);
      changed := Changed(f, st, n, inState);
      if changed {
        InstallState(f, n, inState, st);
      }
    }

    /** Refreshes node `n` and queues its successors if its state changed. */
    method Advance(f: Function, n: nat, ghost st: States, ghost cost: seq<nat>) returns (changed: bool)
      requires analysis.su.Valid() && Fixpoint.Fits(analysis.su, st, f) && n < |f| == |cost|
      requires Consistent() && Mirrors(graph, f) && Carries(st) && Costs(cost)
      modifies this, graph`nodes
      ensures changed <==> Out(analysis.su, f, st, n) != st[n]
      ensures Consistent() && Mirrors(graph, f)
      ensures Carries(if changed then st[n := Out(analysis.su, f, st, n)] else st)
      ensures Costs(cost[n := BlockCharge(analysis.su, f, st, n)])
      ensures changed ==> forall m: nat :: m in worklist <==> m in old(worklist) || Edge(f, n, m)
      ensures !changed ==> worklist == old(worklist)
    {
      hide CacheState.Valid, CacheState.View, Analysis.Fits, Mirrors, Costs, Out, BlockCharge;
      changed := Refresh(f, n, st, cost);
      if changed {
        SuccessorsAreEdges(graph, f, n);
        AddSuccessors(n);
      }
    }

    /** Takes one node from the worklist and advances it. */
    method ProcessNext(f: Function, ghost st: States, ghost cost: seq<nat>, ghost processed: set<nat>)
      returns (ghost st': States, ghost cost': seq<nat>, ghost processed': set<nat>)
      requires Consistent() && Mirrors(graph, f) && Carries(st) && Costs(cost) && worklist != []
      requires Invariant(analysis.su, f, st, cost, processed, worklist)
      modifies this, graph`nodes
      ensures Consistent() && Mirrors(graph, f) && Carries(st') && Costs(cost')
      ensures Invariant(analysis.su, f, st', cost', processed', worklist)
      ensures Weighs(analysis.su, f, st') < Weighs(analysis.su, f, st) || (st' == st && worklist == old(worklist)[1..])
    {
      hide CacheState.Valid, CacheState.View, Analysis.Fits, Mirrors, Costs, Out, BlockCharge, Invariant;
      ghost var wl := worklist;
      InvariantBounds(analysis.su, f, st, cost, processed, wl);
      var n := TakeFromWorklist();
      var changed := Advance(f, n, st, cost);
      cost', processed' := cost[n := BlockCharge(analysis.su, f, st, n)], processed + {n};
      if changed {
        st' := st[n := Out(analysis.su, f, st, n)];
        StepChanged(analysis.su, f, st, cost, processed, wl, worklist);
        ProgressLowersWeight(analysis.su, f, st, n, Out(analysis.su, f, st, n));
      } else {
        st' := st;
        StepUnchanged(analysis.su, f, st, cost, processed, wl);
      }
    }

    /** Iterates to the fixpoint. */
    method Run(f: Function) returns (ghost st: States, ghost cost: seq<nat>)
      requires Solvable(analysis.su) && WellFormed(f)
      requires graph.Valid() && graph.nextNodeId == 0 && graph.nodes == map[] && forall u: nat, v: nat :: !graph.HasEdge(u, v)
      requires Consistent() && worklist == []
      modifies this, graph
      ensures Mirrors(graph, f) && Carries(st) && Costs(cost)
      ensures Solved(analysis.su, f, st, cost) && UnderCeilings(analysis.su, f, st)
    {
      InitializeGraph(f);
      st, cost := seq(|f|, n => Empty(analysis.su.geo.numSets)), seq(|f|, n => 0);
      ghost var processed: set<nat> := {};
      InvariantInitially(analysis.su, f, st, cost);
      while worklist != []
        invariant Consistent() && Mirrors(graph, f) && Carries(st) && Costs(cost)
        invariant Invariant(analysis.su, f, st, cost, processed, worklist)
        decreases Weighs(analysis.su, f, st), |worklist|
      {
        st, cost, processed := ProcessNext(f, st, cost, processed);
      }
      InvariantFinally(analysis.su, f, st, cost, processed);
    }
  }

  lemma SuccessorsAreEdges(g: Graph<CacheState>, f: Function, n: nat)
    requires Mirrors(g, f)
    ensures forall m: nat :: m in g.GetSuccessors(n) <==> Edge(f, n, m)
  {
    assert forall m: nat :: m in g.GetSuccessors(n) <==> g.HasEdge(n, m);
  }

  lemma InvariantBounds(su: Setup, f: Function, st: States, cost: seq<nat>, processed: set<nat>, wl: seq<nat>)
    requires Invariant(su, f, st, cost, processed, wl) && wl != []
    ensures su.Valid() && Fixpoint.Fits(su, st, f) && |cost| == |f| && wl[0] < |f|
  {
    assert wl[0] in wl;
  }

  ghost function Weighs(su: Setup, f: Function, st: States): nat {
    StatesWeight(Universe(f, |f|), WaysOf(su.policy), st)
  }

  lemma FlattenStep(su: Setup, v: Value, instrs: seq<seq<Event>>, i: nat)
    requires su.Valid() && |v| == su.geo.numSets && i < |instrs|
    ensures var m := Transfer(su, v, Flatten(instrs[..i]));
            && Transfer(su, v, Flatten(instrs[..i + 1])) == Transfer(su, m, instrs[i])
            && Charge(su, v, Flatten(instrs[..i + 1])) == Charge(su, v, Flatten(instrs[..i])) + Charge(su, m, instrs[i])
  {
    assert instrs[..i + 1][..i] == instrs[..i];
    SplitEvents(su, v, Flatten(instrs[..i]), instrs[i]);
  }

  /** The join of the first `i` predecessor values. */
  ghost function Joined(su: Setup, st: States, preds: seq<nat>, i: nat): (r: Value)
    requires i <= |preds| && forall k :: 0 <= k < |preds| ==> preds[k] < |st|
    requires forall n :: 0 <= n < |st| ==> |st[n]| == su.geo.numSets
    ensures |r| == su.geo.numSets
  {
    if i == 0 then Empty(su.geo.numSets) else JoinAll(su, st, preds[..i])
  }

  lemma JoinOneMore(su: Setup, st: States, preds: seq<nat>, i: nat)
    requires i < |preds| && forall k :: 0 <= k < |preds| ==> preds[k] < |st|
    requires forall n :: 0 <= n < |st| ==> |st[n]| == su.geo.numSets
    ensures Joined(su, st, preds, i + 1) ==
            if i == 0 then st[preds[i]] else JoinValues(su.kind, Joined(su, st, preds, i), st[preds[i]])
  {
    assert preds[..i + 1][..i] == preds[..i];
  }
}
