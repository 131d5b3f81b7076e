/** Basic blocks with their edges kept in both directions, and what the operations on them mean. */
module GraphBlocks {
  import opened Walks

  datatype Block = Block(
    successors: set<nat>, predecessors: set<nat>, backEdgePredecessors: set<nat>,
    isLoop: bool, upperLoopBound: nat, minCycles: nat, maxCycles: nat, name: string)
  {
    predicate IsFree() { successors == {} && predecessors == {} }

    /** Everything but the edges. */
    function Label(): Block { this.(successors := {}, predecessors := {}) }
  }

  type Blocks = map<nat, Block>

  predicate IsSucc(nodes: Blocks, u: nat, v: nat) { u in nodes && v in nodes[u].successors }

  predicate IsPred(nodes: Blocks, u: nat, v: nat) { v in nodes && u in nodes[v].predecessors }

  ghost function EdgesOf(nodes: Blocks): (e: Edges)
    ensures forall u: nat, v: nat :: (u, v) in e <==> IsSucc(nodes, u, v)
  {
    set u, v | u in nodes && v in nodes[u].successors :: (u, v)
  }

  /** Successor and predecessor sets describe the same edges; in particular no edge dangles. */
  ghost predicate Mirrored(nodes: Blocks) { forall u: nat, v: nat :: IsSucc(nodes, u, v) <==> IsPred(nodes, u, v) }

  ghost predicate SameLabels(a: Blocks, b: Blocks) { a.Keys == b.Keys && forall u :: u in a ==> a[u].Label() == b[u].Label() }

  /** The edges that do not touch `id`. */
  ghost function Without(e: Edges, id: nat): Edges { set x | x in e && x.0 != id && x.1 != id }

  ghost function Among(e: Edges, s: set<nat>): Edges { set x | x in e && x.0 in s && x.1 in s }

  lemma NotTouched(nodes: Blocks, id: nat)
    requires Mirrored(nodes) && id in nodes && forall x :: x in EdgesOf(nodes) ==> x.0 != id && x.1 != id
    ensures nodes[id].IsFree()
  {
    hide EdgesOf;
    assert forall v :: v in nodes[id].successors ==> (id, v) in EdgesOf(nodes);
    assert forall u :: u in nodes[id].predecessors ==> (u, id) in EdgesOf(nodes);
    NoneIn(nodes[id].successors);
    NoneIn(nodes[id].predecessors);
  }

  /** Changing labels changes no edge. */
  lemma Relabelled(a: Blocks, b: Blocks)
    requires a.Keys == b.Keys
    requires forall u :: u in a ==> a[u].successors == b[u].successors && a[u].predecessors == b[u].predecessors
    ensures EdgesOf(a) == EdgesOf(b) && (Mirrored(a) <==> Mirrored(b))
  {
    assert forall u: nat, v: nat :: IsSucc(a, u, v) <==> IsSucc(b, u, v);
    assert forall u: nat, v: nat :: IsPred(a, u, v) <==> IsPred(b, u, v);
    EqualEdges(EdgesOf(a), EdgesOf(b));
  }

  lemma OnlyTheNode(nodes: Blocks, id: nat)
    requires Mirrored(nodes) && id in nodes && nodes[id].IsFree()
    ensures Mirrored(nodes - {id}) && EdgesOf(nodes - {id}) == EdgesOf(nodes)
  {
    assert forall u: nat :: !IsSucc(nodes, id, u) && !IsPred(nodes, u, id);
    assert forall u: nat, v: nat :: IsSucc(nodes - {id}, u, v) <==> IsSucc(nodes, u, v);
    assert forall u: nat, v: nat :: IsPred(nodes - {id}, u, v) <==> IsPred(nodes, u, v);
    hide IsSucc, IsPred, EdgesOf;
    EqualEdges(EdgesOf(nodes - {id}), EdgesOf(nodes));
  }

  lemma LabelsSame(a: Blocks)
    ensures SameLabels(a, a)
  {}

  lemma LabelsKeys(a: Blocks, b: Blocks)
    requires SameLabels(a, b)
    ensures a.Keys == b.Keys
  {}

  lemma LabelsKept(a: Blocks, b: Blocks)
    requires SameLabels(a, b)
    ensures a.Keys == b.Keys && forall u :: u in a ==> b[u].Label() == a[u].Label()
  {}

  lemma LabelsTransitive(a: Blocks, b: Blocks, c: Blocks)
    requires SameLabels(a, b) && SameLabels(b, c)
    ensures SameLabels(a, c)
  {}

  lemma SuccessorsExist(nodes: Blocks, u: nat, v: nat)
    requires Mirrored(nodes) && u in nodes && v in nodes[u].successors
    ensures v in nodes && (u, v) in EdgesOf(nodes)
  {
    assert IsSucc(nodes, u, v) && IsPred(nodes, u, v);
  }

  lemma PredecessorsAre(nodes: Blocks, v: nat)
    requires Mirrored(nodes) && v in nodes
    ensures forall u: nat :: u in nodes[v].predecessors <==> (u, v) in EdgesOf(nodes)
    ensures forall u: nat :: u in nodes[v].predecessors ==> u in nodes
  {
    assert forall u: nat :: u in nodes[v].predecessors <==> IsPred(nodes, u, v);
    assert forall u: nat :: IsSucc(nodes, u, v) ==> u in nodes;
  }

  lemma EqualEdges(a: Edges, b: Edges)
    requires forall u: nat, v: nat :: (u, v) in a <==> (u, v) in b
    ensures a == b
  {
    forall x: (nat, nat) ensures x in a <==> x in b { assert x == (x.0, x.1); }
  }

  lemma NoneIn(s: set<nat>)
    requires forall x :: x !in s
    ensures s == {}
  {}

  /** Recording an edge at its source and at its target. */
  function Linked(nodes: Blocks, from: nat, to: nat): Blocks
    requires from in nodes && to in nodes
  {
    var mid := nodes[from := nodes[from].(successors := nodes[from].successors + {to})];
    mid[to := mid[to].(predecessors := mid[to].predecessors + {from})]
  }

  function Unlinked(nodes: Blocks, from: nat, to: nat): Blocks
    requires from in nodes && to in nodes
  {
    var mid := nodes[from := nodes[from].(successors := nodes[from].successors - {to})];
    mid[to := mid[to].(predecessors := mid[to].predecessors - {from})]
  }

  lemma LinkedSets(nodes: Blocks, from: nat, to: nat)
    requires from in nodes && to in nodes
    ensures SameLabels(nodes, Linked(nodes, from, to))
    ensures forall u: nat, v: nat :: IsSucc(Linked(nodes, from, to), u, v) <==> IsSucc(nodes, u, v) || (u == from && v == to)
    ensures forall u: nat, v: nat :: IsPred(Linked(nodes, from, to), u, v) <==> IsPred(nodes, u, v) || (u == from && v == to)
  {}

  lemma UnlinkedSets(nodes: Blocks, from: nat, to: nat)
    requires from in nodes && to in nodes
    ensures SameLabels(nodes, Unlinked(nodes, from, to))
    ensures forall u: nat, v: nat :: IsSucc(Unlinked(nodes, from, to), u, v) <==> IsSucc(nodes, u, v) && !(u == from && v == to)
    ensures forall u: nat, v: nat :: IsPred(Unlinked(nodes, from, to), u, v) <==> IsPred(nodes, u, v) && !(u == from && v == to)
  {}

  lemma LinkedEdges(nodes: Blocks, from: nat, to: nat)
    requires from in nodes && to in nodes
    ensures EdgesOf(Linked(nodes, from, to)) == EdgesOf(nodes) + {(from, to)}
  {
    LinkedSets(nodes, from, to);
    hide *;
    EqualEdges(EdgesOf(Linked(nodes, from, to)), EdgesOf(nodes) + {(from, to)});
  }

  lemma UnlinkedEdges(nodes: Blocks, from: nat, to: nat)
    requires from in nodes && to in nodes
    ensures EdgesOf(Unlinked(nodes, from, to)) == EdgesOf(nodes) - {(from, to)}
  {
    UnlinkedSets(nodes, from, to);
    hide *;
    EqualEdges(EdgesOf(Unlinked(nodes, from, to)), EdgesOf(nodes) - {(from, to)});
  }

  lemma AllAmong(nodes: Blocks)
    requires Mirrored(nodes)
    ensures EdgesOf(nodes) == Among(EdgesOf(nodes), nodes.Keys)
  {
    forall u: nat, v: nat ensures (u, v) in EdgesOf(nodes) ==> u in nodes && v in nodes {
      assert IsSucc(nodes, u, v) ==> IsPred(nodes, u, v);
    }
    hide EdgesOf;
    EqualEdges(EdgesOf(nodes), Among(EdgesOf(nodes), nodes.Keys));
  }

  lemma AmongLess(e: Edges, keys: set<nat>, id: nat)
    ensures Without(Among(e, keys), id) == Among(e, keys - {id})
  {
    EqualEdges(Without(Among(e, keys), id), Among(e, keys - {id}));
  }

  // ---------------------------------------------------------------- what wiring adds

  ghost function Into(from: seq<nat>, to: nat): Edges { set r | r in from :: (r, to) }

  /** Entry to the first block; the return blocks, or else the last block, to exit. */
  ghost function Wiring(body: seq<nat>, returns_: seq<nat>, entry: nat, exit: nat): Edges {
    (if body == [] then {(entry, exit)} else {(entry, body[0])})
    + Into(returns_, exit)
    + (if body != [] && returns_ == [] then {(body[|body| - 1], exit)} else {})
  }

  // ---------------------------------------------------------------- the reachability worklist

  ghost predicate Spreading(nodes: Blocks, start: nat, work: seq<nat>, reachable: set<nat>, open: Edges) {
    && start in reachable && reachable <= nodes.Keys
    && (forall b :: b in reachable ==> Reaches(EdgesOf(nodes), start, b))
    && (forall b :: b in work ==> b in reachable)
    && (forall u: nat, v: nat :: u in reachable && IsSucc(nodes, u, v) ==> u in work || v in reachable || (u, v) in open)
  }

  /** The steps from `cur` not yet taken. */
  ghost function Open(cur: nat, succs: seq<nat>, k: nat): Edges
    requires k <= |succs|
  {
    set v | v in succs[k..] :: (cur, v)
  }

  lemma OpenAll(nodes: Blocks, cur: nat, succs: seq<nat>)
    ensures Open(cur, succs, 0) == set v | v in succs :: (cur, v)
  {
    assert succs[0..] == succs;
  }

  lemma SpreadPop(nodes: Blocks, start: nat, work: seq<nat>, reachable: set<nat>)
    requires Spreading(nodes, start, work, reachable, {}) && work != []
    ensures work[|work| - 1] in reachable && work[|work| - 1] in nodes
    ensures var cur := work[|work| - 1];
            cur in nodes && Spreading(nodes, start, work[..|work| - 1], reachable, set v | v in nodes[cur].successors :: (cur, v))
  {
    assert work == work[..|work| - 1] + [work[|work| - 1]];
  }

  lemma SpreadStep(nodes: Blocks, start: nat, work: seq<nat>, reachable: set<nat>, cur: nat, succs: seq<nat>, k: nat)
    requires cur in reachable && k < |succs| && IsSucc(nodes, cur, succs[k])
    requires Mirrored(nodes) && Spreading(nodes, start, work, reachable, Open(cur, succs, k))
    ensures var v := succs[k];
            Spreading(nodes, start, if v in reachable then work else work + [v], reachable + {v}, Open(cur, succs, k + 1))
  {
    var v := succs[k];
    assert succs[k..] == [v] + succs[k + 1..];
    assert (cur, v) in EdgesOf(nodes);
    ReachesStep(EdgesOf(nodes), start, cur, v);
    var work', reachable' := if v in reachable then work else work + [v], reachable + {v};
    forall u: nat, w: nat | u in reachable' && IsSucc(nodes, u, w)
      ensures u in work' || w in reachable' || (u, w) in Open(cur, succs, k + 1)
    {
      if u in reachable { assert u in work || w in reachable || (u, w) in Open(cur, succs, k); }
    }
  }

  lemma Spread(nodes: Blocks, start: nat, reachable: set<nat>)
    requires Spreading(nodes, start, [], reachable, {})
    ensures forall b :: b in reachable <==> Reaches(EdgesOf(nodes), start, b)
  {
    forall b | Reaches(EdgesOf(nodes), start, b) ensures b in reachable {
      ClosedContains(EdgesOf(nodes), reachable, start, b);
    }
  }

  // ---------------------------------------------------------------- what pruning keeps

  /** The nodes left are exactly those reachable from the start; they keep their labels and all
      their outgoing edges. */
  ghost predicate Pruned(before: Blocks, after: Blocks, start: nat) {
    && (forall u :: u in after <==> u in before && Reaches(EdgesOf(before), start, u))
    && (forall u :: u in after ==> after[u].Label() == before[u].Label())
    && EdgesOf(after) == Among(EdgesOf(before), after.Keys)
  }

  /** Pruning changes no walk from the start. */
  lemma WalksUnchanged(before: Blocks, after: Blocks, start: nat, p: seq<nat>)
    requires Mirrored(before) && start in before && Pruned(before, after, start) && p != [] && p[0] == start
    ensures IsWalk(EdgesOf(before), p) <==> IsWalk(EdgesOf(after), p)
  {
    if IsWalk(EdgesOf(before), p) {
      forall i | 0 <= i < |p| - 1 ensures (p[i], p[i + 1]) in EdgesOf(after) {
        WalkReaches(EdgesOf(before), p, 0, i);
        WalkReaches(EdgesOf(before), p, 0, i + 1);
      }
    }
  }

  /** A kept node keeps its successors. */
  lemma SuccessorsKept(before: Blocks, after: Blocks, start: nat, u: nat)
    requires Mirrored(before) && Pruned(before, after, start) && u in after
    ensures after[u].successors == before[u].successors
  {
    forall v | v in before[u].successors ensures v in after[u].successors {
      ReachesStep(EdgesOf(before), start, u, v);
      assert (u, v) in EdgesOf(after);
    }
    forall v | v in after[u].successors ensures v in before[u].successors { assert (u, v) in EdgesOf(after); }
  }

  // ---------------------------------------------------------------- entry and exit

  /** The blocks wired to the exit node. */
  function Ends(body: seq<nat>, returns_: seq<nat>): seq<nat> {
    if body != [] && returns_ == [] then [body[|body| - 1]] else returns_
  }

  lemma WiringIs(before: Blocks, after: Blocks, body: seq<nat>, returns_: seq<nat>, entry: nat, exit: nat)
    requires EdgesOf(after) == EdgesOf(before) + Wiring(body, returns_, entry, exit)
    ensures forall u: nat, v: nat :: IsSucc(after, u, v) <==>
              || IsSucc(before, u, v)
              || (u == entry && v == if body == [] then exit else body[0])
              || (v == exit && if body != [] && returns_ == [] then u == body[|body| - 1] else u in returns_)
  {
    forall u: nat, v: nat ensures (u, v) in EdgesOf(after) <==> (u, v) in EdgesOf(before) || (u, v) in Wiring(body, returns_, entry, exit) {}
  }

  /** Nothing is wired to the node yet. */
  ghost predicate Untouched(nodes: Blocks, n: nat) { n in nodes && forall x :: x in EdgesOf(nodes) ==> x.0 != n && x.1 != n }

  ghost predicate SomeEndReached(nodes: Blocks, body: seq<nat>, returns_: seq<nat>) {
    body == [] || exists r :: r in Ends(body, returns_) && Reaches(EdgesOf(nodes), body[0], r)
  }

  lemma WiringEdges(nodes: Blocks, body: seq<nat>, returns_: seq<nat>, entry: nat, exit: nat, x: (nat, nat))
    requires body != []
    ensures x in Wiring(body, returns_, entry, exit) <==> x == (entry, body[0]) || (x.0 in Ends(body, returns_) && x.1 == exit)
  {}

  lemma EndReached(nodes: Blocks, body: seq<nat>, returns_: seq<nat>, entry: nat, exit: nat)
    requires SomeEndReached(nodes, body, returns_)
    ensures Reaches(EdgesOf(nodes) + Wiring(body, returns_, entry, exit), entry, exit)
  {
    var e, f := EdgesOf(nodes), EdgesOf(nodes) + Wiring(body, returns_, entry, exit);
    ReachesSelf(f, entry);
    if body == [] {
      ReachesStep(f, entry, entry, exit);
    } else {
      var r :| r in Ends(body, returns_) && Reaches(e, body[0], r);
      WiringEdges(nodes, body, returns_, entry, exit, (entry, body[0]));
      WiringEdges(nodes, body, returns_, entry, exit, (r, exit));
      ReachesStep(f, entry, entry, body[0]);
      ReachesMonotone(e, f, body[0], r);
      ReachesTransitive(f, entry, body[0], r);
      ReachesStep(f, entry, r, exit);
    }
  }

  lemma ExitIsolated(nodes: Blocks, body: seq<nat>, returns_: seq<nat>, entry: nat, exit: nat)
    requires Mirrored(nodes) && Untouched(nodes, entry) && Untouched(nodes, exit) && entry != exit
    requires body != [] && body[0] != entry && body[0] != exit && body[0] in nodes
    requires (forall r :: r in Ends(body, returns_) ==> r != entry && r != exit) && !SomeEndReached(nodes, body, returns_)
    ensures !Reaches(EdgesOf(nodes) + Wiring(body, returns_, entry, exit), entry, exit)
  {
    var e, f := EdgesOf(nodes), EdgesOf(nodes) + Wiring(body, returns_, entry, exit);
    var s := {entry} + set b | b in nodes && Reaches(e, body[0], b) && b != exit;
    ReachesSelf(e, body[0]);
    forall u: nat, v: nat | u in s && (u, v) in f ensures v in s {
      WiringEdges(nodes, body, returns_, entry, exit, (u, v));
      if (u, v) in e {
        ReachesStep(e, body[0], u, v);
        assert IsSucc(nodes, u, v) && IsPred(nodes, u, v);
      }
    }
    if Reaches(f, entry, exit) { ClosedContains(f, s, entry, exit); }
  }

  /** Wiring entry and exit connects them exactly when some block wired to the exit can be reached
      from the first block. A function whose last block is unreachable, say, stays unconnected. */
  lemma EntryExitConnectedIff(nodes: Blocks, body: seq<nat>, returns_: seq<nat>, entry: nat, exit: nat)
    requires Mirrored(nodes) && Untouched(nodes, entry) && Untouched(nodes, exit) && entry != exit
    requires forall b :: b in body ==> b != entry && b != exit && b in nodes
    requires forall r :: r in returns_ ==> r in body
    ensures Reaches(EdgesOf(nodes) + Wiring(body, returns_, entry, exit), entry, exit) <==> SomeEndReached(nodes, body, returns_)
  {
    if SomeEndReached(nodes, body, returns_) {
      EndReached(nodes, body, returns_, entry, exit);
    } else {
      assert body[0] in body && body[|body| - 1] in body;
      ExitIsolated(nodes, body, returns_, entry, exit);
    }
  }

  /** A first block that loops on itself, followed by an unreachable last block, and no return. */
  function EndlessLoop(): Blocks {
    map[0 := Block({0}, {0}, {}, false, 0, 1, 1, "loop"), 1 := Block({}, {}, {}, false, 0, 1, 1, "last"),
        2 := Block({}, {}, {}, false, 0, 0, 0, "Entry"), 3 := Block({}, {}, {}, false, 0, 0, 0, "Exit")]
  }

  /** For such a function the fallback wires the last block, and exit stays out of reach. */
  lemma EndlessLoopUnconnected()
    ensures !Reaches(EdgesOf(EndlessLoop()) + Wiring([0, 1], [], 2, 3), 2, 3)
  {
    var e := EdgesOf(EndlessLoop());
    assert forall u: nat, v: nat :: IsSucc(EndlessLoop(), u, v) <==> u == 0 && v == 0;
    assert forall u: nat, v: nat :: IsPred(EndlessLoop(), u, v) <==> u == 0 && v == 0;
    hide IsSucc, IsPred;
    forall r | r in Ends([0, 1], []) ensures !Reaches(e, 0, r) {
      if Reaches(e, 0, r) { ClosedContains(e, {0}, 0, r); }
    }
    EntryExitConnectedIff(EndlessLoop(), [0, 1], [], 2, 3);
  }
}
