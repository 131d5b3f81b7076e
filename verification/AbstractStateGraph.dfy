/** The graph the solvers work on: nodes with a state, flagged edges, and a predecessor mirror. */
module AbstractStateGraph {
  import opened ReplacementPolicy

  /** Functions are numbered. */
  type Fn = nat

  // ---------------------------------------------------------------- ordered iteration

  lemma {:induction false} HasSmallest(s: set<nat>)
    requires s != {}
    ensures exists x :: x in s && forall y :: y in s ==> x <= y
  {
    var x :| x in s;
    if s != {x} {
      HasSmallest(s - {x});
      var m :| m in s - {x} && forall y :: y in s - {x} ==> m <= y;
      var least := if m < x then m else x;
      assert forall y :: y in s ==> y == x || y in s - {x};
      assert least in s && forall y :: y in s ==> least <= y;
    }
  }

  function Smallest(s: set<nat>): (m: nat)
    requires s != {}
    ensures m in s && forall y :: y in s ==> m <= y
  {
    HasSmallest(s);
    var m :| m in s && forall y :: y in s ==> m <= y;
    m
  }

  /** The elements in the order an ordered set is traversed. */
  function Ascending(s: set<nat>): seq<nat>
    decreases |s|
  {
    if s == {} then [] else [Smallest(s)] + Ascending(s - {Smallest(s)})
  }

  ghost predicate Increasing(s: seq<nat>) { forall i, j :: 0 <= i < j < |s| ==> s[i] < s[j] }

  lemma {:induction false} AscendingExact(s: set<nat>)
    ensures Increasing(Ascending(s))
    ensures forall x :: x in Ascending(s) <==> x in s
    decreases |s|
  {
    if s != {} {
      var m := Smallest(s);
      AscendingExact(s - {m});
      assert forall x :: x in Ascending(s) <==> x == m || x in Ascending(s - {m});
      var t := Ascending(s - {m});
      forall i | 0 <= i < |t| ensures m < t[i] { assert t[i] in t; }
    }
  }

  lemma IncreasingTail(a: seq<nat>, b: seq<nat>)
    requires Increasing(a) && a != [] && b != [] && a[0] == b[0]
    requires forall x :: x in a ==> x in b
    ensures forall x :: x in a[1..] ==> x in b[1..]
  {
    forall x | x in a[1..] ensures x in b[1..] {
      var k :| 0 <= k < |a[1..]| && a[1..][k] == x;
      assert a[k + 1] == x && x in a && x in b;
      assert b == [b[0]] + b[1..];
    }
  }

  lemma {:induction false} IncreasingUnique(a: seq<nat>, b: seq<nat>)
    requires Increasing(a) && Increasing(b)
    requires forall x :: x in a <==> x in b
    ensures a == b
  {
    assert a != [] ==> a[0] in b;
    assert b != [] ==> b[0] in a;
    if a != [] {
      assert a[0] == b[0];
      IncreasingTail(a, b);
      IncreasingTail(b, a);
      IncreasingUnique(a[1..], b[1..]);
      assert a == [a[0]] + a[1..] && b == [b[0]] + b[1..];
    }
  }

  // ---------------------------------------------------------------- the graph

  datatype Node<S> = Node(
    state: S, mbb: Option<nat>, isEntry: bool, isExit: bool, isLoopHeader: bool, upperLoopBound: nat, cost: nat)

  class Graph<S> {
    var nextNodeId: nat
    var nodes: map<nat, Node<S>>
    /** For each source, its targets with their back-edge flag. */
    var adjacency: map<nat, map<nat, bool>>
    var predecessors: map<nat, set<nat>>

    constructor ()
      ensures Valid() && nextNodeId == 0 && nodes == map[]
      ensures forall u, v :: !HasEdge(u, v)
    {
      nextNodeId, nodes, adjacency, predecessors := 0, map[], map[], map[];
    }

    function GetSuccessors(id: nat): map<nat, bool>
      reads this`adjacency
    {
      if id in adjacency then adjacency[id] else map[]
    }

    function GetPredecessors(id: nat): set<nat>
      reads this`predecessors
    {
      if id in predecessors then predecessors[id] else {}
    }

    ghost predicate HasEdge(u: nat, v: nat)
      reads this`adjacency
    {
      v in GetSuccessors(u)
    }

    /** Predecessor and successor sets mirror each other; ids are handed out in order. */
    ghost predicate Valid()
      reads this
    {
      && (forall u, v :: v in GetSuccessors(u) <==> u in GetPredecessors(v))
      && (forall n :: n in nodes ==> n < nextNodeId)
    }

    method AddNode(state: S, mbb: Option<nat>) returns (id: nat)
      requires Valid()
      modifies this
      ensures Valid() && id == old(nextNodeId) && id !in old(nodes) && nextNodeId == id + 1
      ensures nodes == old(nodes)[id := Node(state, mbb, false, false, false, 0, 0)]
      ensures adjacency == old(adjacency) && predecessors == old(predecessors)
    {
      id := nextNodeId;
      nextNodeId := nextNodeId + 1;
      nodes := nodes[id := Node(state, mbb, false, false, false, 0, 0)];
    }

    /** Overwrites the attributes of one node. */
    method SetNode(id: nat, node: Node<S>)
      requires Valid() && id in nodes
      modifies this`nodes
      ensures Valid() && nodes == old(nodes)[id := node]
    {
      nodes := nodes[id := node];
    }

    /** Adds an edge. An edge that is already there keeps its flag. */
    method AddEdge(from: nat, to: nat, isBackEdge: bool)
      requires Valid()
      modifies this`adjacency, this`predecessors
      ensures Valid()
      ensures forall u: nat, v: nat :: HasEdge(u, v) <==> old(HasEdge(u, v)) || (u == from && v == to)
      ensures forall u, v :: v in old(GetSuccessors(u)) ==>
                v in GetSuccessors(u) && GetSuccessors(u)[v] == old(GetSuccessors(u))[v]
      ensures to in GetSuccessors(from) && (!old(HasEdge(from, to)) ==> GetSuccessors(from)[to] == isBackEdge)
    {
      var out := GetSuccessors(from);
      adjacency := adjacency[from := if to in out then out else out[to := isBackEdge]];
      predecessors := predecessors[to := GetPredecessors(to) + {from}];
      assert forall u :: u != from ==> GetSuccessors(u) == old(GetSuccessors(u));
      assert forall v :: v != to ==> GetPredecessors(v) == old(GetPredecessors(v));
    }

    method RemoveEdge(from: nat, to: nat)
      requires Valid()
      modifies this`adjacency, this`predecessors
      ensures Valid()
      ensures forall u: nat, v: nat :: HasEdge(u, v) <==> old(HasEdge(u, v)) && !(u == from && v == to)
      ensures forall u, v :: v in GetSuccessors(u) ==>
                v in old(GetSuccessors(u)) && GetSuccessors(u)[v] == old(GetSuccessors(u))[v]
    {
      adjacency := adjacency[from := GetSuccessors(from) - {to}];
      predecessors := predecessors[to := GetPredecessors(to) - {from}];
      assert forall u :: u != from ==> GetSuccessors(u) == old(GetSuccessors(u));
      assert forall v :: v != to ==> GetPredecessors(v) == old(GetPredecessors(v));
    }
  }
}
