/** Walks in a directed graph given by its edges. */
module Walks {
  type Edges = set<(nat, nat)>

  ghost predicate IsWalk(e: Edges, p: seq<nat>) {
    p != [] && forall i :: 0 <= i < |p| - 1 ==> (p[i], p[i + 1]) in e
  }

  ghost predicate WalkFromTo(e: Edges, p: seq<nat>, a: nat, b: nat) { IsWalk(e, p) && p[0] == a && p[|p| - 1] == b }

  ghost predicate Reaches(e: Edges, a: nat, b: nat) { exists p :: WalkFromTo(e, p, a, b) }

  /** A walk of at least one edge that ends where it started. */
  ghost predicate IsCycle(e: Edges, p: seq<nat>) { IsWalk(e, p) && |p| >= 2 && p[0] == p[|p| - 1] }

  ghost predicate UsesEdgeOf(p: seq<nat>, cut: Edges) { exists i :: 0 <= i < |p| - 1 && (p[i], p[i + 1]) in cut }

  lemma ReachesSelf(e: Edges, a: nat)
    ensures Reaches(e, a, a)
  {
    assert WalkFromTo(e, [a], a, a);
  }

  lemma ReachesStep(e: Edges, a: nat, b: nat, c: nat)
    requires Reaches(e, a, b) && (b, c) in e
    ensures Reaches(e, a, c)
  {
    var p :| WalkFromTo(e, p, a, b);
    assert WalkFromTo(e, p + [c], a, c);
  }

  lemma {:induction false} WalkReaches(e: Edges, p: seq<nat>, i: nat, j: nat)
    requires IsWalk(e, p) && i <= j < |p|
    ensures Reaches(e, p[i], p[j])
  {
    assert WalkFromTo(e, p[i..j + 1], p[i], p[j]);
  }

  lemma ReachesTransitive(e: Edges, a: nat, b: nat, c: nat)
    requires Reaches(e, a, b) && Reaches(e, b, c)
    ensures Reaches(e, a, c)
  {
    var p, q :| WalkFromTo(e, p, a, b) && WalkFromTo(e, q, b, c);
    var r := p + q[1..];
    forall i | 0 <= i < |r| - 1 ensures (r[i], r[i + 1]) in e {
      if i >= |p| - 1 { assert (q[i - |p| + 1], q[i - |p| + 2]) in e; }
    }
    assert WalkFromTo(e, r, a, c);
  }

  lemma JoinWalks(e: Edges, p: seq<nat>, q: seq<nat>)
    requires IsWalk(e, p) && IsWalk(e, q) && (p[|p| - 1], q[0]) in e
    ensures IsWalk(e, p + q)
  {
    forall k | 0 <= k < |p + q| - 1 ensures ((p + q)[k], (p + q)[k + 1]) in e {
      if k < |p| - 1 {
        assert (p[k], p[k + 1]) in e;
      } else if k >= |p| {
        assert (q[k - |p|], q[k - |p| + 1]) in e;
      }
    }
  }

  lemma {:induction false} WalkStaysIn(e: Edges, s: set<nat>, p: seq<nat>)
    requires IsWalk(e, p) && p[0] in s && forall u: nat, v: nat :: u in s && (u, v) in e ==> v in s
    ensures forall i :: 0 <= i < |p| ==> p[i] in s
  {
    if |p| > 1 {
      var front := p[..|p| - 1];
      WalkStaysIn(e, s, front);
      assert front[|p| - 2] in s && (p[|p| - 2], p[|p| - 1]) in e;
      assert forall i :: 0 <= i < |p| - 1 ==> p[i] == front[i];
    }
  }

  /** A set closed under the edges contains everything reachable from its members. */
  lemma ClosedContains(e: Edges, s: set<nat>, a: nat, b: nat)
    requires a in s && Reaches(e, a, b) && forall u: nat, v: nat :: u in s && (u, v) in e ==> v in s
    ensures b in s
  {
    var p :| WalkFromTo(e, p, a, b);
    WalkStaysIn(e, s, p);
  }

  /** Fewer edges, fewer walks. */
  lemma ReachesMonotone(e: Edges, f: Edges, a: nat, b: nat)
    requires Reaches(e, a, b) && e <= f
    ensures Reaches(f, a, b)
  {
    var p :| WalkFromTo(e, p, a, b);
    assert WalkFromTo(f, p, a, b);
  }

  // ---------------------------------------------------------------- ranks

  ghost function Sources(e: Edges): set<nat> { set x | x in e :: x.0 }

  /** The sources from which `v` is reachable, and `v` itself. */
  ghost function Ancestors(e: Edges, v: nat): set<nat> { {v} + set u | u in Sources(e) && Reaches(e, u, v) }

  ghost predicate Acyclic(e: Edges) { forall p :: !IsCycle(e, p) }

  /** Edges that all rise in some rank form no cycle. */
  lemma {:induction false} WalkRises(e: Edges, rank: nat -> nat, p: seq<nat>)
    requires IsWalk(e, p) && forall u: nat, v: nat :: (u, v) in e ==> rank(u) < rank(v)
    ensures rank(p[0]) + |p| - 1 <= rank(p[|p| - 1])
  {
    if |p| > 1 {
      WalkRises(e, rank, p[..|p| - 1]);
      var i := |p| - 2;
      assert (p[i], p[i + 1]) in e;
    }
  }

  lemma RisingIsAcyclic(e: Edges, rank: nat -> nat)
    requires forall u: nat, v: nat :: (u, v) in e ==> rank(u) < rank(v)
    ensures Acyclic(e)
  {
    forall p ensures !IsCycle(e, p) {
      if IsCycle(e, p) { WalkRises(e, rank, p); }
    }
  }

  /** Without cycles, an edge leads to a node with strictly more ancestors. */
  lemma AncestorsGrow(e: Edges, u: nat, v: nat)
    requires Acyclic(e) && (u, v) in e
    ensures |Ancestors(e, u)| < |Ancestors(e, v)|
  {
    var a, b := Ancestors(e, u), Ancestors(e, v);
    assert u in Sources(e);
    forall w | w in a ensures w in b {
      if w == u { ReachesSelf(e, u); }
      ReachesStep(e, w, u, v);
    }
    if v in a {
      if v == u { ReachesSelf(e, u); }
      var p :| WalkFromTo(e, p, v, u);
      assert IsCycle(e, p + [v]);
    }
    assert v in b && a < b;
    Smaller(a, b);
  }

  lemma Smaller<T>(a: set<T>, b: set<T>)
    requires a < b
    ensures |a| < |b|
  {
    assert b == a + (b - a) && |b - a| > 0;
  }
}
