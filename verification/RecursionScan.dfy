/** The recursive scan for the calls that close the cycles of a component. */
module RecursionScan {
  import opened AbstractStateGraph
  import opened Walks
  import opened BackEdges
  import C = CallCycles

  /** The calls inside the component. */
  ghost function Inner(adj: C.Calls, scc: set<Fn>): (e: Edges)
    ensures forall f: nat, g: nat :: (f, g) in e <==> f in scc && g in scc && g in C.Callees(adj, f)
  {
    set x | x in C.EdgesOf(adj) && x.0 in scc && x.1 in scc
  }

  // ---------------------------------------------------------------- what the scan keeps

  /** The functions being scanned form a chain of calls; `path` lists exactly the gray ones. */
  ghost predicate OnPath(adj: C.Calls, scc: set<Fn>, path: seq<Fn>, color: map<Fn, Color>) {
    && color.Keys <= scc
    && IsChain(Inner(adj, scc), path)
    && forall f: Fn :: ColorOf(color, f) == Gray <==> f in path
  }

  ghost predicate IsChain(e: Edges, path: seq<Fn>) {
    && (forall i :: 0 <= i < |path| - 1 ==> (path[i], path[i + 1]) in e)
    && (forall i, j :: 0 <= i < j < |path| ==> path[i] != path[j])
  }

  /** Calls of finished functions are back edges or go to functions finished before. */
  ghost predicate Done(adj: C.Calls, scc: set<Fn>, color: map<Fn, Color>, back: Edges, finish: map<Fn, nat>) {
    && (forall f: Fn :: f in finish <==> ColorOf(color, f) == Black)
    && (forall f: Fn :: f in finish ==> finish[f] < |finish|)
    && (forall f: Fn, g: Fn :: f in finish && (f, g) in Inner(adj, scc) ==> Settled(back, finish, f, g))
  }

  ghost predicate AllClose(adj: C.Calls, scc: set<Fn>, back: Edges) {
    forall x :: x in back ==> x in Inner(adj, scc) && Reaches(Inner(adj, scc), x.1, x.0)
  }

  ghost predicate Scanning(adj: C.Calls, scc: set<Fn>, path: seq<Fn>, color: map<Fn, Color>, back: Edges, finish: map<Fn, nat>) {
    OnPath(adj, scc, path, color) && Done(adj, scc, color, back, finish) && AllClose(adj, scc, back)
  }

  /** `finish` only grew, and so did `back`. */
  ghost predicate Grew(back0: Edges, finish0: map<Fn, nat>, back: Edges, finish: map<Fn, nat>) {
    back0 <= back && forall f :: f in finish0 ==> f in finish && finish[f] == finish0[f]
  }

  lemma SettledGrows(back0: Edges, finish0: map<Fn, nat>, back: Edges, finish: map<Fn, nat>, f: Fn, g: Fn)
    requires Grew(back0, finish0, back, finish) && Settled(back0, finish0, f, g) && f !in finish
    ensures Settled(back, finish, f, g)
  {}

  // ---------------------------------------------------------------- the steps

  lemma Enter(adj: C.Calls, scc: set<Fn>, path: seq<Fn>, color: map<Fn, Color>, back: Edges, finish: map<Fn, nat>, f: Fn)
    requires Scanning(adj, scc, path, color, back, finish) && f in scc && ColorOf(color, f) == White
    requires path != [] ==> (path[|path| - 1], f) in Inner(adj, scc)
    ensures Scanning(adj, scc, path + [f], color[f := Gray], back, finish)
  {
    hide Inner;
    assert forall g: Fn :: g in path + [f] <==> g in path || g == f;
  }

  lemma ClosesCycle(adj: C.Calls, scc: set<Fn>, path: seq<Fn>, color: map<Fn, Color>, back: Edges, finish: map<Fn, nat>, f: Fn, g: Fn)
    requires Scanning(adj, scc, path + [f], color, back, finish) && (f, g) in Inner(adj, scc) && ColorOf(color, g) == Gray
    ensures Scanning(adj, scc, path + [f], color, back + {(f, g)}, finish)
  {
    hide Inner;
    var p := path + [f];
    var i :| 0 <= i < |p| && p[i] == g;
    assert IsWalk(Inner(adj, scc), p);
    WalkReaches(Inner(adj, scc), p, i, |p| - 1);
  }

  lemma Leave(adj: C.Calls, scc: set<Fn>, path: seq<Fn>, color: map<Fn, Color>, back: Edges, finish: map<Fn, nat>, f: Fn)
    requires Scanning(adj, scc, path + [f], color, back, finish) && f in scc
    requires forall g: Fn :: (f, g) in Inner(adj, scc) ==> Settled(back, finish, f, g)
    ensures f !in finish && Scanning(adj, scc, path, color[f := Black], back, finish[f := |finish|])
  {
    hide Inner;
    var p := path + [f];
    assert p[|path|] == f && forall i :: 0 <= i < |path| ==> p[i] == path[i];
    assert f in p && f !in finish;
    LeavePath(Inner(adj, scc), path, f);
    assert |finish[f := |finish|]| == |finish| + 1;
  }

  lemma LeavePath(e: Edges, path: seq<Fn>, f: Fn)
    requires IsChain(e, path + [f])
    ensures IsChain(e, path) && f !in path && forall g: Fn :: g in path + [f] <==> g in path || g == f
  {
    var p := path + [f];
    assert forall i :: 0 <= i < |path| ==> p[i] == path[i];
    forall i | 0 <= i < |path| - 1 ensures (path[i], path[i + 1]) in e { assert (p[i], p[i + 1]) in e; }
    forall i | 0 <= i < |path| ensures path[i] != f { assert p[i] != p[|path|]; }
  }

  // ---------------------------------------------------------------- the scan

  class Scan {
    const adj: C.Calls
    const scc: set<Fn>
    var color: map<Fn, Color>
    var back: Edges
    ghost var finish: map<Fn, nat>

    constructor (adj: C.Calls, scc: set<Fn>)
      ensures this.adj == adj && this.scc == scc && Scanning(adj, scc, [], color, back, finish) && back == {} && finish == map[]
    {
      this.adj, this.scc := adj, scc;
      color, back, finish := map[], {}, map[];
    }

    method Dfs(f: Fn, ghost path: seq<Fn>)
      requires Scanning(adj, scc, path, color, back, finish) && f in scc && ColorOf(color, f) == White
      requires path != [] ==> (path[|path| - 1], f) in Inner(adj, scc)
      modifies this
      ensures Scanning(adj, scc, path, color, back, finish) && f in finish && Whites(scc, color) <= Whites(scc, old(color))
      ensures Grew(old(back), old(finish), back, finish)
      decreases |Whites(scc, color)|
    {
      hide *;
      Enter(adj, scc, path, color, back, finish, f);
      Whitened(scc, color, f);
      color := color[f := Gray];
      ghost var start := Whites(scc, color);
      GrewNothing(back, finish);
      var callees := Ascending(C.Callees(adj, f));
      AscendingExact(C.Callees(adj, f));
      NoneYet(scc, back, finish, f, callees);
      for k := 0 to |callees|
        invariant Scanning(adj, scc, path + [f], color, back, finish) && Whites(scc, color) <= start < Whites(scc, old(color))
        invariant Grew(old(back), old(finish), back, finish)
        invariant AllSettled(scc, back, finish, f, callees[..k])
      {
        var g := callees[k];
        CallInside(adj, scc, f, g);
        ghost var back0, finish0 := back, finish;
        GrewNothing(back, finish);
        if g in scc {
          if ColorOf(color, g) == Gray {
            ClosesCycle(adj, scc, path, color, back, finish, f, g);
            back := back + {(f, g)};
            GrewBack(back0, back, finish);
          } else if ColorOf(color, g) == White {
            Smaller(Whites(scc, color), Whites(scc, old(color)));
            assert (path + [f])[|path + [f]| - 1] == f;
            Dfs(g, path + [f]);
          }
        }
        StillGray(adj, scc, path, color, back, finish, f);
        if g in scc { NowSettled(adj, scc, color, back, finish, f, g); }
        OneMoreSettled(scc, back0, finish0, back, finish, f, callees, k);
        GrewTransitive(old(back), old(finish), back0, finish0, back, finish);
      }
      assert callees[..|callees|] == callees;
      CallsSettled(adj, scc, back, finish, f, callees);
      Leave(adj, scc, path, color, back, finish, f);
      Blackened(scc, color, f);
      GrewFinish(old(back), old(finish), back, finish, f);
      color := color[f := Black];
      finish := finish[f := |finish|];
    }
  }

  ghost predicate AllSettled(scc: set<Fn>, back: Edges, finish: map<Fn, nat>, f: Fn, callees: seq<Fn>) {
    forall g :: g in callees && g in scc ==> Settled(back, finish, f, g)
  }

  ghost function Whites(scc: set<Fn>, color: map<Fn, Color>): set<Fn> { set f | f in scc && ColorOf(color, f) == White }

  lemma Whitened(scc: set<Fn>, color: map<Fn, Color>, f: Fn)
    requires f in scc && ColorOf(color, f) == White
    ensures Whites(scc, color[f := Gray]) < Whites(scc, color)
  {
    assert f in Whites(scc, color) && f !in Whites(scc, color[f := Gray]);
  }

  lemma Blackened(scc: set<Fn>, color: map<Fn, Color>, f: Fn)
    ensures Whites(scc, color[f := Black]) <= Whites(scc, color)
  {}

  lemma NoneYet(scc: set<Fn>, back: Edges, finish: map<Fn, nat>, f: Fn, callees: seq<Fn>)
    ensures AllSettled(scc, back, finish, f, callees[..0])
  {}

  lemma CallInside(adj: C.Calls, scc: set<Fn>, f: Fn, g: Fn)
    requires f in scc && g in C.Callees(adj, f)
    ensures g in scc ==> (f, g) in Inner(adj, scc)
  {}

  lemma GrewNothing(back: Edges, finish: map<Fn, nat>)
    ensures Grew(back, finish, back, finish)
  {}

  lemma GrewBack(back0: Edges, back: Edges, finish: map<Fn, nat>)
    requires back0 <= back
    ensures Grew(back0, finish, back, finish)
  {}

  lemma GrewTransitive(back0: Edges, finish0: map<Fn, nat>, back1: Edges, finish1: map<Fn, nat>, back: Edges, finish: map<Fn, nat>)
    requires Grew(back0, finish0, back1, finish1) && Grew(back1, finish1, back, finish)
    ensures Grew(back0, finish0, back, finish)
  {}

  lemma GrewFinish(back0: Edges, finish0: map<Fn, nat>, back: Edges, finish: map<Fn, nat>, f: Fn)
    requires Grew(back0, finish0, back, finish) && f !in finish
    ensures Grew(back0, finish0, back, finish[f := |finish|])
  {}

  /** After the three cases the call to `g` is a back edge, or `g` is finished. */
  lemma NowSettled(adj: C.Calls, scc: set<Fn>, color: map<Fn, Color>, back: Edges, finish: map<Fn, nat>, f: Fn, g: Fn)
    requires Done(adj, scc, color, back, finish) && ColorOf(color, f) == Gray
    requires (f, g) in back || g in finish || ColorOf(color, g) == Black
    ensures Settled(back, finish, f, g)
  {}

  lemma OneMoreSettled(scc: set<Fn>, back0: Edges, finish0: map<Fn, nat>, back: Edges, finish: map<Fn, nat>, f: Fn, callees: seq<Fn>, k: nat)
    requires k < |callees| && Grew(back0, finish0, back, finish) && f !in finish
    requires AllSettled(scc, back0, finish0, f, callees[..k]) && (callees[k] in scc ==> Settled(back, finish, f, callees[k]))
    ensures AllSettled(scc, back, finish, f, callees[..k + 1])
  {
    assert callees[..k + 1] == callees[..k] + [callees[k]];
    forall g | g in callees[..k] && g in scc ensures Settled(back, finish, f, g) {
      SettledGrows(back0, finish0, back, finish, f, g);
    }
  }

  lemma CallsSettled(adj: C.Calls, scc: set<Fn>, back: Edges, finish: map<Fn, nat>, f: Fn, callees: seq<Fn>)
    requires AllSettled(scc, back, finish, f, callees) && forall g :: g in callees <==> g in C.Callees(adj, f)
    ensures forall g: Fn :: (f, g) in Inner(adj, scc) ==> Settled(back, finish, f, g)
  {}

  lemma StillGray(adj: C.Calls, scc: set<Fn>, path: seq<Fn>, color: map<Fn, Color>, back: Edges, finish: map<Fn, nat>, f: Fn)
    requires Scanning(adj, scc, path + [f], color, back, finish)
    ensures f !in finish && ColorOf(color, f) == Gray && Done(adj, scc, color, back, finish)
  {
    hide Inner;
    assert f in path + [f];
  }

  /** The calls that close the cycles inside a component, scanned from its entries first. */
  method FindSccBackEdges(adj: C.Calls, scc: set<Fn>, entries: set<Fn>) returns (back: Edges)
    requires entries <= scc
    ensures forall x :: x in back ==> x in Inner(adj, scc) && Reaches(Inner(adj, scc), x.1, x.0)
    ensures Acyclic(Inner(adj, scc) - back)
  {
    var scan := new Scan(adj, scc);
    var roots := Ascending(entries);
    AscendingExact(entries);
    for i := 0 to |roots|
      invariant Scanning(adj, scc, [], scan.color, scan.back, scan.finish)
    {
      assert roots[i] in roots;
      if ColorOf(scan.color, roots[i]) == White { scan.Dfs(roots[i], []); }
    }
    var members := Ascending(scc);
    AscendingExact(scc);
    for i := 0 to |members|
      invariant Scanning(adj, scc, [], scan.color, scan.back, scan.finish)
      invariant forall m :: m in members[..i] ==> m in scan.finish
    {
      var m := members[i];
      assert m in members && members[..i + 1] == members[..i] + [m];
      if ColorOf(scan.color, m) == White {
        scan.Dfs(m, []);
      } else {
        NoneGray(adj, scc, scan.color, scan.back, scan.finish, m);
      }
    }
    assert members[..|members|] == members;
    back := scan.back;
    NoOpenCycle(adj, scc, scan.color, back, scan.finish);
  }

  lemma NoneGray(adj: C.Calls, scc: set<Fn>, color: map<Fn, Color>, back: Edges, finish: map<Fn, nat>, m: Fn)
    requires Scanning(adj, scc, [], color, back, finish) && ColorOf(color, m) != White
    ensures m in finish
  {
    hide Inner;
  }

  lemma {:induction false} FinishFalls(adj: C.Calls, scc: set<Fn>, color: map<Fn, Color>, back: Edges, finish: map<Fn, nat>, p: seq<Fn>)
    requires Done(adj, scc, color, back, finish) && IsWalk(Inner(adj, scc) - back, p) && p[0] in finish
    requires forall m :: m in scc ==> m in finish
    ensures p[|p| - 1] in finish && finish[p[|p| - 1]] + |p| - 1 <= finish[p[0]]
  {
    if |p| > 1 {
      var front := p[..|p| - 1];
      FinishFalls(adj, scc, color, back, finish, front);
      assert (p[|p| - 2], p[|p| - 1]) in Inner(adj, scc) - back;
      assert front[|front| - 1] == p[|p| - 2];
      assert Settled(back, finish, p[|p| - 2], p[|p| - 1]);
    }
  }

  lemma NoOpenCycle(adj: C.Calls, scc: set<Fn>, color: map<Fn, Color>, back: Edges, finish: map<Fn, nat>)
    requires Done(adj, scc, color, back, finish) && forall m :: m in scc ==> m in finish
    ensures Acyclic(Inner(adj, scc) - back)
  {
    forall p ensures !IsCycle(Inner(adj, scc) - back, p) {
      if IsCycle(Inner(adj, scc) - back, p) {
        assert (p[0], p[1]) in Inner(adj, scc);
        FinishFalls(adj, scc, color, back, finish, p);
      }
    }
  }
}
