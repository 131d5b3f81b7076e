/** Calls in functions out of reach of the start: when the returns to them are harmless, and when exactly
    the counts stay finite. */
module DeadCalls {
  import opened AbstractStateGraph
  import opened WcetModel
  import opened Runs
  import opened IpetSoundness
  import opened FiniteWcet
  import opened Walks
  import opened Leaks
  import opened BoundedCycles
  import opened Circulations
  import opened FreeCycles

  // ---------------------------------------------------------------- dead calls that are not recursive

  /** Caller and callee of the dropped calls that are still returned to. */
  ghost function DroppedCalls(g: Asg, p: Program, owner: nat -> Fn): (e: Edges)
    requires p.Valid()
    ensures forall i: nat :: i < |p.sites| && IsDropped(g, p, i) ==> (owner(p.sites[i].call), p.sites[i].callee) in e
  {
    set i | 0 <= i < |p.sites| && IsDropped(g, p, i) :: (owner(p.sites[i].call), p.sites[i].callee)
  }

  /** Functions called without a return expected do not return. */
  ghost predicate LostCalleesEnd(g: Asg, p: Program)
    requires p.Valid()
  {
    forall i: nat :: i < |p.sites| && IsLost(g, p, i) ==> KeptReturns(g, p, p.sites[i].callee) == {}
  }

  ghost predicate CanReturn(g: Asg, p: Program, f: Fn) { f in p.returnsOf && KeptReturns(g, p, f) != {} }

  /** Flow that moves into a function that can return was there already, or came from the callee of a
      dropped call in it, which can return too. */
  lemma MoveIntoReturning(g: Asg, p: Program, owner: nat -> Fn, u: nat, v: nat)
    requires p.Valid() && Owns(p, owner) && LostCalleesEnd(g, p) && Moves(g, p, u, v) && CanReturn(g, p, owner(v))
    ensures CanReturn(g, p, owner(u))
    ensures owner(u) == owner(v) || (owner(v), owner(u)) in DroppedCalls(g, p, owner)
  {
    if !(g.HasEdge(u, v) && (u, v) in p.intra) {
      var i: nat :| i < |p.sites| && MovesAt(g, p, i, u, v);
      if IsDropped(g, p, i) {
        assert p.sites[i].hasLanding && (p.sites[i].call, p.sites[i].landing) in p.intra;
      }
    }
  }

  lemma {:induction false} MovesBackwards(g: Asg, p: Program, owner: nat -> Fn, q: seq<nat>)
    requires p.Valid() && Owns(p, owner) && LostCalleesEnd(g, p)
    requires IsWalk(MoveEdges(g, p), q) && CanReturn(g, p, owner(q[|q| - 1]))
    ensures Reaches(DroppedCalls(g, p, owner), owner(q[|q| - 1]), owner(q[0]))
  {
    hide MoveEdges, DroppedCalls, LostCalleesEnd, CanReturn, Program.Valid, Moves, Owns;
    var d := DroppedCalls(g, p, owner);
    if |q| == 1 {
      ReachesSelf(d, owner(q[0]));
    } else {
      var front, u, v := q[..|q| - 1], q[|q| - 2], q[|q| - 1];
      assert (q[|q| - 2], q[|q| - 2 + 1]) in MoveEdges(g, p);
      MoveIntoReturning(g, p, owner, u, v);
      MovesBackwards(g, p, owner, front);
      if owner(u) != owner(v) {
        ReachesSelf(d, owner(v));
        ReachesStep(d, owner(v), owner(v), owner(u));
        ReachesTransitive(d, owner(v), owner(u), owner(q[0]));
      }
    }
  }

  lemma ClosedWalk(e: Edges, a: nat, b: nat)
    requires (a, b) in e && Reaches(e, b, a)
    ensures !Acyclic(e)
  {
    var p :| WalkFromTo(e, p, b, a);
    assert IsCycle(e, [a] + p);
  }

  lemma StrayOwners(g: Asg, p: Program, owner: nat -> Fn, u: nat, v: nat)
    requires Embeds(g, p) && Owns(p, owner) && g.HasEdge(u, v) && IsStray(g, p, u, v)
    ensures CanReturn(g, p, owner(u)) && (owner(v), owner(u)) in DroppedCalls(g, p, owner)
  {
    var i := StraySite(g, p, u, v);
    assert (p.sites[i].call, p.sites[i].landing) in p.intra;
  }

  /** If the dropped calls are not recursive and functions called for good do not return, nothing comes
      back to where it was returned from. */
  lemma PlainDeadCodeDrains(g: Asg, p: Program, owner: nat -> Fn)
    requires Embeds(g, p) && Owns(p, owner) && LostCalleesEnd(g, p) && Acyclic(DroppedCalls(g, p, owner))
    ensures NothingComesBack(g, p)
  {
    hide Embeds, Owns, DroppedCalls, LostCalleesEnd, Acyclic, IsStray, MoveEdges, Program.Valid;
    EmbedsValid(g, p);
    forall u: nat, v: nat | g.HasEdge(u, v) && IsStray(g, p, u, v) ensures !ComesBack(g, p, u, v) {
      StrayOwners(g, p, owner, u, v);
      if ComesBack(g, p, u, v) {
        var q :| WalkFromTo(MoveEdges(g, p), q, v, u);
        MovesBackwards(g, p, owner, q);
        ClosedWalk(DroppedCalls(g, p, owner), owner(v), owner(u));
      }
    }
  }

  // ---------------------------------------------------------------- programs whose blocks their functions reach

  ghost predicate HasRoot(p: Program, owner: nat -> Fn, f: Fn) { owner(p.entry) == f || f in p.entryOf }

  /** Where the function begins; the start function begins at the entry node. */
  ghost function RootOf(p: Program, owner: nat -> Fn, f: Fn): nat
    requires HasRoot(p, owner, f)
  {
    if owner(p.entry) == f then p.entry else p.entryOf[f]
  }

  /** Branches lead from the beginning of the function to `v`. */
  ghost predicate IsRooted(p: Program, owner: nat -> Fn, v: nat) {
    HasRoot(p, owner, owner(v)) && Reaches(p.intra, RootOf(p, owner, owner(v)), v)
  }

  /** Every walk from the beginning of the function to `u` has passed through `h`. */
  ghost predicate Dominates(p: Program, owner: nat -> Fn, h: nat, u: nat) {
    HasRoot(p, owner, owner(u)) && forall q :: WalkFromTo(p.intra, q, RootOf(p, owner, owner(u)), u) ==> h in q
  }

  /** Blocks are reachable inside their function, loops are entered through their headers only, flags are
      on branches and on calls that return, and the start is not called. */
  ghost predicate IsOrderly(g: Asg, p: Program, owner: nat -> Fn)
    requires p.Valid()
  {
    && (forall v :: v in g.nodes ==> IsRooted(p, owner, v))
    && (forall i :: 0 <= i < |p.sites| ==> IsRooted(p, owner, p.sites[i].call) && p.sites[i].callee != owner(p.entry))
    && (forall u: nat, h: nat :: g.IsBackEdge(u, h) && (u, h) in p.intra ==> Dominates(p, owner, h, u))
    && (forall u: nat, h: nat :: g.IsBackEdge(u, h) && (u, h) !in p.intra ==> !IsStray(g, p, u, h) && !IsLostCall(g, p, u, h))
  }

  ghost predicate IsLive(g: Asg, p: Program, owner: nat -> Fn, v: nat) {
    HasRoot(p, owner, owner(v)) && RootOf(p, owner, owner(v)) in g.nodes
  }

  /** Whatever branches reach from a kept block is kept. */
  lemma KeptOnward(g: Asg, p: Program, u: nat, v: nat)
    requires Embeds(g, p) && u in g.nodes && Reaches(p.intra, u, v)
    ensures v in g.nodes
  {
    forall a: nat, b: nat | a in g.nodes.Keys && (a, b) in p.intra ensures b in g.nodes.Keys {
      assert g.HasEdge(a, b);
    }
    ClosedContains(p.intra, g.nodes.Keys, u, v);
  }

  /** A walk that meets the target of every forbidden edge before its source can do without them. */
  lemma {:induction false} Shortcut(e: Edges, cut: Edges, q: seq<nat>)
    requires IsWalk(e, q)
    requires forall r, h: nat :: IsWalk(e, r) && r[0] == q[0] && (r[|r| - 1], h) in cut ==> h in r
    ensures Reaches(e - cut, q[0], q[|q| - 1])
    decreases |q|
  {
    if j: nat :| j < |q| - 1 && (q[j], q[j + 1]) in cut {
      var r := q[..j + 1];
      assert IsWalk(e, r) && r[|r| - 1] == q[j];
      assert r[0] == q[0] && (r[|r| - 1], q[j + 1]) in cut;
      assert q[j + 1] in r;
      var i :| 0 <= i < |r| && r[i] == q[j + 1];
      var s := q[..i] + q[j + 1..];
      forall k | 0 <= k < |s| - 1 ensures (s[k], s[k + 1]) in e {
        if k < i - 1 {
          assert (q[k], q[k + 1]) in e;
        } else if k == i - 1 {
          assert (q[i - 1], q[i - 1 + 1]) in e;
        } else {
          var l := k - i + j + 1;
          assert (q[l], q[l + 1]) in e;
        }
      }
      Shortcut(e, cut, s);
    } else {
      assert WalkFromTo(e - cut, q, q[0], q[|q| - 1]);
    }
  }

  ghost function Flagged(g: Asg, p: Program): Edges { set e | e in p.intra && g.IsBackEdge(e.0, e.1) }

  /** From a kept block, unflagged branches of the program are open branches of the graph. */
  lemma {:induction false} StaysOpen(g: Asg, p: Program, q: seq<nat>)
    requires Embeds(g, p) && IsWalk(p.intra - Flagged(g, p), q) && q[0] in g.nodes
    ensures IsWalk(OpenBranches(g, p), q) && q[|q| - 1] in g.nodes
  {
    if |q| > 1 {
      var front, i := q[..|q| - 1], |q| - 2;
      StaysOpen(g, p, front);
      assert (q[i], q[i + 1]) in p.intra - Flagged(g, p);
      assert front[|front| - 1] == q[i] && g.HasEdge(q[i], q[i + 1]);
      forall k | 0 <= k < |q| - 1 ensures (q[k], q[k + 1]) in OpenBranches(g, p) {
        if k < i { assert (front[k], front[k + 1]) in OpenBranches(g, p); }
      }
    }
  }

  lemma OpenReach(g: Asg, p: Program, u: nat, v: nat)
    requires Embeds(g, p) && Reaches(p.intra - Flagged(g, p), u, v) && u in g.nodes
    ensures Reaches(OpenBranches(g, p), u, v)
  {
    var q :| WalkFromTo(p.intra - Flagged(g, p), q, u, v);
    StaysOpen(g, p, q);
    assert WalkFromTo(OpenBranches(g, p), q, u, v);
  }

  lemma {:induction false} SameOwner(p: Program, owner: nat -> Fn, q: seq<nat>)
    requires Owns(p, owner) && IsWalk(p.intra, q)
    ensures owner(q[0]) == owner(q[|q| - 1])
  {
    if |q| > 1 {
      var i := |q| - 2;
      SameOwner(p, owner, q[..|q| - 1]);
      assert (q[i], q[i + 1]) in p.intra;
    }
  }

  lemma RootOwner(p: Program, owner: nat -> Fn, f: Fn)
    requires Owns(p, owner) && HasRoot(p, owner, f)
    ensures owner(RootOf(p, owner, f)) == f
  {}

  /** Inside a live function, open branches lead from its beginning to every kept block. */
  lemma LiveReach(g: Asg, p: Program, owner: nat -> Fn, v: nat)
    requires Embeds(g, p) && Owns(p, owner) && IsOrderly(g, p, owner) && v in g.nodes && IsLive(g, p, owner, v)
    ensures Reaches(OpenBranches(g, p), RootOf(p, owner, owner(v)), v)
  {
    var root := RootOf(p, owner, owner(v));
    assert IsRooted(p, owner, v);
    var q :| WalkFromTo(p.intra, q, root, v);
    RootOwner(p, owner, owner(v));
    forall r, h: nat | IsWalk(p.intra, r) && r[0] == q[0] && (r[|r| - 1], h) in Flagged(g, p) ensures h in r {
      SameOwner(p, owner, r);
      assert Dominates(p, owner, h, r[|r| - 1]);
      assert WalkFromTo(p.intra, r, root, r[|r| - 1]);
    }
    Shortcut(p.intra, Flagged(g, p), q);
    OpenReach(g, p, root, v);
  }

  /** A function with a dropped call is not live. */
  lemma DroppedIsDead(g: Asg, p: Program, owner: nat -> Fn, i: nat)
    requires Embeds(g, p) && Owns(p, owner) && IsOrderly(g, p, owner) && i < |p.sites| && IsDropped(g, p, i)
    ensures (p.sites[i].call, p.sites[i].landing) in p.intra && owner(p.sites[i].landing) == owner(p.sites[i].call)
    ensures !IsLive(g, p, owner, p.sites[i].landing)
  {
    var c := p.sites[i].call;
    assert IsRooted(p, owner, c);
    var root := RootOf(p, owner, owner(c));
    if root in g.nodes { KeptOnward(g, p, root, c); }
  }

  lemma FlaggedDominates(g: Asg, p: Program, owner: nat -> Fn, u: nat, h: nat)
    requires Embeds(g, p) && IsOrderly(g, p, owner) && (u, h) in Flagged(g, p)
    ensures Dominates(p, owner, h, u) && h in g.nodes
  {
    assert g.HasEdge(u, h);
  }

  /** Behind a dropped call no loop is entered past its header: the header would have kept the call. */
  lemma HeaderAhead(g: Asg, p: Program, owner: nat -> Fn, i: nat, r: seq<nat>, h: nat)
    requires Embeds(g, p) && Owns(p, owner) && IsOrderly(g, p, owner) && i < |p.sites| && IsDropped(g, p, i)
    requires IsWalk(p.intra, r) && r[0] == p.sites[i].landing && (r[|r| - 1], h) in Flagged(g, p)
    ensures h in r
  {
    var c := p.sites[i].call;
    DroppedIsDead(g, p, owner, i);
    assert IsRooted(p, owner, c);
    var w :| WalkFromTo(p.intra, w, RootOf(p, owner, owner(c)), c);
    SameOwner(p, owner, r);
    JoinWalks(p.intra, w, r);
    FlaggedDominates(g, p, owner, r[|r| - 1], h);
    assert WalkFromTo(p.intra, w + r, RootOf(p, owner, owner(c)), r[|r| - 1]);
    hide IsOrderly, Owns, Embeds, Reaches, IsWalk, Program.Valid;
    if h !in r {
      var k :| 0 <= k < |w| && w[k] == h;
      WalkReaches(p.intra, w, k, |w| - 1);
      KeptOnward(g, p, h, c);
    }
  }

  /** From where a dropped call lands, open branches lead wherever branches do. */
  lemma DeadReach(g: Asg, p: Program, owner: nat -> Fn, i: nat, v: nat)
    requires Embeds(g, p) && Owns(p, owner) && IsOrderly(g, p, owner) && i < |p.sites| && IsDropped(g, p, i)
    requires p.sites[i].landing in g.nodes && Reaches(p.intra, p.sites[i].landing, v)
    ensures Reaches(OpenBranches(g, p), p.sites[i].landing, v)
  {
    hide Embeds, Owns, IsOrderly, IsDropped, Program.Valid;
    var q :| WalkFromTo(p.intra, q, p.sites[i].landing, v);
    forall r, h: nat | IsWalk(p.intra, r) && r[0] == q[0] && (r[|r| - 1], h) in Flagged(g, p) ensures h in r {
      HeaderAhead(g, p, owner, i, r, h);
    }
    Shortcut(p.intra, Flagged(g, p), q);
    OpenReach(g, p, p.sites[i].landing, v);
  }

  // ---------------------------------------------------------------- what moves back runs along free edges

  ghost function FreeEdges(g: Asg): (e: Edges)
    ensures forall u: nat, v: nat :: (u, v) in e <==> IsFree(g, u, v)
  {
    set u, v | u in g.succs && v in g.succs[u] && IsFree(g, u, v) :: (u, v)
  }

  lemma OpenIsFree(g: Asg, p: Program, u: nat, v: nat)
    requires Tight(g, p) && Reaches(OpenBranches(g, p), u, v)
    ensures Reaches(FreeEdges(g), u, v)
  {
    hide Tight, IsFree, IsStray, IsLostCall;
    forall e | e in OpenBranches(g, p) ensures e in FreeEdges(g) {
      assert e == (e.0, e.1);
      FreeIff(g, p, e.0, e.1);
    }
    ReachesMonotone(OpenBranches(g, p), FreeEdges(g), u, v);
  }

  /** The flow that came from `from` to `v`: in a live function it came through its beginning, in a dead
      one from the landing of a dropped call. */
  ghost predicate CameFreely(g: Asg, p: Program, owner: nat -> Fn, from: nat, v: nat)
    requires p.Valid()
  {
    if IsLive(g, p, owner, v) then Reaches(FreeEdges(g), from, RootOf(p, owner, owner(v)))
    else exists i: nat :: i < |p.sites| && LandsAt(g, p, from, i, v)
  }

  ghost predicate LandsAt(g: Asg, p: Program, from: nat, i: nat, v: nat)
    requires p.Valid() && i < |p.sites|
  {
    IsDropped(g, p, i) && p.sites[i].landing in g.nodes
    && Reaches(FreeEdges(g), from, p.sites[i].landing) && Reaches(p.intra, p.sites[i].landing, v)
  }

  lemma CameReaches(g: Asg, p: Program, owner: nat -> Fn, from: nat, v: nat)
    requires Tight(g, p) && Owns(p, owner) && IsOrderly(g, p, owner) && v in g.nodes && CameFreely(g, p, owner, from, v)
    ensures Reaches(FreeEdges(g), from, v)
  {
    hide Tight, Owns, IsOrderly, Reaches, IsDropped, Embeds, Program.Valid, RootOf, FreeEdges;
    TightValid(g, p);
    if IsLive(g, p, owner, v) {
      LiveReach(g, p, owner, v);
      OpenIsFree(g, p, RootOf(p, owner, owner(v)), v);
      ReachesTransitive(FreeEdges(g), from, RootOf(p, owner, owner(v)), v);
    } else {
      var i: nat :| i < |p.sites| && LandsAt(g, p, from, i, v);
      DeadReach(g, p, owner, i, v);
      OpenIsFree(g, p, p.sites[i].landing, v);
      ReachesTransitive(FreeEdges(g), from, p.sites[i].landing, v);
    }
  }

  lemma AtLanding(g: Asg, p: Program, owner: nat -> Fn, from: nat, i: nat)
    requires Embeds(g, p) && Owns(p, owner) && IsOrderly(g, p, owner) && i < |p.sites| && IsDropped(g, p, i)
    requires p.sites[i].landing in g.nodes && Reaches(FreeEdges(g), from, p.sites[i].landing)
    ensures CameFreely(g, p, owner, from, p.sites[i].landing)
  {
    hide Owns, IsOrderly, Reaches, IsDropped, Embeds, Program.Valid, IsLive, FreeEdges;
    EmbedsValid(g, p);
    DroppedIsDead(g, p, owner, i);
    ReachesSelf(p.intra, p.sites[i].landing);
    assert LandsAt(g, p, from, i, p.sites[i].landing);
  }

  lemma BranchCame(g: Asg, p: Program, owner: nat -> Fn, from: nat, u: nat, v: nat)
    requires p.Valid() && Owns(p, owner) && CameFreely(g, p, owner, from, u) && (u, v) in p.intra
    ensures CameFreely(g, p, owner, from, v)
  {
    hide Reaches, IsDropped, Program.Valid, FreeEdges;
    assert owner(u) == owner(v);
    if !IsLive(g, p, owner, u) {
      var i: nat :| i < |p.sites| && LandsAt(g, p, from, i, u);
      ReachesStep(p.intra, p.sites[i].landing, u, v);
      assert LandsAt(g, p, from, i, v);
    }
  }

  /** The entry and the returns of an answered callee belong to one live function. */
  lemma AnsweredIsLive(g: Asg, p: Program, owner: nat -> Fn, i: nat)
    requires Embeds(g, p) && Owns(p, owner) && IsOrderly(g, p, owner) && i < |p.sites| && p.sites[i].call in g.nodes
    ensures var s := p.sites[i];
            && HasRoot(p, owner, s.callee) && RootOf(p, owner, s.callee) == p.entryOf[s.callee] && p.entryOf[s.callee] in g.nodes
            && owner(p.entryOf[s.callee]) == s.callee && (forall r :: r in KeptReturns(g, p, s.callee) ==> owner(r) == s.callee)
  {
    assert g.HasEdge(p.sites[i].call, p.entryOf[p.sites[i].callee]);
  }

  lemma LostCame(g: Asg, p: Program, owner: nat -> Fn, from: nat, i: nat)
    requires Tight(g, p) && Owns(p, owner) && IsOrderly(g, p, owner) && i < |p.sites| && IsLost(g, p, i)
    requires CameFreely(g, p, owner, from, p.sites[i].call)
    ensures CameFreely(g, p, owner, from, p.entryOf[p.sites[i].callee])
  {
    hide Tight, Owns, IsOrderly, Reaches, Embeds, Program.Valid, FreeEdges, RootOf;
    TightValid(g, p);
    var u, v := p.sites[i].call, p.entryOf[p.sites[i].callee];
    CameReaches(g, p, owner, from, u);
    LostIsFree(g, p, owner, i);
    ReachesStep(FreeEdges(g), from, u, v);
    AnsweredIsLive(g, p, owner, i);
  }

  lemma StrayCame(g: Asg, p: Program, owner: nat -> Fn, from: nat, i: nat, r: nat)
    requires Tight(g, p) && Owns(p, owner) && IsOrderly(g, p, owner) && DistinctLandings(p) && i < |p.sites| && IsDropped(g, p, i)
    requires r in KeptReturns(g, p, p.sites[i].callee) && p.sites[i].landing in g.nodes && CameFreely(g, p, owner, from, r)
    ensures CameFreely(g, p, owner, from, p.sites[i].landing)
  {
    hide Tight, Owns, IsOrderly, Reaches, Embeds, Program.Valid, FreeEdges, CameFreely, DistinctLandings, IsDropped;
    TightValid(g, p);
    CameReaches(g, p, owner, from, r);
    StrayIsFree(g, p, owner, i, r);
    ReachesStep(FreeEdges(g), from, r, p.sites[i].landing);
    AtLanding(g, p, owner, from, i);
  }

  /** In a live function it does not matter where the flow is. */
  lemma LiveCame(g: Asg, p: Program, owner: nat -> Fn, from: nat, u: nat, v: nat)
    requires p.Valid() && IsLive(g, p, owner, u) && owner(u) == owner(v) && CameFreely(g, p, owner, from, u)
    ensures CameFreely(g, p, owner, from, v)
  {}

  lemma SiteCame(g: Asg, p: Program, owner: nat -> Fn, from: nat, i: nat, u: nat, v: nat)
    requires Tight(g, p) && Owns(p, owner) && IsOrderly(g, p, owner) && DistinctLandings(p) && i < |p.sites| && MovesAt(g, p, i, u, v)
    requires u in g.nodes && v in g.nodes && CameFreely(g, p, owner, from, u)
    ensures CameFreely(g, p, owner, from, v)
  {
    hide Tight, Owns, IsOrderly, Embeds, Program.Valid, CameFreely, DistinctLandings;
    TightValid(g, p);
    if IsLost(g, p, i) {
      LostCame(g, p, owner, from, i);
    } else if IsDropped(g, p, i) {
      StrayCame(g, p, owner, from, i, u);
    } else {
      AnsweredIsLive(g, p, owner, i);
      LiveCame(g, p, owner, from, u, v);
    }
  }

  lemma LostIsFree(g: Asg, p: Program, owner: nat -> Fn, i: nat)
    requires Tight(g, p) && IsOrderly(g, p, owner) && i < |p.sites| && IsLost(g, p, i)
    ensures p.CallEdge(i) in FreeEdges(g)
  {
    var u, v := p.sites[i].call, p.entryOf[p.sites[i].callee];
    assert g.HasEdge(u, v) && CallsAlong(p, i, u, v) && (u, v) !in p.intra;
    assert IsLostCall(g, p, u, v);
    FreeIff(g, p, u, v);
  }

  lemma StrayIsFree(g: Asg, p: Program, owner: nat -> Fn, i: nat, r: nat)
    requires Tight(g, p) && IsOrderly(g, p, owner) && DistinctLandings(p)
    requires i < |p.sites| && IsDropped(g, p, i) && r in KeptReturns(g, p, p.sites[i].callee)
    ensures (r, p.sites[i].landing) in FreeEdges(g)
  {
    var v := p.sites[i].landing;
    assert g.HasEdge(r, v) && ReturnsAlong(p, i, r, v) && (r, v) !in p.intra;
    forall j: nat | j < |p.sites| ensures !AnswersKept(g, p, j, r, v) {
      if j != i && p.sites[j].hasLanding && p.sites[j].landing == v && p.sites[j].callee == p.sites[i].callee {
        assert Shares(p, i, j) && Shares(p, j, i);
      }
    }
    assert IsStray(g, p, r, v);
    FreeIff(g, p, r, v);
  }

  lemma {:induction false} WalkCame(g: Asg, p: Program, owner: nat -> Fn, from: nat, q: seq<nat>)
    requires Tight(g, p) && Owns(p, owner) && IsOrderly(g, p, owner) && DistinctLandings(p)
    requires IsWalk(MoveEdges(g, p), q) && CameFreely(g, p, owner, from, q[0])
    ensures CameFreely(g, p, owner, from, q[|q| - 1])
  {
    hide Tight, Owns, IsOrderly, CameFreely, DistinctLandings, MovesAt;
    if |q| > 1 {
      TightValid(g, p);
      hide Embeds, Program.Valid;
      var i, front := |q| - 2, q[..|q| - 1];
      WalkCame(g, p, owner, from, front);
      assert (q[i], q[i + 1]) in MoveEdges(g, p) && front[|front| - 1] == q[i];
      if (q[i], q[i + 1]) in p.intra {
        BranchCame(g, p, owner, from, q[i], q[i + 1]);
      } else {
        var k: nat :| k < |p.sites| && MovesAt(g, p, k, q[i], q[i + 1]);
        SiteCame(g, p, owner, from, k, q[i], q[i + 1]);
      }
    }
  }

  /** In an orderly program, flow that comes back to where it was returned from runs along a cycle of
      free edges. */
  lemma ComesBackFreely(g: Asg, p: Program, owner: nat -> Fn, u: nat, v: nat)
    requires Tight(g, p) && Owns(p, owner) && IsOrderly(g, p, owner) && DistinctLandings(p)
    requires g.HasEdge(u, v) && IsStray(g, p, u, v) && ComesBack(g, p, u, v)
    ensures !Acyclic(FreeEdges(g))
  {
    hide Tight, Owns, IsOrderly, CameFreely, DistinctLandings, Acyclic, FreeEdges, MoveEdges, Embeds, Program.Valid, IsStray, IsDropped;
    TightValid(g, p);
    EdgeKept(g, u, v);
    var i := StraySite(g, p, u, v);
    ReachesSelf(FreeEdges(g), v);
    AtLanding(g, p, owner, v, i);
    var q :| WalkFromTo(MoveEdges(g, p), q, v, u);
    WalkCame(g, p, owner, v, q);
    CameReaches(g, p, owner, v, u);
    StrayIsFree(g, p, owner, i, u);
    ClosedWalk(FreeEdges(g), u, v);
  }

  lemma EdgeKept(g: Asg, u: nat, v: nat)
    requires g.Valid() && g.HasEdge(u, v)
    ensures u in g.nodes && v in g.nodes
  {}

  lemma FreeEdgeCycle(g: Asg, c: seq<nat>)
    requires IsCycle(FreeEdges(g), c)
    ensures IsFreeCycle(g, c)
  {
    hide IsFree;
    forall i | 0 <= i < |c| - 1 ensures IsFree(g, c[i], c[i + 1]) { assert (c[i], c[i + 1]) in FreeEdges(g); }
  }

  lemma CappedHasNoFreeCycle(g: Asg, p: Program, x: Point, cap: nat)
    requires Embeds(g, p) && Feasible(g, x) && Capped(g, cap)
    ensures Acyclic(FreeEdges(g))
  {
    hide Embeds, Feasible, IsFreeCycle;
    forall c ensures !IsCycle(FreeEdges(g), c) {
      if IsCycle(FreeEdges(g), c) {
        FreeEdgeCycle(g, c);
        FreeCycleIsWalk(g, p, c);
        FreeCycleUnbounds(g, p, x, c, cap + 1);
      }
    }
  }

  /** In an orderly program without open recursion among the kept calls, the counts have a common limit
      exactly when no cycle of unflagged branches, returns to dropped calls and unanswered calls exists. */
  lemma CountsCappedIff(g: Asg, p: Program, owner: nat -> Fn, x: Point)
    requires Tight(g, p) && Owns(p, owner) && DistinctLandings(p) && Feasible(g, x)
    requires Acyclic(OpenCalls(g, p, owner)) && IsOrderly(g, p, owner)
    ensures (exists cap :: Capped(g, cap)) <==> Acyclic(FreeEdges(g))
  {
    hide Tight, Owns, DistinctLandings, Feasible, IsOrderly, OpenCalls, Acyclic, FreeEdges, Capped, Embeds, Program.Valid;
    TightValid(g, p);
    if cap :| Capped(g, cap) { CappedHasNoFreeCycle(g, p, x, cap); }
    if Acyclic(FreeEdges(g)) {
      NoFreeCycleDrains(g, p, owner);
      CutIsCapped(g, p, owner);
    }
  }

  lemma NoFreeCycleDrains(g: Asg, p: Program, owner: nat -> Fn)
    requires Tight(g, p) && Owns(p, owner) && DistinctLandings(p) && IsOrderly(g, p, owner) && Acyclic(FreeEdges(g))
    ensures p.Valid() && NothingComesBack(g, p) && Acyclic(OpenBranches(g, p))
  {
    hide Tight, Owns, DistinctLandings, IsOrderly, FreeEdges, Embeds, Program.Valid, IsStray, ComesBack, OpenBranches;
    TightValid(g, p);
    forall u: nat, v: nat | g.HasEdge(u, v) && IsStray(g, p, u, v) ensures !ComesBack(g, p, u, v) {
      if ComesBack(g, p, u, v) { ComesBackFreely(g, p, owner, u, v); }
    }
    forall c ensures !IsCycle(OpenBranches(g, p), c) {
      if IsCycle(OpenBranches(g, p), c) {
        OpenBranchCycleIsFree(g, p, c);
        FreeCycleInEdges(g, c);
      }
    }
  }

  lemma FreeCycleInEdges(g: Asg, c: seq<nat>)
    requires IsFreeCycle(g, c)
    ensures IsCycle(FreeEdges(g), c)
  {
    hide IsFree;
    forall i | 0 <= i < |c| - 1 ensures (c[i], c[i + 1]) in FreeEdges(g) { assert IsFree(g, c[i], c[i + 1]); }
  }
}
