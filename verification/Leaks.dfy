/** Calls that no row balances, and returns to calls the graph dropped, move flow between functions
    for good. A return to a dropped call carries at most one unit unless such moves lead back to it. */
module Leaks {
  import opened AbstractStateGraph
  import opened WcetModel
  import opened Runs
  import opened IpetSoundness
  import opened FiniteWcet
  import opened EdgeSums
  import opened Walks

  ghost predicate IsReturnedTo(g: Asg, p: Program, i: nat)
    requires p.Valid() && i < |p.sites|
  {
    p.sites[i].hasLanding && KeptReturns(g, p, p.sites[i].callee) != {}
  }

  /** A kept call from which nothing returns: it has no landing, or its callee no kept return block. */
  ghost predicate IsLost(g: Asg, p: Program, i: nat)
    requires p.Valid() && i < |p.sites|
  {
    p.sites[i].call in g.nodes && !IsReturnedTo(g, p, i)
  }

  /** A kept call edge from which nothing returns. */
  ghost predicate IsLostCall(g: Asg, p: Program, u: nat, v: nat)
    requires p.Valid()
  {
    exists i: nat :: CallsAlong(p, i, u, v) && IsLost(g, p, i)
  }

  /** A dropped call that is still returned to. */
  ghost predicate IsDropped(g: Asg, p: Program, i: nat)
    requires p.Valid() && i < |p.sites|
  {
    p.sites[i].call !in g.nodes && IsReturnedTo(g, p, i)
  }

  /** A kept call that is returned from, so it has a row. */
  ghost predicate IsAnswered(g: Asg, p: Program, i: nat)
    requires p.Valid() && i < |p.sites|
  {
    p.sites[i].call in g.nodes && IsReturnedTo(g, p, i)
  }

  // ---------------------------------------------------------------- the edges of a site

  ghost function CallEdges(g: Asg, p: Program, i: nat): Edges
    requires p.Valid() && i < |p.sites|
  {
    if p.sites[i].call in g.nodes then {p.CallEdge(i)} else {}
  }

  ghost function ReturnEdgesTo(g: Asg, p: Program, i: nat): Edges
    requires p.Valid() && i < |p.sites|
  {
    if p.sites[i].hasLanding then set r | r in KeptReturns(g, p, p.sites[i].callee) :: (r, p.sites[i].landing) else {}
  }

  ghost function SiteEdgesOf(g: Asg, p: Program, i: nat): Edges
    requires p.Valid() && i < |p.sites|
  {
    CallEdges(g, p, i) + ReturnEdgesTo(g, p, i)
  }

  /** Every edge that is no branch belongs to a site. */
  lemma OfSomeSite(g: Asg, p: Program, u: nat, v: nat) returns (i: nat)
    requires Tight(g, p) && g.HasEdge(u, v) && (u, v) !in p.intra
    ensures i < |p.sites| && (u, v) in SiteEdgesOf(g, p, i)
  {
    assert g.Valid() && u in g.nodes;
    if IsCallEdge(p, u, v) {
      i :| CallsAlong(p, i, u, v);
    } else {
      i :| ReturnsAlong(p, i, u, v);
      assert u in KeptReturns(g, p, p.sites[i].callee);
    }
  }

  /** And to no other, as landings are distinct. */
  lemma OfOneSite(g: Asg, p: Program, i: nat, j: nat)
    requires p.Valid() && DistinctLandings(p) && i < |p.sites| && j < |p.sites| && i != j
    ensures SiteEdgesOf(g, p, i) !! SiteEdgesOf(g, p, j)
  {
    NothingShared(p, i, j);
    hide CallEdges, ReturnEdgesTo, Program.Valid, DistinctLandings, Shares;
    forall e | e in SiteEdgesOf(g, p, i) ensures e !in SiteEdgesOf(g, p, j) {
      assert e == (e.0, e.1);
      if e in CallEdges(g, p, i) { CallApart(g, p, i, j, e.0, e.1); } else { ReturnApart(g, p, i, j, e.0, e.1); }
    }
  }

  lemma NothingShared(p: Program, i: nat, j: nat)
    requires DistinctLandings(p) && i < |p.sites| && j < |p.sites| && i != j
    ensures !Shares(p, i, j)
  {
    assert !Shares(p, if i < j then i else j, if i < j then j else i);
  }

  lemma CallApart(g: Asg, p: Program, i: nat, j: nat, u: nat, v: nat)
    requires p.Valid() && i < |p.sites| && j < |p.sites| && i != j && (u, v) in CallEdges(g, p, i)
    ensures (u, v) !in SiteEdgesOf(g, p, j)
  {
    assert p.sites[i].call != p.sites[j].call;
    assert (p.sites[j].call, p.entryOf[p.sites[i].callee]) !in p.intra;
    if p.sites[j].hasLanding { assert p.sites[j].landing != v; }
  }

  lemma ReturnApart(g: Asg, p: Program, i: nat, j: nat, u: nat, v: nat)
    requires p.Valid() && i < |p.sites| && j < |p.sites| && i != j && !Shares(p, i, j) && (u, v) in ReturnEdgesTo(g, p, i)
    ensures (u, v) !in SiteEdgesOf(g, p, j)
  {
    assert (p.sites[i].call, p.entryOf[p.sites[j].callee]) !in p.intra;
    assert p.sites[i].landing != p.entryOf[p.sites[j].callee];
  }

  /** By its row, what an answered site calls is what is returned to it. */
  lemma SiteBalance(g: Asg, p: Program, x: Point, i: nat)
    requires Tight(g, p) && Feasible(g, x) && i < |p.sites| && IsAnswered(g, p, i)
    ensures EdgeSum(x, CallEdges(g, p, i)) == EdgeSum(x, ReturnEdgesTo(g, p, i))
  {
    var s := p.sites[i];
    var k :| 0 <= k < |g.callSites| && SiteIs(p, g.callSites[k], i);
    var cs := g.callSites[k];
    var list := MatchedReturns(g, p, cs, i);
    assert MatchingHolds(g, x, cs);
    InSumIsEdgeSum(x, list, s.landing);
    assert Into(list, s.landing) == ReturnEdgesTo(g, p, i);
    SumOfOne(x, p.CallEdge(i));
  }

  // ---------------------------------------------------------------- cuts

  /** A set of nodes into which no branch, no unanswered call and no return to a dropped call leads, and
      which holds the entry and the returns of an answered callee together. */
  ghost predicate IsCut(g: Asg, p: Program, a: set<nat>)
    requires p.Valid()
  {
    && a <= g.nodes.Keys
    && (forall u: nat, v: nat :: g.HasEdge(u, v) && (u, v) in p.intra && v in a ==> u in a)
    && (forall i: nat :: i < |p.sites| ==> SiteRespects(g, p, a, i))
  }

  ghost predicate SiteRespects(g: Asg, p: Program, a: set<nat>, i: nat)
    requires p.Valid() && i < |p.sites|
  {
    var s := p.sites[i];
    && (IsLost(g, p, i) && p.entryOf[s.callee] in a ==> s.call in a)
    && (IsDropped(g, p, i) && s.landing in a ==> forall r :: r in KeptReturns(g, p, s.callee) ==> r in a)
    && (IsAnswered(g, p, i) ==> forall r :: r in KeptReturns(g, p, s.callee) ==> (r in a <==> p.entryOf[s.callee] in a))
  }

  ghost function EnteringOf(g: Asg, p: Program, a: set<nat>, i: nat): Edges
    requires p.Valid() && i < |p.sites|
  {
    set e | e in SiteEdgesOf(g, p, i) && e.0 !in a && e.1 in a
  }

  ghost function LeavingOf(g: Asg, p: Program, a: set<nat>, i: nat): Edges
    requires p.Valid() && i < |p.sites|
  {
    set e | e in SiteEdgesOf(g, p, i) && e.0 in a && e.1 !in a
  }

  /** An answered call crosses a cut on the way there and on the way back, or only outwards. */
  lemma AnsweredCrosses(g: Asg, p: Program, a: set<nat>, i: nat)
    requires Embeds(g, p) && IsCut(g, p, a) && i < |p.sites| && IsAnswered(g, p, i)
    ensures || EnteringOf(g, p, a, i) == {}
            || (EnteringOf(g, p, a, i) == CallEdges(g, p, i) && LeavingOf(g, p, a, i) == ReturnEdgesTo(g, p, i))
            || (EnteringOf(g, p, a, i) == ReturnEdgesTo(g, p, i) && LeavingOf(g, p, a, i) == CallEdges(g, p, i))
  {
    var s := p.sites[i];
    assert SiteRespects(g, p, a, i);
    assert (s.call, s.landing) in p.intra && g.HasEdge(s.call, s.landing);
    hide Embeds, Program.Valid, IsCut;
    var f := p.entryOf[s.callee];
    forall u: nat, v: nat | (u, v) in SiteEdgesOf(g, p, i)
      ensures (u, v) in CallEdges(g, p, i) ==> u == s.call && v == f
      ensures (u, v) in ReturnEdgesTo(g, p, i) ==> (u in a <==> f in a) && v == s.landing
    {}
    if s.call in a && s.landing in a && f !in a {
      assert EnteringOf(g, p, a, i) == ReturnEdgesTo(g, p, i) && LeavingOf(g, p, a, i) == CallEdges(g, p, i);
    } else if s.call !in a && f in a {
      assert EnteringOf(g, p, a, i) == CallEdges(g, p, i) && LeavingOf(g, p, a, i) == ReturnEdgesTo(g, p, i);
    } else {
      assert EnteringOf(g, p, a, i) == {};
    }
  }

  /** The other sites never cross a cut inwards. */
  lemma LeaksRunOut(g: Asg, p: Program, a: set<nat>, i: nat)
    requires p.Valid() && IsCut(g, p, a) && i < |p.sites| && !IsAnswered(g, p, i)
    ensures EnteringOf(g, p, a, i) == {}
  {
    assert SiteRespects(g, p, a, i);
  }

  lemma SiteEdgesInGraph(g: Asg, p: Program, i: nat)
    requires Embeds(g, p) && i < |p.sites|
    ensures InGraph(g, CallEdges(g, p, i)) && InGraph(g, ReturnEdgesTo(g, p, i)) && InGraph(g, SiteEdgesOf(g, p, i))
  {}

  lemma LeavingNonNegative(g: Asg, p: Program, x: Point, a: set<nat>, i: nat)
    requires Tight(g, p) && Feasible(g, x) && i < |p.sites|
    ensures InGraph(g, LeavingOf(g, p, a, i)) && EdgeSum(x, LeavingOf(g, p, a, i)) >= 0
  {
    SiteEdgesInGraph(g, p, i);
    hide Tight, SiteEdgesOf;
    SumNonNegative(g, x, LeavingOf(g, p, a, i));
  }

  lemma NoSum(x: Point)
    ensures EdgeSum(x, {}) == 0
  {}

  /** No site brings more into a cut than it takes out. */
  lemma SiteCrosses(g: Asg, p: Program, x: Point, a: set<nat>, i: nat)
    requires Tight(g, p) && Feasible(g, x) && IsCut(g, p, a) && i < |p.sites|
    ensures EdgeSum(x, EnteringOf(g, p, a, i)) <= EdgeSum(x, LeavingOf(g, p, a, i))
  {
    hide Tight, Feasible, IsCut, Embeds, EnteringOf, LeavingOf, CallEdges, ReturnEdgesTo, Program.Valid;
    TightValid(g, p);
    NoSum(x);
    LeavingNonNegative(g, p, x, a, i);
    if IsAnswered(g, p, i) {
      AnsweredCrosses(g, p, a, i);
      SiteBalance(g, p, x, i);
    } else {
      LeaksRunOut(g, p, a, i);
    }
  }

  // ---------------------------------------------------------------- all sites together

  ghost function EnteringOfFirst(g: Asg, p: Program, a: set<nat>, n: nat): Edges
    requires p.Valid() && n <= |p.sites|
  {
    if n == 0 then {} else EnteringOfFirst(g, p, a, n - 1) + EnteringOf(g, p, a, n - 1)
  }

  ghost function LeavingOfFirst(g: Asg, p: Program, a: set<nat>, n: nat): Edges
    requires p.Valid() && n <= |p.sites|
  {
    if n == 0 then {} else LeavingOfFirst(g, p, a, n - 1) + LeavingOf(g, p, a, n - 1)
  }

  lemma {:induction false} OfFirst(g: Asg, p: Program, a: set<nat>, n: nat)
    requires p.Valid() && n <= |p.sites|
    ensures forall e :: e in EnteringOfFirst(g, p, a, n) <==> exists i: nat :: i < n && e in EnteringOf(g, p, a, i)
    ensures forall e :: e in LeavingOfFirst(g, p, a, n) <==> exists i: nat :: i < n && e in LeavingOf(g, p, a, i)
  {
    hide EnteringOf, LeavingOf;
    if n > 0 { OfFirst(g, p, a, n - 1); }
  }

  lemma NextSiteApart(g: Asg, p: Program, a: set<nat>, n: nat)
    requires p.Valid() && DistinctLandings(p) && n < |p.sites|
    ensures EnteringOfFirst(g, p, a, n) !! EnteringOf(g, p, a, n) && LeavingOfFirst(g, p, a, n) !! LeavingOf(g, p, a, n)
  {
    hide SiteEdgesOf, DistinctLandings;
    OfFirst(g, p, a, n);
    forall i: nat | i < n ensures SiteEdgesOf(g, p, i) !! SiteEdgesOf(g, p, n) { OfOneSite(g, p, i, n); }
  }

  /** What leaves beyond what enters is at least what one dropped call is returned from inside. */
  lemma {:induction false} SitesCross(g: Asg, p: Program, x: Point, a: set<nat>, n: nat, i: nat, r: nat)
    requires Tight(g, p) && Feasible(g, x) && DistinctLandings(p) && IsCut(g, p, a) && n <= |p.sites| && i < |p.sites|
    requires IsDropped(g, p, i) && (r, p.sites[i].landing) in LeavingOf(g, p, a, i)
    ensures EdgeSum(x, EnteringOfFirst(g, p, a, n)) + (if i < n then x(EdgeVar(r, p.sites[i].landing)) else 0)
            <= EdgeSum(x, LeavingOfFirst(g, p, a, n))
    decreases n
  {
    hide Tight, Feasible, IsCut, DistinctLandings, EnteringOf, LeavingOf, IsDropped, IsReturnedTo, EdgeSum, Program.Valid, Embeds, Asg.Valid;
    TightValid(g, p);
    if n > 0 {
      SitesCross(g, p, x, a, n - 1, i, r);
      NextSiteApart(g, p, a, n - 1);
      SumOfUnion(x, EnteringOfFirst(g, p, a, n - 1), EnteringOf(g, p, a, n - 1));
      SumOfUnion(x, LeavingOfFirst(g, p, a, n - 1), LeavingOf(g, p, a, n - 1));
      if n - 1 == i {
        DroppedCrosses(g, p, x, a, i, r);
      } else {
        SiteCrosses(g, p, x, a, n - 1);
      }
    } else {
      NoSum(x);
    }
  }

  /** Nothing of a dropped call enters, and the returns to it leave. */
  lemma DroppedCrosses(g: Asg, p: Program, x: Point, a: set<nat>, i: nat, r: nat)
    requires Tight(g, p) && Feasible(g, x) && IsCut(g, p, a) && i < |p.sites|
    requires IsDropped(g, p, i) && (r, p.sites[i].landing) in LeavingOf(g, p, a, i)
    ensures EdgeSum(x, EnteringOf(g, p, a, i)) + x(EdgeVar(r, p.sites[i].landing)) <= EdgeSum(x, LeavingOf(g, p, a, i))
  {
    assert NonNegative(g, x) && !IsAnswered(g, p, i);
    hide Tight, Feasible, IsCut, EnteringOf, LeavingOf, Program.Valid, Embeds;
    TightValid(g, p);
    NoSum(x);
    LeaksRunOut(g, p, a, i);
    LeavingNonNegative(g, p, x, a, i);
    SumOfOne(x, (r, p.sites[i].landing));
    SumMonotone(g, x, {(r, p.sites[i].landing)}, LeavingOf(g, p, a, i));
  }

  /** No branch enters a cut, so only sites do. */
  lemma BorderIsOfSites(g: Asg, p: Program, a: set<nat>)
    requires Tight(g, p) && IsCut(g, p, a)
    ensures Entering(g, a) <= EnteringOfFirst(g, p, a, |p.sites|)
    ensures LeavingOfFirst(g, p, a, |p.sites|) <= Leaving(g, a)
  {
    hide SiteEdgesOf, Tight, EnteringOfFirst, LeavingOfFirst, Program.Valid, IsCut, EnteringOf, LeavingOf, Entering, Leaving;
    TightValid(g, p);
    OfFirst(g, p, a, |p.sites|);
    forall e | e in Entering(g, a) ensures e in EnteringOfFirst(g, p, a, |p.sites|) {
      assert e == (e.0, e.1);
      EntersWithSite(g, p, a, e.0, e.1);
    }
    forall e | e in LeavingOfFirst(g, p, a, |p.sites|) ensures e in Leaving(g, a) {
      assert e == (e.0, e.1);
      var i: nat :| i < |p.sites| && e in LeavingOf(g, p, a, i);
      LeavesWithSite(g, p, a, i, e.0, e.1);
    }
  }

  lemma EntersWithSite(g: Asg, p: Program, a: set<nat>, u: nat, v: nat)
    requires Tight(g, p) && IsCut(g, p, a) && (u, v) in Entering(g, a)
    ensures exists i: nat :: i < |p.sites| && (u, v) in EnteringOf(g, p, a, i)
  {
    hide SiteEdgesOf, Tight, SiteRespects;
    TightValid(g, p);
    assert g.HasEdge(u, v);
    var i := OfSomeSite(g, p, u, v);
    assert (u, v) in EnteringOf(g, p, a, i);
  }

  lemma LeavesWithSite(g: Asg, p: Program, a: set<nat>, i: nat, u: nat, v: nat)
    requires Embeds(g, p) && i < |p.sites| && (u, v) in LeavingOf(g, p, a, i)
    ensures (u, v) in Leaving(g, a)
  {
    SiteEdgesInGraph(g, p, i);
    assert g.HasEdge(u, v);
  }

  /** A return to a dropped call that leaves some cut carries at most one unit. */
  lemma LeavesCutAtMostOnce(g: Asg, p: Program, x: Point, a: set<nat>, i: nat, r: nat)
    requires Tight(g, p) && Feasible(g, x) && DistinctLandings(p) && IsCut(g, p, a) && i < |p.sites| && IsDropped(g, p, i)
    requires r in a && r in KeptReturns(g, p, p.sites[i].callee) && p.sites[i].landing !in a
    ensures x(EdgeVar(r, p.sites[i].landing)) <= 1
  {
    assert NonNegative(g, x) && a <= g.nodes.Keys;
    assert (r, p.sites[i].landing) in LeavingOf(g, p, a, i);
    hide Tight, Feasible, IsCut, DistinctLandings, IsDropped, Program.Valid, Embeds, EnteringOf, LeavingOf, InEdges, OutEdges;
    BorderBalance(g, p, x, a);
    BorderIsOfSites(g, p, a);
    SitesCross(g, p, x, a, |p.sites|, i, r);
    EnteringSum(g, p, x, a);
    LeavingSum(g, p, x, a);
  }

  lemma EnteringSum(g: Asg, p: Program, x: Point, a: set<nat>)
    requires Tight(g, p) && Feasible(g, x) && Entering(g, a) <= EnteringOfFirst(g, p, a, |p.sites|)
    ensures EdgeSum(x, Entering(g, a)) <= EdgeSum(x, EnteringOfFirst(g, p, a, |p.sites|))
  {
    assert NonNegative(g, x);
    hide Feasible, Entering, EnteringOfFirst, Tight, SiteEdgesOf;
    TightValid(g, p);
    OfFirst(g, p, a, |p.sites|);
    forall i: nat | i < |p.sites| ensures InGraph(g, SiteEdgesOf(g, p, i)) { SiteEdgesInGraph(g, p, i); }
    SumMonotone(g, x, Entering(g, a), EnteringOfFirst(g, p, a, |p.sites|));
  }

  lemma LeavingSum(g: Asg, p: Program, x: Point, a: set<nat>)
    requires Tight(g, p) && Feasible(g, x) && LeavingOfFirst(g, p, a, |p.sites|) <= Leaving(g, a)
    ensures EdgeSum(x, LeavingOfFirst(g, p, a, |p.sites|)) <= EdgeSum(x, Leaving(g, a))
  {
    assert NonNegative(g, x) && InGraph(g, Leaving(g, a));
    hide Feasible, Tight, Leaving, LeavingOfFirst;
    SumMonotone(g, x, LeavingOfFirst(g, p, a, |p.sites|), Leaving(g, a));
  }

  // ---------------------------------------------------------------- where unbalanced flow can lead

  /** How flow that no row balances can move: along branches, unanswered calls and returns to dropped
      calls, and, since rows balance an answered callee only as a whole, between its entry and its returns. */
  ghost predicate Moves(g: Asg, p: Program, u: nat, v: nat)
    requires p.Valid()
  {
    || (g.HasEdge(u, v) && (u, v) in p.intra)
    || exists i: nat :: i < |p.sites| && MovesAt(g, p, i, u, v)
  }

  ghost predicate MovesAt(g: Asg, p: Program, i: nat, u: nat, v: nat)
    requires p.Valid() && i < |p.sites|
  {
    var s := p.sites[i];
    || (IsLost(g, p, i) && (u, v) == p.CallEdge(i))
    || (IsDropped(g, p, i) && u in KeptReturns(g, p, s.callee) && v == s.landing)
    || (IsAnswered(g, p, i) && u == p.entryOf[s.callee] && v in KeptReturns(g, p, s.callee))
    || (IsAnswered(g, p, i) && u in KeptReturns(g, p, s.callee) && v == p.entryOf[s.callee])
  }

  ghost function MoveEdges(g: Asg, p: Program): (e: Edges)
    requires p.Valid()
    ensures forall u: nat, v: nat :: (u, v) in e <==> u in g.nodes && v in g.nodes && Moves(g, p, u, v)
  {
    set u, v | u in g.nodes && v in g.nodes && Moves(g, p, u, v) :: (u, v)
  }

  /** The nodes from which flow can move to `r`. */
  ghost function Behind(g: Asg, p: Program, r: nat): set<nat>
    requires p.Valid()
  {
    set u | u in g.nodes && Reaches(MoveEdges(g, p), u, r)
  }

  lemma MoveBehind(g: Asg, p: Program, r: nat, u: nat, v: nat)
    requires p.Valid() && u in g.nodes && Moves(g, p, u, v) && v in Behind(g, p, r)
    ensures u in Behind(g, p, r)
  {
    var e := MoveEdges(g, p);
    ReachesSelf(e, u);
    ReachesStep(e, u, u, v);
    ReachesTransitive(e, u, v, r);
  }

  lemma BehindIsCut(g: Asg, p: Program, r: nat)
    requires Embeds(g, p)
    ensures IsCut(g, p, Behind(g, p, r))
  {
    hide Behind, Embeds, Reaches, Program.Valid;
    EmbedsValid(g, p);
    var a := Behind(g, p, r);
    BehindKept(g, p, r);
    forall u: nat, v: nat | g.HasEdge(u, v) && (u, v) in p.intra && v in a ensures u in a { MoveBehind(g, p, r, u, v); }
    forall i: nat | i < |p.sites| ensures SiteRespects(g, p, a, i) { SiteBehind(g, p, r, i); }
  }

  lemma BehindKept(g: Asg, p: Program, r: nat)
    requires p.Valid()
    ensures Behind(g, p, r) <= g.nodes.Keys
  {}

  lemma SiteBehind(g: Asg, p: Program, r: nat, i: nat)
    requires Embeds(g, p) && i < |p.sites|
    ensures SiteRespects(g, p, Behind(g, p, r), i)
  {
    EmbedsValid(g, p);
    var a, s := Behind(g, p, r), p.sites[i];
    var f := p.entryOf[s.callee];
    assert s.call in g.nodes ==> g.HasEdge(s.call, f);
    hide Behind, Embeds, Reaches, Program.Valid;
    if IsLost(g, p, i) && f in a {
      assert MovesAt(g, p, i, s.call, f);
      MoveBehind(g, p, r, s.call, f);
    }
    forall q | q in KeptReturns(g, p, s.callee) && IsDropped(g, p, i) && s.landing in a ensures q in a {
      assert MovesAt(g, p, i, q, s.landing);
      MoveBehind(g, p, r, q, s.landing);
    }
    forall q | q in KeptReturns(g, p, s.callee) && IsAnswered(g, p, i) ensures q in a <==> f in a {
      assert MovesAt(g, p, i, q, f) && MovesAt(g, p, i, f, q);
      if f in a { MoveBehind(g, p, r, q, f); }
      if q in a { MoveBehind(g, p, r, f, q); }
    }
  }

  lemma EmbedsValid(g: Asg, p: Program)
    requires Embeds(g, p)
    ensures p.Valid() && g.Valid()
  {}

  /** From the landing of a return to dropped calls, flow can move back to where it returned from. */
  ghost predicate ComesBack(g: Asg, p: Program, u: nat, v: nat)
    requires p.Valid()
  {
    Reaches(MoveEdges(g, p), v, u)
  }

  /** The dropped call a stray return goes back to. */
  lemma StraySite(g: Asg, p: Program, u: nat, v: nat) returns (i: nat)
    requires Embeds(g, p) && g.HasEdge(u, v) && IsStray(g, p, u, v)
    ensures i < |p.sites| && IsDropped(g, p, i) && u in KeptReturns(g, p, p.sites[i].callee) && v == p.sites[i].landing
  {
    i :| ReturnsAlong(p, i, u, v);
    assert !AnswersKept(g, p, i, u, v);
    assert u in g.nodes && u in KeptReturns(g, p, p.sites[i].callee);
  }

  /** A return to dropped calls from whose landing flow cannot come back carries at most one unit. */
  lemma StrayAtMostOne(g: Asg, p: Program, x: Point, u: nat, v: nat)
    requires Tight(g, p) && Feasible(g, x) && DistinctLandings(p)
    requires g.HasEdge(u, v) && IsStray(g, p, u, v) && !ComesBack(g, p, u, v)
    ensures x(EdgeVar(u, v)) <= 1
  {
    hide Feasible, Tight, Reaches, Embeds, Program.Valid, IsDropped;
    TightValid(g, p);
    var i := StraySite(g, p, u, v);
    BehindIsCut(g, p, u);
    ReachesSelf(MoveEdges(g, p), u);
    LeavesCutAtMostOnce(g, p, x, Behind(g, p, u), i, u);
  }

  /** Every unflagged return to dropped calls either rises in rank or does not come back. */
  ghost predicate Drains(g: Asg, p: Program, rank: nat -> nat)
    requires p.Valid()
  {
    forall u: nat, v: nat :: g.HasEdge(u, v) && !g.IsBackEdge(u, v) && IsStray(g, p, u, v) ==>
      rank(u) < rank(v) || (rank(v) >= 1 && !ComesBack(g, p, u, v))
  }

  ghost predicate NothingComesBack(g: Asg, p: Program)
    requires p.Valid()
  {
    forall u: nat, v: nat :: g.HasEdge(u, v) && !g.IsBackEdge(u, v) && IsStray(g, p, u, v) ==> !ComesBack(g, p, u, v)
  }

  lemma DrainsTrickle(g: Asg, p: Program, rank: nat -> nat)
    requires Tight(g, p) && DistinctLandings(p) && Drains(g, p, rank)
    ensures AlwaysTrickles(g, p, rank)
  {
    hide Tight, Feasible, DistinctLandings, IsStray, ComesBack;
    forall x: Point | Feasible(g, x) ensures Trickles(g, p, x, rank) {
      forall u: nat, v: nat | g.HasEdge(u, v) && !g.IsBackEdge(u, v) && IsStray(g, p, u, v) && !(rank(u) < rank(v))
        ensures rank(v) >= 1 && x(EdgeVar(u, v)) <= 1
      {
        StrayAtMostOne(g, p, x, u, v);
      }
    }
  }
}
