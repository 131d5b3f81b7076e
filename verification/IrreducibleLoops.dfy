/** Exactly when the loop-bound row of a header is sound: when its loop is entered through it only. */
module IrreducibleLoops {
  import opened ReplacementPolicy
  import opened AbstractStateGraph
  import opened WcetModel
  import opened Runs
  import opened IpetSoundness
  import opened Walks
  import B = BackEdges

  /** The row holds when the flagged back edges are at most `bound - 1` per other entry. */
  lemma RowArithmetic(g: Asg, x: Point, h: nat)
    requires IsBoundedHeader(g, h)
    ensures var back := BackSum(g, x, PredList(g, h), h);
            LoopBoundHolds(g, x, h) <==> back <= (g.nodes[h].upperLoopBound - 1) * (x(NodeVar(h)) - back)
  {
    var b, n, back := g.nodes[h].upperLoopBound, x(NodeVar(h)), BackSum(g, x, PredList(g, h), h);
    assert (b - 1) * (n - back) == (b - 1) * n - (b - 1) * back;
    assert b * back == (b - 1) * back + back;
  }

  // ---------------------------------------------------------------- runs that go round often enough, and no more

  /** No bound restricts these runs; what a loop may do is said by `IsPaced` instead. */
  function Unlimited(): Bounds { Bounds(map[], {}) }

  /** The flagged entries into `h` since its last other entry, or since the start. */
  ghost function Since(g: Asg, p: Program, steps: seq<Step>, h: nat): nat
    requires p.Valid() && IsRun(p, Unlimited(), steps)
    decreases |steps|
  {
    if steps == [] then 0
    else
      var e := LastEdge(p, Unlimited(), steps);
      if e.1 != h then Since(g, p, steps[..|steps| - 1], h)
      else if g.IsBackEdge(e.0, h) then Since(g, p, steps[..|steps| - 1], h) + 1
      else 0
  }

  /** The loop of `h` never goes round more than `bound - 1` times between two entries. */
  ghost predicate IsPaced(g: Asg, p: Program, steps: seq<Step>, h: nat)
    requires p.Valid() && IsRun(p, Unlimited(), steps) && h in g.nodes
    decreases |steps|
  {
    && Since(g, p, steps, h) + 1 <= g.nodes[h].upperLoopBound
    && (steps != [] ==> IsPaced(g, p, steps[..|steps| - 1], h))
  }

  /** All flagged entries into `h`. */
  ghost function FlaggedEntries(g: Asg, p: Program, steps: seq<Step>, h: nat): nat
    requires p.Valid() && IsRun(p, Unlimited(), steps)
    decreases |steps|
  {
    if steps == [] then 0
    else
      var e := LastEdge(p, Unlimited(), steps);
      FlaggedEntries(g, p, steps[..|steps| - 1], h) + One(e.1 == h && g.IsBackEdge(e.0, h))
  }

  lemma {:induction false} BackSumIsFlagged(g: Asg, p: Program, steps: seq<Step>, h: nat)
    requires Embeds(g, p) && IsRun(p, Unlimited(), steps)
    ensures BackSum(g, Counts(p, Unlimited(), steps), PredList(g, h), h) == FlaggedEntries(g, p, steps, h)
  {
    AscendingDistinct(g.Predecessors(h));
    if steps == [] {
      BackSumStart(g, p, Unlimited(), PredList(g, h), h);
    } else {
      BackSumIsFlagged(g, p, steps[..|steps| - 1], h);
      BackSumStep(g, p, Unlimited(), steps, PredList(g, h), h);
      LastEdgeExists(g, p, Unlimited(), steps);
    }
  }

  lemma {:induction false} FlaggedBelowVisits(g: Asg, p: Program, steps: seq<Step>, h: nat)
    requires p.Valid() && IsRun(p, Unlimited(), steps)
    ensures FlaggedEntries(g, p, steps, h) <= NodeCount(p, Unlimited(), steps, h)
  {
    if steps != [] { FlaggedBelowVisits(g, p, steps[..|steps| - 1], h); }
  }

  // ---------------------------------------------------------------- the condition on the graph

  /** Branches, and calls into the entries of callees. */
  ghost function ForwardEdges(p: Program): (e: Edges)
    requires p.Valid()
    ensures forall u: nat, v: nat :: (u, v) in e <==> (u, v) in p.intra || exists i: nat :: i < |p.sites| && (u, v) == p.CallEdge(i)
  {
    p.intra + set i | 0 <= i < |p.sites| :: p.CallEdge(i)
  }

  /** The header dominates the source of each of its flagged edges. */
  ghost predicate HeaderFirst(g: Asg, p: Program, h: nat)
    requires p.Valid()
  {
    forall u: nat, q :: g.IsBackEdge(u, h) && WalkFromTo(ForwardEdges(p), q, p.entry, u) ==> h in q
  }

  ghost predicate Avoids(p: Program, h: nat, v: nat)
    requires p.Valid()
  {
    exists q :: WalkFromTo(ForwardEdges(p), q, p.entry, v) && h !in q
  }

  lemma AvoidsStep(p: Program, h: nat, u: nat, v: nat)
    requires p.Valid() && Avoids(p, h, u) && (u, v) in ForwardEdges(p) && v != h
    ensures Avoids(p, h, v)
  {
    var q :| WalkFromTo(ForwardEdges(p), q, p.entry, u) && h !in q;
    assert WalkFromTo(ForwardEdges(p), q + [v], p.entry, v);
  }

  ghost predicate FramesAvoid(p: Program, h: nat, stack: seq<Frame>)
    requires p.Valid()
  {
    forall k :: 1 <= k < |stack| ==>
      stack[k].site.Some? && stack[k].site.value < |p.sites| && Avoids(p, h, p.sites[stack[k].site.value].call)
  }

  /** Before its first visit of `h` a run stays where walks avoiding `h` lead, and so do the calls it
      will return to. */
  lemma {:induction false} BeforeFirstVisit(p: Program, steps: seq<Step>, h: nat)
    requires p.Valid() && IsRun(p, Unlimited(), steps) && NodeCount(p, Unlimited(), steps, h) == 0
    ensures Avoids(p, h, Final(p, Unlimited(), steps).node) && FramesAvoid(p, h, Final(p, Unlimited(), steps).stack)
  {
    hide Avoids, ForwardEdges, Program.Valid;
    if steps == [] {
      StartAvoids(p, h);
    } else {
      var front := steps[..|steps| - 1];
      BeforeFirstVisit(p, front, h);
      StepAvoids(p, Final(p, Unlimited(), front), steps[|steps| - 1], h);
    }
  }

  lemma StartAvoids(p: Program, h: nat)
    requires p.Valid() && p.entry != h
    ensures Avoids(p, h, p.entry)
  {
    assert WalkFromTo(ForwardEdges(p), [p.entry], p.entry, p.entry);
  }

  lemma StepAvoids(p: Program, c: Config, s: Step, h: nat)
    requires p.Valid() && Enabled(p, Unlimited(), c, s) && Avoids(p, h, c.node) && FramesAvoid(p, h, c.stack)
    requires EdgeOf(p, Unlimited(), c, s).1 != h
    ensures Avoids(p, h, Next(p, Unlimited(), c, s).node) && FramesAvoid(p, h, Next(p, Unlimited(), c, s).stack)
  {
    var e := EdgeOf(p, Unlimited(), c, s);
    match s {
      case Branch(u, v) =>
        assert (u, v) in ForwardEdges(p);
        AvoidsStep(p, h, u, v);
      case Call(i) =>
        assert p.CallEdge(i) in ForwardEdges(p);
        AvoidsStep(p, h, p.sites[i].call, p.CallEdge(i).1);
      case Return(_) =>
        var site := p.sites[c.stack[|c.stack| - 1].site.value];
        assert (site.call, site.landing) in p.intra && (site.call, site.landing) in ForwardEdges(p);
        AvoidsStep(p, h, site.call, site.landing);
    }
  }

  // ---------------------------------------------------------------- enough

  lemma PaceArithmetic(b: int, other: int)
    ensures b * (other + 1) == b * other + b
  {}

  /** The flagged entries seen so far, given how long the current round may still go on. */
  ghost predicate KeepsPace(g: Asg, p: Program, steps: seq<Step>, h: nat)
    requires p.Valid() && IsRun(p, Unlimited(), steps) && h in g.nodes
  {
    var b, back := g.nodes[h].upperLoopBound - 1, FlaggedEntries(g, p, steps, h);
    var other := NodeCount(p, Unlimited(), steps, h) - back;
    if other == 0 then back == 0 else back + b <= b * other + Since(g, p, steps, h)
  }

  lemma {:induction false} PacedKeepsPace(g: Asg, p: Program, steps: seq<Step>, h: nat)
    requires Embeds(g, p) && IsBoundedHeader(g, h) && HeaderFirst(g, p, h)
    requires forall u: nat :: g.IsBackEdge(u, h) ==> (u, h) in ForwardEdges(p)
    requires IsRun(p, Unlimited(), steps) && IsPaced(g, p, steps, h)
    ensures KeepsPace(g, p, steps, h)
  {
    hide HeaderFirst, ForwardEdges, Program.Valid, Embeds, NodeCount, FlaggedEntries, Since, IsRun, Final;
    EmbedsHeader(g, p, h);
    PacedFront(g, p, steps, h);
    if steps == [] {
      NothingCounted(g, p, h);
    } else {
      var front := steps[..|steps| - 1];
      PacedKeepsPace(g, p, front, h);
      FlaggedBelowVisits(g, p, front, h);
      CountsStep(g, p, steps, h);
      if NodeCount(p, Unlimited(), front, h) == 0 { NoEarlyFlag(g, p, steps, h); }
      PaceArithmetic(g.nodes[h].upperLoopBound - 1, NodeCount(p, Unlimited(), front, h) - FlaggedEntries(g, p, front, h));
    }
  }

  lemma PacedFront(g: Asg, p: Program, steps: seq<Step>, h: nat)
    requires p.Valid() && IsRun(p, Unlimited(), steps) && h in g.nodes && IsPaced(g, p, steps, h)
    ensures Since(g, p, steps, h) + 1 <= g.nodes[h].upperLoopBound
    ensures steps != [] ==> IsRun(p, Unlimited(), steps[..|steps| - 1]) && IsPaced(g, p, steps[..|steps| - 1], h)
  {}

  lemma NothingCounted(g: Asg, p: Program, h: nat)
    requires p.Valid() && h != p.entry
    ensures NodeCount(p, Unlimited(), [], h) == 0 && FlaggedEntries(g, p, [], h) == 0
  {}

  /** What one step adds to the visits, to the flagged entries and to the current round. */
  lemma CountsStep(g: Asg, p: Program, steps: seq<Step>, h: nat)
    requires p.Valid() && IsRun(p, Unlimited(), steps) && steps != []
    ensures var front, e := steps[..|steps| - 1], LastEdge(p, Unlimited(), steps);
            var back := e.1 == h && g.IsBackEdge(e.0, h);
            && NodeCount(p, Unlimited(), steps, h) == NodeCount(p, Unlimited(), front, h) + One(e.1 == h)
            && FlaggedEntries(g, p, steps, h) == FlaggedEntries(g, p, front, h) + One(back)
            && Since(g, p, steps, h) == (if e.1 != h || back then Since(g, p, front, h) + One(back) else 0)
  {}

  lemma EmbedsHeader(g: Asg, p: Program, h: nat)
    requires Embeds(g, p) && IsBoundedHeader(g, h)
    ensures p.Valid() && h in g.nodes && h != p.entry
  {}

  /** The first visit of the header is not over a flagged edge. */
  lemma NoEarlyFlag(g: Asg, p: Program, steps: seq<Step>, h: nat)
    requires Embeds(g, p) && HeaderFirst(g, p, h) && IsRun(p, Unlimited(), steps) && steps != []
    requires NodeCount(p, Unlimited(), steps[..|steps| - 1], h) == 0
    ensures LastEdge(p, Unlimited(), steps).1 == h ==> !g.IsBackEdge(LastEdge(p, Unlimited(), steps).0, h)
  {
    var u := LastEdge(p, Unlimited(), steps).0;
    LastEdgeExists(g, p, Unlimited(), steps);
    BeforeFirstVisit(p, steps[..|steps| - 1], h);
    var q :| WalkFromTo(ForwardEdges(p), q, p.entry, u) && h !in q;
  }

  lemma PacedRowHolds(g: Asg, p: Program, steps: seq<Step>, h: nat)
    requires Embeds(g, p) && IsBoundedHeader(g, h) && HeaderFirst(g, p, h)
    requires forall u: nat :: g.IsBackEdge(u, h) ==> (u, h) in ForwardEdges(p)
    requires IsRun(p, Unlimited(), steps) && IsPaced(g, p, steps, h)
    ensures LoopBoundHolds(g, Counts(p, Unlimited(), steps), h)
  {
    PacedKeepsPace(g, p, steps, h);
    FlaggedBelowVisits(g, p, steps, h);
    BackSumIsFlagged(g, p, steps, h);
    RowArithmetic(g, Counts(p, Unlimited(), steps), h);
  }

  // ---------------------------------------------------------------- needed

  /** A walk of branches and calls can be run. */
  lemma {:induction false} RunAlong(p: Program, q: seq<nat>) returns (steps: seq<Step>)
    requires p.Valid() && IsWalk(ForwardEdges(p), q) && q[0] == p.entry
    ensures IsRun(p, Unlimited(), steps) && Final(p, Unlimited(), steps).node == q[|q| - 1]
    ensures forall v :: v !in q ==> NodeCount(p, Unlimited(), steps, v) == 0
  {
    if |q| == 1 {
      steps := [];
    } else {
      var i := |q| - 2;
      assert (q[i], q[i + 1]) in ForwardEdges(p);
      var front := RunAlong(p, q[..|q| - 1]);
      steps := OneStepMore(p, front, q[i + 1]);
    }
  }

  lemma OneStepMore(p: Program, front: seq<Step>, v: nat) returns (steps: seq<Step>)
    requires p.Valid() && IsRun(p, Unlimited(), front) && (Final(p, Unlimited(), front).node, v) in ForwardEdges(p)
    ensures |steps| == |front| + 1 && steps[..|front|] == front && IsRun(p, Unlimited(), steps)
    ensures LastEdge(p, Unlimited(), steps) == (Final(p, Unlimited(), front).node, v) && Final(p, Unlimited(), steps).node == v
    ensures forall w :: NodeCount(p, Unlimited(), steps, w) == NodeCount(p, Unlimited(), front, w) + One(w == v)
  {
    var u := Final(p, Unlimited(), front).node;
    if (u, v) in p.intra {
      steps := front + [Branch(u, v)];
    } else {
      var i: nat :| i < |p.sites| && (u, v) == p.CallEdge(i);
      steps := front + [Call(i)];
    }
    assert steps[..|steps| - 1] == front;
  }

  lemma {:induction false} UnvisitedIsPaced(g: Asg, p: Program, steps: seq<Step>, h: nat)
    requires p.Valid() && IsRun(p, Unlimited(), steps) && NodeCount(p, Unlimited(), steps, h) == 0
    requires h in g.nodes && g.nodes[h].upperLoopBound >= 1
    ensures IsPaced(g, p, steps, h) && Since(g, p, steps, h) == 0 && FlaggedEntries(g, p, steps, h) == 0
  {
    if steps != [] { UnvisitedIsPaced(g, p, steps[..|steps| - 1], h); }
  }

  /** A loop that can be entered past its header: one time round is enough to break the row. */
  lemma PastHeaderBreaksRow(g: Asg, p: Program, h: nat, u: nat, q: seq<nat>) returns (steps: seq<Step>)
    requires Embeds(g, p) && IsBoundedHeader(g, h) && g.nodes[h].upperLoopBound >= 2
    requires g.IsBackEdge(u, h) && (u, h) in ForwardEdges(p) && WalkFromTo(ForwardEdges(p), q, p.entry, u) && h !in q
    ensures IsRun(p, Unlimited(), steps) && IsPaced(g, p, steps, h)
    ensures !LoopBoundHolds(g, Counts(p, Unlimited(), steps), h)
  {
    EmbedsHeader(g, p, h);
    hide ForwardEdges, Program.Valid, Embeds, IsRun, Final, NodeCount, EdgeCount, BackSum, LoopBoundHolds;
    var front := RunAlong(p, q);
    UnvisitedIsPaced(g, p, front, h);
    steps := OneStepMore(p, front, h);
    BackSumIsFlagged(g, p, steps, h);
    RowArithmetic(g, Counts(p, Unlimited(), steps), h);
  }

  ghost predicate RowIsSound(g: Asg, p: Program, h: nat)
    requires p.Valid() && h in g.nodes
  {
    forall steps :: IsRun(p, Unlimited(), steps) && IsPaced(g, p, steps, h) ==> LoopBoundHolds(g, Counts(p, Unlimited(), steps), h)
  }

  /** The row of a header holds on every run that keeps to its bound exactly when no walk from the entry
      takes a flagged edge into the header before it has met the header otherwise. */
  lemma LoopRowSoundIff(g: Asg, p: Program, h: nat)
    requires Embeds(g, p) && IsBoundedHeader(g, h) && g.nodes[h].upperLoopBound >= 2
    requires forall u: nat :: g.IsBackEdge(u, h) ==> (u, h) in ForwardEdges(p)
    ensures RowIsSound(g, p, h) <==> HeaderFirst(g, p, h)
  {
    hide ForwardEdges, Program.Valid, IsPaced, LoopBoundHolds, Embeds;
    EmbedsHeader(g, p, h);
    if HeaderFirst(g, p, h) {
      forall steps | IsRun(p, Unlimited(), steps) && IsPaced(g, p, steps, h) ensures LoopBoundHolds(g, Counts(p, Unlimited(), steps), h) {
        PacedRowHolds(g, p, steps, h);
      }
    } else {
      var u: nat, q :| g.IsBackEdge(u, h) && WalkFromTo(ForwardEdges(p), q, p.entry, u) && h !in q;
      var steps := PastHeaderBreaksRow(g, p, h, u, q);
    }
  }

  // ---------------------------------------------------------------- the loops the pass flags

  /** The compiler recognises every header that dominates the reachable source of an edge into it. */
  ghost predicate RecognisesNaturalLoops(cfg: B.Cfg, recognised: set<nat>) {
    forall e :: e in cfg.EdgeSet() && Reaches(cfg.EdgeSet(), cfg.entry, e.0) && (forall q :: WalkFromTo(cfg.EdgeSet(), q, cfg.entry, e.0) ==> e.1 in q) ==> e.1 in recognised
  }

  /** So every edge the pass flags can be reached past its header. */
  lemma FlaggedPastHeader(cfg: B.Cfg, recognised: set<nat>, before: map<nat, nat>, pragma: nat -> nat, back: Edges,
                          flagged: Edges, bounds: map<nat, nat>, e: (nat, nat)) returns (q: seq<nat>)
    requires B.OnePerHeader(recognised, before, pragma, back, flagged, bounds) && e in flagged
    requires RecognisesNaturalLoops(cfg, recognised) && forall d :: d in back ==> B.ClosesReachableCycle(cfg, d)
    ensures WalkFromTo(cfg.EdgeSet(), q, cfg.entry, e.0) && e.1 !in q
  {
    assert B.IsEligible(recognised, before, pragma, e) && B.ClosesReachableCycle(cfg, e);
    q :| WalkFromTo(cfg.EdgeSet(), q, cfg.entry, e.0) && e.1 !in q;
  }

  /** And every row written for such a header is broken by some run that keeps to the bound, once the
      function is reached. */
  lemma FlaggedRowIsUnsound(g: Asg, p: Program, cfg: B.Cfg, recognised: set<nat>, before: map<nat, nat>, pragma: nat -> nat,
                            back: Edges, flagged: Edges, bounds: map<nat, nat>, e: (nat, nat), w: seq<nat>)
    requires B.OnePerHeader(recognised, before, pragma, back, flagged, bounds) && e in flagged
    requires RecognisesNaturalLoops(cfg, recognised) && forall d :: d in back ==> B.ClosesReachableCycle(cfg, d)
    requires Embeds(g, p) && cfg.EdgeSet() <= p.intra && WalkFromTo(ForwardEdges(p), w, p.entry, cfg.entry) && e.1 !in w
    requires g.IsBackEdge(e.0, e.1) && IsBoundedHeader(g, e.1) && g.nodes[e.1].upperLoopBound >= 2
    ensures !RowIsSound(g, p, e.1)
  {
    hide B.OnePerHeader, RecognisesNaturalLoops, Embeds, IsPaced, LoopBoundHolds, ForwardEdges;
    EmbedsHeader(g, p, e.1);
    var q := FlaggedPastHeader(cfg, recognised, before, pragma, back, flagged, bounds, e);
    var whole := Lead(p, cfg.EdgeSet(), w, q);
    BackIsForward(p, cfg, back, flagged, recognised, before, pragma, bounds, e);
    var steps := PastHeaderBreaksRow(g, p, e.1, e.0, whole);
  }

  lemma BackIsForward(p: Program, cfg: B.Cfg, back: Edges, flagged: Edges, recognised: set<nat>, before: map<nat, nat>, pragma: nat -> nat,
                      bounds: map<nat, nat>, e: (nat, nat))
    requires p.Valid() && B.OnePerHeader(recognised, before, pragma, back, flagged, bounds) && e in flagged
    requires (forall d :: d in back ==> B.ClosesReachableCycle(cfg, d)) && cfg.EdgeSet() <= p.intra
    ensures (e.0, e.1) in ForwardEdges(p)
  {
    assert B.ClosesReachableCycle(cfg, e) && e in p.intra && e == (e.0, e.1);
  }

  /** A walk to the function followed by one inside it. */
  lemma Lead(p: Program, inside: Edges, w: seq<nat>, q: seq<nat>) returns (whole: seq<nat>)
    requires p.Valid() && inside <= p.intra && IsWalk(ForwardEdges(p), w) && IsWalk(inside, q) && w[|w| - 1] == q[0]
    ensures WalkFromTo(ForwardEdges(p), whole, w[0], q[|q| - 1]) && forall v :: v in whole ==> v in w || v in q
  {
    whole := w + q[1..];
    forall i | 0 <= i < |whole| - 1 ensures (whole[i], whole[i + 1]) in ForwardEdges(p) {
      if i < |w| - 1 {
        assert (w[i], w[i + 1]) in ForwardEdges(p);
      } else {
        var k := i - |w| + 1;
        assert (q[k], q[k + 1]) in inside;
      }
    }
  }

  // ---------------------------------------------------------------- a loop with two entries

  /** Entry 0, a switch 1 into header 2 or into the loop's middle 3, back edge 3 -> 2, exit 4. */
  function TwoEntries(bound: nat): Asg {
    Asg(
      map[0 := Attributes(1, true, false, false, 0), 1 := Attributes(1, false, false, false, 0),
          2 := Attributes(1, false, false, true, bound), 3 := Attributes(1, false, false, false, 0),
          4 := Attributes(1, false, true, false, 0)],
      map[0 := map[1 := false], 1 := map[2 := false, 3 := false], 2 := map[3 := false], 3 := map[2 := true, 4 := false]],
      map[1 := {0}, 2 := {1, 3}, 3 := {1, 2}, 4 := {3}],
      map[], map[], [])
  }

  function SwitchProgram(): Program {
    Program(0, {(0, 1), (1, 2), (1, 3), (2, 3), (3, 2), (3, 4)}, map[], map[], [])
  }

  /** Into the middle, once around over the back edge, and out. */
  function PastHeader(): seq<Step> { [Branch(0, 1), Branch(1, 3), Branch(3, 2), Branch(2, 3), Branch(3, 4)] }

  /** The run so far, with its visits of 2 and its steps 3 -> 2 and 1 -> 2. */
  ghost predicate Tally(steps: seq<Step>, node: nat, visits: nat, back: nat, front: nat) {
    var p, b := SwitchProgram(), Bounds(map[], {});
    && p.Valid() && IsRun(p, b, steps) && Final(p, b, steps).node == node
    && NodeCount(p, b, steps, 2) == visits && EdgeCount(p, b, steps, (3, 2)) == back && EdgeCount(p, b, steps, (1, 2)) == front
  }

  lemma TallyStep(steps: seq<Step>, u: nat, v: nat, visits: nat, back: nat, front: nat)
    requires Tally(steps, u, visits, back, front) && (u, v) in SwitchProgram().intra
    ensures Tally(steps + [Branch(u, v)], v, visits + One(v == 2), back + One((u, v) == (3, 2)), front + One((u, v) == (1, 2)))
  {
    assert (steps + [Branch(u, v)])[..|steps|] == steps;
  }

  lemma PastHeaderCounts()
    ensures Tally(PastHeader(), 4, 1, 1, 0)
  {
    var s0: seq<Step> := [];
    assert Tally(s0, 0, 0, 0, 0);
    TallyStep(s0, 0, 1, 0, 0, 0);
    MoreSteps(s0 + [Branch(0, 1)]);
    assert s0 + [Branch(0, 1)] + [Branch(1, 3)] + [Branch(3, 2)] + [Branch(2, 3)] + [Branch(3, 4)] == PastHeader();
  }

  lemma MoreSteps(s1: seq<Step>)
    requires Tally(s1, 1, 0, 0, 0)
    ensures Tally(s1 + [Branch(1, 3)] + [Branch(3, 2)] + [Branch(2, 3)] + [Branch(3, 4)], 4, 1, 1, 0)
  {
    hide Tally;
    TallyStep(s1, 1, 3, 0, 0, 0);
    TallyStep(s1 + [Branch(1, 3)], 3, 2, 0, 0, 0);
    TallyStep(s1 + [Branch(1, 3)] + [Branch(3, 2)], 2, 3, 1, 1, 0);
    TallyStep(s1 + [Branch(1, 3)] + [Branch(3, 2)] + [Branch(2, 3)], 3, 4, 1, 1, 0);
  }

  /** The run goes round once, within any bound of at least two, yet its counts break the row: it
      reaches the header over the back edge alone. So the optimum need not cover it. */
  lemma EnteredPastHeader(bound: nat)
    requires bound >= 2
    ensures Embeds(TwoEntries(bound), SwitchProgram())
    ensures IsComplete(TwoEntries(bound), SwitchProgram(), Bounds(map[], {}), PastHeader())
    ensures EdgeCount(SwitchProgram(), Bounds(map[], {}), PastHeader(), (3, 2)) == 1
    ensures !LoopBoundHolds(TwoEntries(bound), Counts(SwitchProgram(), Bounds(map[], {}), PastHeader()), 2)
  {
    hide IsRun, Final, NodeCount, EdgeCount, Embeds, LoopBoundHolds, BackSum;
    var g := TwoEntries(bound);
    PastHeaderCounts();
    FitsProgram(bound);
    var x := Counts(SwitchProgram(), Bounds(map[], {}), PastHeader());
    BackIs(g, bound, x);
    RowArithmetic(g, x, 2);
  }

  lemma FitsProgram(bound: nat)
    ensures Embeds(TwoEntries(bound), SwitchProgram())
  {
    assert SwitchProgram().Valid();
    var g := TwoEntries(bound);
    assert forall u: nat, v: nat :: v in g.Successors(u) <==> u in g.Predecessors(v);
  }

  lemma BackIs(g: Asg, bound: nat, x: Point)
    requires g == TwoEntries(bound)
    ensures BackSum(g, x, PredList(g, 2), 2) == x(EdgeVar(3, 2))
  {
    assert g.Predecessors(2) == {1, 3};
    AscendingExact({1, 3});
    IncreasingUnique(Ascending({1, 3}), [1, 3]);
    assert [1, 3][..1] == [1] && [1][..0] == [];
    assert g.IsBackEdge(3, 2) && !g.IsBackEdge(1, 2);
    assert BackSum(g, x, [1], 2) == 0;
  }
}
