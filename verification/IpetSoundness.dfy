/** Every real run is a feasible point of the integer program, so its optimum is an upper bound. */
module IpetSoundness {
  import opened ReplacementPolicy
  import opened AbstractStateGraph
  import opened WcetModel
  import opened Runs

  /** The state graph was built from the program: it has the branch, call and return edges of every
      node it kept, and its only entry is the program's. */
  ghost predicate Embeds(g: Asg, p: Program) {
    && g.Valid() && p.Valid()
    && p.entry in g.nodes && g.nodes[p.entry].isEntry && !g.nodes[p.entry].isLoopHeader
    && (forall u :: u in g.nodes && g.nodes[u].isEntry ==> u == p.entry)
    && (forall u: nat :: !g.HasEdge(u, p.entry))
    && (forall u: nat, v: nat :: (u, v) in p.intra && u in g.nodes ==> g.HasEdge(u, v))
    && (forall i :: 0 <= i < |p.sites| && p.sites[i].call in g.nodes ==>
          g.HasEdge(p.sites[i].call, p.entryOf[p.sites[i].callee]))
    && (forall i, r: nat :: 0 <= i < |p.sites| && p.sites[i].hasLanding && r in p.returnsOf[p.sites[i].callee] && r in g.nodes ==>
          g.HasEdge(r, p.sites[i].landing))
  }

  /** Every bound in the graph is one the run respects, and every flagged back edge goes round
      again. The converse is not needed: the graph may flag fewer edges. */
  ghost predicate BoundsMatch(g: Asg, b: Bounds) {
    && (forall h :: h in b.bound ==> b.bound[h] >= 1)
    && (forall h :: IsBoundedHeader(g, h) ==> h in b.bound && b.bound[h] == g.nodes[h].upperLoopBound)
    && (forall u: nat, h: nat :: g.IsBackEdge(u, h) ==> (u, h) in b.back)
  }

  /** The call sites that get a matching row are among the program's, and the state graph knows the
      entries and the kept return blocks of the functions called. */
  ghost predicate SitesMatch(g: Asg, p: Program)
    requires p.Valid()
  {
    && (forall i :: 0 <= i < |g.callSites| && IsMatched(g, g.callSites[i]) ==>
          SiteIndex(p, g.callSites[i]).Some? && g.callSites[i].callNode in g.nodes)
    && (forall i :: 0 <= i < |p.sites| && p.sites[i].call in g.nodes ==>
          var f := p.sites[i].callee;
          && f in g.functionEntries && g.functionEntries[f] == p.entryOf[f]
          && DistinctSeq(ReturnsOf(g, f))
          && (forall r :: r in ReturnsOf(g, f) <==> r in p.returnsOf[f] && r in g.nodes))
  }

  ghost predicate DistinctSeq(s: seq<nat>) { forall i, j :: 0 <= i < j < |s| ==> s[i] != s[j] }

  ghost predicate SiteIs(p: Program, cs: CallSite, i: nat) {
    i < |p.sites| && p.sites[i] == Site(cs.callNode, cs.callee, cs.returnNode, true)
  }

  ghost function SiteIndex(p: Program, cs: CallSite): Option<nat> {
    if i: nat :| SiteIs(p, cs, i) then Some(i) else None
  }

  /** A run that starts at the entry and stops at an exit. */
  ghost predicate IsComplete(g: Asg, p: Program, b: Bounds, steps: seq<Step>)
    requires p.Valid()
  {
    IsRun(p, b, steps) && Final(p, b, steps).node in g.nodes && g.nodes[Final(p, b, steps).node].isExit
  }

  // ---------------------------------------------------------------- flow conservation

  lemma LastEdgeExists(g: Asg, p: Program, b: Bounds, steps: seq<Step>)
    requires Embeds(g, p) && IsRun(p, b, steps) && steps != []
    ensures var e := LastEdge(p, b, steps);
            g.HasEdge(e.0, e.1) && e.0 == Final(p, b, steps[..|steps| - 1]).node && e.1 == Final(p, b, steps).node
  {
    StaysInGraph(g, p, b, steps[..|steps| - 1]);
  }

  /** A run never leaves the nodes of the graph. */
  lemma {:induction false} StaysInGraph(g: Asg, p: Program, b: Bounds, steps: seq<Step>)
    requires Embeds(g, p) && IsRun(p, b, steps)
    ensures Final(p, b, steps).node in g.nodes
  {
    if steps != [] { StaysInGraph(g, p, b, steps[..|steps| - 1]); }
  }

  ghost function One(c: bool): nat { if c then 1 else 0 }

  /** A list of predecessors without repetition collects each step into `u` exactly once. */
  lemma {:induction false} InSumStep(p: Program, b: Bounds, steps: seq<Step>, preds: seq<nat>, u: nat)
    requires p.Valid() && IsRun(p, b, steps) && steps != [] && DistinctSeq(preds)
    ensures var e := LastEdge(p, b, steps);
            InSum(Counts(p, b, steps), preds, u) ==
            InSum(Counts(p, b, steps[..|steps| - 1]), preds, u) + One(e.1 == u && e.0 in preds)
  {
    if preds != [] {
      var front, q := preds[..|preds| - 1], preds[|preds| - 1];
      assert preds == front + [q] && q !in front;
      InSumStep(p, b, steps, front, u);
    }
  }

  lemma {:induction false} OutSumStep(p: Program, b: Bounds, steps: seq<Step>, succs: seq<nat>, u: nat)
    requires p.Valid() && IsRun(p, b, steps) && steps != [] && DistinctSeq(succs)
    ensures var e := LastEdge(p, b, steps);
            OutSum(Counts(p, b, steps), succs, u) ==
            OutSum(Counts(p, b, steps[..|steps| - 1]), succs, u) + One(e.0 == u && e.1 in succs)
  {
    if succs != [] {
      var front, q := succs[..|succs| - 1], succs[|succs| - 1];
      assert succs == front + [q] && q !in front;
      OutSumStep(p, b, steps, front, u);
    }
  }

  lemma {:induction false} SumsStart(p: Program, b: Bounds, list: seq<nat>, u: nat)
    requires p.Valid()
    ensures InSum(Counts(p, b, []), list, u) == 0 && OutSum(Counts(p, b, []), list, u) == 0
  {
    if list != [] { SumsStart(p, b, list[..|list| - 1], u); }
  }

  lemma AscendingDistinct(s: set<nat>)
    ensures DistinctSeq(Ascending(s)) && forall x :: x in Ascending(s) <==> x in s
  {
    AscendingExact(s);
  }

  /** Visits of `u` are arrivals over its incoming edges, plus one for the start. */
  lemma {:induction false} Inflow(g: Asg, p: Program, b: Bounds, steps: seq<Step>, u: nat)
    requires Embeds(g, p) && IsRun(p, b, steps)
    ensures NodeCount(p, b, steps, u) == One(u == p.entry) + InSum(Counts(p, b, steps), PredList(g, u), u)
  {
    AscendingDistinct(g.Predecessors(u));
    if steps == [] {
      SumsStart(p, b, PredList(g, u), u);
    } else {
      Inflow(g, p, b, steps[..|steps| - 1], u);
      InSumStep(p, b, steps, PredList(g, u), u);
      LastEdgeExists(g, p, b, steps);
    }
  }

  /** Visits of `u` are departures over its outgoing edges, plus one if the run stops there. */
  lemma {:induction false} Outflow(g: Asg, p: Program, b: Bounds, steps: seq<Step>, u: nat)
    requires Embeds(g, p) && IsRun(p, b, steps)
    ensures NodeCount(p, b, steps, u) == One(u == Final(p, b, steps).node) + OutSum(Counts(p, b, steps), SuccList(g, u), u)
  {
    AscendingDistinct(g.Successors(u).Keys);
    if steps == [] {
      SumsStart(p, b, SuccList(g, u), u);
    } else {
      Outflow(g, p, b, steps[..|steps| - 1], u);
      OutSumStep(p, b, steps, SuccList(g, u), u);
      LastEdgeExists(g, p, b, steps);
    }
  }

  // ---------------------------------------------------------------- loop bounds

  /** The back edges the activations on the stack may still take into `h`. */
  ghost function Budget(b: Bounds, stack: seq<Frame>, h: nat): int
    requires h in b.bound
  {
    if stack == [] then 0
    else
      Budget(b, stack[..|stack| - 1], h) + Left(b, stack[|stack| - 1], h)
  }

  /** The back edges one activation may still take. */
  ghost function Left(b: Bounds, f: Frame, h: nat): int
    requires h in b.bound
  {
    if h in f.taken then (b.bound[h] as int) - 1 - f.taken[h] else 0
  }

  /** What entering over `e` adds to the budget of `h`. */
  ghost function Grant(b: Bounds, e: (nat, nat), h: nat): int
    requires h in b.bound
  {
    if e.1 != h then 0 else if e in b.back then -1 else (b.bound[h] as int) - 1
  }

  ghost predicate WithinBounds(b: Bounds, stack: seq<Frame>) {
    forall k, h :: 0 <= k < |stack| && h in b.bound && h in stack[k].taken ==> stack[k].taken[h] + 1 <= b.bound[h]
  }

  lemma {:induction false} BudgetUpdate(b: Bounds, stack: seq<Frame>, k: nat, f: Frame, h: nat)
    requires h in b.bound && k < |stack|
    ensures Budget(b, stack[k := f], h) == Budget(b, stack, h) + Left(b, f, h) - Left(b, stack[k], h)
  {
    var n := |stack| - 1;
    if k < n {
      BudgetUpdate(b, stack[..n], k, f, h);
      assert stack[k := f][..n] == stack[..n][k := f];
    } else {
      assert stack[k := f][..n] == stack[..n];
    }
  }

  lemma {:induction false} BudgetNonNegative(b: Bounds, stack: seq<Frame>, h: nat)
    requires h in b.bound && WithinBounds(b, stack)
    ensures Budget(b, stack, h) >= 0
  {
    if stack != [] { BudgetNonNegative(b, stack[..|stack| - 1], h); }
  }

  /** Entering a header grants at most `bound - 1` back edges, and each back edge uses one up. */
  lemma BudgetEnter(b: Bounds, stack: seq<Frame>, e: (nat, nat), h: nat)
    requires stack != [] && h in b.bound && b.bound[h] >= 1 && WithinBounds(b, stack) && MayEnter(b, stack, e)
    requires forall k :: k in b.bound ==> b.bound[k] >= 1
    ensures WithinBounds(b, Enter(b, stack, e))
    ensures Budget(b, Enter(b, stack, e), h) <= Budget(b, stack, h) + Grant(b, e, h)
  {
    OwnerOwns(stack, e.1);
    if e.1 in b.bound {
      var k := if e in b.back then Owner(stack, e.1).value else |stack| - 1;
      BudgetUpdate(b, stack, k, Enter(b, stack, e)[k], h);
    }
  }

  /** How often `h` was entered over a back edge, or over any other edge. */
  ghost function Entries(p: Program, b: Bounds, steps: seq<Step>, h: nat, again: bool): nat
    requires p.Valid() && IsRun(p, b, steps)
    decreases |steps|
  {
    if steps == [] then 0
    else
      var e := LastEdge(p, b, steps);
      Entries(p, b, steps[..|steps| - 1], h, again) + One(e.1 == h && (e in b.back <==> again))
  }

  lemma BudgetBefore(p: Program, b: Bounds, c: Config, s: Step, h: nat)
    requires p.Valid() && Enabled(p, b, c, s) && h in b.bound && WithinBounds(b, c.stack)
    requires forall k :: k in b.bound ==> b.bound[k] >= 1
    ensures WithinBounds(b, StackBefore(p, b, c, s))
    ensures Budget(b, StackBefore(p, b, c, s), h) <= Budget(b, c.stack, h)
  {
    match s
    case Branch(_, _) =>
    case Call(i) =>
      assert (c.stack + [Frame(Some(i), map[])])[..|c.stack|] == c.stack;
    case Return(_) =>
  }

  /** What all the steps of a run grant to `h`. */
  ghost function Granted(p: Program, b: Bounds, steps: seq<Step>, h: nat): int
    requires p.Valid() && IsRun(p, b, steps) && h in b.bound
    decreases |steps|
  {
    if steps == [] then 0
    else Granted(p, b, steps[..|steps| - 1], h) + Grant(b, LastEdge(p, b, steps), h)
  }

  lemma {:induction false} BudgetIsGranted(p: Program, b: Bounds, steps: seq<Step>, h: nat)
    requires p.Valid() && IsRun(p, b, steps) && h in b.bound && forall k :: k in b.bound ==> b.bound[k] >= 1
    ensures WithinBounds(b, Final(p, b, steps).stack)
    ensures Budget(b, Final(p, b, steps).stack, h) <= Granted(p, b, steps, h)
  {
    if steps != [] {
      var front := steps[..|steps| - 1];
      BudgetIsGranted(p, b, front, h);
      BudgetBefore(p, b, Final(p, b, front), steps[|steps| - 1], h);
      BudgetEnter(b, StackBefore(p, b, Final(p, b, front), steps[|steps| - 1]), LastEdge(p, b, steps), h);
    }
  }

  lemma {:induction false} GrantedIs(p: Program, b: Bounds, steps: seq<Step>, h: nat)
    requires p.Valid() && IsRun(p, b, steps) && h in b.bound
    ensures Granted(p, b, steps, h) ==
            ((b.bound[h] as int) - 1) * Entries(p, b, steps, h, false) - Entries(p, b, steps, h, true)
  {
    if steps != [] {
      GrantedIs(p, b, steps[..|steps| - 1], h);
      GrantStep(p, b, steps, h);
      hide *;
      OneMore((b.bound[h] as int) - 1, Entries(p, b, steps[..|steps| - 1], h, false));
    }
  }

  lemma OneMore(k: int, n: int)
    ensures k * (n + 1) == k * n + k
  {}

  lemma GrantStep(p: Program, b: Bounds, steps: seq<Step>, h: nat)
    requires p.Valid() && IsRun(p, b, steps) && h in b.bound && steps != []
    ensures var front, g := steps[..|steps| - 1], Granted(p, b, steps, h) - Granted(p, b, steps[..|steps| - 1], h);
            var again, first := Entries(p, b, steps, h, true) - Entries(p, b, front, h, true),
                                Entries(p, b, steps, h, false) - Entries(p, b, front, h, false);
            || (g == 0 && again == 0 && first == 0)
            || (g == -1 && again == 1 && first == 0)
            || (g == (b.bound[h] as int) - 1 && again == 0 && first == 1)
  {}

  /** Over any run: the back edges taken into a header are at most `bound - 1` per other entry. */
  lemma ActivationsBound(p: Program, b: Bounds, steps: seq<Step>, h: nat)
    requires p.Valid() && IsRun(p, b, steps) && h in b.bound && forall k :: k in b.bound ==> b.bound[k] >= 1
    ensures Entries(p, b, steps, h, true) <= ((b.bound[h] as int) - 1) * Entries(p, b, steps, h, false)
  {
    BudgetIsGranted(p, b, steps, h);
    GrantedIs(p, b, steps, h);
    BudgetNonNegative(b, Final(p, b, steps).stack, h);
  }

  lemma {:induction false} EntriesSplit(p: Program, b: Bounds, steps: seq<Step>, h: nat)
    requires p.Valid() && IsRun(p, b, steps)
    ensures NodeCount(p, b, steps, h) == One(h == p.entry) + Entries(p, b, steps, h, true) + Entries(p, b, steps, h, false)
  {
    if steps != [] { EntriesSplit(p, b, steps[..|steps| - 1], h); }
  }

  lemma {:induction false} BackSumStep(g: Asg, p: Program, b: Bounds, steps: seq<Step>, preds: seq<nat>, h: nat)
    requires p.Valid() && IsRun(p, b, steps) && steps != [] && DistinctSeq(preds)
    ensures var e := LastEdge(p, b, steps);
            BackSum(g, Counts(p, b, steps), preds, h) ==
            BackSum(g, Counts(p, b, steps[..|steps| - 1]), preds, h) + One(e.1 == h && e.0 in preds && g.IsBackEdge(e.0, h))
  {
    if preds != [] {
      var front, q := preds[..|preds| - 1], preds[|preds| - 1];
      assert preds == front + [q] && q !in front;
      BackSumStep(g, p, b, steps, front, h);
    }
  }

  lemma {:induction false} BackSumStart(g: Asg, p: Program, b: Bounds, list: seq<nat>, h: nat)
    requires p.Valid()
    ensures BackSum(g, Counts(p, b, []), list, h) == 0
  {
    if list != [] { BackSumStart(g, p, b, list[..|list| - 1], h); }
  }

  /** Only some of the edges that go round again need to be flagged. */
  lemma {:induction false} FlaggedAreBack(g: Asg, p: Program, b: Bounds, steps: seq<Step>, h: nat)
    requires Embeds(g, p) && BoundsMatch(g, b) && IsRun(p, b, steps)
    ensures BackSum(g, Counts(p, b, steps), PredList(g, h), h) <= Entries(p, b, steps, h, true)
  {
    AscendingDistinct(g.Predecessors(h));
    if steps == [] {
      BackSumStart(g, p, b, PredList(g, h), h);
    } else {
      FlaggedAreBack(g, p, b, steps[..|steps| - 1], h);
      BackSumStep(g, p, b, steps, PredList(g, h), h);
    }
  }

  lemma LoopArithmetic(bound: int, back: int, again: int, first: int)
    requires bound >= 1 && 0 <= back <= again && again <= (bound - 1) * first
    ensures (bound - 1) * (again + first) - bound * back >= 0
  {
    assert (bound - 1) * (again + first) - bound * again == (bound - 1) * first - again;
    assert bound * back <= bound * again;
  }

  lemma {:induction false} LoopRow(g: Asg, p: Program, b: Bounds, steps: seq<Step>, h: nat)
    requires Embeds(g, p) && BoundsMatch(g, b) && IsRun(p, b, steps) && IsBoundedHeader(g, h)
    ensures LoopBoundHolds(g, Counts(p, b, steps), h)
  {
    hide IsRun, Final, Entries, BackSum, NodeCount, EdgeCount;
    ActivationsBound(p, b, steps, h);
    EntriesSplit(p, b, steps, h);
    FlaggedAreBack(g, p, b, steps, h);
    BackSumNonNegative(g, p, b, steps, PredList(g, h), h);
    LoopArithmetic(b.bound[h], BackSum(g, Counts(p, b, steps), PredList(g, h), h),
                   Entries(p, b, steps, h, true), Entries(p, b, steps, h, false));
  }

  lemma {:induction false} BackSumNonNegative(g: Asg, p: Program, b: Bounds, steps: seq<Step>, list: seq<nat>, h: nat)
    requires p.Valid() && IsRun(p, b, steps)
    ensures BackSum(g, Counts(p, b, steps), list, h) >= 0
  {
    if list != [] { BackSumNonNegative(g, p, b, steps, list[..|list| - 1], h); }
  }

  // ---------------------------------------------------------------- call and return matching

  /** The activations on the stack called from site `i`. */
  ghost function Pending(stack: seq<Frame>, i: nat): nat {
    if stack == [] then 0 else Pending(stack[..|stack| - 1], i) + One(stack[|stack| - 1].site == Some(i))
  }

  ghost predicate SameSites(a: seq<Frame>, b: seq<Frame>) {
    |a| == |b| && forall k :: 0 <= k < |a| ==> a[k].site == b[k].site
  }

  lemma {:induction false} PendingSameSites(a: seq<Frame>, b: seq<Frame>, i: nat)
    requires SameSites(a, b)
    ensures Pending(a, i) == Pending(b, i)
  {
    if a != [] { PendingSameSites(a[..|a| - 1], b[..|b| - 1], i); }
  }

  lemma EnterKeepsSites(b: Bounds, stack: seq<Frame>, e: (nat, nat))
    requires stack != [] && MayEnter(b, stack, e)
    ensures SameSites(stack, Enter(b, stack, e))
  {
    OwnerOwns(stack, e.1);
  }

  /** The site a step returns to. */
  ghost function ReturnSite(p: Program, b: Bounds, c: Config, s: Step): Option<nat>
    requires p.Valid() && Enabled(p, b, c, s)
  {
    if s.Return? then c.stack[|c.stack| - 1].site else None
  }

  ghost function LastReturn(p: Program, b: Bounds, steps: seq<Step>): Option<nat>
    requires p.Valid() && IsRun(p, b, steps) && steps != []
  {
    ReturnSite(p, b, Final(p, b, steps[..|steps| - 1]), steps[|steps| - 1])
  }

  /** Two sites return to the same place from the same callee. A site without a landing shares nothing. */
  ghost predicate Shares(p: Program, i: nat, j: nat)
    requires i < |p.sites| && j < |p.sites|
  {
    && p.sites[i].hasLanding && p.sites[j].hasLanding
    && p.sites[i].callee == p.sites[j].callee && p.sites[i].landing == p.sites[j].landing
  }

  ghost function CallsFrom(p: Program, b: Bounds, steps: seq<Step>, i: nat): nat
    requires p.Valid() && IsRun(p, b, steps)
    decreases |steps|
  {
    if steps == [] then 0
    else CallsFrom(p, b, steps[..|steps| - 1], i) + One(steps[|steps| - 1] == Call(i))
  }

  ghost function ReturnsTo(p: Program, b: Bounds, steps: seq<Step>, i: nat): nat
    requires p.Valid() && IsRun(p, b, steps)
    decreases |steps|
  {
    if steps == [] then 0
    else ReturnsTo(p, b, steps[..|steps| - 1], i) + One(LastReturn(p, b, steps) == Some(i))
  }

  /** Returns to another site that shares the callee and the landing of site `i`. */
  ghost function StrayReturns(p: Program, b: Bounds, steps: seq<Step>, i: nat): nat
    requires p.Valid() && IsRun(p, b, steps) && i < |p.sites|
    decreases |steps|
  {
    if steps == [] then 0
    else
      var r := LastReturn(p, b, steps);
      StrayReturns(p, b, steps[..|steps| - 1], i)
      + One(r.Some? && r.value != i && r.value < |p.sites| && Shares(p, i, r.value))
  }

  lemma PendingStep(p: Program, b: Bounds, c: Config, s: Step, i: nat)
    requires p.Valid() && Enabled(p, b, c, s)
    ensures Pending(Next(p, b, c, s).stack, i) + One(ReturnSite(p, b, c, s) == Some(i))
            == Pending(c.stack, i) + One(s == Call(i))
  {
    var stack := StackBefore(p, b, c, s);
    EnterKeepsSites(b, stack, EdgeOf(p, b, c, s));
    PendingSameSites(stack, Next(p, b, c, s).stack, i);
    if s.Call? { assert stack[..|stack| - 1] == c.stack; }
  }

  /** Calls from a site are returns to it plus the calls still running. */
  lemma {:induction false} CallsBalance(p: Program, b: Bounds, steps: seq<Step>, i: nat)
    requires p.Valid() && IsRun(p, b, steps)
    ensures CallsFrom(p, b, steps, i) == ReturnsTo(p, b, steps, i) + Pending(Final(p, b, steps).stack, i)
  {
    if steps == [] {
      assert Start(p).stack[..0] == [];
    } else {
      var front := steps[..|steps| - 1];
      CallsBalance(p, b, front, i);
      PendingStep(p, b, Final(p, b, front), steps[|steps| - 1], i);
    }
  }

  /** Only call steps run along a call edge. */
  lemma {:induction false} CallEdgeCount(p: Program, b: Bounds, steps: seq<Step>, i: nat)
    requires p.Valid() && IsRun(p, b, steps) && i < |p.sites|
    ensures EdgeCount(p, b, steps, p.CallEdge(i)) == CallsFrom(p, b, steps, i)
  {
    if steps != [] {
      var front, s := steps[..|steps| - 1], steps[|steps| - 1];
      CallEdgeCount(p, b, front, i);
      CallStep(p, b, Final(p, b, front), s, i);
    }
  }

  lemma CallStep(p: Program, b: Bounds, c: Config, s: Step, i: nat)
    requires p.Valid() && Enabled(p, b, c, s) && i < |p.sites|
    ensures EdgeOf(p, b, c, s) == p.CallEdge(i) <==> s == Call(i)
  {
    if s.Return? {
      var j := c.stack[|c.stack| - 1].site.value;
      assert (p.sites[j].call, p.sites[j].landing) in p.intra;
    }
  }

  lemma ReturnStep(p: Program, b: Bounds, c: Config, s: Step, i: nat)
    requires p.Valid() && Enabled(p, b, c, s) && i < |p.sites| && p.sites[i].hasLanding
    ensures var e, j := EdgeOf(p, b, c, s), ReturnSite(p, b, c, s);
            e.1 == p.sites[i].landing && e.0 in p.returnsOf[p.sites[i].callee] <==>
            j.Some? && j.value < |p.sites| && Shares(p, i, j.value)
  {
    assert (p.sites[i].call, p.sites[i].landing) in p.intra;
  }

  lemma {:induction false} ReturnEdgesExact(g: Asg, rets: seq<nat>, landing: nat)
    requires DistinctSeq(rets)
    ensures DistinctSeq(ReturnEdges(g, rets, landing))
    ensures forall r :: r in ReturnEdges(g, rets, landing) <==> r in rets && g.HasEdge(r, landing)
  {
    if rets != [] {
      var front, q := rets[..|rets| - 1], rets[|rets| - 1];
      assert rets == front + [q] && q !in front;
      ReturnEdgesExact(g, front, landing);
    }
  }

  /** The return blocks of a function that the graph kept. */
  ghost function KeptReturns(g: Asg, p: Program, f: Fn): set<nat>
    requires f in p.returnsOf
  {
    set r | r in p.returnsOf[f] && r in g.nodes
  }

  /** The return edges into a landing carry the returns of every site sharing it. */
  lemma {:induction false} ReturnEdgeCount(g: Asg, p: Program, b: Bounds, steps: seq<Step>, i: nat, list: seq<nat>)
    requires Embeds(g, p) && IsRun(p, b, steps) && i < |p.sites| && p.sites[i].hasLanding && DistinctSeq(list)
    requires forall r :: r in list <==> r in KeptReturns(g, p, p.sites[i].callee)
    ensures InSum(Counts(p, b, steps), list, p.sites[i].landing) == ReturnsTo(p, b, steps, i) + StrayReturns(p, b, steps, i)
  {
    if steps == [] {
      SumsStart(p, b, list, p.sites[i].landing);
    } else {
      var front, s := steps[..|steps| - 1], steps[|steps| - 1];
      ReturnEdgeCount(g, p, b, front, i, list);
      StaysInGraph(g, p, b, front);
      InSumStep(p, b, steps, list, p.sites[i].landing);
      ReturnStep(p, b, Final(p, b, front), s, i);
    }
  }

  lemma SiteOf(g: Asg, p: Program, k: nat) returns (i: nat)
    requires p.Valid() && SitesMatch(g, p) && k < |g.callSites| && IsMatched(g, g.callSites[k])
    ensures SiteIs(p, g.callSites[k], i) && g.callSites[k].callNode in g.nodes
  {
    i :| SiteIs(p, g.callSites[k], i);
  }

  /** Exactly when a run satisfies the matching row of a site: as many calls from it must still be
      running as returns went to other sites sharing its callee and landing. */
  lemma MatchingIff(g: Asg, p: Program, b: Bounds, steps: seq<Step>, cs: CallSite, i: nat)
    requires Embeds(g, p) && SitesMatch(g, p) && IsRun(p, b, steps) && SiteIs(p, cs, i)
    requires cs.callNode in g.nodes && KeptReturns(g, p, cs.callee) != {}
    ensures IsMatched(g, cs)
    ensures MatchingHolds(g, Counts(p, b, steps), cs) <==>
            Pending(Final(p, b, steps).stack, i) == StrayReturns(p, b, steps, i)
  {
    var list := MatchedReturns(g, p, cs, i);
    CallEdgeCount(p, b, steps, i);
    CallsBalance(p, b, steps, i);
    ReturnEdgeCount(g, p, b, steps, i, list);
    hide IsRun, Final, EdgeCount, Embeds, SitesMatch, InSum;
  }

  lemma MatchedReturns(g: Asg, p: Program, cs: CallSite, i: nat) returns (list: seq<nat>)
    requires Embeds(g, p) && SitesMatch(g, p) && SiteIs(p, cs, i) && cs.callNode in g.nodes
    requires KeptReturns(g, p, cs.callee) != {}
    ensures cs.callee in g.functionEntries && (cs.callNode, g.functionEntries[cs.callee]) == p.CallEdge(i)
    ensures list == ReturnEdges(g, ReturnsOf(g, cs.callee), cs.returnNode) && DistinctSeq(list) && IsMatched(g, cs)
    ensures forall r :: r in list <==> r in KeptReturns(g, p, cs.callee)
  {
    var rets := ReturnsOf(g, cs.callee);
    ReturnEdgesExact(g, rets, cs.returnNode);
    list := ReturnEdges(g, rets, cs.returnNode);
    var r :| r in KeptReturns(g, p, cs.callee);
    assert r in list;
  }

  // ---------------------------------------------------------------- the theorem

  ghost predicate DistinctLandings(p: Program) {
    forall i, j :: 0 <= i < j < |p.sites| ==> !Shares(p, i, j)
  }

  lemma {:induction false} NoStrays(p: Program, b: Bounds, steps: seq<Step>, i: nat)
    requires p.Valid() && IsRun(p, b, steps) && i < |p.sites| && DistinctLandings(p)
    ensures StrayReturns(p, b, steps, i) == 0
  {
    if steps != [] {
      NoStrays(p, b, steps[..|steps| - 1], i);
      var r := LastReturn(p, b, steps);
      if r.Some? && r.value != i && r.value < |p.sites| {
        assert !Shares(p, if i < r.value then i else r.value, if i < r.value then r.value else i);
      }
    }
  }

  lemma NoElements(s: seq<nat>)
    requires forall x :: x !in s
    ensures s == []
  {
    if s != [] { HasElement(s); }
  }

  lemma HasElement(s: seq<nat>)
    requires s != []
    ensures exists x :: x in s
  {
    assert s[0] in s;
  }

  lemma UnmatchedHolds(g: Asg, p: Program, x: Point, cs: CallSite, i: nat)
    requires Embeds(g, p) && SitesMatch(g, p) && SiteIs(p, cs, i) && cs.callNode in g.nodes
    requires KeptReturns(g, p, cs.callee) == {}
    ensures MatchingHolds(g, x, cs)
  {
    ReturnEdgesExact(g, ReturnsOf(g, cs.callee), cs.returnNode);
    assert forall r :: r in ReturnsOf(g, cs.callee) <==> r in KeptReturns(g, p, cs.callee);
    assert forall r :: r !in ReturnEdges(g, ReturnsOf(g, cs.callee), cs.returnNode);
    NoElements(ReturnEdges(g, ReturnsOf(g, cs.callee), cs.returnNode));
  }

  lemma BasePending(stack: seq<Frame>, i: nat)
    requires |stack| == 1 && stack[0].site == None
    ensures Pending(stack, i) == 0
  {
    assert stack[..0] == [];
  }

  lemma {:induction false} BottomFrame(p: Program, b: Bounds, steps: seq<Step>)
    requires p.Valid() && IsRun(p, b, steps)
    ensures Final(p, b, steps).stack[0].site == None
  {
    if steps != [] {
      var front, s := steps[..|steps| - 1], steps[|steps| - 1];
      BottomFrame(p, b, front);
      EnterKeepsSites(b, StackBefore(p, b, Final(p, b, front), s), LastEdge(p, b, steps));
    }
  }

  lemma NodeRows(g: Asg, p: Program, b: Bounds, steps: seq<Step>, u: nat)
    requires Embeds(g, p) && BoundsMatch(g, b) && IsComplete(g, p, b, steps) && u in g.nodes
    ensures NodeRowsHold(g, Counts(p, b, steps), u)
  {
    Inflow(g, p, b, steps, u);
    Outflow(g, p, b, steps, u);
    if IsBoundedHeader(g, u) { LoopRow(g, p, b, steps, u); }
    if u == p.entry { EntryOnce(g, p, b, steps); }
  }

  lemma EntryOnce(g: Asg, p: Program, b: Bounds, steps: seq<Step>)
    requires Embeds(g, p) && IsRun(p, b, steps)
    ensures NodeCount(p, b, steps, p.entry) == 1
  {
    Inflow(g, p, b, steps, p.entry);
    AscendingDistinct(g.Predecessors(p.entry));
    assert forall u: nat :: u in g.Predecessors(p.entry) ==> g.HasEdge(u, p.entry);
    NoElements(PredList(g, p.entry));
  }

  /** The counts of a real run satisfy every row, provided it ends with no call running and no two
      sites of one callee share a landing. */
  lemma RunIsFeasible(g: Asg, p: Program, b: Bounds, steps: seq<Step>)
    requires Embeds(g, p) && SitesMatch(g, p) && BoundsMatch(g, b) && DistinctLandings(p)
    requires IsComplete(g, p, b, steps) && |Final(p, b, steps).stack| == 1
    ensures Feasible(g, Counts(p, b, steps))
  {
    var x := Counts(p, b, steps);
    forall u | u in g.nodes ensures NodeRowsHold(g, x, u) { NodeRows(g, p, b, steps, u); }
    forall k | 0 <= k < |g.callSites| ensures MatchingHolds(g, x, g.callSites[k]) {
      if IsMatched(g, g.callSites[k]) { MatchedSiteHolds(g, p, b, steps, k); }
    }
  }

  lemma MatchedSiteHolds(g: Asg, p: Program, b: Bounds, steps: seq<Step>, k: nat)
    requires Embeds(g, p) && SitesMatch(g, p) && DistinctLandings(p)
    requires IsRun(p, b, steps) && |Final(p, b, steps).stack| == 1
    requires k < |g.callSites| && IsMatched(g, g.callSites[k])
    ensures MatchingHolds(g, Counts(p, b, steps), g.callSites[k])
  {
    var i := SiteOf(g, p, k);
    if KeptReturns(g, p, g.callSites[k].callee) == {} {
      UnmatchedHolds(g, p, Counts(p, b, steps), g.callSites[k], i);
    } else {
      MatchingIff(g, p, b, steps, g.callSites[k], i);
      NoStrays(p, b, steps, i);
      BottomFrame(p, b, steps);
      BasePending(Final(p, b, steps).stack, i);
    }
  }

  // ---------------------------------------------------------------- the objective

  function CostOf(g: Asg): nat -> nat { (u: nat) => if u in g.nodes then g.nodes[u].cost else 0 }

  lemma {:induction false} CostSumStep(g: Asg, p: Program, b: Bounds, steps: seq<Step>, order: seq<nat>)
    requires p.Valid() && IsRun(p, b, steps) && steps != [] && DistinctSeq(order)
    ensures var v := LastEdge(p, b, steps).1;
            CostSum(g, Counts(p, b, steps), order) ==
            CostSum(g, Counts(p, b, steps[..|steps| - 1]), order) + (if v in order then CostOf(g)(v) else 0)
  {
    if order != [] {
      var front, u := order[..|order| - 1], order[|order| - 1];
      assert order == front + [u] && u !in front;
      CostSumStep(g, p, b, steps, front);
      TermStep(g, p, b, steps, u);
    }
  }

  /** What one node contributes to the objective. */
  function Term(g: Asg, x: Point, u: nat): int { if u in g.nodes then g.nodes[u].cost * x(NodeVar(u)) else 0 }

  lemma TermStep(g: Asg, p: Program, b: Bounds, steps: seq<Step>, u: nat)
    requires p.Valid() && IsRun(p, b, steps) && steps != []
    ensures Term(g, Counts(p, b, steps), u) ==
            Term(g, Counts(p, b, steps[..|steps| - 1]), u) + (if u == LastEdge(p, b, steps).1 then CostOf(g)(u) else 0)
  {
    var n, hit := NodeCount(p, b, steps[..|steps| - 1], u), LastEdge(p, b, steps).1 == u;
    assert NodeCount(p, b, steps, u) == n + One(hit);
    hide IsRun, Final, LastEdge, NodeCount, EdgeCount;
    if u in g.nodes { Scaled(g.nodes[u].cost, n, hit); }
  }

  lemma Scaled(c: nat, n: int, hit: bool)
    ensures c * (n + One(hit)) == c * n + (if hit then c else 0)
  {}

  lemma {:induction false} CostSumStart(g: Asg, p: Program, b: Bounds, order: seq<nat>)
    requires p.Valid() && DistinctSeq(order)
    ensures CostSum(g, Counts(p, b, []), order) == if p.entry in order then CostOf(g)(p.entry) else 0
  {
    if order != [] {
      var front, u := order[..|order| - 1], order[|order| - 1];
      assert order == front + [u] && u !in front;
      CostSumStart(g, p, b, front);
    }
  }

  /** The objective at the counts of a run is the cost of the run. */
  lemma {:induction false} ObjectiveIsCost(g: Asg, p: Program, b: Bounds, steps: seq<Step>)
    requires Embeds(g, p) && IsRun(p, b, steps)
    ensures Objective(g, Counts(p, b, steps)) == RunCost(p, b, steps, CostOf(g))
  {
    AscendingDistinct(g.nodes.Keys);
    if steps == [] {
      CostSumStart(g, p, b, Ascending(g.nodes.Keys));
    } else {
      ObjectiveIsCost(g, p, b, steps[..|steps| - 1]);
      CostSumStep(g, p, b, steps, Ascending(g.nodes.Keys));
      LastEdgeExists(g, p, b, steps);
    }
  }

  /** The reported WCET, the optimum of the integer program, is at least the cost of every real run. */
  lemma WcetIsUpperBound(g: Asg, p: Program, b: Bounds, steps: seq<Step>, wcet: int)
    requires Embeds(g, p) && SitesMatch(g, p) && BoundsMatch(g, b) && DistinctLandings(p)
    requires IsComplete(g, p, b, steps) && |Final(p, b, steps).stack| == 1
    requires forall x: Point :: Feasible(g, x) ==> Objective(g, x) <= wcet
    ensures RunCost(p, b, steps, CostOf(g)) <= wcet
  {
    RunIsFeasible(g, p, b, steps);
    ObjectiveIsCost(g, p, b, steps);
  }
}
