/** The depth-first scan for loop-closing edges. */
module BackEdges {
  import opened Walks

  /** A function's blocks with their successors in order; `entry` is the first block, if there is one. */
  datatype Cfg = Cfg(entry: nat, succs: map<nat, seq<nat>>) {
    ghost predicate Valid() {
      (entry in succs || succs == map[]) && forall b, k: nat :: b in succs && k < |succs[b]| ==> succs[b][k] in succs
    }

    ghost function EdgeSet(): Edges { set b, v | b in succs && v in succs[b] :: (b, v) }
  }

  datatype Color = White | Gray | Black

  function ColorOf(colors: map<nat, Color>, b: nat): Color { if b in colors then colors[b] else White }

  // ---------------------------------------------------------------- what the scan keeps

  ghost predicate InStack(stack: seq<(nat, nat)>, b: nat) { exists i :: 0 <= i < |stack| && stack[i].0 == b }

  /** The stack is a walk of distinct gray blocks from the entry, and holds every gray block. */
  ghost predicate OnStack(cfg: Cfg, stack: seq<(nat, nat)>, colors: map<nat, Color>) {
    && (forall i :: 0 <= i < |stack| ==>
          stack[i].0 in cfg.succs && stack[i].1 <= |cfg.succs[stack[i].0]| && ColorOf(colors, stack[i].0) == Gray)
    && (forall i, j :: 0 <= i < j < |stack| ==> stack[i].0 != stack[j].0)
    && (forall b :: ColorOf(colors, b) == Gray ==> InStack(stack, b))
    && (forall i :: 0 <= i < |stack| - 1 ==> stack[i + 1].0 in cfg.succs[stack[i].0])
  }

  /** Blocks are finished one after the other; their other edges lead to blocks finished before. */
  ghost predicate Finished(cfg: Cfg, colors: map<nat, Color>, back: Edges, finish: map<nat, nat>) {
    && (forall b :: b in finish <==> ColorOf(colors, b) == Black)
    && (forall b :: b in finish ==> finish[b] < |finish|)
    && (forall b, v :: b in finish && b in cfg.succs && v in cfg.succs[b] ==> Settled(back, finish, b, v))
  }

  ghost predicate Settled(back: Edges, finish: map<nat, nat>, b: nat, v: nat) {
    (b, v) in back || (v in finish && (b in finish ==> finish[v] < finish[b]))
  }

  /** The edges passed by the cursor of a block on the stack. */
  ghost predicate Scanned(cfg: Cfg, stack: seq<(nat, nat)>, back: Edges, finish: map<nat, nat>) {
    forall i, k :: 0 <= i < |stack| && stack[i].0 in cfg.succs && 0 <= k < stack[i].1 && k < |cfg.succs[stack[i].0]| ==>
      ScannedAt(cfg, stack, back, finish, i, k)
  }

  ghost predicate ScannedAt(cfg: Cfg, stack: seq<(nat, nat)>, back: Edges, finish: map<nat, nat>, i: nat, k: nat)
    requires i < |stack| && stack[i].0 in cfg.succs && k < |cfg.succs[stack[i].0]|
  {
    var v := cfg.succs[stack[i].0][k];
    Settled(back, finish, stack[i].0, v) || (i + 1 < |stack| && v == stack[i + 1].0)
  }

  /** Every edge found closes a cycle of blocks seen. */
  ghost predicate Closing(cfg: Cfg, colors: map<nat, Color>, back: Edges) {
    forall e :: e in back ==>
      e in cfg.EdgeSet() && Reaches(cfg.EdgeSet(), e.1, e.0) && ColorOf(colors, e.0) != White && ColorOf(colors, e.1) != White
  }

  ghost predicate Seen(cfg: Cfg, colors: map<nat, Color>) {
    && ColorOf(colors, cfg.entry) != White
    && forall b :: ColorOf(colors, b) != White ==> b in cfg.succs && Reaches(cfg.EdgeSet(), cfg.entry, b)
  }

  ghost predicate Invariant(cfg: Cfg, stack: seq<(nat, nat)>, colors: map<nat, Color>, back: Edges, finish: map<nat, nat>) {
    && OnStack(cfg, stack, colors) && Finished(cfg, colors, back, finish) && Scanned(cfg, stack, back, finish)
    && Closing(cfg, colors, back) && Seen(cfg, colors)
  }

  // ---------------------------------------------------------------- the four steps

  /** The block on top and the cursor into its successors. */
  ghost predicate TopIs(stack: seq<(nat, nat)>, b: nat, k: nat) { stack != [] && stack[|stack| - 1] == (b, k) }

  /** The stack after the cursor of its top block moved on. */
  function Advanced(stack: seq<(nat, nat)>): seq<(nat, nat)>
    requires stack != []
  {
    stack[|stack| - 1 := (stack[|stack| - 1].0, stack[|stack| - 1].1 + 1)]
  }

  lemma PopStack(cfg: Cfg, stack: seq<(nat, nat)>, colors: map<nat, Color>, b: nat, k: nat)
    requires OnStack(cfg, stack, colors) && TopIs(stack, b, k)
    ensures OnStack(cfg, stack[..|stack| - 1], colors[b := Black])
  {
    var rest := stack[..|stack| - 1];
    forall c | ColorOf(colors[b := Black], c) == Gray ensures InStack(rest, c) {
      assert InStack(stack, c);
      var i :| 0 <= i < |stack| && stack[i].0 == c;
      assert rest[i] == stack[i];
    }
  }

  lemma PopFinished(cfg: Cfg, stack: seq<(nat, nat)>, colors: map<nat, Color>, back: Edges, finish: map<nat, nat>, b: nat)
    requires Finished(cfg, colors, back, finish) && Scanned(cfg, stack, back, finish)
    requires b in cfg.succs && TopIs(stack, b, |cfg.succs[b]|) && ColorOf(colors, b) == Gray
    ensures b !in finish && Finished(cfg, colors[b := Black], back, finish[b := |finish|])
  {
    var finish' := finish[b := |finish|];
    assert b !in finish && |finish'| == |finish| + 1;
    forall v | v in cfg.succs[b] ensures Settled(back, finish', b, v) {
      var k :| 0 <= k < |cfg.succs[b]| && cfg.succs[b][k] == v;
      assert ScannedAt(cfg, stack, back, finish, |stack| - 1, k);
    }
    forall c, v | c in finish && c in cfg.succs && v in cfg.succs[c] ensures Settled(back, finish', c, v) {
      assert Settled(back, finish, c, v);
    }
  }

  lemma PopScanned(cfg: Cfg, stack: seq<(nat, nat)>, back: Edges, finish: map<nat, nat>, b: nat, k: nat, n: nat)
    requires Scanned(cfg, stack, back, finish) && TopIs(stack, b, k) && b !in finish
    requires forall i :: 0 <= i < |stack| ==> stack[i].0 !in finish
    requires forall i, j :: 0 <= i < j < |stack| ==> stack[i].0 != stack[j].0
    ensures Scanned(cfg, stack[..|stack| - 1], back, finish[b := n])
  {
    var rest, finish' := stack[..|stack| - 1], finish[b := n];
    forall i, k | 0 <= i < |rest| && rest[i].0 in cfg.succs && 0 <= k < rest[i].1 && k < |cfg.succs[rest[i].0]|
      ensures ScannedAt(cfg, rest, back, finish', i, k)
    {
      assert ScannedAt(cfg, stack, back, finish, i, k);
    }
  }

  lemma Pop(cfg: Cfg, stack: seq<(nat, nat)>, colors: map<nat, Color>, back: Edges, finish: map<nat, nat>, b: nat)
    requires Invariant(cfg, stack, colors, back, finish) && b in cfg.succs && TopIs(stack, b, |cfg.succs[b]|)
    ensures b !in finish && Invariant(cfg, stack[..|stack| - 1], colors[b := Black], back, finish[b := |finish|])
  {
    forall i | 0 <= i < |stack| ensures stack[i].0 !in finish { assert ColorOf(colors, stack[i].0) == Gray; }
    assert forall c :: ColorOf(colors[b := Black], c) == White <==> ColorOf(colors, c) == White;
    assert forall i, j :: 0 <= i < j < |stack| ==> stack[i].0 != stack[j].0;
    assert ColorOf(colors, b) == Gray;
    hide OnStack, Finished, Scanned;
    PopStack(cfg, stack, colors, b, |cfg.succs[b]|);
    PopFinished(cfg, stack, colors, back, finish, b);
    PopScanned(cfg, stack, back, finish, b, |cfg.succs[b]|, |finish|);
  }

  lemma PushStack(cfg: Cfg, stack: seq<(nat, nat)>, colors: map<nat, Color>, v: nat)
    requires OnStack(cfg, stack, colors) && v in cfg.succs && ColorOf(colors, v) == White
    requires stack != [] ==> v in cfg.succs[stack[|stack| - 1].0]
    ensures OnStack(cfg, stack + [(v, 0)], colors[v := Gray])
  {
    var next := stack + [(v, 0)];
    forall c | ColorOf(colors[v := Gray], c) == Gray ensures InStack(next, c) {
      if c == v {
        assert next[|stack|].0 == v;
      } else {
        assert InStack(stack, c);
        var i :| 0 <= i < |stack| && stack[i].0 == c;
        assert next[i].0 == c;
      }
    }
  }

  lemma PushScanned(cfg: Cfg, stack: seq<(nat, nat)>, back: Edges, finish: map<nat, nat>, b: nat, k: nat)
    requires Scanned(cfg, stack, back, finish) && b in cfg.succs && k < |cfg.succs[b]| && TopIs(stack, b, k)
    ensures Scanned(cfg, Advanced(stack) + [(cfg.succs[b][k], 0)], back, finish)
  {
    var next := Advanced(stack) + [(cfg.succs[b][k], 0)];
    forall i, j | 0 <= i < |next| && next[i].0 in cfg.succs && 0 <= j < next[i].1 && j < |cfg.succs[next[i].0]|
      ensures ScannedAt(cfg, next, back, finish, i, j)
    {
      if j < stack[i].1 { assert ScannedAt(cfg, stack, back, finish, i, j); }
    }
  }

  lemma Push(cfg: Cfg, stack: seq<(nat, nat)>, colors: map<nat, Color>, back: Edges, finish: map<nat, nat>, b: nat, k: nat)
    requires cfg.Valid() && Invariant(cfg, stack, colors, back, finish)
    requires b in cfg.succs && k < |cfg.succs[b]| && TopIs(stack, b, k) && ColorOf(colors, cfg.succs[b][k]) == White
    ensures var v := cfg.succs[b][k];
            Invariant(cfg, Advanced(stack) + [(v, 0)], colors[v := Gray], back, finish)
  {
    var v := cfg.succs[b][k];
    assert ColorOf(colors, b) == Gray;
    assert (b, v) in cfg.EdgeSet();
    assert Finished(cfg, colors[v := Gray], back, finish);
    hide OnStack, Finished, Scanned;
    ReachesStep(cfg.EdgeSet(), cfg.entry, b, v);
    AdvanceKeeps(cfg, stack, colors, b, k);
    PushStack(cfg, Advanced(stack), colors, v);
    PushScanned(cfg, stack, back, finish, b, k);
  }

  lemma StackWalk(cfg: Cfg, stack: seq<(nat, nat)>, colors: map<nat, Color>, i: nat)
    requires OnStack(cfg, stack, colors) && i < |stack|
    ensures Reaches(cfg.EdgeSet(), stack[i].0, stack[|stack| - 1].0)
  {
    var p := seq(|stack|, j requires 0 <= j < |stack| => stack[j].0);
    assert IsWalk(cfg.EdgeSet(), p);
    WalkReaches(cfg.EdgeSet(), p, i, |stack| - 1);
  }

  lemma AdvanceKeeps(cfg: Cfg, stack: seq<(nat, nat)>, colors: map<nat, Color>, b: nat, k: nat)
    requires OnStack(cfg, stack, colors) && b in cfg.succs && k < |cfg.succs[b]| && TopIs(stack, b, k)
    ensures OnStack(cfg, Advanced(stack), colors)
  {
    var next := Advanced(stack);
    forall c | ColorOf(colors, c) == Gray ensures InStack(next, c) {
      assert InStack(stack, c);
      var i :| 0 <= i < |stack| && stack[i].0 == c;
      assert next[i].0 == stack[i].0;
    }
  }

  lemma AdvanceScanned(cfg: Cfg, stack: seq<(nat, nat)>, back: Edges, finish: map<nat, nat>, b: nat, k: nat)
    requires Scanned(cfg, stack, back, finish) && b in cfg.succs && k < |cfg.succs[b]| && TopIs(stack, b, k)
    requires Settled(back, finish, b, cfg.succs[b][k])
    ensures Scanned(cfg, Advanced(stack), back, finish)
  {
    var next := Advanced(stack);
    forall i, j | 0 <= i < |next| && next[i].0 in cfg.succs && 0 <= j < next[i].1 && j < |cfg.succs[next[i].0]|
      ensures ScannedAt(cfg, next, back, finish, i, j)
    {
      if j < stack[i].1 { assert ScannedAt(cfg, stack, back, finish, i, j); }
    }
  }

  lemma MoreBack(cfg: Cfg, stack: seq<(nat, nat)>, colors: map<nat, Color>, back: Edges, more: Edges, finish: map<nat, nat>)
    requires Finished(cfg, colors, back, finish) && Scanned(cfg, stack, back, finish) && back <= more
    ensures Finished(cfg, colors, more, finish) && Scanned(cfg, stack, more, finish)
  {
    forall c, v | c in finish && c in cfg.succs && v in cfg.succs[c] ensures Settled(more, finish, c, v) {
      assert Settled(back, finish, c, v);
    }
    forall i, j | 0 <= i < |stack| && stack[i].0 in cfg.succs && 0 <= j < stack[i].1 && j < |cfg.succs[stack[i].0]|
      ensures ScannedAt(cfg, stack, more, finish, i, j)
    {
      assert ScannedAt(cfg, stack, back, finish, i, j);
    }
  }

  lemma Found(cfg: Cfg, stack: seq<(nat, nat)>, colors: map<nat, Color>, back: Edges, finish: map<nat, nat>, b: nat, k: nat)
    requires cfg.Valid() && Invariant(cfg, stack, colors, back, finish)
    requires b in cfg.succs && k < |cfg.succs[b]| && TopIs(stack, b, k) && ColorOf(colors, cfg.succs[b][k]) == Gray
    ensures Invariant(cfg, Advanced(stack), colors, back + {(b, cfg.succs[b][k])}, finish)
  {
    var v := cfg.succs[b][k];
    assert (b, v) in cfg.EdgeSet();
    assert ColorOf(colors, b) == Gray && InStack(stack, v);
    var i :| 0 <= i < |stack| && stack[i].0 == v;
    hide OnStack, Finished, Scanned;
    StackWalk(cfg, stack, colors, i);
    AdvanceKeeps(cfg, stack, colors, b, k);
    MoreBack(cfg, stack, colors, back, back + {(b, v)}, finish);
    AdvanceScanned(cfg, stack, back + {(b, v)}, finish, b, k);
  }

  lemma Skip(cfg: Cfg, stack: seq<(nat, nat)>, colors: map<nat, Color>, back: Edges, finish: map<nat, nat>, b: nat, k: nat)
    requires cfg.Valid() && Invariant(cfg, stack, colors, back, finish)
    requires b in cfg.succs && k < |cfg.succs[b]| && TopIs(stack, b, k) && ColorOf(colors, cfg.succs[b][k]) == Black
    ensures Invariant(cfg, Advanced(stack), colors, back, finish)
  {
    assert ColorOf(colors, b) == Gray && b !in finish && cfg.succs[b][k] in finish;
    hide OnStack, Finished, Scanned;
    AdvanceKeeps(cfg, stack, colors, b, k);
    AdvanceScanned(cfg, stack, back, finish, b, k);
  }

  // ---------------------------------------------------------------- termination

  ghost predicate InRange(cfg: Cfg, stack: seq<(nat, nat)>) {
    forall i :: 0 <= i < |stack| ==> stack[i].0 in cfg.succs && stack[i].1 <= |cfg.succs[stack[i].0]|
  }

  /** The steps left for the blocks on the stack. */
  ghost function Work(cfg: Cfg, stack: seq<(nat, nat)>): nat
    requires InRange(cfg, stack)
  {
    if stack == [] then 0
    else
      var (b, k) := stack[|stack| - 1];
      Work(cfg, stack[..|stack| - 1]) + |cfg.succs[b]| - k + 1
  }

  ghost function Unseen(cfg: Cfg, colors: map<nat, Color>): set<nat> {
    set b | b in cfg.succs && ColorOf(colors, b) == White
  }

  lemma WorkShrinks(cfg: Cfg, stack: seq<(nat, nat)>, b: nat, k: nat)
    requires InRange(cfg, stack) && b in cfg.succs && TopIs(stack, b, k)
    ensures InRange(cfg, stack[..|stack| - 1]) && Work(cfg, stack[..|stack| - 1]) < Work(cfg, stack)
    ensures k < |cfg.succs[b]| ==> InRange(cfg, Advanced(stack)) && Work(cfg, Advanced(stack)) < Work(cfg, stack)
  {
    if k < |cfg.succs[b]| { assert Advanced(stack)[..|stack| - 1] == stack[..|stack| - 1]; }
  }

  lemma UnseenShrinks(cfg: Cfg, colors: map<nat, Color>, b: nat, c: Color)
    requires b in cfg.succs && c != White
    ensures if ColorOf(colors, b) == White then |Unseen(cfg, colors[b := c])| < |Unseen(cfg, colors)|
            else Unseen(cfg, colors[b := c]) == Unseen(cfg, colors)
  {
    if ColorOf(colors, b) == White {
      assert b in Unseen(cfg, colors) && Unseen(cfg, colors[b := c]) == Unseen(cfg, colors) - {b};
    } else {
      assert forall v :: v in Unseen(cfg, colors[b := c]) <==> v in Unseen(cfg, colors);
    }
  }

  // ---------------------------------------------------------------- the scan

  /** What the edges returned mean: each lies on a cycle of reachable blocks, and finishing order
      strictly decreases along every other edge of every reachable block. */
  ghost predicate Cuts(cfg: Cfg, back: Edges, finish: map<nat, nat>) {
    && (forall e :: e in back ==>
          e in cfg.EdgeSet() && Reaches(cfg.EdgeSet(), cfg.entry, e.0) && Reaches(cfg.EdgeSet(), e.1, e.0))
    && (forall b :: b in finish <==> b in cfg.succs && Reaches(cfg.EdgeSet(), cfg.entry, b))
    && (forall b, v :: b in finish && (b, v) in cfg.EdgeSet() && (b, v) !in back ==> v in finish && finish[v] < finish[b])
  }

  lemma Finishes(cfg: Cfg, colors: map<nat, Color>, back: Edges, finish: map<nat, nat>)
    requires cfg.Valid() && cfg.succs != map[] && Invariant(cfg, [], colors, back, finish)
    ensures Cuts(cfg, back, finish)
  {
    forall b | Reaches(cfg.EdgeSet(), cfg.entry, b) ensures b in finish {
      forall u: nat, v: nat | u in finish.Keys && (u, v) in cfg.EdgeSet() ensures v in finish.Keys {
        assert Settled(back, finish, u, v);
      }
      ClosedContains(cfg.EdgeSet(), finish.Keys, cfg.entry, b);
    }
    forall b, v | b in finish && (b, v) in cfg.EdgeSet() && (b, v) !in back ensures v in finish && finish[v] < finish[b] {
      assert Settled(back, finish, b, v);
    }
  }

  lemma TopOfStack(cfg: Cfg, stack: seq<(nat, nat)>, colors: map<nat, Color>, b: nat, k: nat)
    requires cfg.Valid() && OnStack(cfg, stack, colors) && TopIs(stack, b, k)
    ensures b in cfg.succs && k <= |cfg.succs[b]| && ColorOf(colors, b) == Gray
    ensures k < |cfg.succs[b]| ==> cfg.succs[b][k] in cfg.succs
  {}

  lemma PushInRange(cfg: Cfg, stack: seq<(nat, nat)>, v: nat)
    requires InRange(cfg, stack) && v in cfg.succs
    ensures InRange(cfg, stack + [(v, 0)])
  {}

  lemma Starts(cfg: Cfg)
    requires cfg.Valid() && cfg.succs != map[]
    ensures Invariant(cfg, [(cfg.entry, 0)], map[cfg.entry := Gray], {}, map[])
  {
    ReachesSelf(cfg.EdgeSet(), cfg.entry);
    assert [(cfg.entry, 0)][0].0 == cfg.entry;
    assert InStack([(cfg.entry, 0)], cfg.entry);
  }

  method FindBackEdges(cfg: Cfg) returns (back: Edges, ghost finish: map<nat, nat>)
    requires cfg.Valid()
    ensures Cuts(cfg, back, finish)
    ensures forall e :: e in back ==> ClosesReachableCycle(cfg, e)
    ensures BreaksEveryCycle(cfg, back)
  {
    back, finish := {}, map[];
    if cfg.succs == map[] {
      NothingToCut(cfg);
      CutsMeans(cfg, back, finish);
      return;
    }
    var colors: map<nat, Color> := map[cfg.entry := Gray];
    var stack := [(cfg.entry, 0)];
    Starts(cfg);
    while stack != []
      invariant Invariant(cfg, stack, colors, back, finish) && InRange(cfg, stack)
      decreases |Unseen(cfg, colors)|, Work(cfg, stack)
    {
      var (b, k) := stack[|stack| - 1];
      TopOfStack(cfg, stack, colors, b, k);
      hide *;
      WorkShrinks(cfg, stack, b, k);
      if k == |cfg.succs[b]| {
        Pop(cfg, stack, colors, back, finish, b);
        UnseenShrinks(cfg, colors, b, Black);
        colors, finish, stack := colors[b := Black], finish[b := |finish|], stack[..|stack| - 1];
      } else {
        var v := cfg.succs[b][k];
        if ColorOf(colors, v) == White {
          Push(cfg, stack, colors, back, finish, b, k);
          UnseenShrinks(cfg, colors, v, Gray);
          PushInRange(cfg, Advanced(stack), v);
          colors, stack := colors[v := Gray], Advanced(stack) + [(v, 0)];
        } else if ColorOf(colors, v) == Gray {
          Found(cfg, stack, colors, back, finish, b, k);
          back, stack := back + {(b, v)}, Advanced(stack);
        } else {
          Skip(cfg, stack, colors, back, finish, b, k);
          stack := Advanced(stack);
        }
      }
    }
    Finishes(cfg, colors, back, finish);
    CutsMeans(cfg, back, finish);
  }

  // ---------------------------------------------------------------- cycles

  ghost predicate ClosesReachableCycle(cfg: Cfg, e: (nat, nat)) {
    e in cfg.EdgeSet() && Reaches(cfg.EdgeSet(), cfg.entry, e.0) && Reaches(cfg.EdgeSet(), e.1, e.0)
  }

  ghost predicate BreaksEveryCycle(cfg: Cfg, back: Edges) {
    forall p :: IsCycle(cfg.EdgeSet(), p) && Reaches(cfg.EdgeSet(), cfg.entry, p[0]) ==> UsesEdgeOf(p, back)
  }

  lemma CutsMeans(cfg: Cfg, back: Edges, finish: map<nat, nat>)
    requires Cuts(cfg, back, finish)
    ensures (forall e :: e in back ==> ClosesReachableCycle(cfg, e)) && BreaksEveryCycle(cfg, back)
  {
    forall p | IsCycle(cfg.EdgeSet(), p) && Reaches(cfg.EdgeSet(), cfg.entry, p[0]) ensures UsesEdgeOf(p, back) {
      EveryCycleIsCut(cfg, back, finish, p);
    }
  }

  lemma NothingToCut(cfg: Cfg)
    requires cfg.succs == map[]
    ensures Cuts(cfg, {}, map[])
  {}

  lemma {:induction false} FinishDecreases(cfg: Cfg, back: Edges, finish: map<nat, nat>, p: seq<nat>)
    requires Cuts(cfg, back, finish) && IsWalk(cfg.EdgeSet(), p) && p[0] in finish && !UsesEdgeOf(p, back)
    ensures p[|p| - 1] in finish && finish[p[|p| - 1]] + |p| - 1 <= finish[p[0]]
  {
    if |p| > 1 {
      var front := p[..|p| - 1];
      forall i | 0 <= i < |front| - 1 ensures (front[i], front[i + 1]) !in back {
        assert (p[i], p[i + 1]) !in back;
      }
      FinishDecreases(cfg, back, finish, front);
      assert (p[|p| - 2], p[|p| - 1]) !in back;
      assert front[|front| - 1] == p[|p| - 2];
    }
  }

  /** Every cycle reachable from the entry contains a returned edge, reducible or not. */
  lemma EveryCycleIsCut(cfg: Cfg, back: Edges, finish: map<nat, nat>, p: seq<nat>)
    requires Cuts(cfg, back, finish) && IsCycle(cfg.EdgeSet(), p) && Reaches(cfg.EdgeSet(), cfg.entry, p[0])
    ensures UsesEdgeOf(p, back)
  {
    assert (p[0], p[1]) in cfg.EdgeSet();
    if !UsesEdgeOf(p, back) { FinishDecreases(cfg, back, finish, p); }
  }

  /** Each block of the sequence lists the next one among its successors. */
  ghost predicate Follows(cfg: Cfg, p: seq<nat>) {
    p != [] && forall i :: 0 <= i < |p| - 1 ==> ListsNext(cfg, p[i], p[i + 1])
  }

  ghost predicate ListsNext(cfg: Cfg, u: nat, v: nat) { u in cfg.succs && exists k :: 0 <= k < |cfg.succs[u]| && cfg.succs[u][k] == v }

  lemma FollowsIsWalk(cfg: Cfg, p: seq<nat>)
    ensures Follows(cfg, p) <==> IsWalk(cfg.EdgeSet(), p)
  {
    forall u: nat, v: nat ensures ListsNext(cfg, u, v) <==> (u, v) in cfg.EdgeSet() {}
  }

  /** However control gets from the entry to a block and back to it, it takes a returned edge on the way
      back. */
  lemma LoopIsCut(cfg: Cfg, back: Edges, finish: map<nat, nat>, p: seq<nat>, c: seq<nat>)
    requires Cuts(cfg, back, finish) && Follows(cfg, p) && p[0] == cfg.entry
    requires Follows(cfg, c) && |c| >= 2 && c[0] == p[|p| - 1] && c[|c| - 1] == c[0]
    ensures exists i :: 0 <= i < |c| - 1 && (c[i], c[i + 1]) in back
  {
    FollowsIsWalk(cfg, p);
    FollowsIsWalk(cfg, c);
    assert WalkFromTo(cfg.EdgeSet(), p, cfg.entry, c[0]);
    EveryCycleIsCut(cfg, back, finish, c);
  }

  /** And each returned edge is taken on the way back to some block control can reach. */
  lemma CutClosesLoop(cfg: Cfg, back: Edges, finish: map<nat, nat>, e: (nat, nat)) returns (p: seq<nat>, c: seq<nat>)
    requires Cuts(cfg, back, finish) && e in back
    ensures Follows(cfg, p) && p[0] == cfg.entry && p[|p| - 1] == e.0
    ensures Follows(cfg, c) && |c| >= 2 && c[0] == e.0 && c[1] == e.1 && c[|c| - 1] == e.0
  {
    p :| WalkFromTo(cfg.EdgeSet(), p, cfg.entry, e.0);
    var q :| WalkFromTo(cfg.EdgeSet(), q, e.1, e.0);
    c := [e.0] + q;
    FollowsIsWalk(cfg, p);
    FollowsIsWalk(cfg, c);
  }

  /** The scan returns nothing exactly when no cycle is reachable. */
  lemma NoneIffAcyclic(cfg: Cfg, back: Edges, finish: map<nat, nat>)
    requires Cuts(cfg, back, finish)
    ensures back == {} <==> forall p :: IsCycle(cfg.EdgeSet(), p) ==> !Reaches(cfg.EdgeSet(), cfg.entry, p[0])
  {
    if back == {} {
      forall p | IsCycle(cfg.EdgeSet(), p) ensures !Reaches(cfg.EdgeSet(), cfg.entry, p[0]) {
        if Reaches(cfg.EdgeSet(), cfg.entry, p[0]) {
          EveryCycleIsCut(cfg, back, finish, p);
        }
      }
    } else {
      var e :| e in back;
      var p :| WalkFromTo(cfg.EdgeSet(), p, e.1, e.0);
      var c := [e.0] + p;
      assert IsCycle(cfg.EdgeSet(), c) && Reaches(cfg.EdgeSet(), cfg.entry, c[0]);
    }
  }

  /** The edges of reachable blocks that the scan did not return. */
  ghost function OpenEdges(cfg: Cfg, back: Edges): Edges {
    set x | x in cfg.EdgeSet() && x !in back && Reaches(cfg.EdgeSet(), cfg.entry, x.0)
  }

  /** Without the returned edges no cycle is left among the reachable blocks. */
  lemma OpenEdgesAcyclic(cfg: Cfg, back: Edges, finish: map<nat, nat>)
    requires Cuts(cfg, back, finish)
    ensures Acyclic(OpenEdges(cfg, back))
  {
    forall p ensures !IsCycle(OpenEdges(cfg, back), p) {
      if IsCycle(OpenEdges(cfg, back), p) {
        assert (p[0], p[1]) in OpenEdges(cfg, back);
        EveryCycleIsCut(cfg, back, finish, p);
      }
    }
  }

  // ---------------------------------------------------------------- the blocks of a loop

  /** `next` lists the blocks one step away; `e` are the same steps as edges. */
  ghost predicate Lists(next: map<nat, seq<nat>>, e: Edges) {
    forall u: nat, v: nat :: (u, v) in e <==> u in next && v in next[u]
  }

  /** Reachable over at least one edge. */
  ghost predicate ReachesOn(e: Edges, a: nat, b: nat) { exists u: nat :: Reaches(e, a, u) && (u, b) in e }

  ghost predicate SweepInvariant(next: map<nat, seq<nat>>, e: Edges, start: nat, work: seq<nat>, seen: set<nat>, open: Edges) {
    && seen <= next.Keys
    && (forall b :: b in seen ==> ReachesOn(e, start, b))
    && (forall b :: b in work ==> b == start || b in seen)
    && (forall u, v :: (u == start || u in seen) && u in next && v in next[u] ==> u in work || v in seen || (u, v) in open)
  }

  /** Everything reachable from `start` over at least one step. */
  method Sweep(next: map<nat, seq<nat>>, ghost e: Edges, start: nat) returns (seen: set<nat>)
    requires Lists(next, e) && start in next && forall u, v :: u in next && v in next[u] ==> v in next
    ensures forall b :: b in seen <==> ReachesOn(e, start, b)
  {
    seen := {};
    var work := [start];
    ReachesSelf(e, start);
    SweepStarts(next, e, start);
    while work != []
      invariant SweepInvariant(next, e, start, work, seen, {}) && seen <= next.Keys
      decreases |next.Keys - seen|, |work|
    {
      var b := work[|work| - 1];
      SweepPop(next, e, start, work, seen);
      work := work[..|work| - 1];
      ghost var seen0, work0 := seen, work;
      for k := 0 to |next[b]|
        invariant SweepInvariant(next, e, start, work, seen, Onward(next, b, k))
        invariant seen0 <= seen <= next.Keys && (seen == seen0 ==> work == work0)
      {
        var v := next[b][k];
        hide SweepInvariant;
        SweepStep(next, e, start, work, seen, b, k);
        if v !in seen {
          seen, work := seen + {v}, work + [v];
        }
      }
      assert Onward(next, b, |next[b]|) == {};
      if seen != seen0 { Smaller(next.Keys - seen, next.Keys - seen0); }
    }
    AllSwept(next, e, start, seen);
  }

  /** The steps from `b` not yet taken. */
  ghost function Onward(next: map<nat, seq<nat>>, b: nat, k: nat): Edges
    requires b in next && k <= |next[b]|
  {
    set v | v in next[b][k..] :: (b, v)
  }

  lemma SweepStarts(next: map<nat, seq<nat>>, e: Edges, start: nat)
    requires Lists(next, e) && start in next
    ensures SweepInvariant(next, e, start, [start], {}, {})
  {
    ReachesSelf(e, start);
  }

  lemma SweepPop(next: map<nat, seq<nat>>, e: Edges, start: nat, work: seq<nat>, seen: set<nat>)
    requires SweepInvariant(next, e, start, work, seen, {}) && work != [] && start in next
    ensures var b := work[|work| - 1];
            b in next && SweepInvariant(next, e, start, work[..|work| - 1], seen, Onward(next, b, 0))
  {
    var rest, b := work[..|work| - 1], work[|work| - 1];
    assert work == rest + [b];
    assert b == start || b in seen;
    assert next[b][0..] == next[b];
  }

  lemma SweepStep(next: map<nat, seq<nat>>, e: Edges, start: nat, work: seq<nat>, seen: set<nat>, b: nat, k: nat)
    requires Lists(next, e) && b in next && k < |next[b]| && SweepInvariant(next, e, start, work, seen, Onward(next, b, k))
    requires (b == start || b in seen) && next[b][k] in next
    ensures var v := next[b][k];
            SweepInvariant(next, e, start, if v in seen then work else work + [v], seen + {v}, Onward(next, b, k + 1))
  {
    var v := next[b][k];
    assert next[b][k..] == [v] + next[b][k + 1..];
    StepFromSeen(e, start, seen, b, v);
    var seen', work' := seen + {v}, if v in seen then work else work + [v];
    forall u: nat, w: nat | (u == start || u in seen') && u in next && w in next[u]
      ensures u in work' || w in seen' || (u, w) in Onward(next, b, k + 1)
    {
      if u == start || u in seen { assert u in work || w in seen || (u, w) in Onward(next, b, k); }
    }
  }

  lemma StepFromSeen(e: Edges, start: nat, seen: set<nat>, b: nat, v: nat)
    requires (b == start || b in seen) && (b, v) in e && forall c :: c in seen ==> ReachesOn(e, start, c)
    ensures ReachesOn(e, start, v)
  {
    if b == start {
      ReachesSelf(e, start);
    } else {
      var u: nat :| Reaches(e, start, u) && (u, b) in e;
      ReachesStep(e, start, u, b);
    }
  }

  lemma AllSwept(next: map<nat, seq<nat>>, e: Edges, start: nat, seen: set<nat>)
    requires Lists(next, e) && SweepInvariant(next, e, start, [], seen, {})
    ensures forall b :: b in seen <==> ReachesOn(e, start, b)
  {
    forall b | ReachesOn(e, start, b) ensures b in seen {
      var u: nat :| Reaches(e, start, u) && (u, b) in e;
      ClosedContains(e, seen + {start}, start, u);
    }
  }

  lemma {:induction false} Reversed(e: Edges, f: Edges, a: nat, b: nat)
    requires Reaches(e, a, b) && forall u: nat, v: nat :: (u, v) in e ==> (v, u) in f
    ensures Reaches(f, b, a)
  {
    var p :| WalkFromTo(e, p, a, b);
    ReversedWalk(e, f, p);
  }

  lemma {:induction false} ReversedWalk(e: Edges, f: Edges, p: seq<nat>)
    requires IsWalk(e, p) && forall u: nat, v: nat :: (u, v) in e ==> (v, u) in f
    ensures Reaches(f, p[|p| - 1], p[0])
  {
    if |p| == 1 {
      ReachesSelf(f, p[0]);
    } else {
      ReversedWalk(e, f, p[1..]);
      assert (p[0], p[1]) in e;
      ReachesStep(f, p[|p| - 1], p[1], p[0]);
    }
  }

  /** The blocks that the header reaches and that reach the header. */
  method ComputeLoopBody(cfg: Cfg, preds: map<nat, seq<nat>>, h: nat) returns (body: set<nat>)
    requires cfg.Valid() && h in cfg.succs && IsMirror(cfg.succs, preds)
    ensures forall b :: b in body <==> Reaches(cfg.EdgeSet(), h, b) && Reaches(cfg.EdgeSet(), b, h)
  {
    ghost var e, f := cfg.EdgeSet(), StepsOf(preds);
    ListsSteps(cfg, preds);
    Mirrored(cfg, preds, e, f);
    assert h in preds;
    hide *;
    var fwd := Sweep(cfg.succs, e, h);
    var bwd := Sweep(preds, f, h);
    body := {h} + (fwd * bwd);
    forall b ensures b in body <==> Reaches(e, h, b) && Reaches(e, b, h) { InBody(e, f, fwd, bwd, h, b); }
  }

  ghost predicate IsMirror(succs: map<nat, seq<nat>>, preds: map<nat, seq<nat>>) {
    && preds.Keys == succs.Keys
    && (forall u, v :: u in succs && v in succs[u] ==> v in preds && u in preds[v])
    && (forall u, v :: v in preds && u in preds[v] ==> u in succs && v in succs[u])
  }

  ghost function StepsOf(next: map<nat, seq<nat>>): Edges { set u, v | u in next && v in next[u] :: (u, v) }

  lemma ListsSteps(cfg: Cfg, preds: map<nat, seq<nat>>)
    ensures Lists(cfg.succs, cfg.EdgeSet()) && Lists(preds, StepsOf(preds))
  {}

  lemma Mirrored(cfg: Cfg, preds: map<nat, seq<nat>>, e: Edges, f: Edges)
    requires IsMirror(cfg.succs, preds) && Lists(cfg.succs, e) && Lists(preds, f)
    ensures forall u: nat, v: nat :: (u, v) in e <==> (v, u) in f
    ensures forall u, v :: u in cfg.succs && v in cfg.succs[u] ==> v in cfg.succs
    ensures forall u, v :: u in preds && v in preds[u] ==> v in preds
  {}

  lemma InBody(e: Edges, f: Edges, fwd: set<nat>, bwd: set<nat>, h: nat, b: nat)
    requires forall u: nat, v: nat :: (u, v) in e <==> (v, u) in f
    requires forall c :: (c in fwd <==> ReachesOn(e, h, c)) && (c in bwd <==> ReachesOn(f, h, c))
    ensures b in {h} + (fwd * bwd) <==> Reaches(e, h, b) && Reaches(e, b, h)
  {
    ReachesSelf(e, h);
    if b in fwd * bwd {
      var u: nat, w: nat :| Reaches(e, h, u) && (u, b) in e && Reaches(f, h, w) && (w, b) in f;
      ReachesStep(e, h, u, b);
      ReachesStep(f, h, w, b);
      Reversed(f, e, h, b);
    }
    if b != h && Reaches(e, h, b) && Reaches(e, b, h) {
      LastStep(e, h, b);
      Reversed(e, f, b, h);
      LastStep(f, h, b);
    }
  }

  lemma LastStep(e: Edges, a: nat, b: nat)
    requires a != b && Reaches(e, a, b)
    ensures ReachesOn(e, a, b)
  {
    var p :| WalkFromTo(e, p, a, b);
    WalkReaches(e, p, 0, |p| - 2);
    assert (p[|p| - 2], b) in e;
  }

  // ---------------------------------------------------------------- irreducible loops

  /** An edge the loop-bound pass may flag: its header is no loop header the compiler recognised, has
      no bound yet, and its loop body carries a pragma. */
  predicate IsEligible(recognised: set<nat>, bounds: map<nat, nat>, pragma: nat -> nat, e: (nat, nat)) {
    e.1 !in recognised && e.1 !in bounds && pragma(e.1) > 0
  }

  /** One edge of each header that has an eligible edge among `seen`, and the bound of the header. */
  ghost predicate OnePerHeader(recognised: set<nat>, before: map<nat, nat>, pragma: nat -> nat, seen: Edges, flagged: Edges, bounds: map<nat, nat>) {
    && flagged <= seen && (forall e :: e in flagged ==> IsEligible(recognised, before, pragma, e))
    && (forall d, e :: d in flagged && e in flagged && d.1 == e.1 ==> d == e)
    && (forall e :: e in seen && IsEligible(recognised, before, pragma, e) ==> HasFlagged(flagged, e.1))
    && (forall h :: h in bounds <==> h in before || HasFlagged(flagged, h))
    && (forall h :: h in before ==> bounds[h] == before[h])
    && (forall e :: e in flagged ==> e.1 in bounds && bounds[e.1] == pragma(e.1))
  }

  ghost predicate HasFlagged(flagged: Edges, h: nat) { exists e :: e in flagged && e.1 == h }

  lemma FlagOneMore(recognised: set<nat>, before: map<nat, nat>, pragma: nat -> nat, seen: Edges, flagged: Edges, bounds: map<nat, nat>, e: (nat, nat))
    requires OnePerHeader(recognised, before, pragma, seen, flagged, bounds)
    ensures if IsEligible(recognised, bounds, pragma, e)
            then OnePerHeader(recognised, before, pragma, seen + {e}, flagged + {e}, bounds[e.1 := pragma(e.1)])
            else OnePerHeader(recognised, before, pragma, seen + {e}, flagged, bounds)
  {
    if IsEligible(recognised, bounds, pragma, e) {
      assert !HasFlagged(flagged, e.1);
      forall h ensures HasFlagged(flagged + {e}, h) <==> HasFlagged(flagged, h) || h == e.1 {
        if HasFlagged(flagged, h) {
          var d :| d in flagged && d.1 == h;
          assert d in flagged + {e};
        }
        assert e in flagged + {e};
      }
      forall d | d in flagged ensures d.1 != e.1 { assert d in flagged && d.1 == d.1; }
    }
  }

  /** Bounds the headers of the loop-closing edges the compiler did not recognise. */
  method FlagIrreducible(back: Edges, recognised: set<nat>, before: map<nat, nat>, pragma: nat -> nat)
    returns (flagged: Edges, bounds: map<nat, nat>)
    ensures OnePerHeader(recognised, before, pragma, back, flagged, bounds)
    ensures forall e :: e in flagged ==>
              e in back && e.1 !in recognised && e.1 !in before && pragma(e.1) > 0 && e.1 in bounds && bounds[e.1] == pragma(e.1)
    ensures forall e :: e in back && e.1 !in recognised && e.1 !in before && pragma(e.1) > 0 ==>
              exists d :: d in flagged && d.1 == e.1 && forall x :: x in flagged && x.1 == e.1 ==> x == d
    ensures forall h :: h in before ==> h in bounds && bounds[h] == before[h]
    ensures forall h :: h in bounds && h !in before ==> exists e :: e in flagged && e.1 == h
  {
    hide OnePerHeader;
    flagged, bounds := {}, before;
    var todo := back;
    ghost var seen: Edges := {};
    FlagNothing(recognised, before, pragma);
    while todo != {}
      invariant seen + todo == back && OnePerHeader(recognised, before, pragma, seen, flagged, bounds)
      decreases |todo|
    {
      var e :| e in todo;
      Smaller(todo - {e}, todo);
      FlagOneMore(recognised, before, pragma, seen, flagged, bounds, e);
      if IsEligible(recognised, bounds, pragma, e) {
        bounds := bounds[e.1 := pragma(e.1)];
        flagged := flagged + {e};
      }
      todo, seen := todo - {e}, seen + {e};
    }
    assert seen == back;
    FlaggedOnce(recognised, before, pragma, back, flagged, bounds);
  }

  lemma FlaggedOnce(recognised: set<nat>, before: map<nat, nat>, pragma: nat -> nat, back: Edges, flagged: Edges, bounds: map<nat, nat>)
    requires OnePerHeader(recognised, before, pragma, back, flagged, bounds)
    ensures forall e :: e in flagged ==>
              e in back && e.1 !in recognised && e.1 !in before && pragma(e.1) > 0 && e.1 in bounds && bounds[e.1] == pragma(e.1)
    ensures forall e :: e in back && e.1 !in recognised && e.1 !in before && pragma(e.1) > 0 ==>
              exists d :: d in flagged && d.1 == e.1 && forall x :: x in flagged && x.1 == e.1 ==> x == d
    ensures forall h :: h in before ==> h in bounds && bounds[h] == before[h]
    ensures forall h :: h in bounds && h !in before ==> exists e :: e in flagged && e.1 == h
  {
    forall e | e in back && e.1 !in recognised && e.1 !in before && pragma(e.1) > 0
      ensures exists d :: d in flagged && d.1 == e.1 && forall x :: x in flagged && x.1 == e.1 ==> x == d
    {
      assert IsEligible(recognised, before, pragma, e) && HasFlagged(flagged, e.1);
      var d :| d in flagged && d.1 == e.1;
    }
  }

  lemma FlagNothing(recognised: set<nat>, before: map<nat, nat>, pragma: nat -> nat)
    ensures OnePerHeader(recognised, before, pragma, {}, {}, before)
  {}

  /** Every unrecognised loop-closing edge gets flagged exactly when each is eligible and no two lead
      into the same header. A second edge into a header stays unflagged, and with it its cycle. */
  lemma AllFlaggedIff(back: Edges, recognised: set<nat>, before: map<nat, nat>, pragma: nat -> nat, flagged: Edges, bounds: map<nat, nat>)
    requires OnePerHeader(recognised, before, pragma, back, flagged, bounds)
    ensures (forall e :: e in back && e.1 !in recognised ==> e in flagged) <==>
            (forall e :: e in back && e.1 !in recognised ==> e.1 !in before && pragma(e.1) > 0)
            && (forall d, e :: d in back && e in back && d.1 !in recognised && d.1 == e.1 ==> d == e)
  {
    forall e | e in back && IsEligible(recognised, before, pragma, e)
      && (forall d :: d in back && d.1 !in recognised && d.1 == e.1 ==> d == e) ensures e in flagged
    {
      assert HasFlagged(flagged, e.1);
      var d :| d in flagged && d.1 == e.1;
      assert d in back;
    }
  }

  /** Of two loop-closing edges into one header one stays unflagged, and with it a cycle that meets the
      header over no flagged edge. */
  lemma SecondEdgeLeavesCycle(cfg: Cfg, back: Edges, recognised: set<nat>, before: map<nat, nat>, pragma: nat -> nat,
                              flagged: Edges, bounds: map<nat, nat>, d: (nat, nat), e: (nat, nat)) returns (c: seq<nat>)
    requires OnePerHeader(recognised, before, pragma, back, flagged, bounds) && d in back && e in back && d != e && d.1 == e.1
    requires forall a :: a in back ==> ClosesReachableCycle(cfg, a)
    ensures IsCycle(cfg.EdgeSet(), c) && c[0] == e.1 && Reaches(cfg.EdgeSet(), cfg.entry, c[|c| - 2])
    ensures forall i :: 0 <= i < |c| - 1 && c[i + 1] == e.1 ==> (c[i], c[i + 1]) !in flagged
  {
    var a := if d in flagged then e else d;
    assert a in back && a !in flagged && a.1 == e.1;
    var q :| WalkFromTo(cfg.EdgeSet(), q, a.1, a.0);
    var k := LastVisit(q, a.1);
    c := q[k..] + [a.1];
    forall i | 0 <= i < |c| - 1 ensures (c[i], c[i + 1]) in cfg.EdgeSet() && (c[i + 1] == e.1 ==> (c[i], c[i + 1]) !in flagged) {
      if i < |c| - 2 { assert (q[k + i], q[k + i + 1]) in cfg.EdgeSet() && q[k + i + 1] != a.1; }
    }
  }

  lemma LastVisit(q: seq<nat>, h: nat) returns (k: nat)
    requires h in q
    ensures k < |q| && q[k] == h && forall i :: k < i < |q| ==> q[i] != h
  {
    k := |q| - 1;
    while q[k] != h
      invariant k < |q| && h in q[..k + 1] && forall i :: k < i < |q| ==> q[i] != h
      decreases k
    {
      assert q[..k + 1] == q[..k] + [q[k]];
      assert k > 0;
      k := k - 1;
    }
  }
}
