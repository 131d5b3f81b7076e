/** A weight on solver states that strictly falls whenever a state moves up in the order. */
module SolverMeasure {
  import opened AgeDomain
  import opened CacheGeometry
  import opened ReplacementPolicy
  import opened CacheStates
  import opened CacheAnalysis
  import opened Traces
  import opened Fixpoint

  // ---------------------------------------------------------------- the lines a function can touch

  function LinesIn(evs: seq<Event>): seq<Line> {
    if evs == [] then [] else LinesIn(evs[..|evs| - 1]) + (match evs[|evs| - 1] case Access(l) => [l] case Barrier(_) => [])
  }

  function Universe(f: Function, k: nat): seq<Line>
    requires k <= |f|
  {
    if k == 0 then [] else Universe(f, k - 1) + LinesIn(EventsOf(f, k - 1))
  }

  lemma {:induction false} LinesInExact(evs: seq<Event>, i: nat)
    requires i < |evs| && evs[i].Access?
    ensures evs[i].line in LinesIn(evs)
  {
    if i < |evs| - 1 { LinesInExact(evs[..|evs| - 1], i); }
  }

  lemma {:induction false} UniverseHas(f: Function, k: nat, n: nat, line: Line)
    requires n < k <= |f| && line in LinesIn(EventsOf(f, n))
    ensures line in Universe(f, k)
  {
    if n < k - 1 { UniverseHas(f, k - 1, n, line); }
  }

  ghost predicate Over(lines: seq<Line>, v: Value) { forall i, q :: 0 <= i < |v| && q in v[i] ==> q in lines }

  lemma {:induction false} TransferOver(su: Setup, v: Value, evs: seq<Event>, lines: seq<Line>)
    requires Solvable(su) && ValueShape(su, v) && Over(lines, v)
    requires forall i :: 0 <= i < |evs| && evs[i].Access? ==> evs[i].line in lines
    ensures Over(lines, Transfer(su, v, evs))
    decreases |evs|
  {
    if evs != [] {
      AfterEventShape(su, v, evs[0]);
      if evs[0].Access? {
        SetIndexInRange(su.geo, evs[0].line);
        PolicyTransfer(su, v[su.geo.SetIndex(evs[0].line)], evs[0].line);
      }
      TransferOver(su, AfterEvent(su, v, evs[0]), evs[1..], lines);
    }
  }

  lemma {:induction false} JoinAllOver(su: Setup, st: States, preds: seq<nat>, lines: seq<Line>)
    requires forall n :: 0 <= n < |st| ==> |st[n]| == su.geo.numSets && Over(lines, st[n])
    requires preds != [] && forall i :: 0 <= i < |preds| ==> preds[i] < |st|
    ensures Over(lines, JoinAll(su, st, preds))
    decreases |preds|
  {
    if |preds| > 1 { JoinAllOver(su, st, preds[..|preds| - 1], lines); }
  }

  lemma OutOver(su: Setup, f: Function, st: States, n: nat)
    requires Solvable(su) && Fits(su, st, f) && ShapedStates(su, st) && n < |f|
    requires forall m :: 0 <= m < |st| ==> Over(Universe(f, |f|), st[m])
    ensures Over(Universe(f, |f|), Out(su, f, st, n))
  {
    PredsInRange(f, n);
    if Preds(f, n) != [] { JoinAllOver(su, st, Preds(f, n), Universe(f, |f|)); }
    OutShape(su, f, st, n);
    var evs := EventsOf(f, n);
    forall i | 0 <= i < |evs| && evs[i].Access? ensures evs[i].line in Universe(f, |f|) {
      LinesInExact(evs, i);
      UniverseHas(f, |f|, n, evs[i].line);
    }
    TransferOver(su, In(su, f, st, n), evs, Universe(f, |f|));
  }

  // ---------------------------------------------------------------- weights

  /** The sum over `lines` of the age, or `ways` for a line that is not listed. */
  function Weight(lines: seq<Line>, ways: nat, m: Ages): nat {
    if lines == [] then 0
    else Weight(lines[1..], ways, m) + (if lines[0] in m then m[lines[0]] else ways)
  }

  lemma {:induction false} WeightFalls(lines: seq<Line>, ways: nat, a: Ages, b: Ages)
    requires Below(a, b) && Aged(ways, b)
    ensures Weight(lines, ways, b) <= Weight(lines, ways, a)
    ensures (exists q :: q in lines && q in b && (q !in a || b[q] < a[q])) ==> Weight(lines, ways, b) < Weight(lines, ways, a)
  {
    if lines != [] {
      assert lines == [lines[0]] + lines[1..];
      WeightFalls(lines[1..], ways, a, b);
    }
  }

  function ValueWeight(lines: seq<Line>, ways: nat, v: Value): nat {
    if v == [] then 0 else ValueWeight(lines, ways, v[..|v| - 1]) + Weight(lines, ways, v[|v| - 1])
  }

  lemma {:induction false} ValueWeightFalls(lines: seq<Line>, ways: nat, a: Value, b: Value)
    requires BelowValue(a, b) && Over(lines, b) && forall i :: 0 <= i < |b| ==> Aged(ways, b[i])
    ensures ValueWeight(lines, ways, b) <= ValueWeight(lines, ways, a)
    ensures a != b ==> ValueWeight(lines, ways, b) < ValueWeight(lines, ways, a)
  {
    if a != [] {
      var k := |a| - 1;
      ValueWeightFalls(lines, ways, a[..k], b[..k]);
      WeightFalls(lines, ways, a[k], b[k]);
      if a[k] != b[k] {
        StrictSomewhere(a[k], b[k]);
      } else if a != b {
        assert a == a[..k] + [a[k]] && b == b[..k] + [b[k]];
      }
    }
  }

  lemma StrictSomewhere(a: Ages, b: Ages)
    requires Below(a, b) && a != b
    ensures exists q :: q in b && (q !in a || b[q] < a[q])
  {
    if forall q :: q in b ==> q in a && b[q] == a[q] { BelowAntisymmetric(a, b); }
  }

  function StatesWeight(lines: seq<Line>, ways: nat, st: States): nat {
    if st == [] then 0 else StatesWeight(lines, ways, st[..|st| - 1]) + ValueWeight(lines, ways, st[|st| - 1])
  }

  lemma {:induction false} StatesWeightUpdate(lines: seq<Line>, ways: nat, st: States, n: nat, v: Value)
    requires n < |st|
    ensures StatesWeight(lines, ways, st[n := v]) + ValueWeight(lines, ways, st[n]) ==
            StatesWeight(lines, ways, st) + ValueWeight(lines, ways, v)
  {
    var k := |st| - 1;
    if n < k {
      StatesWeightUpdate(lines, ways, st[..k], n, v);
      assert st[n := v][..k] == st[..k][n := v];
    } else {
      assert st[n := v][..k] == st[..k];
    }
  }

  /** Replacing one value by a larger, different one strictly lowers the weight. */
  lemma ProgressLowersWeight(su: Setup, f: Function, st: States, n: nat, v: Value)
    requires n < |st| && BelowValue(st[n], v) && v != st[n]
    requires ValueShape(su, v) && Over(Universe(f, |f|), v)
    ensures StatesWeight(Universe(f, |f|), WaysOf(su.policy), st[n := v]) < StatesWeight(Universe(f, |f|), WaysOf(su.policy), st)
  {
    ValueWeightFalls(Universe(f, |f|), WaysOf(su.policy), st[n], v);
    StatesWeightUpdate(Universe(f, |f|), WaysOf(su.policy), st, n, v);
  }
}
