/** What a real cache set may do, and what an abstract value says about it.

    A concrete set is the sequence of its resident lines; for LRU the most recently used line
    comes first, so a line's index is its age. */
module Hardware {
  import opened AgeDomain

  type Queue = seq<Line>

  /** `Lru(k)` keeps the k most recently used lines. `Fifo(k)` keeps the k most recently inserted
      ones. `Adversary` drops nothing on a hit and may drop any other lines on an insertion. */
  datatype Hardware = Lru(ways: nat) | Fifo(ways: nat) | Adversary

  // ---------------------------------------------------------------- LRU queue

  function Truncate(ways: nat, c: Queue): Queue { if |c| <= ways then c else c[..ways] }

  function Remove(c: Queue, line: Line): Queue {
    if c == [] then []
    else if c[0] == line then c[1..]
    else [c[0]] + Remove(c[1..], line)
  }

  function Touch(ways: nat, c: Queue, line: Line): Queue {
    if line in c then [line] + Remove(c, line) else Truncate(ways, [line] + c)
  }

  /** The age of `line`: its index, or the queue length when it is not resident. */
  function Age(c: Queue, line: Line): nat {
    if c == [] || c[0] == line then 0 else 1 + Age(c[1..], line)
  }

  ghost predicate Distinct(c: Queue) { forall i, j :: 0 <= i < j < |c| ==> c[i] != c[j] }

  /** A state a set of this hardware can be in. */
  ghost predicate Possible(hw: Hardware, c: Queue) {
    Distinct(c) && (!hw.Adversary? ==> hw.ways >= 1 && |c| <= hw.ways)
  }

  /** `c'` is a possible successor of `c` when `line` is accessed. */
  ghost predicate Accessed(hw: Hardware, c: Queue, line: Line, c': Queue) {
    match hw
    case Lru(ways) => c' == Touch(ways, c, line)
    case Fifo(ways) => c' == if line in c then c else Truncate(ways, [line] + c)
    case Adversary =>
      if line in c then
        forall q :: q in c' <==> q in c
      else
        line in c' && forall q :: q in c' ==> q == line || q in c
  }

  // ---------------------------------------------------------------- ages under an access

  lemma {:induction false} AgeBound(c: Queue, line: Line)
    ensures Age(c, line) <= |c|
    ensures line in c <==> Age(c, line) < |c|
    ensures line in c ==> c[Age(c, line)] == line
  {
    if c != [] && c[0] != line {
      AgeBound(c[1..], line);
      assert c == [c[0]] + c[1..];
    }
  }

  lemma {:induction false} AgeInjective(c: Queue, a: Line, b: Line)
    requires a in c && a != b
    ensures Age(c, a) != Age(c, b)
  {
    AgeBound(c, a);
    AgeBound(c, b);
  }

  lemma {:induction false} AgeAt(c: Queue, i: nat)
    requires Distinct(c) && i < |c|
    ensures Age(c, c[i]) == i
  {
    AgeBound(c, c[i]);
  }

  lemma {:induction false} RemoveAge(c: Queue, line: Line, q: Line)
    requires Distinct(c) && line in c && q != line
    ensures |Remove(c, line)| == |c| - 1
    ensures Age(Remove(c, line), q) == if Age(c, line) < Age(c, q) then Age(c, q) - 1 else Age(c, q)
    ensures q in Remove(c, line) <==> q in c
  {
    assert c == [c[0]] + c[1..];
    if c[0] == line {
    } else {
      assert Distinct(c[1..]);
      RemoveAge(c[1..], line, q);
      var r := Remove(c, line);
      assert r[0] == c[0] && r[1..] == Remove(c[1..], line);
      AgeBound(c[1..], line);
    }
  }

  lemma {:induction false} RemoveDistinct(c: Queue, line: Line)
    requires Distinct(c)
    ensures Distinct(Remove(c, line)) && line !in Remove(c, line)
    ensures forall q :: q in Remove(c, line) ==> q in c
  {
    if c != [] {
      assert c == [c[0]] + c[1..];
      assert Distinct(c[1..]);
      if c[0] == line {
        assert line !in c[1..];
      } else {
        RemoveDistinct(c[1..], line);
        assert c[0] !in c[1..];
        assert c[0] !in Remove(c[1..], line);
      }
    }
  }

  /** What an LRU access does to the age of every line. */
  lemma TouchAge(ways: nat, c: Queue, line: Line, q: Line)
    requires Possible(Lru(ways), c)
    ensures Possible(Lru(ways), Touch(ways, c, line))
    ensures line in Touch(ways, c, line) && Age(Touch(ways, c, line), line) == 0
    ensures q != line && line in c ==>
              && (q in Touch(ways, c, line) <==> q in c)
              && (q in c ==>
                    Age(Touch(ways, c, line), q) == if Age(c, q) < Age(c, line) then Age(c, q) + 1 else Age(c, q))
    ensures q != line && line !in c ==>
              && (q in Touch(ways, c, line) <==> q in c && Age(c, q) + 1 < ways)
              && (q in Touch(ways, c, line) ==> Age(Touch(ways, c, line), q) == Age(c, q) + 1)
  {
    var t := Touch(ways, c, line);
    if line in c {
      RemoveDistinct(c, line);
      if q != line {
        RemoveAge(c, line, q);
        assert t[1..] == Remove(c, line);
        if q in c { AgeInjective(c, q, line); }
      } else if |c| > 1 {
        var o := if c[0] == line then c[1] else c[0];
        RemoveAge(c, line, o);
      } else {
        assert c == [line];
      }
    } else {
      var full := [line] + c;
      assert full[1..] == c;
      TruncateAge(ways, full, q);
      TruncateAge(ways, full, line);
      AgeBound(c, q);
    }
  }

  lemma {:induction false} TruncateAge(ways: nat, c: Queue, q: Line)
    requires Distinct(c)
    ensures Distinct(Truncate(ways, c)) && |Truncate(ways, c)| <= ways
    ensures q in Truncate(ways, c) <==> q in c && Age(c, q) < ways
    ensures q in Truncate(ways, c) ==> Age(Truncate(ways, c), q) == Age(c, q)
  {
    AgeBound(c, q);
    AgeBound(Truncate(ways, c), q);
    var t := Truncate(ways, c);
    if q in c && Age(c, q) < ways { assert t[Age(c, q)] == q; }
    if q in t { assert c[Age(t, q)] == q; }
  }

  // ---------------------------------------------------------------- what a must value means

  /** Every listed line is resident, and under LRU at most as old as listed. */
  ghost predicate MustHolds(hw: Hardware, m: Ages, c: Queue) {
    forall q :: q in m ==> q in c && (hw.Lru? ==> Age(c, q) <= m[q])
  }

  /** A must analysis over `ways` ways is valid for this hardware: LRU with at least that many
      ways, or, when it tracks a single way, any replacement whatsoever. */
  ghost predicate Covers(ways: nat, hw: Hardware) {
    match hw
    case Lru(w) => 1 <= ways <= w
    case Fifo(w) => ways == 1 && 1 <= w
    case Adversary => ways == 1
  }

  lemma MustAccess(ways: nat, hw: Hardware, m: Ages, c: Queue, line: Line, c': Queue)
    requires Covers(ways, hw) && Aged(ways, m) && Packed(m) && Possible(hw, c)
    requires MustHolds(hw, m, c) && Accessed(hw, c, line, c')
    ensures MustHolds(hw, LruUpdate(ways, m, line), c')
  {
    if hw.Lru? {
      var r := LruUpdate(ways, m, line);
      forall q | q in r ensures q in c' && Age(c', q) <= r[q] {
        TouchAge(hw.ways, c, line, q);
        if q != line && line in c { AgeInjective(c, q, line); }
      }
    } else {
      OneWay(m, line);
      AccessedIsResident(hw, c, line, c');
    }
  }

  lemma AccessedIsResident(hw: Hardware, c: Queue, line: Line, c': Queue)
    requires Possible(hw, c) && Accessed(hw, c, line, c')
    ensures line in c'
  {
    if hw.Lru? {
      TouchAge(hw.ways, c, line, line);
    } else if hw.Fifo? && line !in c {
      assert c' == Truncate(hw.ways, [line] + c) && c'[0] == line;
    }
  }

  lemma MustJoin(hw: Hardware, a: Ages, b: Ages, c: Queue)
    requires MustHolds(hw, a, c) || MustHolds(hw, b, c)
    ensures MustHolds(hw, Join(Must, a, b), c)
  {}

  // ---------------------------------------------------------------- what a may value means

  /** Every resident line is listed, at least as old as listed. */
  ghost predicate MayHolds(m: Ages, c: Queue) {
    forall q :: q in c ==> q in m && m[q] <= Age(c, q)
  }

  lemma MayAccess(ways: nat, m: Ages, c: Queue, line: Line)
    requires Possible(Lru(ways), c) && MayHolds(m, c)
    ensures MayHolds(LruUpdate(ways, m, line), Touch(ways, c, line))
  {
    var t := Touch(ways, c, line);
    forall q | q in t ensures q in LruUpdate(ways, m, line) && LruUpdate(ways, m, line)[q] <= Age(t, q) {
      TouchAge(ways, c, line, q);
      if q != line && line in c { AgeInjective(c, q, line); }
    }
  }

  lemma MayJoin(a: Ages, b: Ages, c: Queue)
    requires MayHolds(a, c) || MayHolds(b, c)
    ensures MayHolds(Join(May, a, b), c)
  {}
}
