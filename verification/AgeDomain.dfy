/** The abstract value of one cache set: the lines it lists, each with an age bound.

    Both analysis directions share the representation. In the must direction a listed age is
    an upper bound on the real age, in the may direction a lower bound. Both directions start
    from the empty value and only ever move upwards in the order `Below`: more lines listed,
    each with a smaller age. */
module AgeDomain {

  type Line = nat
  type Ages = map<Line, nat>

  datatype Kind = Must | May

  function Max(a: nat, b: nat): nat { if a < b then b else a }

  function Min(a: nat, b: nat): nat { if a < b then a else b }

  // ---------------------------------------------------------------- transfer and join

  /** A miss: every line ages, lines reaching `ways` drop out, `line` comes in at age 0. */
  function InsertMiss(ways: nat, m: Ages, line: Line): Ages {
    (map q | q in m && m[q] + 1 < ways :: m[q] + 1)[line := 0]
  }

  /** An LRU access. A hit ages only the lines younger than the one accessed. */
  function LruUpdate(ways: nat, m: Ages, line: Line): Ages {
    if line in m then
      map q | q in m :: if q == line then 0 else if m[q] < m[line] then m[q] + 1 else m[q]
    else
      InsertMiss(ways, m, line)
  }

  /** A FIFO access: a hit changes nothing. */
  function FifoUpdate(ways: nat, m: Ages, line: Line): Ages {
    if line in m then m else InsertMiss(ways, m, line)
  }

  function Join(kind: Kind, a: Ages, b: Ages): Ages {
    match kind
    case Must => map q | q in a && q in b :: Max(a[q], b[q])
    case May =>
      map q | q in a.Keys + b.Keys :: if q in a && q in b then Min(a[q], b[q]) else if q in a then a[q] else b[q]
  }

  /** Every age is within the associativity. */
  ghost predicate Aged(ways: nat, m: Ages) {
    forall q :: q in m ==> m[q] < ways
  }

  // ---------------------------------------------------------------- the order

  /** `b` lists every line `a` lists, at least as young. */
  ghost predicate Below(a: Ages, b: Ages) {
    forall q :: q in a ==> q in b && b[q] <= a[q]
  }

  lemma BelowAntisymmetric(a: Ages, b: Ages)
    requires Below(a, b) && Below(b, a)
    ensures a == b
  {
    assert a.Keys == b.Keys by {
      forall q ensures q in a <==> q in b {}
    }
  }

  lemma LruUpdateMonotone(ways: nat, a: Ages, b: Ages, line: Line)
    requires Below(a, b)
    ensures Below(LruUpdate(ways, a, line), LruUpdate(ways, b, line))
  {}

  /** The must join is the greatest lower bound, the may join the least upper bound. */
  lemma JoinIsBound(kind: Kind, a: Ages, b: Ages, c: Ages)
    ensures kind.Must? ==> (Below(c, Join(kind, a, b)) <==> Below(c, a) && Below(c, b))
    ensures kind.May? ==> (Below(Join(kind, a, b), c) <==> Below(a, c) && Below(b, c))
  {
    var j := Join(kind, a, b);
    match kind
    case Must =>
      if Below(c, j) {
        forall q | q in c ensures q in a && a[q] <= c[q] && q in b && b[q] <= c[q] { assert q in j; }
      }
    case May =>
      if Below(j, c) {
        forall q | q in a ensures q in c && c[q] <= a[q] { assert q in j; }
        forall q | q in b ensures q in c && c[q] <= b[q] { assert q in j; }
      }
  }

  lemma JoinMonotone(kind: Kind, a: Ages, a': Ages, b: Ages, b': Ages)
    requires Below(a, a') && Below(b, b')
    ensures Below(Join(kind, a, b), Join(kind, a', b'))
  {}

  lemma JoinAged(ways: nat, kind: Kind, a: Ages, b: Ages)
    requires Aged(ways, a) && Aged(ways, b)
    ensures Aged(ways, Join(kind, a, b))
  {}

  lemma LruUpdateAged(ways: nat, m: Ages, line: Line)
    requires ways >= 1 && Aged(ways, m)
    ensures Aged(ways, LruUpdate(ways, m, line))
    ensures line in LruUpdate(ways, m, line) && LruUpdate(ways, m, line)[line] == 0
  {}

  // ---------------------------------------------------------------- counting law

  /** The lines listed with an age of at most `a`. */
  function Young(m: Ages, a: int): set<Line> { set q | q in m && m[q] <= a }

  /** At most `a + 1` lines have an age bound of at most `a`. */
  ghost predicate Packed(m: Ages) {
    forall a: nat :: |Young(m, a)| <= a + 1
  }

  lemma SubsetSize<T>(a: set<T>, b: set<T>)
    requires a <= b
    ensures |a| <= |b|
  {
    if a != {} {
      var x :| x in a;
      SubsetSize(a - {x}, b - {x});
    }
  }

  /** Adding one line to the lines younger than `a`. */
  lemma YoungStep(m: Ages, a: nat, line: Line, s: set<Line>)
    requires Packed(m)
    requires s <= {line} + Young(m, a - 1)
    ensures |s| <= a + 1
  {
    SubsetSize(s, {line} + Young(m, a - 1));
    if a == 0 { assert Young(m, a - 1) == {}; }
  }

  lemma LruUpdatePacked(ways: nat, m: Ages, line: Line)
    requires Packed(m)
    ensures Packed(LruUpdate(ways, m, line))
  {
    var r := LruUpdate(ways, m, line);
    forall a: nat ensures |Young(r, a)| <= a + 1 {
      if line in m && m[line] <= a {
        assert Young(r, a) <= Young(m, a);
        SubsetSize(Young(r, a), Young(m, a));
      } else {
        YoungStep(m, a, line, Young(r, a));
      }
    }
  }

  lemma MustJoinPacked(a: Ages, b: Ages)
    requires Packed(a) && Packed(b)
    ensures Packed(Join(Must, a, b))
  {
    var r := Join(Must, a, b);
    forall n: nat ensures |Young(r, n)| <= n + 1 {
      assert Young(r, n) <= Young(a, n);
      SubsetSize(Young(r, n), Young(a, n));
    }
  }

  /** A must value never lists more lines than the set has ways. */
  lemma PackedSize(ways: nat, m: Ages)
    requires ways >= 1 && Aged(ways, m) && Packed(m)
    ensures |m| <= ways
  {
    assert Young(m, ways - 1) == m.Keys;
    assert |Young(m, (ways - 1) as nat)| <= ways;
  }

  /** With one way the value lists exactly the last line accessed. */
  lemma OneWay(m: Ages, line: Line)
    requires Aged(1, m) && Packed(m)
    ensures LruUpdate(1, m, line) == map[line := 0]
  {
    PackedSize(1, m);
    forall q | q in LruUpdate(1, m, line) ensures q == line {
      if q != line {
        assert line in m && q in m;
        SubsetSize({line, q}, m.Keys);
      }
    }
  }
}
