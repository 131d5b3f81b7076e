/** Address decomposition of a set-associative cache with power-of-two parameters.
    The masks of the implementation are spelled out bit by bit and shown to be the remainder and
    the rounding they stand for. */
module CacheGeometry {
  import opened AgeDomain

  const ADDRESS_LIMIT: nat := 0x1_0000_0000_0000_0000

  /** Bitwise and of two unsigned numbers. */
  function And(x: nat, y: nat): nat {
    if x == 0 || y == 0 then 0 else 2 * And(x / 2, y / 2) + (if x % 2 == 1 && y % 2 == 1 then 1 else 0)
  }

  /** Bitwise complement of a 64-bit number. */
  function Not64(x: nat): nat
    requires x < ADDRESS_LIMIT
  {
    ADDRESS_LIMIT - 1 - x
  }

  function Pow2(k: nat): nat { if k == 0 then 1 else 2 * Pow2(k - 1) }

  predicate IsPow2(x: nat) { x != 0 && And(x, x - 1) == 0 }

  datatype Geometry = Geometry(numSets: nat, ways: nat, lineBytes: nat)
  {
    predicate IsValid() { IsPow2(numSets) && IsPow2(lineBytes) && ways >= 1 }

    /** Base address of the line holding `addr`. */
    function LineId(addr: nat): (r: nat)
      requires 1 <= lineBytes < ADDRESS_LIMIT
    {
      And(addr, Not64(lineBytes - 1))
    }

    /** Index of the set a line maps to. */
    function SetIndex(line: Line): nat
      requires lineBytes >= 1 && numSets >= 1
    {
      And(line / lineBytes, numSets - 1)
    }
  }

  // ---------------------------------------------------------------- the masks

  lemma {:induction false} Pow2Positive(k: nat)
    ensures Pow2(k) >= 1
  {
    if k > 0 { Pow2Positive(k - 1); }
  }

  lemma {:induction false} AndSelf(x: nat)
    ensures And(x, x) == x
  {
    if x > 0 { AndSelf(x / 2); }
  }

  lemma {:induction false} AndPredecessor(x: nat)
    requires x >= 1
    ensures And(x, x - 1) == if x % 2 == 1 then 2 * (x / 2) else 2 * And(x / 2, x / 2 - 1)
  {
    if x % 2 == 1 {
      assert (x - 1) / 2 == x / 2;
      AndSelf(x / 2);
    } else {
      assert (x - 1) / 2 == x / 2 - 1;
    }
  }

  lemma {:induction false} SomePow2(x: nat) returns (k: nat)
    requires IsPow2(x)
    ensures x == Pow2(k)
  {
    AndPredecessor(x);
    k := 0;
    if x % 2 == 0 {
      k := SomePow2(x / 2);
      k := k + 1;
    }
  }

  lemma {:induction false} Pow2IsPow2(k: nat)
    ensures IsPow2(Pow2(k))
  {
    Pow2Positive(k);
    if k > 0 {
      Pow2IsPow2(k - 1);
      Pow2Positive(k - 1);
      var x := Pow2(k);
      assert x / 2 == Pow2(k - 1) && (x - 1) / 2 == x / 2 - 1;
    }
  }

  /** The bit trick recognises exactly the powers of two. */
  lemma IsPow2Exact(x: nat)
    ensures IsPow2(x) <==> exists k: nat :: x == Pow2(k)
  {
    if IsPow2(x) { var k := SomePow2(x); }
    if k: nat :| x == Pow2(k) { Pow2IsPow2(k); }
  }

  lemma HalveRemainder(x: nat, p: nat)
    requires p >= 1
    ensures x % (2 * p) == 2 * ((x / 2) % p) + x % 2
  {
    var q, r := (x / 2) / p, (x / 2) % p;
    assert x / 2 == p * q + r;
    assert x == (2 * p) * q + (2 * r + x % 2) by {
      assert x == 2 * (x / 2) + x % 2;
      assert 2 * (p * q) == (2 * p) * q;
    }
    DivModUnique(x, 2 * p, q, 2 * r + x % 2);
  }

  lemma MulBounds(d: int, e: int)
    requires d >= 1
    ensures e >= 1 ==> d * e >= d
    ensures e <= -1 ==> d * e <= -d
  {}

  lemma DivModUnique(x: nat, d: nat, q: nat, r: nat)
    requires d >= 1 && x == d * q + r && r < d
    ensures x / d == q && x % d == r
  {
    var e := x / d - q;
    assert x == d * (x / d) + x % d;
    assert d * e == r - x % d by { assert d * (x / d) - d * q == d * e; }
    MulBounds(d, e);
  }

  lemma {:induction false} LowMaskStep(x: nat, p: nat)
    requires p >= 1
    ensures And(x, 2 * p - 1) == 2 * And(x / 2, p - 1) + x % 2
  {
    assert (2 * p - 1) / 2 == p - 1 && (2 * p - 1) % 2 == 1;
  }

  lemma {:induction false} HighMaskStep(x: nat, p: nat, q: nat)
    requires 1 <= p <= q
    ensures And(x, 2 * q - 2 * p) == 2 * And(x / 2, q - p)
  {
    assert (2 * q - 2 * p) / 2 == q - p && (2 * q - 2 * p) % 2 == 0;
  }

  /** Masking with `2^k - 1` keeps the remainder. */
  lemma {:induction false} MaskIsRemainder(x: nat, k: nat)
    ensures Pow2(k) >= 1 && And(x, Pow2(k) - 1) == x % Pow2(k)
  {
    Pow2Positive(k);
    if k > 0 {
      Pow2Positive(k - 1);
      var p := Pow2(k - 1);
      MaskIsRemainder(x / 2, k - 1);
      LowMaskStep(x, p);
      HalveRemainder(x, p);
    }
  }

  lemma RoundDownStep(x: nat, p: nat)
    requires p >= 1
    ensures x - x % (2 * p) == 2 * (x / 2 - (x / 2) % p)
  {
    HalveRemainder(x, p);
  }

  /** Masking with the complement of `2^k - 1` within a width of `w` bits rounds down. */
  lemma {:induction false} MaskRoundsDown(x: nat, k: nat, w: nat)
    requires k <= w && x < Pow2(w)
    ensures Pow2(w) >= Pow2(k) >= 1 && And(x, Pow2(w) - Pow2(k)) == x - x % Pow2(k)
  {
    Pow2Positive(k);
    Pow2Monotone(k, w);
    if k == 0 {
      MaskIsRemainder(x, w);
      SmallRemainder(x, Pow2(w));
    } else {
      var p, q := Pow2(k - 1), Pow2(w - 1);
      Pow2Monotone(k - 1, w - 1);
      Pow2Positive(k - 1);
      MaskRoundsDown(x / 2, k - 1, w - 1);
      HighMaskStep(x, p, q);
      RoundDownStep(x, p);
    }
  }

  lemma SmallRemainder(x: nat, p: nat)
    requires x < p
    ensures x % p == x && x / p == 0
  {
    DivModUnique(x, p, 0, x);
  }

  lemma {:induction false} Pow2Monotone(k: nat, w: nat)
    requires k <= w
    ensures Pow2(k) <= Pow2(w)
  {
    if k < w { Pow2Monotone(k, w - 1); Pow2Positive(w - 1); }
  }

  lemma AddressLimitIsPow2()
    ensures ADDRESS_LIMIT == Pow2(64)
  {
    assert Pow2(4) == 16;
    Pow2Sum(4, 4);
    Pow2Sum(8, 8);
    Pow2Sum(16, 16);
    Pow2Sum(32, 32);
  }

  lemma {:induction false} Pow2Sum(a: nat, b: nat)
    ensures Pow2(a + b) == Pow2(a) * Pow2(b)
  {
    if b > 0 { Pow2Sum(a, b - 1); }
  }

  lemma LineIdRoundsDown(geo: Geometry, addr: nat)
    requires IsPow2(geo.lineBytes) && geo.lineBytes < ADDRESS_LIMIT && addr < ADDRESS_LIMIT
    ensures geo.LineId(addr) == addr - addr % geo.lineBytes
  {
    hide And, Pow2, IsPow2;
    var k := SomePow2(geo.lineBytes);
    Pow2Positive(k);
    AddressLimitIsPow2();
    if k > 64 { Pow2Monotone(64, k); }
    MaskRoundsDown(addr, k, 64);
  }

  lemma SetIndexIsRemainder(geo: Geometry, line: Line)
    requires IsPow2(geo.numSets) && geo.lineBytes >= 1 && geo.numSets >= 1
    ensures geo.SetIndex(line) == (line / geo.lineBytes) % geo.numSets
  {
    hide And, Pow2, IsPow2;
    var s := SomePow2(geo.numSets);
    var page := line / geo.lineBytes;
    MaskIsRemainder(page, s);
  }

  /** In a valid geometry the line id is the address rounded down to a multiple of the line size,
      and the set index is the line number modulo the number of sets. */
  lemma DecompositionIsDivMod(geo: Geometry, addr: nat)
    requires geo.IsValid() && geo.lineBytes < ADDRESS_LIMIT && addr < ADDRESS_LIMIT
    ensures geo.LineId(addr) == addr - addr % geo.lineBytes
    ensures geo.SetIndex(addr) == (addr / geo.lineBytes) % geo.numSets
  {
    LineIdRoundsDown(geo, addr);
    SetIndexIsRemainder(geo, addr);
  }

  lemma SetIndexInRange(geo: Geometry, line: Line)
    requires geo.IsValid()
    ensures geo.SetIndex(line) < geo.numSets
  {
    hide And;
    SetIndexIsRemainder(geo, line);
    var page := line / geo.lineBytes;
  }
}
