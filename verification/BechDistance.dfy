/**
 How many errors the checksum of src/bech32.cpp detects. The comment on PolyMod promises that the generator
 makes a BCH code that detects up to three errors within a window of 1023 characters. The proof follows
 the theory: three consecutive powers of a primitive element of GF(1024) are roots of the generator, and a
 sum of three terms that vanishes at three consecutive powers is zero.

 Main results: RemainderKeepsValue (reducing modulo the generator keeps the value at the roots),
 OrderExact (the element is primitive), ThreeErrorsDetected and ThreeErrorsRejected.
 */
module BechDistance {
  import opened ArithModel
  import opened Bech32

  // ----- GF(1024) -----

  // Elements are polynomials over GF(2) in a primitive element g, modulo g^10 + g^8 + g^5 + g + 1.
  function Add(a: bv10, b: bv10): bv10 {
    a ^ b
  }

  function Double(u: bv10): bv10 {
    u << 1
  }

  function Pick(u: bv10, mask: bv10, k: bv10): bv10 {
    if u & mask != 0 then k else 0
  }

  // Times g.
  function Mul(u: bv10): bv10 {
    Add(Double(u), Pick(u, 0x200, 0x123))
  }

  // Times g^n.
  function Pow(n: nat, u: bv10): bv10 {
    if n == 0 then u else Mul(Pow(n - 1, u))
  }

  // The power g^n itself.
  function G(n: nat): bv10 {
    Pow(n, 1)
  }

  lemma AddLaws(a: bv10)
    ensures Add(a, a) == 0 && Add(a, 0) == a && Add(0, a) == a
  {
  }

  lemma AddEqual(a: bv10, b: bv10)
    ensures Add(a, b) == 0 <==> a == b
  {
  }

  lemma AddAssociative(a: bv10, b: bv10, c: bv10)
    ensures Add(Add(a, b), c) == Add(a, Add(b, c))
  {
  }

  lemma AddCommutative(a: bv10, b: bv10)
    ensures Add(a, b) == Add(b, a)
  {
  }

  lemma AddRegroup(a: bv10, b: bv10, c: bv10, d: bv10)
    ensures Add(Add(a, b), Add(c, d)) == Add(Add(a, c), Add(b, d))
  {
    hide Add;
    AddAssociative(a, b, Add(c, d));
    AddAssociative(b, c, d);
    AddCommutative(b, c);
    AddAssociative(c, b, d);
    AddAssociative(a, c, Add(b, d));
  }

  lemma TopBit(a: bv10, b: bv10)
    ensures (Add(a, b) & 0x200 != 0) == ((a & 0x200 != 0) != (b & 0x200 != 0))
  {
  }

  lemma DoubleAdd(a: bv10, b: bv10)
    ensures Double(Add(a, b)) == Add(Double(a), Double(b))
  {
  }

  lemma MulAdd(a: bv10, b: bv10)
    ensures Mul(Add(a, b)) == Add(Mul(a), Mul(b))
  {
    hide Add, Double;
    TopBit(a, b);
    DoubleAdd(a, b);
    AddLaws(0x123);
    AddLaws(0);
    AddRegroup(Double(a), Double(b), Pick(a, 0x200, 0x123), Pick(b, 0x200, 0x123));
  }

  lemma MulZero(u: bv10)
    ensures Mul(u) == 0 <==> u == 0
  {
  }

  lemma {:induction false} PowSum(n: nat, a: bv10, b: bv10)
    ensures Pow(n, Add(a, b)) == Add(Pow(n, a), Pow(n, b))
  {
    hide Mul, Add;
    if n > 0 {
      PowSum(n - 1, a, b);
      MulAdd(Pow(n - 1, a), Pow(n - 1, b));
    }
  }

  lemma {:induction false} PowZero(n: nat, u: bv10)
    ensures Pow(n, u) == 0 <==> u == 0
  {
    hide Mul;
    if n > 0 {
      PowZero(n - 1, u);
      MulZero(Pow(n - 1, u));
    }
  }

  lemma {:induction false} PowPow(m: nat, n: nat, u: bv10)
    ensures Pow(m + n, u) == Pow(m, Pow(n, u))
    decreases m
  {
    hide Mul;
    if m > 0 {
      PowPow(m - 1, n, u);
      assert m + n - 1 == (m - 1) + n;
    }
  }

  // ----- powers in closed form -----

  function Sum(a: bv10, b: bv10, c: bv10, d: bv10, e: bv10): bv10 {
    Add(a, Add(b, Add(c, Add(d, e))))
  }

  // The linear map that sends g^i to the i-th constant.
  function Apply(u: bv10, k0: bv10, k1: bv10, k2: bv10, k3: bv10, k4: bv10,
                 k5: bv10, k6: bv10, k7: bv10, k8: bv10, k9: bv10): bv10 {
    Add(Sum(if u & 0x1 != 0 then k0 else 0, if u & 0x2 != 0 then k1 else 0, if u & 0x4 != 0 then k2 else 0,
            if u & 0x8 != 0 then k3 else 0, if u & 0x10 != 0 then k4 else 0),
        Sum(if u & 0x20 != 0 then k5 else 0, if u & 0x40 != 0 then k6 else 0, if u & 0x80 != 0 then k7 else 0,
            if u & 0x100 != 0 then k8 else 0, if u & 0x200 != 0 then k9 else 0))
  }

  lemma ApplyPicks(u: bv10, k0: bv10, k1: bv10, k2: bv10, k3: bv10, k4: bv10,
                   k5: bv10, k6: bv10, k7: bv10, k8: bv10, k9: bv10)
    ensures Apply(u, k0, k1, k2, k3, k4, k5, k6, k7, k8, k9) ==
            Add(Sum(Pick(u, 0x1, k0), Pick(u, 0x2, k1), Pick(u, 0x4, k2), Pick(u, 0x8, k3), Pick(u, 0x10, k4)),
                Sum(Pick(u, 0x20, k5), Pick(u, 0x40, k6), Pick(u, 0x80, k7), Pick(u, 0x100, k8), Pick(u, 0x200, k9)))
  {
    hide Add, Sum;
  }

  lemma Parts(u: bv10)
    ensures u == Apply(u, 0x1, 0x2, 0x4, 0x8, 0x10, 0x20, 0x40, 0x80, 0x100, 0x200)
  {
  }

  lemma PowSum5(n: nat, a: bv10, b: bv10, c: bv10, d: bv10, e: bv10)
    ensures Pow(n, Sum(a, b, c, d, e)) == Sum(Pow(n, a), Pow(n, b), Pow(n, c), Pow(n, d), Pow(n, e))
  {
    hide Pow, Add;
    PowSum(n, d, e);
    PowSum(n, c, Add(d, e));
    PowSum(n, b, Add(c, Add(d, e)));
    PowSum(n, a, Add(b, Add(c, Add(d, e))));
  }

  lemma PowPick(n: nat, u: bv10, mask: bv10, k: bv10)
    ensures Pow(n, Pick(u, mask, k)) == Pick(u, mask, Pow(n, k))
  {
    hide Pow;
    PowZero(n, 0);
  }

  lemma PowBasis(n: nat)
    ensures Pow(n, 0x1) == G(n) && Pow(n, 0x2) == G(n + 1) && Pow(n, 0x4) == G(n + 2) && Pow(n, 0x8) == G(n + 3)
    ensures Pow(n, 0x10) == G(n + 4) && Pow(n, 0x20) == G(n + 5) && Pow(n, 0x40) == G(n + 6)
    ensures Pow(n, 0x80) == G(n + 7) && Pow(n, 0x100) == G(n + 8) && Pow(n, 0x200) == G(n + 9)
  {
    hide Pow, Mul;
    Values0to9();
    PowPow(n, 1, 1);
    PowPow(n, 2, 1);
    PowPow(n, 3, 1);
    PowPow(n, 4, 1);
    PowPow(n, 5, 1);
    PowPow(n, 6, 1);
    PowPow(n, 7, 1);
    PowPow(n, 8, 1);
    PowPow(n, 9, 1);
  }

  // The next ten values, one from the other.
  lemma TenMore(n: nat)
    ensures G(n + 1) == Mul(G(n)) && G(n + 2) == Mul(G(n + 1))
    ensures G(n + 3) == Mul(G(n + 2)) && G(n + 4) == Mul(G(n + 3))
    ensures G(n + 5) == Mul(G(n + 4)) && G(n + 6) == Mul(G(n + 5))
    ensures G(n + 7) == Mul(G(n + 6)) && G(n + 8) == Mul(G(n + 7))
    ensures G(n + 9) == Mul(G(n + 8)) && G(n + 10) == Mul(G(n + 9))
  {
    hide Mul;
  }

  lemma Values0to9()
    ensures G(0) == 0x1 && G(1) == 0x2 && G(2) == 0x4 && G(3) == 0x8 && G(4) == 0x10 && G(5) == 0x20
    ensures G(6) == 0x40 && G(7) == 0x80 && G(8) == 0x100 && G(9) == 0x200
  {
    hide Pow;
    assert G(0) == 1 by { Start(); }
    TenMore(0);
  }

  lemma Start()
    ensures G(0) == 1
  {
  }

  // A power is known from ten consecutive values.
  lemma PowTable(n: nat, u: bv10)
    ensures Pow(n, u) == Apply(u, G(n), G(n + 1), G(n + 2), G(n + 3), G(n + 4),
                               G(n + 5), G(n + 6), G(n + 7), G(n + 8), G(n + 9))
  {
    hide Pow, Add, Pick, G, Apply;
    Parts(u);
    ApplyPicks(u, 0x1, 0x2, 0x4, 0x8, 0x10, 0x20, 0x40, 0x80, 0x100, 0x200);
    ApplyPicks(u, G(n), G(n + 1), G(n + 2), G(n + 3), G(n + 4), G(n + 5), G(n + 6), G(n + 7), G(n + 8), G(n + 9));
    var a := Sum(Pick(u, 0x1, 0x1), Pick(u, 0x2, 0x2), Pick(u, 0x4, 0x4), Pick(u, 0x8, 0x8), Pick(u, 0x10, 0x10));
    var b := Sum(Pick(u, 0x20, 0x20), Pick(u, 0x40, 0x40), Pick(u, 0x80, 0x80), Pick(u, 0x100, 0x100),
                 Pick(u, 0x200, 0x200));
    PowSum(n, a, b);
    PowSum5(n, Pick(u, 0x1, 0x1), Pick(u, 0x2, 0x2), Pick(u, 0x4, 0x4), Pick(u, 0x8, 0x8), Pick(u, 0x10, 0x10));
    PowSum5(n, Pick(u, 0x20, 0x20), Pick(u, 0x40, 0x40), Pick(u, 0x80, 0x80), Pick(u, 0x100, 0x100),
            Pick(u, 0x200, 0x200));
    PowBasis(n);
    PowPick(n, u, 0x1, 0x1);
    PowPick(n, u, 0x2, 0x2);
    PowPick(n, u, 0x4, 0x4);
    PowPick(n, u, 0x8, 0x8);
    PowPick(n, u, 0x10, 0x10);
    PowPick(n, u, 0x20, 0x20);
    PowPick(n, u, 0x40, 0x40);
    PowPick(n, u, 0x80, 0x80);
    PowPick(n, u, 0x100, 0x100);
    PowPick(n, u, 0x200, 0x200);
  }

  lemma Values10to24()
    ensures G(24) == 0x3f0
  {
    hide Pow;
    Values0to9();
    TenMore(9);
    TenMore(19);
  }

  lemma Values24to35()
    ensures G(24) == 0x3f0 && G(25) == 0x2c3 && G(26) == 0xa5 && G(27) == 0x14a && G(28) == 0x294 && G(29) == 0xb
    ensures G(30) == 0x16 && G(31) == 0x2c && G(32) == 0x58 && G(33) == 0xb0 && G(34) == 0x160 && G(35) == 0x2c0
  {
    hide Pow;
    Values10to24();
    TenMore(24);
    TenMore(34);
  }

  // Times g^(24 + j), spelled out.
  function At(j: nat, u: bv10): bv10
    requires j <= 2
  {
    if j == 0 then T24(u) else if j == 1 then T25(u) else T26(u)
  }

  function T24(u: bv10): bv10 {
    Apply(u, 0x3f0, 0x2c3, 0xa5, 0x14a, 0x294, 0xb, 0x16, 0x2c, 0x58, 0xb0)
  }

  lemma Pow24(u: bv10)
    ensures Pow(24, u) == T24(u)
  {
    hide Pow, Apply, Mul, G;
    Values24to35();
    PowTable(24, u);
  }

  function T25(u: bv10): bv10 {
    Apply(u, 0x2c3, 0xa5, 0x14a, 0x294, 0xb, 0x16, 0x2c, 0x58, 0xb0, 0x160)
  }

  lemma Pow25(u: bv10)
    ensures Pow(25, u) == T25(u)
  {
    hide Pow, Apply, Mul, G;
    Values24to35();
    PowTable(25, u);
  }

  function T26(u: bv10): bv10 {
    Apply(u, 0xa5, 0x14a, 0x294, 0xb, 0x16, 0x2c, 0x58, 0xb0, 0x160, 0x2c0)
  }

  lemma Pow26(u: bv10)
    ensures Pow(26, u) == T26(u)
  {
    hide Pow, Apply, Mul, G;
    Values24to35();
    PowTable(26, u);
  }

  lemma Values31to42()
    ensures G(31) == 0x2c && G(32) == 0x58 && G(33) == 0xb0 && G(34) == 0x160 && G(35) == 0x2c0 && G(36) == 0xa3
    ensures G(37) == 0x146 && G(38) == 0x28c && G(39) == 0x3b && G(40) == 0x76 && G(41) == 0xec && G(42) == 0x1d8
  {
    hide Pow;
    Values24to35();
    TenMore(35);
  }

  function T31(u: bv10): bv10 {
    Apply(u, 0x2c, 0x58, 0xb0, 0x160, 0x2c0, 0xa3, 0x146, 0x28c, 0x3b, 0x76)
  }

  function T33(u: bv10): bv10 {
    Apply(u, 0xb0, 0x160, 0x2c0, 0xa3, 0x146, 0x28c, 0x3b, 0x76, 0xec, 0x1d8)
  }

  lemma Pow31(u: bv10)
    ensures Pow(31, u) == T31(u) && Pow(33, u) == T33(u)
  {
    hide Pow, Apply, Mul, G;
    Values31to42();
    PowTable(31, u);
    PowTable(33, u);
  }

  lemma Value93()
    ensures G(62) == 0x173 && G(93) == 0x36a
  {
    hide Pow;
    Values31to42();
    PowPow(31, 31, 1);
    PowPow(31, 62, 1);
    Pow31(0x2c);
    Pow31(0x173);
  }

  lemma Values93to102()
    ensures G(93) == 0x36a && G(94) == 0x3f7 && G(95) == 0x2cd && G(96) == 0xb9 && G(97) == 0x172 && G(98) == 0x2e4
    ensures G(99) == 0xeb && G(100) == 0x1d6 && G(101) == 0x3ac && G(102) == 0x27b
  {
    hide Pow;
    Value93();
    TenMore(93);
  }

  function T93(u: bv10): bv10 {
    Apply(u, 0x36a, 0x3f7, 0x2cd, 0xb9, 0x172, 0x2e4, 0xeb, 0x1d6, 0x3ac, 0x27b)
  }

  lemma Pow93(u: bv10)
    ensures Pow(93, u) == T93(u)
  {
    hide Pow, Apply, Mul, G;
    Values93to102();
    PowTable(93, u);
  }

  lemma Value341()
    ensures G(341) == 0x36
  {
    hide Pow;
    Value93();
    PowPow(93, 62, 1);
    PowPow(93, 155, 1);
    PowPow(93, 248, 1);
    Pow93(0x173);
    Pow93(0x4c);
    Pow93(0x29f);
  }

  lemma Values341to350()
    ensures G(341) == 0x36 && G(342) == 0x6c && G(343) == 0xd8 && G(344) == 0x1b0 && G(345) == 0x360 && G(346) == 0x3e3
    ensures G(347) == 0x2e5 && G(348) == 0xe9 && G(349) == 0x1d2 && G(350) == 0x3a4
  {
    hide Pow;
    Value341();
    TenMore(341);
  }

  function T341(u: bv10): bv10 {
    Apply(u, 0x36, 0x6c, 0xd8, 0x1b0, 0x360, 0x3e3, 0x2e5, 0xe9, 0x1d2, 0x3a4)
  }

  lemma Pow341(u: bv10)
    ensures Pow(341, u) == T341(u)
  {
    hide Pow, Apply, Mul, G;
    Values341to350();
    PowTable(341, u);
  }

  lemma Value1023()
    ensures G(1023) == 1
  {
    hide Pow;
    Value341();
    PowPow(341, 341, 1);
    PowPow(341, 682, 1);
    Pow341(0x36);
    Pow341(0x37);
  }

  lemma Values1023to1032()
    ensures G(1023) == 0x1 && G(1024) == 0x2 && G(1025) == 0x4 && G(1026) == 0x8 && G(1027) == 0x10 && G(1028) == 0x20
    ensures G(1029) == 0x40 && G(1030) == 0x80 && G(1031) == 0x100 && G(1032) == 0x200
  {
    hide Pow;
    Value1023();
    TenMore(1023);
  }

  // g^1023 is 1.
  lemma Period(u: bv10)
    ensures Pow(1023, u) == u
  {
    hide Pow, Apply, Mul, G;
    Values1023to1032();
    PowTable(1023, u);
    Parts(u);
  }

  // ----- the element is primitive -----

  lemma Fixed33(u: bv10)
    ensures T33(u) == u ==> u == 0
  {
  }

  lemma Fixed93(u: bv10)
    ensures T93(u) == u ==> u == 0
  {
  }

  lemma Fixed341(u: bv10)
    ensures T341(u) == u ==> u == 0
  {
  }

  lemma {:induction false} PowTimes(d: nat, q: nat, u: bv10)
    requires Pow(d, u) == u
    ensures Pow(q * d, u) == u
    decreases q
  {
    hide Pow;
    if q == 0 {
      assert Pow(0, u) == u by { PowNone(u); }
    } else {
      PowTimes(d, q - 1, u);
      assert q * d == d + (q - 1) * d;
      PowPow(d, (q - 1) * d, u);
    }
  }

  lemma PowNone(u: bv10)
    ensures Pow(0, u) == u
  {
  }

  // Euclid's algorithm on the exponents that fix an element: d divides both.
  lemma {:induction false} FixedDivisor(a: nat, b: nat, u: bv10) returns (d: nat, x: nat, y: nat)
    requires a > 0 && Pow(a, u) == u && Pow(b, u) == u
    ensures d > 0 && x > 0 && a == x * d && b == y * d && Pow(d, u) == u
    decreases b
  {
    hide Pow;
    if b == 0 {
      d, x, y := a, 1, 0;
    } else {
      var q, r := a / b, a % b;
      assert a == r + q * b;
      PowTimes(b, q, u);
      PowPow(r, q * b, u);
      var z;
      d, y, z := FixedDivisor(b, r, u);
      x := z + q * y;
      Distribute(z, q, y, d);
    }
  }

  lemma Distribute(z: nat, q: nat, y: nat, d: nat)
    ensures (z + q * y) * d == z * d + q * (y * d)
  {
  }

  lemma SmallDivisor(d: nat)
    requires 0 < d <= 32 && 1023 % d == 0
    ensures d == 1 || d == 3 || d == 11 || d == 31
  {
  }

  // A proper divisor of 1023 divides 341, 93 or 33.
  lemma Divisors(d: nat, y: nat) returns (n: nat, q: nat)
    requires y * d == 1023 && d < 1023
    ensures n == q * d && (n == 341 || n == 93 || n == 33)
  {
    if d <= 32 {
      assert 1023 % d == 0 by { Remainder(y, d); }
      SmallDivisor(d);
      n := if d == 31 then 93 else 33;
      q := if d == 31 then 3 else if d == 11 then 3 else if d == 3 then 11 else 33;
    } else {
      assert y <= 32 by { Quotient(y, d); }
      assert 1023 % y == 0 by { Remainder(d, y); }
      SmallDivisor(y);
      n, q := d, 1;
    }
  }

  lemma Remainder(x: nat, d: nat)
    requires d > 0
    ensures x * d % d == 0
  {
    ModUnique(0, x, d);
  }

  lemma Quotient(y: nat, d: nat)
    requires y * d == 1023 && d > 32
    ensures y <= 32
  {
    if y > 32 {
      Monotone(33, y, d);
    }
  }

  // No exponent below 1023 fixes a nonzero element.
  lemma NotFixed(k: nat, u: bv10)
    requires 0 < k < 1023 && Pow(k, u) == u
    ensures u == 0
  {
    hide Pow, T33, T93, T341;
    Period(u);
    var d, x, y := FixedDivisor(k, 1023, u);
    assert d <= k by { Monotone(1, x, d); }
    var n, q := Divisors(d, y);
    PowTimes(d, q, u);
    if n == 341 {
      Pow341(u);
      Fixed341(u);
    } else if n == 93 {
      Pow93(u);
      Fixed93(u);
    } else {
      Pow31(u);
      Fixed33(u);
    }
  }

  /** The element is primitive: exactly the exponents that are multiples of 1023 fix a nonzero element. */
  lemma OrderExact(k: nat, u: bv10)
    ensures Pow(k, u) == u <==> u == 0 || k % 1023 == 0
  {
    hide Pow;
    var q, r := k / 1023, k % 1023;
    Period(u);
    PowTimes(1023, q, u);
    PowOf(r, q * 1023, k, u);
    PowNone(u);
    if r > 0 && Pow(r, u) == u {
      NotFixed(r, u);
    }
    PowZero(k, u);
  }

  // ----- symbols as elements -----

  function Bit(v: bv5, mask: bv5, k: bv10): bv10 {
    if v & mask != 0 then k else 0
  }

  // GF(32) inside GF(1024): the symbol 2, a root of a^5 + a^3 + 1, is 0xe.
  function Embed(v: bv5): bv10 {
    Sum(Bit(v, 1, 0x1), Bit(v, 2, 0xe), Bit(v, 4, 0x54), Bit(v, 8, 0x358), Bit(v, 16, 0xbf))
  }

  lemma EmbedZero(v: bv5)
    ensures Embed(v) == 0 <==> v == 0
  {
  }

  lemma SymbolBits(v: bv5, w: bv5)
    ensures (XorSymbol(v, w) & 1 != 0) == ((v & 1 != 0) != (w & 1 != 0))
    ensures (XorSymbol(v, w) & 2 != 0) == ((v & 2 != 0) != (w & 2 != 0))
    ensures (XorSymbol(v, w) & 4 != 0) == ((v & 4 != 0) != (w & 4 != 0))
    ensures (XorSymbol(v, w) & 8 != 0) == ((v & 8 != 0) != (w & 8 != 0))
    ensures (XorSymbol(v, w) & 16 != 0) == ((v & 16 != 0) != (w & 16 != 0))
  {
  }

  lemma BitAdd(v: bv5, w: bv5, mask: bv5, k: bv10)
    requires (XorSymbol(v, w) & mask != 0) == ((v & mask != 0) != (w & mask != 0))
    ensures Bit(XorSymbol(v, w), mask, k) == Add(Bit(v, mask, k), Bit(w, mask, k))
  {
    hide XorSymbol, Add;
    AddLaws(k);
    AddLaws(0);
  }

  lemma SumAdd(a: bv10, b: bv10, c: bv10, d: bv10, e: bv10, a': bv10, b': bv10, c': bv10, d': bv10, e': bv10)
    ensures Sum(Add(a, a'), Add(b, b'), Add(c, c'), Add(d, d'), Add(e, e'))
         == Add(Sum(a, b, c, d, e), Sum(a', b', c', d', e'))
  {
    hide Add;
    AddRegroup(d, d', e, e');
    AddRegroup(c, c', Add(d, e), Add(d', e'));
    AddRegroup(b, b', Add(c, Add(d, e)), Add(c', Add(d', e')));
    AddRegroup(a, a', Add(b, Add(c, Add(d, e))), Add(b', Add(c', Add(d', e'))));
  }

  lemma EmbedAdd(v: bv5, w: bv5)
    ensures Embed(XorSymbol(v, w)) == Add(Embed(v), Embed(w))
  {
    hide XorSymbol, Add, Sum, Bit;
    SymbolBits(v, w);
    BitAdd(v, w, 1, 0x1);
    BitAdd(v, w, 2, 0xe);
    BitAdd(v, w, 4, 0x54);
    BitAdd(v, w, 8, 0x358);
    BitAdd(v, w, 16, 0xbf);
    SumAdd(Bit(v, 1, 0x1), Bit(v, 2, 0xe), Bit(v, 4, 0x54), Bit(v, 8, 0x358), Bit(v, 16, 0xbf),
           Bit(w, 1, 0x1), Bit(w, 2, 0xe), Bit(w, 4, 0x54), Bit(w, 8, 0x358), Bit(w, 16, 0xbf));
  }

  // ----- values of polynomials -----

  // The value at g^n of the polynomial with these coefficients, the highest first.
  function Value(n: nat, s: Data): bv10 {
    if s == [] then 0 else Add(Pow(n, Value(n, s[..|s| - 1])), Embed(s[|s| - 1]))
  }

  lemma {:induction false} ValueXor(n: nat, s: Data, t: Data)
    requires |s| == |t|
    ensures Value(n, XorAll(s, t)) == Add(Value(n, s), Value(n, t))
    decreases |s|
  {
    hide Add, Pow, Embed, XorSymbol;
    if s == [] {
      AddLaws(0);
    } else {
      var s', t', x, y := s[..|s| - 1], t[..|t| - 1], s[|s| - 1], t[|t| - 1];
      ValueXor(n, s', t');
      XorAllLast(s, t);
      EmbedAdd(x, y);
      PowSum(n, Value(n, s'), Value(n, t'));
      AddRegroup(Pow(n, Value(n, s')), Pow(n, Value(n, t')), Embed(x), Embed(y));
    }
  }

  lemma {:induction false} ValueCat(n: nat, s: Data, t: Data)
    ensures Value(n, s + t) == Add(Pow(n * |t|, Value(n, s)), Value(n, t))
    decreases |t|
  {
    hide Add, Pow, Embed;
    if t == [] {
      assert s + t == s;
      PowNone(Value(n, s));
      AddLaws(Value(n, s));
    } else {
      var t', x := t[..|t| - 1], t[|t| - 1];
      ValueCat(n, s, t');
      assert (s + t)[..|s + t| - 1] == s + t';
      PowSum(n, Pow(n * |t'|, Value(n, s)), Value(n, t'));
      assert n + n * |t'| == n * |t| by { Product(n, |t'|); }
      PowPow(n, n * |t'|, Value(n, s));
      AddAssociative(Pow(n * |t|, Value(n, s)), Pow(n, Value(n, t')), Embed(x));
    }
  }

  lemma Product(n: nat, k: nat)
    ensures n + n * k == n * (k + 1)
  {
  }

  lemma {:induction false} ValueZeros(n: nat, k: nat)
    ensures |Zeros(k)| == k && Value(n, Zeros(k)) == 0
  {
    hide Add, Pow, Embed;
    if k > 0 {
      ValueZeros(n, k - 1);
      assert Zeros(k)[..k - 1] == Zeros(k - 1);
      PowZero(n, 0);
      EmbedZero(0);
      AddLaws(0);
    }
  }

  lemma ValueOne(n: nat, x: bv5)
    ensures Value(n, [x]) == Embed(x)
  {
    hide Add, Pow, Embed;
    assert [x][..0] == [];
    PowZero(n, 0);
    AddLaws(Embed(x));
  }

  // ----- the roots of the generator -----

  lemma SymbolXor0(a: bv30, b: bv30)
    ensures Symbol(Xor(a, b), 0) == XorSymbol(Symbol(a, 0), Symbol(b, 0))
  {
  }

  lemma SymbolXor1(a: bv30, b: bv30)
    ensures Symbol(Xor(a, b), 1) == XorSymbol(Symbol(a, 1), Symbol(b, 1))
  {
  }

  lemma SymbolXor2(a: bv30, b: bv30)
    ensures Symbol(Xor(a, b), 2) == XorSymbol(Symbol(a, 2), Symbol(b, 2))
  {
  }

  lemma SymbolXor3(a: bv30, b: bv30)
    ensures Symbol(Xor(a, b), 3) == XorSymbol(Symbol(a, 3), Symbol(b, 3))
  {
  }

  lemma SymbolXor4(a: bv30, b: bv30)
    ensures Symbol(Xor(a, b), 4) == XorSymbol(Symbol(a, 4), Symbol(b, 4))
  {
  }

  lemma SymbolXor5(a: bv30, b: bv30)
    ensures Symbol(Xor(a, b), 5) == XorSymbol(Symbol(a, 5), Symbol(b, 5))
  {
  }

  lemma {:induction false} XorAllAt(v: Data, w: Data, i: nat)
    requires |v| == |w| && i < |v|
    ensures |XorAll(v, w)| == |v| && XorAll(v, w)[i] == XorSymbol(v[i], w[i])
    decreases |v|
  {
    hide XorSymbol;
    XorAllSize(v, w);
    XorAllLast(v, w);
    if i < |v| - 1 {
      XorAllAt(v[..|v| - 1], w[..|w| - 1], i);
      assert XorAll(v, w)[..|v| - 1][i] == XorAll(v, w)[i];
    }
  }

  lemma UnpackXor(a: bv30, b: bv30)
    ensures Unpack(Xor(a, b)) == XorAll(Unpack(a), Unpack(b))
  {
    hide Xor, XorSymbol, Symbol, XorAll;
    SymbolXor0(a, b);
    SymbolXor1(a, b);
    SymbolXor2(a, b);
    SymbolXor3(a, b);
    SymbolXor4(a, b);
    SymbolXor5(a, b);
    XorAllAt(Unpack(a), Unpack(b), 0);
    XorAllAt(Unpack(a), Unpack(b), 1);
    XorAllAt(Unpack(a), Unpack(b), 2);
    XorAllAt(Unpack(a), Unpack(b), 3);
    XorAllAt(Unpack(a), Unpack(b), 4);
    XorAllAt(Unpack(a), Unpack(b), 5);
  }

  lemma UnpackShifted(c: bv30, v: bv5)
    ensures Unpack(Shifted(c, v)) == Unpack(c)[1..] + [v]
  {
    SymbolShifted(c, v);
    hide Symbol, Shifted;
  }

  lemma SymbolShifted(c: bv30, v: bv5)
    ensures Symbol(Shifted(c, v), 0) == Symbol(c, 1)
    ensures Symbol(Shifted(c, v), 1) == Symbol(c, 2)
    ensures Symbol(Shifted(c, v), 2) == Symbol(c, 3)
    ensures Symbol(Shifted(c, v), 3) == Symbol(c, 4)
    ensures Symbol(Shifted(c, v), 4) == Symbol(c, 5)
    ensures Symbol(Shifted(c, v), 5) == v
  {
  }

  lemma PowAt(j: nat, u: bv10)
    requires j <= 2
    ensures Pow(24 + j, u) == At(j, u)
  {
    hide Pow, T24, T25, T26;
    Pow24(u);
    Pow25(u);
    Pow26(u);
  }

  function Horner(j: nat, s0: bv5, s1: bv5, s2: bv5, s3: bv5, s4: bv5, s5: bv5): bv10
    requires j <= 2
  {
    Add(At(j, Add(At(j, Add(At(j, Add(At(j, Add(At(j, Embed(s0)), Embed(s1))), Embed(s2))), Embed(s3))), Embed(s4))),
        Embed(s5))
  }

  lemma ValueLast(n: nat, s: Data, x: bv5)
    ensures Value(n, s + [x]) == Add(Pow(n, Value(n, s)), Embed(x))
  {
    assert (s + [x])[..|s + [x]| - 1] == s;
  }

  lemma ValueSix(j: nat, s: Data)
    requires j <= 2 && |s| == 6
    ensures Value(24 + j, s) == Horner(j, s[0], s[1], s[2], s[3], s[4], s[5])
  {
    hide Add, Pow, Embed, At, Value;
    var n := 24 + j;
    ValueOne(n, s[0]);
    assert s[..1] == [s[0]];
    ValueStep(j, s, 1);
    ValueStep(j, s, 2);
    ValueStep(j, s, 3);
    ValueStep(j, s, 4);
    ValueStep(j, s, 5);
    assert s[..6] == s;
  }

  lemma ValueStep(j: nat, s: Data, i: nat)
    requires j <= 2 && i < |s|
    ensures Value(24 + j, s[..i + 1]) == Add(At(j, Value(24 + j, s[..i])), Embed(s[i]))
  {
    hide Add, Pow, Embed, At, Value;
    assert s[..i + 1] == s[..i] + [s[i]];
    ValueLast(24 + j, s[..i], s[i]);
    PowAt(j, Value(24 + j, s[..i]));
  }

  function Sixfold(j: nat, u: bv10): bv10
    requires j <= 2
  {
    At(j, At(j, At(j, At(j, At(j, At(j, u))))))
  }

  lemma PowSix(j: nat, u: bv10)
    requires j <= 2
    ensures Pow(6 * (24 + j), u) == Sixfold(j, u)
  {
    hide Pow, At;
    var n := 24 + j;
    PowNone(u);
    PowMore(j, 0, u);
    PowMore(j, n, u);
    PowMore(j, 2 * n, u);
    PowMore(j, 3 * n, u);
    PowMore(j, 4 * n, u);
    PowMore(j, 5 * n, u);
  }

  lemma PowMore(j: nat, m: nat, u: bv10)
    requires j <= 2
    ensures Pow(24 + j + m, u) == At(j, Pow(m, u))
  {
    hide Pow, At;
    PowPow(24 + j, m, u);
    PowAt(j, Pow(m, u));
  }

  // The values needed to evaluate the generator at its roots.
  lemma EmbedValues()
    ensures Embed(1) == 0x1 && Embed(2) == 0xe && Embed(3) == 0xf && Embed(4) == 0x54 && Embed(5) == 0x55
    ensures Embed(6) == 0x5a && Embed(8) == 0x358 && Embed(10) == 0x356 && Embed(12) == 0x30c && Embed(13) == 0x30d
    ensures Embed(15) == 0x303 && Embed(18) == 0xb1 && Embed(19) == 0xb0 && Embed(20) == 0xeb && Embed(21) == 0xea
    ensures Embed(22) == 0xe5 && Embed(24) == 0x3e7 && Embed(26) == 0x3e9 && Embed(29) == 0x3b2 && Embed(30) == 0x3bd
  {
  }

  lemma Times24()
    ensures T24(0x1) == 0x3f0 && T24(0x9) == 0x2ba && T24(0xe) == 0x32c && T24(0x54) == 0x227
    ensures T24(0x64) == 0xb8 && T24(0x66) == 0x27b && T24(0x6b) == 0x64 && T24(0x71) == 0x179
    ensures T24(0x7c) == 0x366 && T24(0x7d) == 0x96 && T24(0x7e) == 0x1a5 && T24(0xaf) == 0xfb
    ensures T24(0xb0) == 0x2b3 && T24(0xb9) == 0x9 && T24(0xbf) == 0x26f && T24(0xd4) == 0x20b
    ensures T24(0xe3) == 0x102 && T24(0xea) == 0x3b8 && T24(0x102) == 0x29b && T24(0x10c) == 0x1b7
    ensures T24(0x12d) == 0x24c && T24(0x149) == 0x2f4 && T24(0x179) == 0x6b && T24(0x17b) == 0x2a8
    ensures T24(0x1b7) == 0x37d && T24(0x227) == 0x12d && T24(0x24c) == 0x149 && T24(0x24d) == 0x2b9
    ensures T24(0x264) == 0x8 && T24(0x26f) == 0x71 && T24(0x271) == 0x1c9 && T24(0x28d) == 0x283
    ensures T24(0x29b) == 0x271 && T24(0x2b9) == 0xb9 && T24(0x2d9) == 0xa4 && T24(0x2e6) == 0x2e7
    ensures T24(0x2e8) == 0x1cb && T24(0x2f4) == 0x2b0 && T24(0x303) == 0x1db && T24(0x306) == 0x28e
    ensures T24(0x320) == 0xe3 && T24(0x32c) == 0x10c && T24(0x358) == 0x320 && T24(0x37d) == 0x7e
    ensures T24(0x3a7) == 0x159 && T24(0x3b2) == 0x98 && T24(0x3b9) == 0xe1 && T24(0x3bd) == 0x44
    ensures T24(0x3f0) == 0x24d && T24(0x3f7) == 0x3db
  {
  }

  // The multiples of x^6 modulo the generator that are fed back have the values that x^6 has at the roots.
  lemma FeedbackRoots24()
    ensures Horner(0, 29, 22, 20, 21, 29, 18) == Sixfold(0, 0x1)
    ensures Horner(0, 19, 5, 1, 3, 19, 13) == Sixfold(0, 0xe)
    ensures Horner(0, 15, 10, 2, 6, 15, 26) == Sixfold(0, 0x54)
    ensures Horner(0, 30, 20, 4, 12, 30, 29) == Sixfold(0, 0x358)
    ensures Horner(0, 21, 1, 8, 24, 21, 19) == Sixfold(0, 0xbf)
  {
    hide T24, Embed;
    EmbedValues();
    Times24();
  }

  lemma Times25()
    ensures T25(0x1) == 0x2c3 && T25(0x2) == 0xa5 && T25(0xa) == 0x231 && T25(0xe) == 0x37b
    ensures T25(0x10) == 0xb && T25(0x1c) == 0x3d5 && T25(0x54) == 0x16d && T25(0x63) == 0x25c
    ensures T25(0x69) == 0x6d && T25(0x6c) == 0x3e4 && T25(0xa5) == 0x3c7 && T25(0xa8) == 0x2da
    ensures T25(0xb0) == 0x45 && T25(0xbf) == 0x1fd && T25(0xe0) == 0x62 && T25(0xea) == 0x253
    ensures T25(0xf3) == 0x20f && T25(0xf8) == 0x2fd && T25(0x113) == 0x2dd && T25(0x120) == 0xa6
    ensures T25(0x140) == 0x9c && T25(0x144) == 0x1d6 && T25(0x16d) == 0x197 && T25(0x18e) == 0x393
    ensures T25(0x197) == 0x3cf && T25(0x1c4) == 0x18e && T25(0x1d5) == 0x346 && T25(0x1d6) == 0x120
    ensures T25(0x1ed) == 0x1cf && T25(0x1fd) == 0x1c4 && T25(0x208) == 0x3f4 && T25(0x23e) == 0x206
    ensures T25(0x252) == 0x1e2 && T25(0x256) == 0xa8 && T25(0x2b6) == 0xca && T25(0x2ba) == 0x314
    ensures T25(0x2c3) == 0x372 && T25(0x2da) == 0x32e && T25(0x2dd) == 0x2 && T25(0x2e5) == 0x28b
    ensures T25(0x303) == 0x3b6 && T25(0x358) == 0x363 && T25(0x363) == 0x38c && T25(0x372) == 0x144
    ensures T25(0x37b) == 0x113 && T25(0x38c) == 0x256 && T25(0x393) == 0x3e5 && T25(0x3ad) == 0x83
    ensures T25(0x3b2) == 0x130 && T25(0x3bd) == 0x88 && T25(0x3be) == 0x2ee && T25(0x3cf) == 0x1c
    ensures T25(0x3d5) == 0x226 && T25(0x3df) == 0x17 && T25(0x3e5) == 0x23b
  {
  }

  lemma FeedbackRoots25()
    ensures Horner(1, 29, 22, 20, 21, 29, 18) == Sixfold(1, 0x1)
    ensures Horner(1, 19, 5, 1, 3, 19, 13) == Sixfold(1, 0xe)
    ensures Horner(1, 15, 10, 2, 6, 15, 26) == Sixfold(1, 0x54)
    ensures Horner(1, 30, 20, 4, 12, 30, 29) == Sixfold(1, 0x358)
    ensures Horner(1, 21, 1, 8, 24, 21, 19) == Sixfold(1, 0xbf)
  {
    hide T25, Embed;
    EmbedValues();
    Times25();
  }

  lemma Times26()
    ensures T26(0x1) == 0xa5 && T26(0x2) == 0x14a && T26(0xe) == 0x3d5 && T26(0x1c) == 0x289
    ensures T26(0x20) == 0x2c && T26(0x2c) == 0x2b3 && T26(0x54) == 0x2da && T26(0x66) == 0x3aa
    ensures T26(0x6f) == 0x304 && T26(0x94) == 0x232 && T26(0xa5) == 0x2ad && T26(0xaa) == 0x1dd
    ensures T26(0xb0) == 0x8a && T26(0xb2) == 0x1c0 && T26(0xbf) == 0x3fa && T26(0xc6) == 0x336
    ensures T26(0xdf) == 0x38e && T26(0xea) == 0x185 && T26(0x119) == 0x1d8 && T26(0x137) == 0x221
    ensures T26(0x155) == 0x31f && T26(0x16e) == 0x2c1 && T26(0x16f) == 0x264 && T26(0x184) == 0x344
    ensures T26(0x187) == 0x2ab && T26(0x188) == 0x1db && T26(0x193) == 0x29 && T26(0x1c0) == 0x188
    ensures T26(0x1d6) == 0x240 && T26(0x1fb) == 0x56 && T26(0x21a) == 0x397 && T26(0x22b) == 0x308
    ensures T26(0x233) == 0x315 && T26(0x246) == 0x146 && T26(0x264) == 0x20 && T26(0x27d) == 0x98
    ensures T26(0x285) == 0x41 && T26(0x2ab) == 0x3b8 && T26(0x2ad) == 0x66 && T26(0x2da) == 0x37f
    ensures T26(0x2fb) == 0x3f6 && T26(0x303) == 0x24f && T26(0x315) == 0x187 && T26(0x31f) == 0xc6
    ensures T26(0x336) == 0x44 && T26(0x358) == 0x3e5 && T26(0x37f) == 0xb2 && T26(0x38f) == 0x60
    ensures T26(0x3aa) == 0x27d && T26(0x3b2) == 0x260 && T26(0x3b4) == 0x1be && T26(0x3bd) == 0x110
    ensures T26(0x3d5) == 0x16f && T26(0x3e5) == 0x155 && T26(0x3fa) == 0x233
  {
  }

  lemma FeedbackRoots26()
    ensures Horner(2, 29, 22, 20, 21, 29, 18) == Sixfold(2, 0x1)
    ensures Horner(2, 19, 5, 1, 3, 19, 13) == Sixfold(2, 0xe)
    ensures Horner(2, 15, 10, 2, 6, 15, 26) == Sixfold(2, 0x54)
    ensures Horner(2, 30, 20, 4, 12, 30, 29) == Sixfold(2, 0x358)
    ensures Horner(2, 21, 1, 8, 24, 21, 19) == Sixfold(2, 0xbf)
  {
    hide T26, Embed;
    EmbedValues();
    Times26();
  }

  lemma UnpackFeedback()
    ensures Unpack(0x3b6a57b2) == [29, 22, 20, 21, 29, 18]
    ensures Unpack(0x26508e6d) == [19, 5, 1, 3, 19, 13]
    ensures Unpack(0x1ea119fa) == [15, 10, 2, 6, 15, 26]
    ensures Unpack(0x3d4233dd) == [30, 20, 4, 12, 30, 29]
    ensures Unpack(0x2a1462b3) == [21, 1, 8, 24, 21, 19]
  {
  }

  lemma TopBits(c: bv30)
    ensures (Top(c) & 1 != 0) == (Symbol(c, 0) & 1 != 0) && (Top(c) & 2 != 0) == (Symbol(c, 0) & 2 != 0)
    ensures (Top(c) & 4 != 0) == (Symbol(c, 0) & 4 != 0) && (Top(c) & 8 != 0) == (Symbol(c, 0) & 8 != 0)
    ensures (Top(c) & 16 != 0) == (Symbol(c, 0) & 16 != 0)
  {
  }

  // The value of a state, as the polynomial with its six symbols as coefficients.
  function StateValue(n: nat, c: bv30): bv10 {
    Value(n, Unpack(c))
  }

  lemma StateXor(n: nat, a: bv30, b: bv30)
    ensures StateValue(n, Xor(a, b)) == Add(StateValue(n, a), StateValue(n, b))
  {
    hide Xor, XorAll, Add, Value, Unpack;
    UnpackXor(a, b);
    assert |Unpack(a)| == |Unpack(b)| by { UnpackSize(a); UnpackSize(b); }
    ValueXor(n, Unpack(a), Unpack(b));
  }

  lemma UnpackSize(c: bv30)
    ensures |Unpack(c)| == 6
  {
  }

  lemma StateZero(n: nat)
    ensures StateValue(n, 0) == 0
  {
    hide Add, Value;
    assert Xor(0, 0) == 0;
    StateXor(n, 0, 0);
    AddLaws(StateValue(n, 0));
  }

  predicate AtRoot(j: nat, k: bv30, e: bv10)
  {
    StateValue(24 + j, k) == Pow(6 * (24 + j), e)
  }

  lemma GeneratorRoots(j: nat)
    requires j <= 2
    ensures AtRoot(j, 0x3b6a57b2, 0x1)
    ensures AtRoot(j, 0x26508e6d, 0xe)
    ensures AtRoot(j, 0x1ea119fa, 0x54)
    ensures AtRoot(j, 0x3d4233dd, 0x358)
    ensures AtRoot(j, 0x2a1462b3, 0xbf)
  {
    hide Pow, Value, Unpack, Horner, Sixfold;
    FeedbackRoots24();
    FeedbackRoots25();
    FeedbackRoots26();
    UnpackFeedback();
    ValueSix(j, Unpack(0x3b6a57b2));
    PowSix(j, 0x1);
    ValueSix(j, Unpack(0x26508e6d));
    PowSix(j, 0xe);
    ValueSix(j, Unpack(0x1ea119fa));
    PowSix(j, 0x54);
    ValueSix(j, Unpack(0x3d4233dd));
    PowSix(j, 0x358);
    ValueSix(j, Unpack(0x2a1462b3));
    PowSix(j, 0xbf);
  }

  lemma TermValue(j: nat, c: bv30, mask: bv30, k: bv30, v: bv5, bit: bv5, e: bv10)
    requires AtRoot(j, k, e) && (c & mask != 0) == (v & bit != 0)
    ensures AtRoot(j, Term(c, mask, k), Bit(v, bit, e))
  {
    hide Pow, StateValue;
    StateZero(24 + j);
    PowZero(6 * (24 + j), 0);
  }

  lemma AtRootXor(j: nat, k: bv30, e: bv10, k': bv30, e': bv10)
    requires AtRoot(j, k, e) && AtRoot(j, k', e')
    ensures AtRoot(j, Xor(k, k'), Add(e, e'))
  {
    hide Pow, StateValue, Add, Xor;
    StateXor(24 + j, k, k');
    PowSum(6 * (24 + j), e, e');
  }

  // What is fed back for the top symbol has, at each of the roots, the value of that symbol times x^6.
  lemma FeedbackValue(j: nat, c: bv30)
    requires j <= 2
    ensures AtRoot(j, Feedback(Top(c)), Embed(Symbol(c, 0)))
  {
    hide AtRoot, Term, Xor, Add, Bit, Symbol, Top;
    GeneratorRoots(j);
    TopBits(c);
    var t, v := Top(c), Symbol(c, 0);
    TermValue(j, t, 1, 0x3b6a57b2, v, 1, 0x1);
    TermValue(j, t, 2, 0x26508e6d, v, 2, 0xe);
    TermValue(j, t, 4, 0x1ea119fa, v, 4, 0x54);
    TermValue(j, t, 8, 0x3d4233dd, v, 8, 0x358);
    TermValue(j, t, 16, 0x2a1462b3, v, 16, 0xbf);
    var t5, e5 := Term(t, 16, 0x2a1462b3), Bit(v, 16, 0xbf);
    AtRootXor(j, Term(t, 8, 0x3d4233dd), Bit(v, 8, 0x358), t5, e5);
    var t4, e4 := Xor(Term(t, 8, 0x3d4233dd), t5), Add(Bit(v, 8, 0x358), e5);
    AtRootXor(j, Term(t, 4, 0x1ea119fa), Bit(v, 4, 0x54), t4, e4);
    var t3, e3 := Xor(Term(t, 4, 0x1ea119fa), t4), Add(Bit(v, 4, 0x54), e4);
    AtRootXor(j, Term(t, 2, 0x26508e6d), Bit(v, 2, 0xe), t3, e3);
    AtRootXor(j, Term(t, 1, 0x3b6a57b2), Bit(v, 1, 0x1), Xor(Term(t, 2, 0x26508e6d), t3), Add(Bit(v, 2, 0xe), e3));
  }

  /** One step of the checksum multiplies the value at a root by the root and adds the symbol. */
  lemma StepValue(j: nat, c: bv30, v: bv5)
    requires j <= 2
    ensures StateValue(24 + j, Step(c, v)) == Add(Pow(24 + j, StateValue(24 + j, c)), Embed(v))
  {
    hide Pow, Add, Xor, Value, Embed, Symbol, Shifted, Feedback, Top;
    var n, u := 24 + j, Unpack(c);
    StateXor(n, Shifted(c, v), Feedback(Top(c)));
    UnpackShifted(c, v);
    FeedbackValue(j, c);
    var s := u[1..] + [v];
    assert u + [v] == [u[0]] + s;
    ValueLast(n, u, v);
    ValueCat(n, [u[0]], s);
    ValueOne(n, u[0]);
    AddCommutative(Pow(6 * n, Embed(u[0])), Value(n, s));
  }

  /** Reducing a word modulo the generator keeps its value at three consecutive powers of g. */
  lemma {:induction false} RemainderKeepsValue(j: nat, w: Data)
    requires j <= 2
    ensures StateValue(24 + j, PolyFrom(0, w)) == Value(24 + j, w)
    decreases |w|
  {
    hide Pow, Add, StateValue, Step, Embed;
    if w == [] {
      StateZero(24 + j);
    } else {
      RemainderKeepsValue(j, w[..|w| - 1]);
      StepValue(j, PolyFrom(0, w[..|w| - 1]), w[|w| - 1]);
    }
  }

  // ----- three errors -----

  // At most three nonzero symbols.
  function Sparse(e0: bv5, m1: nat, e1: bv5, m2: nat, e2: bv5): Data {
    [e0] + Zeros(m1) + [e1] + Zeros(m2) + [e2]
  }

  lemma SparseValue(n: nat, e0: bv5, m1: nat, e1: bv5, m2: nat, e2: bv5)
    ensures Value(n, Sparse(e0, m1, e1, m2, e2)) ==
            Add(Add(Pow(n * (m1 + m2 + 2), Embed(e0)), Pow(n * (m2 + 1), Embed(e1))), Embed(e2))
  {
    hide Pow, Add, Value, Embed;
    var a := [e0] + Zeros(m1);
    var b := a + [e1];
    var c := b + Zeros(m2);
    ValueZeros(n, m1);
    ValueZeros(n, m2);
    ValueOne(n, e0);
    ValueOne(n, e1);
    ValueOne(n, e2);
    ValueCat(n, [e0], Zeros(m1));
    ValueCat(n, a, [e1]);
    ValueCat(n, b, Zeros(m2));
    ValueCat(n, c, [e2]);
    var x, y := Embed(e0), Embed(e1);
    AddLaws(Pow(n * m1, x));
    PowTwice(n, m1, x);
    assert Value(n, b) == Add(Pow(n * (m1 + 1), x), y);
    AddLaws(Pow(n * m2, Value(n, b)));
    PowSum(n * m2, Pow(n * (m1 + 1), x), y);
    PowJoin(n, m1 + 1, m2, x);
    assert Value(n, c) == Add(Pow(n * (m1 + 1 + m2), x), Pow(n * m2, y));
    PowSum(n, Pow(n * (m1 + 1 + m2), x), Pow(n * m2, y));
    PowTwice(n, m1 + 1 + m2, x);
    PowTwice(n, m2, y);
  }

  lemma PowTwice(n: nat, m: nat, u: bv10)
    ensures Pow(n, Pow(n * m, u)) == Pow(n * (m + 1), u)
  {
    hide Pow;
    PowPow(n, n * m, u);
    Product(n, m);
  }

  lemma PowJoin(n: nat, k: nat, m: nat, u: bv10)
    ensures Pow(n * m, Pow(n * k, u)) == Pow(n * (k + m), u)
  {
    hide Pow;
    Products(n, k, m);
    PowOf(n * m, n * k, n * (k + m), u);
  }

  lemma PowOf(a: nat, b: nat, c: nat, u: bv10)
    requires a + b == c
    ensures Pow(a, Pow(b, u)) == Pow(c, u)
  {
    hide Pow;
    PowPow(a, b, u);
  }

  lemma Products(n: nat, k: nat, m: nat)
    ensures n * m + n * k == n * (k + m)
  {
  }

  // Shifting the exponent by one more power of g.
  lemma Shift(p: nat, u: bv10)
    ensures Pow(25 * p, u) == Pow(p, Pow(24 * p, u)) && Pow(26 * p, u) == Pow(p, Pow(p, Pow(24 * p, u)))
  {
    hide Pow;
    PowPow(p, 24 * p, u);
    PowPow(p, 25 * p, u);
  }

  // Subtracting two of the equations.
  lemma Eliminate(a: bv10, b: bv10, c: bv10, a': bv10, b': bv10)
    requires Add(Add(a, b), c) == 0 && Add(Add(a', b'), c) == 0
    ensures Add(a', a) == Add(b', b)
  {
    hide Add;
    AddEqual(Add(a, b), c);
    AddEqual(Add(a', b'), c);
    AddEqual(Add(a, b), Add(a', b'));
    AddCommutative(Add(a, b), Add(a', b'));
    AddRegroup(a', b', a, b);
    AddEqual(Add(a', a), Add(b', b));
  }

  lemma Differences(p: nat, q: nat, u1: bv10, u2: bv10, u3: bv10) returns (w: bv10)
    requires Add(Add(u1, u2), u3) == 0 && Add(Add(Pow(p, u1), Pow(q, u2)), u3) == 0
    requires Add(Add(Pow(p, Pow(p, u1)), Pow(q, Pow(q, u2))), u3) == 0
    ensures w == Add(Pow(p, u1), u1) == Add(Pow(q, u2), u2) && Pow(p, w) == Pow(q, w)
  {
    hide Pow, Add;
    w := Add(Pow(p, u1), u1);
    Eliminate(u1, u2, u3, Pow(p, u1), Pow(q, u2));
    Eliminate(Pow(p, u1), Pow(q, u2), u3, Pow(p, Pow(p, u1)), Pow(q, Pow(q, u2)));
    PowSum(p, Pow(p, u1), u1);
    PowSum(q, Pow(q, u2), u2);
  }

  lemma SamePowers(p: nat, q: nat, w: bv10)
    requires q < p < 1023 && Pow(p, w) == Pow(q, w)
    ensures w == 0
  {
    hide Pow;
    var d := p - q;
    PowPow(q, d, w);
    PowCancel(q, Pow(d, w), w);
    NotFixed(d, w);
  }

  /** A sum of three terms with different exponents that vanishes at three consecutive powers is zero. */
  lemma Vandermonde(p: nat, q: nat, u1: bv10, u2: bv10, u3: bv10)
    requires 0 < q < p < 1023
    requires Add(Add(u1, u2), u3) == 0 && Add(Add(Pow(p, u1), Pow(q, u2)), u3) == 0
    requires Add(Add(Pow(p, Pow(p, u1)), Pow(q, Pow(q, u2))), u3) == 0
    ensures u1 == 0 && u2 == 0 && u3 == 0
  {
    hide Pow, Add;
    var w := Differences(p, q, u1, u2, u3);
    SamePowers(p, q, w);
    AddEqual(Pow(p, u1), u1);
    NotFixed(p, u1);
    AddEqual(Pow(q, u2), u2);
    NotFixed(q, u2);
    AddLaws(0);
    AddLaws(u3);
  }

  lemma PowCancel(n: nat, a: bv10, b: bv10)
    requires Pow(n, a) == Pow(n, b)
    ensures a == b
  {
    hide Pow, Add;
    PowSum(n, a, b);
    AddEqual(Pow(n, a), Pow(n, b));
    PowZero(n, Add(a, b));
    AddEqual(a, b);
  }

  // No word with one to three nonzero symbols within a window of 1023 is a multiple of the generator.
  lemma SparseNotMultiple(e0: bv5, m1: nat, e1: bv5, m2: nat, e2: bv5)
    requires m1 + m2 + 3 <= 1023 && PolyFrom(0, Sparse(e0, m1, e1, m2, e2)) == 0
    ensures e0 == 0 && e1 == 0 && e2 == 0
  {
    hide Pow, Add, Value, Embed, StateValue, Sparse, PolyFrom;
    var w, p, q := Sparse(e0, m1, e1, m2, e2), m1 + m2 + 2, m2 + 1;
    RemainderKeepsValue(0, w);
    RemainderKeepsValue(1, w);
    RemainderKeepsValue(2, w);
    StateZero(24);
    StateZero(25);
    StateZero(26);
    SparseValue(24, e0, m1, e1, m2, e2);
    SparseValue(25, e0, m1, e1, m2, e2);
    SparseValue(26, e0, m1, e1, m2, e2);
    Shift(p, Embed(e0));
    Shift(q, Embed(e1));
    Vandermonde(p, q, Pow(24 * p, Embed(e0)), Pow(24 * q, Embed(e1)), Embed(e2));
    PowZero(24 * p, Embed(e0));
    PowZero(24 * q, Embed(e1));
    EmbedZero(e0);
    EmbedZero(e1);
    EmbedZero(e2);
  }

  lemma {:induction false} XorAllCat(s: Data, t: Data, s': Data, t': Data)
    requires |s| == |s'| && |t| == |t'|
    ensures XorAll(s + t, s' + t') == XorAll(s, s') + XorAll(t, t')
    decreases |t|
  {
    hide XorSymbol;
    if t == [] {
      assert s + t == s && s' + t' == s';
    } else {
      XorAllCat(s, t[..|t| - 1], s', t'[..|t'| - 1]);
      assert (s + t)[..|s + t| - 1] == s + t[..|t| - 1] && (s' + t')[..|s' + t'| - 1] == s' + t'[..|t'| - 1];
    }
  }

  // A word with three symbols singled out.
  function Word(a: bv5, mid1: Data, b: bv5, mid2: Data, c: bv5): Data {
    [a] + mid1 + [b] + mid2 + [c]
  }

  lemma XorWords(mid1: Data, mid2: Data, a: bv5, b: bv5, c: bv5, a': bv5, b': bv5, c': bv5)
    ensures XorAll(Word(a, mid1, b, mid2, c), Word(a', mid1, b', mid2, c')) ==
            Sparse(XorSymbol(a, a'), |mid1|, XorSymbol(b, b'), |mid2|, XorSymbol(c, c'))
  {
    hide XorSymbol;
    XorOne(a, a');
    XorOne(b, b');
    XorOne(c, c');
    XorSelf(mid1);
    XorSelf(mid2);
    hide XorAll;
    XorAllCat([a], mid1, [a'], mid1);
    XorAllCat([a] + mid1, [b], [a'] + mid1, [b']);
    XorAllCat([a] + mid1 + [b], mid2, [a'] + mid1 + [b'], mid2);
    XorAllCat([a] + mid1 + [b] + mid2, [c], [a'] + mid1 + [b'] + mid2, [c']);
  }

  lemma XorOne(a: bv5, b: bv5)
    ensures XorAll([a], [b]) == [XorSymbol(a, b)]
  {
    hide XorSymbol;
    assert [a][..0] == [] && [b][..0] == [];
  }

  /** Two words of any length that differ in up to three symbols within a window of 1023 have different
      checksums. */
  lemma ThreeErrorsDetected(prefix: Data, mid1: Data, mid2: Data, suffix: Data,
                            a: bv5, b: bv5, c: bv5, a': bv5, b': bv5, c': bv5)
    requires (a, b, c) != (a', b', c') && |mid1| + |mid2| + 3 <= 1023
    ensures PolyFrom(1, prefix + Word(a, mid1, b, mid2, c) + suffix)
         != PolyFrom(1, prefix + Word(a', mid1, b', mid2, c') + suffix)
  {
    hide PolyFrom, XorAll, Xor, XorSymbol;
    var v, w := Word(a, mid1, b, mid2, c), Word(a', mid1, b', mid2, c');
    PolyCat(1, prefix, v);
    PolyCat(1, prefix, w);
    PolyCat(1, prefix + v, suffix);
    PolyCat(1, prefix + w, suffix);
    var s := PolyFrom(1, prefix);
    if PolyFrom(1, prefix + v + suffix) == PolyFrom(1, prefix + w + suffix) {
      PolyInjective(PolyFrom(s, v), PolyFrom(s, w), suffix);
      PolyLinear(s, s, v, w);
      XorEqual(s, s);
      XorEqual(PolyFrom(s, v), PolyFrom(s, w));
      XorWords(mid1, mid2, a, b, c, a', b', c');
      SparseNotMultiple(XorSymbol(a, a'), |mid1|, XorSymbol(b, b'), |mid2|, XorSymbol(c, c'));
      XorEqualSymbol(a, a');
      XorEqualSymbol(b, b');
      XorEqualSymbol(c, c');
      assert false;
    }
  }

  /** Changing up to three symbols of an accepted word, anywhere within a window of 1023, makes it rejected. */
  lemma ThreeErrorsRejected(hrp: string, prefix: Data, mid1: Data, mid2: Data, suffix: Data,
                            a: bv5, b: bv5, c: bv5, a': bv5, b': bv5, c': bv5)
    requires (a, b, c) != (a', b', c') && |mid1| + |mid2| + 3 <= 1023
    requires Verifies(hrp, prefix + Word(a, mid1, b, mid2, c) + suffix)
    ensures !Verifies(hrp, prefix + Word(a', mid1, b', mid2, c') + suffix)
  {
    hide PolyFrom, Expanded, Word;
    var e, v, w := Expanded(hrp), Word(a, mid1, b, mid2, c), Word(a', mid1, b', mid2, c');
    ThreeErrorsDetected(e + prefix, mid1, mid2, suffix, a, b, c, a', b', c');
    assert e + (prefix + v + suffix) == (e + prefix) + v + suffix;
    assert e + (prefix + w + suffix) == (e + prefix) + w + suffix;
  }
}
