/**
 Numbers written in 32-bit limbs, least significant first, and the arithmetic the limb loops of
 src/arith_uint256.cpp rely on.
 */
module ArithModel {
  const BASE: nat := 0x1_0000_0000
  const WIDTH: nat := 8

  type Limb = x: int | 0 <= x < BASE

  function Pow2(n: nat): (r: nat)
    ensures r > 0
  {
    if n == 0 then 1 else 2 * Pow2(n - 1)
  }

  // BASE to the n.
  function Pow(n: nat): (r: nat)
    ensures r > 0
  {
    if n == 0 then 1 else BASE * Pow(n - 1)
  }

  /** The number in the first n limbs. */
  function V(s: seq<Limb>, n: nat): (v: nat)
    requires n <= |s|
  {
    if n == 0 then 0 else V(s, n - 1) + s[n - 1] * Pow(n - 1)
  }

  function Value(s: seq<Limb>): nat {
    V(s, |s|)
  }

  // ----- multiplication and division -----

  lemma Distrib(x: int, y: int, p: int)
    ensures (x + y) * p == x * p + y * p
  {
  }

  lemma Assoc(x: int, y: int, z: int)
    ensures x * (y * z) == (x * y) * z
  {
  }

  lemma Monotone(x: int, y: int, p: nat)
    requires x <= y
    ensures x * p <= y * p
  {
  }

  lemma ModUnique(r: nat, q: nat, m: nat)
    requires r < m
    ensures (r + q * m) % m == r && (r + q * m) / m == q
  {
    var x := r + q * m;
    var q', r' := x / m, x % m;
    assert x == q' * m + r';
    Distrib(q', 0 - q, m);
    if q' > q {
      Monotone(1, q' - q, m);
    } else if q' < q {
      Monotone(q' - q, -1, m);
    }
  }

  lemma {:induction false} Pow2Add(a: nat, b: nat)
    ensures Pow2(a + b) == Pow2(a) * Pow2(b)
  {
    if a > 0 {
      Pow2Add(a - 1, b);
      Assoc(2, Pow2(a - 1), Pow2(b));
    }
  }

  lemma {:induction false} PowAdd(a: nat, b: nat)
    ensures Pow(a + b) == Pow(a) * Pow(b)
  {
    if a > 0 {
      PowAdd(a - 1, b);
      Assoc(BASE, Pow(a - 1), Pow(b));
    }
  }

  lemma Pow2Limb()
    ensures Pow2(32) == BASE
  {
    assert Pow2(8) == 256;
    Pow2Add(8, 8);
    Pow2Add(16, 16);
  }

  lemma {:induction false} PowIsPow2(n: nat)
    ensures Pow(n) == Pow2(32 * n)
  {
    if n > 0 {
      PowIsPow2(n - 1);
      Pow2Limb();
      Pow2Add(32, 32 * (n - 1));
    }
  }

  lemma {:induction false} Pow2Monotone(a: nat, b: nat)
    requires a <= b
    ensures Pow2(a) <= Pow2(b)
  {
    if a < b {
      Pow2Monotone(a, b - 1);
    }
  }

  // ----- limbs -----

  lemma {:induction false} VBound(s: seq<Limb>, n: nat)
    requires n <= |s|
    ensures V(s, n) < Pow(n)
  {
    hide Pow;
    if n == 0 {
      assert Pow(0) == 1 by { PowStep(0); }
    } else {
      VBound(s, n - 1);
      PowStep(n - 1);
      Monotone(s[n - 1], BASE - 1, Pow(n - 1));
    }
  }

  lemma PowStep(n: nat)
    ensures Pow(0) == 1 && Pow(n + 1) == BASE * Pow(n)
  {
  }

  lemma {:induction false} VSame(s: seq<Limb>, t: seq<Limb>, n: nat)
    requires n <= |s| && n <= |t| && forall i :: 0 <= i < n ==> s[i] == t[i]
    ensures V(s, n) == V(t, n)
  {
    if n > 0 {
      VSame(s, t, n - 1);
    }
  }

  lemma {:induction false} VZero(s: seq<Limb>, k: nat, n: nat)
    requires k <= n <= |s| && forall i :: k <= i < n ==> s[i] == 0
    ensures V(s, n) == V(s, k)
  {
    if k < n {
      VZero(s, k, n - 1);
    }
  }

  /** Splitting a number at a limb. */
  lemma {:induction false} VSplit(s: seq<Limb>, k: nat, n: nat)
    requires k + n <= |s|
    ensures V(s, k + n) == V(s, k) + V(s[k..], n) * Pow(k)
  {
    hide Pow;
    if n > 0 {
      VSplit(s, k, n - 1);
      PowAdd(k, n - 1);
      Assoc(s[k + n - 1], Pow(n - 1), Pow(k));
      Distrib(V(s[k..], n - 1), s[k + n - 1] * Pow(n - 1), Pow(k));
    }
  }

  // One step of a loop with a carry: digit and carry are the parts of the sum n.
  lemma CarryStep(low: int, n: nat, i: nat)
    ensures low + (n % BASE) * Pow(i) + (n / BASE) * Pow(i + 1) == low + n * Pow(i)
  {
    hide Pow;
    PowStep(i);
    Assoc(n / BASE, BASE, Pow(i));
    Distrib(n % BASE, n / BASE * BASE, Pow(i));
  }

  // ----- bits -----

  // Bitwise or.
  function Or(x: nat, y: nat): nat
    decreases x + y
  {
    if x == 0 then y else if y == 0 then x
    else (if x % 2 == 1 || y % 2 == 1 then 1 else 0) + 2 * Or(x / 2, y / 2)
  }

  lemma {:induction false} OrCommutes(x: nat, y: nat)
    ensures Or(x, y) == Or(y, x)
    decreases x + y
  {
    if x != 0 && y != 0 {
      OrCommutes(x / 2, y / 2);
    }
  }

  /** Or of numbers without a common bit is their sum. */
  lemma {:induction false} OrHigh(y: nat, c: nat, k: nat)
    requires y < Pow2(k)
    ensures Or(y, c * Pow2(k)) == y + c * Pow2(k)
    decreases k
  {
    if y != 0 && c != 0 {
      var p := Pow2(k - 1);
      assert c * Pow2(k) == 2 * (c * p);
      OrHigh(y / 2, c, k - 1);
    }
  }

  lemma OrNone(y: nat)
    ensures Or(0, y) == y
  {
  }

  // Or of the low s bits and the other bits of a limb.
  lemma OrFits(h: nat, c: nat, s: nat)
    requires s <= 32 && h < Pow2(s) && c < Pow2(32 - s)
    ensures Or(h, c * Pow2(s)) == h + c * Pow2(s) < BASE
  {
    hide Pow2, Or;
    OrHigh(h, c, s);
    Pow2Limb();
    Pow2Add(s, 32 - s);
    Fits(h, c, Pow2(s), Pow2(32 - s));
  }

  lemma Fits(h: nat, c: nat, p: nat, q: nat)
    requires h < p && c < q
    ensures h + c * p < p * q
  {
    Monotone(c + 1, q, p);
    Distrib(c, 1, p);
  }

  function Quo(x: nat, d: nat): nat
    requires d > 0
  {
    x / d
  }

  function Rem(x: nat, d: nat): nat
    requires d > 0
  {
    x % d
  }

  // The bits of a limb shifted left that leave it, those that stay, and the same bits before the shift.
  function Hi(x: Limb, s: nat): nat
    requires s <= 32
  {
    Quo(x, Pow2(32 - s))
  }

  function Lo(x: Limb, s: nat): Limb
    requires s <= 32
  {
    (x * Pow2(s)) % BASE
  }

  function Rest(x: Limb, s: nat): nat
    requires s <= 32
  {
    Rem(x, Pow2(32 - s))
  }

  lemma ShiftParts(x: Limb, s: nat)
    requires s <= 32
    ensures x * Pow2(s) == Hi(x, s) * BASE + Lo(x, s) && x == Hi(x, s) * Pow2(32 - s) + Rest(x, s)
    ensures Hi(x, s) < Pow2(s) && Lo(x, s) == Rest(x, s) * Pow2(s) && Rest(x, s) < Pow2(32 - s)
  {
    hide Pow2, Quo, Rem;
    Pow2Add(s, 32 - s);
    Pow2Limb();
    Parts(x, Pow2(s), Pow2(32 - s), BASE);
  }

  lemma QuoRem(x: nat, q: nat)
    requires q > 0
    ensures x == Quo(x, q) * q + Rem(x, q) && Rem(x, q) < q
  {
  }

  lemma Spread(hi: int, q: int, rem: int, p: int, m: int)
    requires m == p * q
    ensures (hi * q + rem) * p == hi * m + rem * p
  {
    Distrib(hi * q, rem, p);
    Commute(hi, q, p);
    Commute(q, p, hi);
  }

  lemma Parts(x: nat, p: nat, q: nat, m: nat)
    requires m == p * q && x < m && p > 0 && q > 0
    ensures x * p == Quo(x, q) * m + (x * p) % m && x == Quo(x, q) * q + Rem(x, q)
    ensures Quo(x, q) < p && (x * p) % m == Rem(x, q) * p && Rem(x, q) < q
  {
    hide Quo, Rem;
    var hi, rem := Quo(x, q), Rem(x, q);
    QuoRem(x, q);
    Spread(hi, q, rem, p, m);
    Fits(0, rem, p, q);
    ModUnique(rem * p, hi, m);
    assert hi < p by { if hi >= p { Monotone(p, hi, q); } }
  }

  lemma Commute(x: int, y: int, z: int)
    ensures (x * y) * z == (y * z) * x
  {
  }
}
