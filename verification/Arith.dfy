/**
 base_uint<256> of src/arith_uint256.h and src/arith_uint256.cpp: eight 32-bit limbs updated in place.
 Every operator is integer arithmetic modulo 2^256 on the value of the limbs.
 */
module Arith {
  import opened ArithModel

  class ArithUint256 {
    const pn: array<Limb>

    ghost predicate Valid() {
      pn.Length == WIDTH
    }

    ghost function Value(): (v: nat)
      requires Valid()
      reads pn
    {
      V(pn[..], WIDTH)
    }

    constructor ()
      ensures Valid() && fresh(pn) && Value() == 0
    {
      pn := new Limb[WIDTH](_ => 0);
      new;
      VZero(pn[..], 0, WIDTH);
    }

    constructor Copy(b: ArithUint256)
      requires b.Valid()
      ensures Valid() && fresh(pn) && pn[..] == b.pn[..]
    {
      var other := b.pn;
      pn := new Limb[WIDTH](i requires 0 <= i < other.Length reads other => other[i]);
      new;
      assert pn[..] == b.pn[..];
    }

    constructor From64(b: nat)
      requires b < BASE * BASE
      ensures Valid() && fresh(pn) && Value() == b
    {
      pn := new Limb[WIDTH](i => if i == 0 then b % BASE else if i == 1 then b / BASE else 0);
      new;
      VZero(pn[..], 2, WIDTH);
      TwoLimbs(pn[..]);
    }

    method Assign(b: ArithUint256)
      requires Valid() && b.Valid()
      modifies pn
      ensures pn[..] == old(b.pn[..])
    {
      for i := 0 to WIDTH
        invariant forall j :: 0 <= j < i ==> pn[j] == old(b.pn[j])
        invariant forall j :: i <= j < WIDTH ==> b.pn[j] == old(b.pn[j])
      {
        pn[i] := b.pn[i];
      }
    }

    // ----- addition -----

    method Add(b: ArithUint256)
      requires Valid() && b.Valid()
      modifies pn
      ensures Value() == (old(Value()) + old(b.Value())) % Pow(WIDTH)
    {
      hide Pow, V;
      ghost var s, t := pn[..], b.pn[..];
      var carry := 0;
      VNone(s, t, pn[..]);
      for i := 0 to WIDTH
        invariant 0 <= carry <= 1 && forall j :: i <= j < WIDTH ==> pn[j] == s[j] && b.pn[j] == t[j]
        invariant V(pn[..], i) + carry * Pow(i) == V(s, i) + V(t, i)
      {
        ghost var u := pn[..];
        var n := carry + pn[i] + b.pn[i];
        AddStep(u, s, t, i, carry);
        pn[i] := n % BASE;
        carry := n / BASE;
        assert pn[..] == u[i := pn[i]];
      }
      Wraps(pn[..], carry);
    }

    method Complement() returns (ret: ArithUint256)
      requires Valid()
      ensures ret.Valid() && fresh(ret) && fresh(ret.pn) && ret.Value() == Pow(WIDTH) - 1 - Value()
    {
      hide Pow, V;
      ret := new ArithUint256();
      VNone(ret.pn[..], pn[..], pn[..]);
      for i := 0 to WIDTH
        invariant V(ret.pn[..], i) + V(pn[..], i) == Pow(i) - 1
      {
        ghost var u := ret.pn[..];
        ComplementStep(u, pn[..], i);
        ret.pn[i] := BASE - 1 - pn[i];
        assert ret.pn[..] == u[i := ret.pn[i]];
      }
    }

    method Increment()
      requires Valid()
      modifies pn
      ensures Value() == (old(Value()) + 1) % Pow(WIDTH)
    {
      hide Pow, V;
      ghost var s := pn[..];
      var i := 0;
      VNone(s, s, s);
      // The limbs passed were all full and are zero now.
      while i < WIDTH
        invariant i <= WIDTH && V(pn[..], i) == 0 && V(s, i) == Pow(i) - 1
        invariant forall j :: i <= j < WIDTH ==> pn[j] == s[j]
      {
        ghost var u := pn[..];
        IncrementStep(u, s, i);
        pn[i] := (pn[i] + 1) % BASE;
        assert pn[..] == u[i := pn[i]];
        if pn[i] != 0 {
          Wraps(pn[..], 0);
          return;
        }
        i := i + 1;
      }
      Wraps(pn[..], 1);
    }

    method Negate() returns (ret: ArithUint256)
      requires Valid()
      ensures ret.Valid() && fresh(ret) && fresh(ret.pn) && ret.Value() == (Pow(WIDTH) - Value()) % Pow(WIDTH)
    {
      ret := Complement();
      ret.Increment();
    }

    method Subtract(b: ArithUint256)
      requires Valid() && b.Valid()
      modifies pn
      ensures Value() == (old(Value()) - old(b.Value())) % Pow(WIDTH)
    {
      hide Pow, V;
      ghost var x, y := Value(), b.Value();
      VBound(b.pn[..], WIDTH);
      VBound(pn[..], WIDTH);
      var minus := b.Negate();
      Add(minus);
      NegatedSum(x, y, Pow(WIDTH));
    }

    method Decrement()
      requires Valid()
      modifies pn
      ensures Value() == (old(Value()) - 1) % Pow(WIDTH)
    {
      hide Pow, V;
      ghost var s := pn[..];
      var i := 0;
      VNone(s, s, s);
      // The limbs passed were all zero and are full now.
      while i < WIDTH
        invariant i <= WIDTH && V(s, i) == 0 && V(pn[..], i) == Pow(i) - 1
        invariant forall j :: i <= j < WIDTH ==> pn[j] == s[j]
      {
        ghost var u := pn[..];
        DecrementStep(u, s, i);
        pn[i] := (pn[i] - 1) % BASE;
        assert pn[..] == u[i := pn[i]];
        if pn[i] != BASE - 1 {
          VBound(pn[..], WIDTH);
          NoWrap(V(pn[..], WIDTH), Pow(WIDTH));
          return;
        }
        i := i + 1;
      }
      MinusOne(Pow(WIDTH));
    }

    // ----- multiplication -----

    method MultiplySmall(b: Limb)
      requires Valid()
      modifies pn
      ensures Value() == (old(Value()) * b) % Pow(WIDTH)
    {
      hide Pow, V;
      ghost var s := pn[..];
      var carry := 0;
      VNone(s, s, s);
      for i := 0 to WIDTH
        invariant 0 <= carry < BASE && forall j :: i <= j < WIDTH ==> pn[j] == s[j]
        invariant V(pn[..], i) + carry * Pow(i) == V(s, i) * b
      {
        ghost var u := pn[..];
        SmallStep(u, s, i, carry, b);
        var n := carry + b * pn[i];
        pn[i] := n % BASE;
        carry := n / BASE;
        assert pn[..] == u[i := pn[i]];
      }
      Wraps(pn[..], carry);
    }

    method Multiply(b: ArithUint256)
      requires Valid() && b.Valid()
      modifies pn
      ensures Value() == (old(Value()) * old(b.Value())) % Pow(WIDTH)
    {
      hide Pow, V;
      ghost var s, t := pn[..], b.pn[..];
      var a := new ArithUint256();
      ghost var q := 0;
      VNone(s, t, t);
      for j := 0 to WIDTH
        invariant pn[..] == s && b.pn[..] == t && q >= 0
        invariant V(a.pn[..], WIDTH) + q * Pow(WIDTH) == V(s, j) * V(t, WIDTH)
      {
        ghost var u0 := a.pn[..];
        ghost var carry := MultiplyRow(a, b, j);
        q := RowDone(u0, a.pn[..], s, t, j, q, carry);
      }
      Wraps(a.pn[..], q);
      Assign(a);
    }

    // a += pn[j] * b, shifted by j limbs, without what does not fit.
    method MultiplyRow(a: ArithUint256, b: ArithUint256, j: nat) returns (ghost last: nat)
      requires Valid() && b.Valid() && a.Valid() && a.pn != pn && a.pn != b.pn && j < WIDTH
      modifies a.pn
      ensures V(a.pn[..], WIDTH) + last * Pow(WIDTH) == old(a.Value()) + pn[j] * V(b.pn[..], WIDTH - j) * Pow(j)
    {
      hide Pow, V;
      ghost var u0, t := a.pn[..], b.pn[..];
      var carry := 0;
      VNone(t, t, t);
      for i := 0 to WIDTH - j
        invariant 0 <= carry < BASE && forall m :: i + j <= m < WIDTH ==> a.pn[m] == u0[m]
        invariant V(a.pn[..], i + j) + carry * Pow(i + j) == V(u0, i + j) + pn[j] * V(t, i) * Pow(j)
      {
        ghost var u := a.pn[..];
        RowStep(u, u0, t, i, j, carry, pn[j]);
        var x: int, y: int := pn[j], b.pn[i];
        var n := carry + a.pn[i + j] + x * y;
        a.pn[i + j] := n % BASE;
        carry := n / BASE;
        assert a.pn[..] == u[i + j := a.pn[i + j]];
      }
      last := carry;
    }

    // ----- comparison -----

    method CompareTo(b: ArithUint256) returns (c: int)
      requires Valid() && b.Valid()
      ensures c < 0 <==> Value() < b.Value()
      ensures c > 0 <==> Value() > b.Value()
    {
      hide Pow, V;
      var i := WIDTH;
      while i > 0
        invariant 0 <= i <= WIDTH && forall j :: i <= j < WIDTH ==> pn[j] == b.pn[j]
      {
        i := i - 1;
        if pn[i] < b.pn[i] {
          Decides(pn[..], b.pn[..], i);
          return -1;
        }
        if pn[i] > b.pn[i] {
          Decides(b.pn[..], pn[..], i);
          return 1;
        }
      }
      VSame(pn[..], b.pn[..], WIDTH);
      return 0;
    }

    method EqualTo(b: nat) returns (r: bool)
      requires Valid() && b < BASE * BASE
      ensures r <==> Value() == b
    {
      hide Pow, V;
      LowAndHigh(pn[..]);
      var i := WIDTH;
      while i > 2
        invariant 2 <= i <= WIDTH && forall j :: i <= j < WIDTH ==> pn[j] == 0
      {
        i := i - 1;
        if pn[i] != 0 {
          return false;
        }
      }
      r := pn[1] == b / BASE && pn[0] == b % BASE;
    }

    /** The position of the highest bit set plus one, or zero if the value is zero. */
    method Bits() returns (n: nat)
      requires Valid()
      ensures n <= 32 * WIDTH && (n == 0 <==> Value() == 0)
      ensures n > 0 ==> Pow2(n - 1) <= Value() < Pow2(n)
    {
      hide Pow, V, Pow2;
      var pos := WIDTH;
      while pos > 0
        invariant 0 <= pos <= WIDTH && forall j :: pos <= j < WIDTH ==> pn[j] == 0
      {
        pos := pos - 1;
        if pn[pos] != 0 {
          var nbits := 31;
          Pow2Limb();
          while nbits > 0
            invariant 0 <= nbits <= 31 && pn[pos] < Pow2(nbits + 1)
          {
            BitTest(pn[pos], nbits);
            if pn[pos] / Pow2(nbits) % 2 != 0 {
              TopBit(pn[..], pos, nbits);
              return 32 * pos + nbits + 1;
            }
            nbits := nbits - 1;
          }
          Pow2Small();
          TopBit(pn[..], pos, 0);
          return 32 * pos + 1;
        }
      }
      VNone(pn[..], pn[..], pn[..]);
      VZero(pn[..], 0, WIDTH);
      return 0;
    }

    // ----- shifts -----

    method SetZero()
      requires Valid()
      modifies pn
      ensures forall i :: 0 <= i < WIDTH ==> pn[i] == 0
    {
      for i := 0 to WIDTH
        invariant forall j :: 0 <= j < i ==> pn[j] == 0
      {
        pn[i] := 0;
      }
    }

    method ShiftLeft(shift: nat)
      requires Valid()
      modifies pn
      ensures Value() == (old(Value()) * Pow2(shift)) % Pow(WIDTH)
    {
      hide Pow, V, Pow2, Or, Hi, Lo, ShiftedTo;
      var a := new ArithUint256.Copy(this);
      ghost var s := a.pn[..];
      SetZero();
      var k, sh := shift / 32, shift % 32;
      if k <= WIDTH {
        ShiftStart(pn[..], s, k, sh);
      }
      for i := 0 to WIDTH
        invariant a.pn[..] == s
        invariant k <= WIDTH ==> ShiftedTo(pn[..], s, k, sh, if i + k <= WIDTH then i else WIDTH - k)
        invariant k > WIDTH ==> forall j :: 0 <= j < WIDTH ==> pn[j] == 0
      {
        if i + k < WIDTH {
          LeftStep(pn[..], s, k, sh, i);
        }
        ghost var u := pn[..];
        if i + k + 1 < WIDTH && sh != 0 {
          pn[i + k + 1] := Or(pn[i + k + 1], Hi(a.pn[i], sh));
        }
        if i + k < WIDTH {
          pn[i + k] := Or(pn[i + k], Lo(a.pn[i], sh));
          assert pn[..] == LeftLimbs(u, s, k, sh, i);
        }
      }
      ShiftedLeft(pn[..], s, shift);
    }

    method ShiftRight(shift: nat)
      requires Valid()
      modifies pn
      ensures Value() == old(Value()) / Pow2(shift)
    {
      hide Pow, V, Pow2, Or, Hi, Lo, RightTo;
      var a := new ArithUint256.Copy(this);
      ghost var s := a.pn[..];
      SetZero();
      var k, sh := shift / 32, shift % 32;
      if k <= WIDTH {
        RightStart(pn[..], s, k, sh);
      }
      for i := 0 to WIDTH
        invariant a.pn[..] == s
        invariant k <= WIDTH ==> RightTo(pn[..], s, k, sh, if i >= k then i - k else 0)
        invariant k > WIDTH ==> forall j :: 0 <= j < WIDTH ==> pn[j] == 0
      {
        if i - k >= 0 {
          RightStep(pn[..], s, k, sh, i - k);
        }
        ghost var u := pn[..];
        if i - k - 1 >= 0 && sh != 0 {
          pn[i - k - 1] := Or(pn[i - k - 1], Lo(a.pn[i], 32 - sh));
        }
        if i - k >= 0 {
          pn[i - k] := Or(pn[i - k], Hi(a.pn[i], 32 - sh));
          assert pn[..] == RightLimbs(u, s, k, sh, i - k);
        }
      }
      ShiftedRight(pn[..], s, shift);
    }

    // ----- division -----

    // Set a bit of the quotient. The bits up to it are zero.
    method SetBit(n: nat)
      requires Valid() && n < 32 * WIDTH && LowZero(pn[..], n + 1)
      modifies pn
      ensures Value() == old(Value()) + Pow2(n) && LowZero(pn[..], n)
    {
      hide Pow, V, Pow2, Or, LowZero;
      BitSet(pn[..], n);
      ghost var u := pn[..];
      pn[n / 32] := Or(pn[n / 32], Pow2(n % 32));
      assert pn[..] == u[n / 32 := pn[n / 32]];
    }

    // One bit of the quotient.
    method DivideStep(num: ArithUint256, div: ArithUint256, shift: nat, ghost d: nat)
      requires Valid() && num.Valid() && div.Valid() && div.pn != num.pn && div.pn != pn && num.pn != pn
      requires shift < 32 * WIDTH && LowZero(pn[..], shift + 1) && div.Value() == d * Pow2(shift)
      modifies pn, num.pn, div.pn
      ensures Value() * d + num.Value() == old(Value()) * d + old(num.Value())
      ensures num.Value() == if old(num.Value()) >= old(div.Value()) then old(num.Value()) - old(div.Value())
              else old(num.Value())
      ensures LowZero(pn[..], shift) && div.Value() == old(div.Value()) / Pow2(1)
    {
      hide Pow, V, Pow2, LowZero;
      LowerZero(pn[..], shift);
      var c := num.CompareTo(div);
      ghost var q, n := Value(), num.Value();
      if c >= 0 {
        VBound(num.pn[..], WIDTH);
        NoWrap(n - div.Value(), Pow(WIDTH));
        num.Subtract(div);
        SetBit(shift);
        Distrib(q, Pow2(shift), d);
      }
      div.ShiftRight(1);
    }

    /** The quotient; what is left is the remainder. Division by zero throws, with the value already zeroed. */
    method Divide(b: ArithUint256) returns (ok: bool, ghost rest: nat)
      requires Valid() && b.Valid()
      modifies pn
      ensures ok <==> old(b.Value()) != 0
      ensures ok ==> old(Value()) == Value() * old(b.Value()) + rest && rest < old(b.Value())
      ensures !ok ==> Value() == 0
    {
      hide Pow, V, Pow2, LowZero;
      ghost var x, d := Value(), b.Value();
      var div := new ArithUint256.Copy(b);
      var num := new ArithUint256.Copy(this);
      SetZero();
      VNone(pn[..], pn[..], pn[..]);
      VZero(pn[..], 0, WIDTH);
      var numBits := num.Bits();
      var divBits := div.Bits();
      rest := x;
      if divBits == 0 {
        return false, rest;
      }
      ok := true;
      if divBits > numBits {
        assert x < d by { FewerBits(x, d, numBits, divBits); }
        return;
      }
      var shift := numBits - divBits;
      Aligned(x, d, numBits, divBits);
      NoWrap(d * Pow2(shift), Pow(WIDTH));
      div.ShiftLeft(shift);
      AllZero(pn[..], shift + 1);
      while shift >= 0
        invariant -1 <= shift < 32 * WIDTH && x == Value() * d + num.Value() && num.Value() < d * Pow2(shift + 1)
        invariant shift >= 0 ==> div.Value() == d * Pow2(shift)
        invariant LowZero(pn[..], shift + 1)
        invariant div.pn != num.pn && div.pn != pn && num.pn != pn
      {
        HalfStep(d, shift);
        DivideStep(num, div, shift, d);
        shift := shift - 1;
      }
      Pow2Small();
      rest := num.Value();
    }
  }

  // ----- right shift -----

  // The first m limbs have been written, except for what limb k + m shifts into the last of them.
  ghost predicate RightTo(u: seq<Limb>, a: seq<Limb>, k: nat, s: nat, m: nat) {
    && |u| == |a| == WIDTH && m + k <= WIDTH && s < 32
    && (forall j :: m <= j < WIDTH ==> u[j] == 0)
    && (m > 0 ==> u[m - 1] == Hi(a[k + m - 1], 32 - s))
    && V(a[k..], m) == Pow2(s) * V(u, m) + if m == 0 then 0 else Rest(a[k], 32 - s)
  }

  lemma RightStart(u: seq<Limb>, a: seq<Limb>, k: nat, s: nat)
    requires |u| == |a| == WIDTH && k <= WIDTH && s < 32 && forall j :: 0 <= j < WIDTH ==> u[j] == 0
    ensures RightTo(u, a, k, s, 0)
  {
    hide Pow, Pow2, V;
    VNone(u, a[k..], a);
  }

  function RightLimbs(u: seq<Limb>, a: seq<Limb>, k: nat, s: nat, m: nat): seq<Limb>
    requires |u| == |a| == WIDTH && m + k < WIDTH && s < 32
    requires m > 0 && s != 0 ==> Or(u[m - 1], Lo(a[k + m], 32 - s)) < BASE
    requires Or(u[m], Hi(a[k + m], 32 - s)) < BASE
  {
    var v := if m > 0 && s != 0 then u[m - 1 := Or(u[m - 1], Lo(a[k + m], 32 - s))] else u;
    v[m := Or(u[m], Hi(a[k + m], 32 - s))]
  }

  // Or of the upper part of one limb and the lower part of the next.
  lemma RightOrs(prev: Limb, d: Limb, s: nat)
    requires s < 32
    ensures Or(Hi(prev, 32 - s), Lo(d, 32 - s)) == Hi(prev, 32 - s) + Rest(d, 32 - s) * Pow2(32 - s) < BASE
    ensures Or(0, Hi(d, 32 - s)) == Hi(d, 32 - s) < BASE && (s == 0 ==> Rest(d, 32 - s) == 0)
  {
    hide Pow2, Or, Hi, Lo, Rest;
    ShiftParts(prev, 32 - s);
    ShiftParts(d, 32 - s);
    OrFits(Hi(prev, 32 - s), Rest(d, 32 - s), 32 - s);
    OrNone(Hi(d, 32 - s));
    Pow2Limb();
    Pow2Monotone(32 - s, 32);
    Pow2Small();
  }

  // The limbs written so far are the number shifted, up to what falls off at the low end.
  lemma RightValue(u: seq<Limb>, u': seq<Limb>, a: seq<Limb>, k: nat, s: nat, m: nat)
    requires RightTo(u, a, k, s, m) && m + k < WIDTH && |u'| == WIDTH && u'[m] == Hi(a[k + m], 32 - s)
    requires forall j :: 0 <= j < m - 1 ==> u'[j] == u[j]
    requires m > 0 ==> u'[m - 1] == u[m - 1] + Rest(a[k + m], 32 - s) * Pow2(32 - s)
    requires s == 0 ==> Rest(a[k + m], 32 - s) == 0
    ensures V(a[k..], m + 1) == Pow2(s) * V(u', m + 1) + Rest(a[k], 32 - s)
  {
    hide Pow, Pow2, V, Hi, Rest;
    var d: Limb := a[k + m];
    ShiftParts(d, 32 - s);
    VStep(a[k..], m);
    VStep(u', m);
    if m == 0 {
      RightFirst(u', a[k..], Pow2(s), Hi(d, 32 - s), Rest(d, 32 - s));
    } else {
      VSame(u, u', m - 1);
      VStep(u', m - 1);
      VStep(u, m - 1);
      PowStep(m - 1);
      Carried(u[m - 1], u'[m - 1], Rest(d, 32 - s), s);
      RightSum(V(a[k..], m), Pow2(s), V(u, m - 1), u[m - 1], u'[m - 1], Pow(m - 1), Rest(a[k], 32 - s), d,
               Hi(d, 32 - s), Rest(d, 32 - s));
    }
  }

  lemma RightFirst(u: seq<Limb>, a: seq<Limb>, p: nat, hi: nat, lo: nat)
    requires |u| > 0 && |a| > 0 && u[0] == hi && a[0] == hi * p + lo
    ensures V(a, 1) == p * V(u, 1) + lo
  {
    hide Pow, V;
    VNone(u, a, a);
    VStep(u, 0);
    VStep(a, 0);
  }

  lemma RightStep(u: seq<Limb>, a: seq<Limb>, k: nat, s: nat, m: nat)
    requires RightTo(u, a, k, s, m) && m + k < WIDTH
    ensures m > 0 && s != 0 ==> Or(u[m - 1], Lo(a[k + m], 32 - s)) < BASE
    ensures Or(u[m], Hi(a[k + m], 32 - s)) < BASE
    ensures RightTo(RightLimbs(u, a, k, s, m), a, k, s, m + 1)
  {
    hide Pow, Pow2, V, Or, Hi, Lo, Rest;
    RightOrs(if m > 0 then a[k + m - 1] else a[k + m], a[k + m], s);
    RightValue(u, RightLimbs(u, a, k, s, m), a, k, s, m);
  }

  lemma Carried(y: int, x: int, lo: int, s: nat)
    requires s < 32 && (s == 0 ==> lo == 0) && x == y + lo * Pow2(32 - s)
    ensures Pow2(s) * (x - y) == lo * BASE
  {
    hide Pow2;
    Pow2Limb();
    Pow2Add(s, 32 - s);
    Pow2Small();
    if s != 0 {
      var p, q := Pow2(s), Pow2(32 - s);
      Assoc(p, lo, q);
      assert p * lo * q == lo * (p * q) by { Assoc(lo, p, q); }
    }
  }

  lemma RightSum(va: int, p: int, v: int, y: int, x: int, w: int, first: int, d: int, hi: int, lo: int)
    requires va == p * (v + y * w) + first && d == hi * p + lo && p * (x - y) == lo * BASE
    ensures va + d * (BASE * w) == p * (v + x * w + hi * (BASE * w)) + first
  {
    var b := BASE * w;
    assert p * (v + x * w + hi * b) == p * (v + y * w) + p * ((x - y) * w) + p * (hi * b) by {
      assert v + x * w + hi * b == (v + y * w) + (x - y) * w + hi * b by { Distrib(x, -y, w); }
      Distrib(v + y * w, (x - y) * w, p);
      Distrib((v + y * w) + (x - y) * w, hi * b, p);
    }
    assert p * ((x - y) * w) == lo * b by { Assoc(p, x - y, w); Assoc(lo, BASE, w); }
    assert p * (hi * b) == hi * p * b by { Assoc(p, hi, b); }
    Distrib(hi * p, lo, b);
  }

  lemma ShiftedRight(u: seq<Limb>, a: seq<Limb>, shift: nat)
    requires |u| == |a| == WIDTH
    requires shift / 32 <= WIDTH ==> RightTo(u, a, shift / 32, shift % 32, WIDTH - shift / 32)
    requires shift / 32 > WIDTH ==> forall m :: 0 <= m < WIDTH ==> u[m] == 0
    ensures V(u, WIDTH) == V(a, WIDTH) / Pow2(shift)
  {
    hide Pow2, Pow, V, RightTo;
    var k, s := shift / 32, shift % 32;
    assert Pow2(shift) == Pow2(s) * Pow(k) by { Pow2Split(shift); }
    if k <= WIDTH {
      RightNear(u, a, k, s, Pow2(shift));
    } else {
      VNone(u, u, u);
      VZero(u, 0, WIDTH);
      VBound(a, WIDTH);
      PowIsPow2(WIDTH);
      Pow2Monotone(32 * WIDTH, shift);
      ModUnique(V(a, WIDTH), 0, Pow2(shift));
    }
  }

  lemma RightNear(u: seq<Limb>, a: seq<Limb>, k: nat, s: nat, f: nat)
    requires k <= WIDTH && RightTo(u, a, k, s, WIDTH - k) && f == Pow2(s) * Pow(k)
    ensures V(u, WIDTH) == V(a, WIDTH) / f
  {
    hide Pow2, Pow, V, Rest, Hi;
    var m := WIDTH - k;
    VZero(u, m, WIDTH);
    VSplit(a, k, m);
    VBound(a, k);
    var first := if m == 0 then 0 else Rest(a[k], 32 - s);
    if m > 0 {
      ShiftParts(a[k], 32 - s);
    }
    RightTotal(V(a, k), first, V(u, m), Pow(k), Pow2(s), V(a, WIDTH));
  }

  lemma RightTotal(low: nat, first: nat, r: nat, w: nat, p: nat, total: nat)
    requires low < w && first < p && total == low + (p * r + first) * w
    ensures total / (p * w) == r
  {
    Distrib(p * r, first, w);
    Commute(p, r, w);
    Fits(low, first, w, p);
    assert total == (low + first * w) + r * (p * w) by { Commute(r, w, p); }
    ModUnique(low + first * w, r, p * w);
  }

  // ----- division steps -----

  // The low n bits are zero.
  ghost predicate LowZero(u: seq<Limb>, n: nat) {
    && |u| == WIDTH
    && (forall j :: 0 <= j < n / 32 && j < WIDTH ==> u[j] == 0)
    && (n / 32 < WIDTH ==> u[n / 32] % Pow2(n % 32) == 0)
  }

  lemma AllZero(u: seq<Limb>, n: nat)
    requires |u| == WIDTH && forall j :: 0 <= j < WIDTH ==> u[j] == 0
    ensures LowZero(u, n)
  {
    hide Pow2;
    ModUnique(0, 0, Pow2(n % 32));
  }

  lemma LimbZero(u: seq<Limb>, n: nat)
    requires LowZero(u, n + 1) && n < 32 * WIDTH
    ensures u[n / 32] % Pow2(n % 32 + 1) == 0 && forall j :: 0 <= j < n / 32 ==> u[j] == 0
  {
    if n % 32 == 31 {
      assert (n + 1) / 32 == n / 32 + 1;
      ModUnique(0, 0, Pow2(32));
    } else {
      assert (n + 1) / 32 == n / 32 && (n + 1) % 32 == n % 32 + 1;
    }
  }

  lemma HalfMultiple(x: nat, r: nat)
    requires x % Pow2(r + 1) == 0
    ensures x % Pow2(r) == 0
  {
    var p := Pow2(r);
    var c := x / Pow2(r + 1);
    assert x == c * (2 * p);
    assert x == 0 + (c * 2) * p by { Assoc(c, 2, p); }
    hide Pow2;
    ModUnique(0, c * 2, p);
  }

  lemma LowerZero(u: seq<Limb>, n: nat)
    requires LowZero(u, n + 1) && n < 32 * WIDTH
    ensures LowZero(u, n)
  {
    hide Pow2;
    LimbZero(u, n);
    HalfMultiple(u[n / 32], n % 32);
  }

  lemma BitSet(u: seq<Limb>, n: nat)
    requires LowZero(u, n + 1) && n < 32 * WIDTH
    ensures var k, x := n / 32, Or(u[n / 32], Pow2(n % 32));
            && x < BASE && LowZero(u[k := x], n) && V(u[k := x], WIDTH) == V(u, WIDTH) + Pow2(n)
  {
    hide Pow, Pow2, V, Or;
    var k, r := n / 32, n % 32;
    var p := Pow2(r);
    LimbZero(u, n);
    LimbBit(u[k], r);
    var x: Limb := Or(u[k], p);
    assert V(u[k := x], WIDTH) == V(u, WIDTH) + p * Pow(k) by {
      VNext(u, k, x);
      VStep(u, k);
      VTail(u[k := x], u, k + 1, WIDTH);
      Distrib(u[k], p, Pow(k));
    }
    assert Pow2(n) == p * Pow(k) by { Pow2Split(n); }
  }

  lemma LimbBit(d: Limb, r: nat)
    requires r < 32 && d % Pow2(r + 1) == 0
    ensures Or(d, Pow2(r)) == d + Pow2(r) < BASE && Or(d, Pow2(r)) % Pow2(r) == 0
  {
    hide Pow2, Or;
    var p, c := Pow2(r), d / Pow2(r + 1);
    assert Pow2(r + 1) == 2 * p by { Pow2Step(r); }
    assert d == c * (2 * p);
    Pow2Limb();
    Pow2Add(r + 1, 31 - r);
    assert c < Pow2(31 - r) by { QuotientBelow(c, 2 * p, Pow2(31 - r)); }
    OrCommutes(d, p);
    OrFits(p, c, r + 1);
    OddMultiple(c, p);
  }

  lemma Pow2Step(r: nat)
    ensures Pow2(r + 1) == 2 * Pow2(r)
  {
  }

  lemma QuotientBelow(c: int, p: nat, q: int)
    requires c * p < p * q
    ensures c < q
  {
    if c >= q {
      Monotone(q, c, p);
    }
  }

  lemma OddMultiple(c: nat, p: nat)
    requires p > 0
    ensures (c * (2 * p) + p) % p == 0
  {
    Assoc(c, 2, p);
    Distrib(c * 2, 1, p);
    ModUnique(0, c * 2 + 1, p);
  }

  lemma FewerBits(x: nat, d: nat, n: nat, m: nat)
    requires n < m && (n == 0 ==> x == 0) && (n > 0 ==> x < Pow2(n)) && Pow2(m - 1) <= d
    ensures x < d
  {
    hide Pow2;
    if n > 0 {
      Pow2Monotone(n, m - 1);
    }
  }

  // The divisor, shifted to as many bits as the number has, still fits.
  lemma Aligned(x: nat, d: nat, n: nat, m: nat)
    requires 0 < m <= n <= 32 * WIDTH && x < Pow2(n) && Pow2(m - 1) <= d < Pow2(m)
    ensures d * Pow2(n - m) < Pow(WIDTH) && x < d * Pow2(n - m + 1)
  {
    hide Pow, Pow2;
    Pow2Add(m, n - m);
    Pow2Add(m - 1, n - m + 1);
    PowIsPow2(WIDTH);
    Pow2Monotone(n, 32 * WIDTH);
    Monotone(d + 1, Pow2(m), Pow2(n - m));
    Distrib(d, 1, Pow2(n - m));
    Monotone(Pow2(m - 1), d, Pow2(n - m + 1));
  }

  lemma HalfStep(d: nat, shift: nat)
    ensures d * Pow2(shift + 1) == 2 * (d * Pow2(shift))
    ensures shift > 0 ==> d * Pow2(shift) / Pow2(1) == d * Pow2(shift - 1)
  {
    var p := Pow2(shift);
    assert Pow2(shift + 1) == 2 * p;
    if shift > 0 {
      var h := Pow2(shift - 1);
      assert p == 2 * h && Pow2(1) == 2;
      assert d * p == 2 * (d * h);
    }
  }

  // ----- left shift -----

  // What the limb before i shifts into limb i.
  function ShiftedIn(a: seq<Limb>, s: nat, i: nat): nat
    requires i <= |a| && s < 32
  {
    if i == 0 then 0 else Hi(a[i - 1], s)
  }

  // The first e limbs of a have been written, k limbs and s bits further up.
  ghost predicate ShiftedTo(u: seq<Limb>, a: seq<Limb>, k: nat, s: nat, e: nat) {
    && |u| == |a| == WIDTH && e + k <= WIDTH && s < 32
    && (forall m :: e + k < m < WIDTH ==> u[m] == 0)
    && (e + k < WIDTH ==> u[e + k] == ShiftedIn(a, s, e))
    && V(u, e + k) + ShiftedIn(a, s, e) * Pow(e + k) == V(a, e) * Pow2(s) * Pow(k)
  }

  lemma ShiftStart(u: seq<Limb>, a: seq<Limb>, k: nat, s: nat)
    requires |u| == |a| == WIDTH && k <= WIDTH && s < 32 && forall m :: 0 <= m < WIDTH ==> u[m] == 0
    ensures ShiftedTo(u, a, k, s, 0)
  {
    hide Pow, Pow2, V;
    VNone(u, a, a);
    VZero(u, 0, k);
  }

  // The limbs after one iteration.
  function LeftLimbs(u: seq<Limb>, a: seq<Limb>, k: nat, s: nat, i: nat): seq<Limb>
    requires |u| == |a| == WIDTH && i + k < WIDTH && s < 32
    requires i + k + 1 < WIDTH ==> Or(u[i + k + 1], Hi(a[i], s)) < BASE
    requires Or(u[i + k], Lo(a[i], s)) < BASE
  {
    var v := if i + k + 1 < WIDTH && s != 0 then u[i + k + 1 := Or(u[i + k + 1], Hi(a[i], s))] else u;
    v[i + k := Or(u[i + k], Lo(a[i], s))]
  }

  lemma LeftStep(u: seq<Limb>, a: seq<Limb>, k: nat, s: nat, i: nat)
    requires ShiftedTo(u, a, k, s, i) && i + k < WIDTH
    ensures i + k + 1 < WIDTH ==> Or(u[i + k + 1], Hi(a[i], s)) < BASE
    ensures Or(u[i + k], Lo(a[i], s)) < BASE
    ensures ShiftedTo(LeftLimbs(u, a, k, s, i), a, k, s, i + 1)
  {
    hide Pow, Pow2, V, Or;
    LeftOrs(a, s, i);
    ShiftParts(a[i], s);
    var hi, lo, h := Hi(a[i], s), Lo(a[i], s), ShiftedIn(a, s, i);
    var u' := LeftLimbs(u, a, k, s, i);
    assert u'[i + k] == h + lo;
    assert V(u', i + k + 1) == V(u, i + k) + (h + lo) * Pow(i + k) by { VSame(u, u', i + k); VStep(u', i + k); }
    assert V(a, i + 1) == V(a, i) + a[i] * Pow(i) by { VStep(a, i); }
    PowStep(i + k);
    PowAdd(i, k);
    LeftSum(V(u, i + k), h, lo, hi, Pow(i + k), V(a, i), a[i], Pow(i), Pow2(s), Pow(k));
  }

  lemma LeftOrs(a: seq<Limb>, s: nat, i: nat)
    requires i < |a| && s < 32
    ensures Or(0, Hi(a[i], s)) == Hi(a[i], s) < BASE && (s == 0 ==> Hi(a[i], s) == 0)
    ensures Or(ShiftedIn(a, s, i), Lo(a[i], s)) == ShiftedIn(a, s, i) + Lo(a[i], s) < BASE
  {
    hide Pow2, Hi, Lo, Rest, Or;
    ShiftParts(a[i], s);
    if i > 0 {
      ShiftParts(a[i - 1], s);
    }
    Pow2Limb();
    Pow2Monotone(s, 32);
    Pow2Small();
    OrNone(Hi(a[i], s));
    OrFits(ShiftedIn(a, s, i), Rest(a[i], s), s);
  }

  lemma LeftSum(v: int, h: int, lo: int, hi: int, p: int, va: int, d: int, pi: int, q: int, pk: int)
    requires v + h * p == va * q * pk && d * q == hi * BASE + lo && p == pi * pk
    ensures v + (h + lo) * p + hi * (BASE * p) == (va + d * pi) * q * pk
  {
    Distrib(h, lo, p);
    Assoc(hi, BASE, p);
    Distrib(hi * BASE, lo, p);
    assert (va + d * pi) * q * pk == va * q * pk + d * pi * q * pk by {
      Distrib(va, d * pi, q);
      Distrib(va * q, d * pi * q, pk);
    }
    assert d * pi * q * pk == (d * q) * (pi * pk) by {
      Rearranged(d, pi, q, pk);
      Assoc(d * pi, q, pk);
      Assoc(d * q, pk, pi);
      Assoc(d * q, pi, pk);
    }
  }

  lemma ShiftedLeft(u: seq<Limb>, a: seq<Limb>, shift: nat)
    requires |u| == |a| == WIDTH
    requires shift / 32 <= WIDTH ==> ShiftedTo(u, a, shift / 32, shift % 32, WIDTH - shift / 32)
    requires shift / 32 > WIDTH ==> forall m :: 0 <= m < WIDTH ==> u[m] == 0
    ensures V(u, WIDTH) == (V(a, WIDTH) * Pow2(shift)) % Pow(WIDTH)
  {
    hide Pow2, Pow, V, ShiftedTo;
    var k, s := shift / 32, shift % 32;
    assert Pow2(shift) == Pow2(s) * Pow(k) by { Pow2Split(shift); }
    if k <= WIDTH {
      ShiftedNear(u, a, k, s, Pow2(shift));
    } else {
      ShiftedFar(u, a, k, s, Pow2(shift));
    }
  }

  lemma Pow2Split(shift: nat)
    ensures Pow2(shift) == Pow2(shift % 32) * Pow(shift / 32)
  {
    hide Pow, Pow2;
    PowIsPow2(shift / 32);
    Pow2Add(shift % 32, 32 * (shift / 32));
  }

  lemma ShiftedNear(u: seq<Limb>, a: seq<Limb>, k: nat, s: nat, f: nat)
    requires k <= WIDTH && ShiftedTo(u, a, k, s, WIDTH - k) && f == Pow2(s) * Pow(k)
    ensures V(u, WIDTH) == (V(a, WIDTH) * f) % Pow(WIDTH)
  {
    hide Pow2, Pow, V, Hi;
    var e := WIDTH - k;
    var h, high := ShiftedIn(a, s, e), V(a[e..], k);
    VSplit(a, e, k);
    PowAdd(e, k);
    LeftTotal(V(u, WIDTH), h, V(a, e), high, Pow(e), Pow2(s), Pow(k));
    Wraps(u, h + high * Pow2(s));
  }

  lemma ShiftedFar(u: seq<Limb>, a: seq<Limb>, k: nat, s: nat, f: nat)
    requires |u| == |a| == WIDTH && k > WIDTH && (forall m :: 0 <= m < WIDTH ==> u[m] == 0) && f == Pow2(s) * Pow(k)
    ensures V(u, WIDTH) == (V(a, WIDTH) * f) % Pow(WIDTH)
  {
    hide Pow2, Pow, V;
    VNone(u, u, u);
    VZero(u, 0, WIDTH);
    PowAdd(WIDTH, k - WIDTH);
    FarTotal(V(a, WIDTH), Pow2(s), Pow(WIDTH), Pow(k - WIDTH));
    ModUnique(0, V(a, WIDTH) * Pow2(s) * Pow(k - WIDTH), Pow(WIDTH));
  }

  lemma LeftTotal(v: int, h: int, low: int, high: int, pe: int, q: int, pk: int)
    requires v + h * (pe * pk) == low * q * pk
    ensures v + (h + high * q) * (pe * pk) == (low + high * pe) * (q * pk)
  {
    Distrib(h, high * q, pe * pk);
    Distrib(low, high * pe, q * pk);
    Assoc(low, q, pk);
    Rearranged(high, q, pe, pk);
    assert (high * q) * (pe * pk) == (high * pe) * (pk * q);
  }

  lemma FarTotal(v: int, q: int, w: int, r: int)
    ensures v * (q * (w * r)) == v * q * r * w
  {
    Assoc(v, q, w * r);
    Assoc(v * q, r, w);
  }

  // ----- multiplication steps -----

  lemma SmallStep(u: seq<Limb>, s: seq<Limb>, i: nat, carry: nat, b: Limb)
    requires i < |u| && i < |s| && carry < BASE && V(u, i) + carry * Pow(i) == V(s, i) * b
    ensures var n := carry + b * s[i];
            0 <= n / BASE < BASE && V(u[i := n % BASE], i + 1) + (n / BASE) * Pow(i + 1) == V(s, i + 1) * b
  {
    hide Pow;
    var n := carry + b * s[i];
    Product(b, s[i]);
    VNext(u, i, n % BASE);
    CarryStep(V(u, i), n, i);
    Distrib(carry, b * s[i], Pow(i));
    Distrib(V(s, i), s[i] * Pow(i), b);
    Commute(b, s[i], Pow(i));
  }

  lemma Product(x: Limb, y: Limb)
    ensures 0 <= x * y <= (BASE - 1) * (BASE - 1)
  {
    Monotone(x, BASE - 1, y);
    Monotone(y, BASE - 1, BASE - 1);
  }

  lemma RowStep(u: seq<Limb>, u0: seq<Limb>, t: seq<Limb>, i: nat, j: nat, carry: nat, x: Limb)
    requires i + j < |u| == |u0| && i < |t| && carry < BASE && u[i + j] == u0[i + j]
    requires V(u, i + j) + carry * Pow(i + j) == V(u0, i + j) + x * V(t, i) * Pow(j)
    ensures var n := carry + u0[i + j] + x * t[i];
            && 0 <= n / BASE < BASE
            && V(u[i + j := n % BASE], i + j + 1) + (n / BASE) * Pow(i + j + 1)
               == V(u0, i + j + 1) + x * V(t, i + 1) * Pow(j)
  {
    hide Pow;
    var n := carry + u0[i + j] + x * t[i];
    Product(x, t[i]);
    VNext(u, i + j, n % BASE);
    CarryStep(V(u, i + j), n, i + j);
    Distrib(carry, u0[i + j], Pow(i + j));
    Distrib(carry + u0[i + j], x * t[i], Pow(i + j));
    RowTerm(x, V(t, i), t[i], Pow(i), Pow(j));
    PowAdd(i, j);
  }

  lemma RowTerm(x: int, v: int, d: int, p: int, q: int)
    ensures x * (v + d * p) * q == x * v * q + (x * d) * (p * q)
  {
    Distrib(v, d * p, x);
    assert x * (v + d * p) == x * v + x * (d * p);
    Distrib(x * v, x * (d * p), q);
    Assoc(x, d, p);
    Assoc(x * d, p, q);
  }

  // What a row adds and what it drops.
  lemma RowDone(u0: seq<Limb>, u: seq<Limb>, s: seq<Limb>, t: seq<Limb>, j: nat, q: nat, carry: nat) returns (q': nat)
    requires |u0| == |u| == |s| == |t| == WIDTH && j < WIDTH
    requires V(u0, WIDTH) + q * Pow(WIDTH) == V(s, j) * V(t, WIDTH)
    requires V(u, WIDTH) + carry * Pow(WIDTH) == V(u0, WIDTH) + s[j] * V(t, WIDTH - j) * Pow(j)
    ensures V(u, WIDTH) + q' * Pow(WIDTH) == V(s, j + 1) * V(t, WIDTH)
  {
    hide Pow, V;
    var high := V(t[WIDTH - j..], j);
    q' := q + carry + s[j] * high;
    VSplit(t, WIDTH - j, j);
    PowAdd(WIDTH - j, j);
    assert V(s, j + 1) == V(s, j) + s[j] * Pow(j) by { VStep(s, j); }
    RowSum(V(u, WIDTH), V(u0, WIDTH), q, carry, s[j], Pow(j), V(t, WIDTH - j), high, Pow(WIDTH - j), V(s, j));
  }

  lemma VStep(s: seq<Limb>, i: nat)
    requires i < |s|
    ensures V(s, i + 1) == V(s, i) + s[i] * Pow(i)
  {
  }

  lemma RowSum(v: int, v0: int, q: int, carry: int, x: int, p: int, low: int, high: int, r: int, vs: int)
    requires v0 + q * (r * p) == vs * (low + high * r) && v + carry * (r * p) == v0 + x * low * p
    ensures v + (q + carry + x * high) * (r * p) == (vs + x * p) * (low + high * r)
  {
    Distrib(vs, x * p, low + high * r);
    Dropped(x, p, low, high, r);
    Distrib(q + carry, x * high, r * p);
    Distrib(q, carry, r * p);
  }

  lemma Dropped(x: int, p: int, low: int, high: int, r: int)
    ensures (x * p) * (low + high * r) == x * low * p + (x * high) * (r * p)
  {
    assert (x * p) * (low + high * r) == (x * p) * low + (x * p) * (high * r) by { Distrib(low, high * r, x * p); }
    assert (x * p) * low == x * low * p by { Commute(x, p, low); Commute(x, low, p); }
    Rearranged(x, p, high, r);
  }

  lemma Rearranged(x: int, p: int, h: int, r: int)
    ensures (x * p) * (h * r) == (x * h) * (r * p)
  {
    Assoc(x * p, h, r);
    assert (x * p) * h == (x * h) * p by { Commute(x, p, h); Commute(x, h, p); }
    Assoc(x * h, p, r);
  }

  // ----- comparison -----

  lemma {:induction false} VPositive(s: seq<Limb>, i: nat, n: nat)
    requires i < n <= |s| && s[i] != 0
    ensures V(s, n) > 0
  {
    if i == n - 1 {
      Monotone(1, s[i], Pow(i));
    } else {
      VPositive(s, i, n - 1);
    }
  }

  // A number is below 2^64 exactly when only its first two limbs are used.
  lemma LowAndHigh(s: seq<Limb>)
    requires |s| == WIDTH
    ensures (forall j :: 2 <= j < WIDTH ==> s[j] == 0) ==> V(s, WIDTH) == s[0] + s[1] * BASE
    ensures forall j :: 2 <= j < WIDTH && s[j] != 0 ==> V(s, WIDTH) >= BASE * BASE
  {
    hide Pow, V;
    TwoLimbs(s);
    if forall j :: 2 <= j < WIDTH ==> s[j] == 0 {
      VZero(s, 2, WIDTH);
    }
    forall j | 2 <= j < WIDTH && s[j] != 0
      ensures V(s, WIDTH) >= BASE * BASE
    {
      VSplit(s, 2, WIDTH - 2);
      VPositive(s[2..], j - 2, WIDTH - 2);
      PowStep(0);
      PowStep(1);
      Monotone(1, V(s[2..], WIDTH - 2), Pow(2));
    }
  }

  // The highest limb that differs decides.
  lemma Decides(s: seq<Limb>, t: seq<Limb>, i: nat)
    requires |s| == |t| == WIDTH && i < WIDTH && s[i] < t[i] && forall j :: i < j < WIDTH ==> s[j] == t[j]
    ensures V(s, WIDTH) < V(t, WIDTH)
  {
    hide Pow;
    VBound(s, i);
    Monotone(s[i] + 1, t[i], Pow(i));
    Distrib(s[i], 1, Pow(i));
    VTail(s, t, i + 1, WIDTH);
  }

  lemma Pow2Small()
    ensures Pow2(0) == 1 && Pow2(1) == 2
  {
  }

  lemma BitTest(x: nat, n: nat)
    requires x < Pow2(n + 1)
    ensures x / Pow2(n) % 2 != 0 <==> x >= Pow2(n)
  {
    var d := Pow2(n);
    assert Pow2(n + 1) == 2 * d;
    hide Pow2;
    if x >= d {
      ModUnique(x - d, 1, d);
    } else {
      ModUnique(x, 0, d);
    }
  }

  lemma TopBit(s: seq<Limb>, pos: nat, n: nat)
    requires |s| == WIDTH && pos < WIDTH && (forall j :: pos < j < WIDTH ==> s[j] == 0)
             && Pow2(n) <= s[pos] < Pow2(n + 1)
    ensures Pow2(32 * pos + n) <= V(s, WIDTH) < Pow2(32 * pos + n + 1)
  {
    hide Pow, Pow2;
    VZero(s, pos + 1, WIDTH);
    VBound(s, pos);
    PowIsPow2(pos);
    Pow2Add(n, 32 * pos);
    Pow2Add(n + 1, 32 * pos);
    var d: int := s[pos];
    assert V(s, pos + 1) == V(s, pos) + d * Pow(pos);
    Monotone(Pow2(n), d, Pow(pos));
    Monotone(d + 1, Pow2(n + 1), Pow(pos));
    Distrib(d, 1, Pow(pos));
  }

  // ----- loop steps -----

  lemma TwoLimbs(s: seq<Limb>)
    requires |s| >= 2
    ensures V(s, 2) == s[0] + s[1] * BASE
  {
    assert V(s, 1) == s[0] * Pow(0);
  }

  lemma VNone(s: seq<Limb>, t: seq<Limb>, u: seq<Limb>)
    ensures V(s, 0) == 0 && V(t, 0) == 0 && V(u, 0) == 0 && Pow(0) == 1
  {
  }

  lemma VNext(u: seq<Limb>, i: nat, x: Limb)
    requires i < |u|
    ensures V(u[i := x], i + 1) == V(u, i) + x * Pow(i)
  {
    VSame(u, u[i := x], i);
  }

  lemma AddStep(u: seq<Limb>, s: seq<Limb>, t: seq<Limb>, i: nat, carry: nat)
    requires i < |u| && i < |s| && i < |t| && carry <= 1 && u[i] == s[i]
    requires V(u, i) + carry * Pow(i) == V(s, i) + V(t, i)
    ensures var n := carry + s[i] + t[i];
            n / BASE <= 1 && V(u[i := n % BASE], i + 1) + (n / BASE) * Pow(i + 1) == V(s, i + 1) + V(t, i + 1)
  {
    hide Pow;
    var n := carry + s[i] + t[i];
    VNext(u, i, n % BASE);
    CarryStep(V(u, i), n, i);
    Distrib(carry, s[i], Pow(i));
    Distrib(carry + s[i], t[i], Pow(i));
  }

  // A result with a last carry is the sum modulo the range.
  lemma Wraps(u: seq<Limb>, carry: nat)
    requires |u| == WIDTH
    ensures V(u, WIDTH) == (V(u, WIDTH) + carry * Pow(WIDTH)) % Pow(WIDTH)
  {
    hide Pow, V;
    VBound(u, WIDTH);
    ModUnique(V(u, WIDTH), carry, Pow(WIDTH));
  }

  lemma ComplementStep(u: seq<Limb>, s: seq<Limb>, i: nat)
    requires i < |u| && i < |s| && V(u, i) + V(s, i) == Pow(i) - 1
    ensures V(u[i := BASE - 1 - s[i]], i + 1) + V(s, i + 1) == Pow(i + 1) - 1
  {
    hide Pow;
    VNext(u, i, BASE - 1 - s[i]);
    PowStep(i);
    Distrib(BASE - 1 - s[i], s[i], Pow(i));
    Distrib(BASE - 1, 1, Pow(i));
  }

  lemma {:induction false} VTail(u: seq<Limb>, s: seq<Limb>, i: nat, n: nat)
    requires i <= n <= |u| == |s| && forall j :: i <= j < n ==> u[j] == s[j]
    ensures V(u, n) - V(u, i) == V(s, n) - V(s, i)
  {
    if i < n {
      VTail(u, s, i, n - 1);
    }
  }

  lemma IncrementStep(u: seq<Limb>, s: seq<Limb>, i: nat)
    requires |u| == |s| == WIDTH && i < WIDTH && V(u, i) == 0 && V(s, i) == Pow(i) - 1
    requires forall j :: i <= j < WIDTH ==> u[j] == s[j]
    ensures var x := (s[i] + 1) % BASE;
            if x == 0 then V(u[i := x], i + 1) == 0 && V(s, i + 1) == Pow(i + 1) - 1
            else V(u[i := x], WIDTH) == V(s, WIDTH) + 1
  {
    hide Pow, V;
    var x: Limb, d: int := (s[i] + 1) % BASE, s[i];
    VNext(u, i, x);
    VStep(s, i);
    VTail(u[i := x], s, i + 1, WIDTH);
    if d == BASE - 1 {
      PowStep(i);
      Distrib(BASE, -1, Pow(i));
    } else {
      assert x == d + 1;
      Distrib(d, 1, Pow(i));
    }
  }

  lemma DecrementStep(u: seq<Limb>, s: seq<Limb>, i: nat)
    requires |u| == |s| == WIDTH && i < WIDTH && V(s, i) == 0 && V(u, i) == Pow(i) - 1
    requires forall j :: i <= j < WIDTH ==> u[j] == s[j]
    ensures var x := (s[i] - 1) % BASE;
            if x == BASE - 1 then V(s, i + 1) == 0 && V(u[i := x], i + 1) == Pow(i + 1) - 1
            else V(u[i := x], WIDTH) == V(s, WIDTH) - 1
  {
    hide Pow, V;
    var x: Limb, d: int := (s[i] - 1) % BASE, s[i];
    VNext(u, i, x);
    VStep(s, i);
    VTail(u[i := x], s, i + 1, WIDTH);
    if d == 0 {
      PowStep(i);
      Distrib(BASE, -1, Pow(i));
    } else {
      assert x == d - 1;
      Distrib(d, -1, Pow(i));
    }
  }

  lemma NoWrap(x: nat, m: nat)
    requires x < m
    ensures x == x % m
  {
    ModUnique(x, 0, m);
  }

  lemma MinusOne(m: nat)
    requires m > 0
    ensures (-1) % m == m - 1
  {
    var q, r := (-1) / m, (-1) % m;
    assert -1 == q * m + r;
    if q < -1 {
      Monotone(q, -2, m);
    } else if q > -1 {
      Monotone(0, q, m);
    }
  }

  lemma NegatedSum(x: nat, y: nat, m: nat)
    requires x < m && y < m
    ensures (x + (m - y) % m) % m == (x - y) % m
  {
    if y == 0 {
      ModUnique(0, 1, m);
      NoWrap(x, m);
    } else {
      NoWrap(m - y, m);
      if x >= y {
        ModUnique(x - y, 1, m);
        NoWrap(x - y, m);
      } else {
        NoWrap(x + m - y, m);
        NegativeMod(x - y, m);
      }
    }
  }

  lemma NegativeMod(x: int, m: nat)
    requires 0 < x + m && x < 0
    ensures x % m == x + m
  {
    var q, r := x / m, x % m;
    assert x == q * m + r;
    if q < -1 {
      Monotone(q, -2, m);
    } else if q > -1 {
      Monotone(0, q, m);
    }
  }
}
