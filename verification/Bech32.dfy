/**
 The checksummed base-32 strings of src/bech32.cpp, section "Bech32" of BIP 173. Symbols are 5-bit
 vectors and the checksum state is a 30-bit vector: the two upper bits of the 32-bit word of the original
 are never set.

 Main results: a created checksum verifies and is the only one that does; decoding inverts encoding, and
 encoding what was decoded gives the string back in lower case; a change confined to six consecutive
 symbols of a valid word of any length is rejected.
 */
module Bech32 {
  import opened Wrappers

  type Data = seq<bv5>

  // ----- the checksum -----

  function Xor(a: bv30, b: bv30): bv30 {
    a ^ b
  }

  function XorSymbol(a: bv5, b: bv5): bv5 {
    a ^ b
  }

  function Term(c0: bv30, mask: bv30, k: bv30): bv30 {
    if c0 & mask != 0 then k else 0
  }

  // What the top symbol contributes when it is shifted out.
  function Feedback(c0: bv30): bv30 {
    Xor(Term(c0, 1, 0x3b6a57b2),
        Xor(Term(c0, 2, 0x26508e6d), Xor(Term(c0, 4, 0x1ea119fa),
                                         Xor(Term(c0, 8, 0x3d4233dd), Term(c0, 16, 0x2a1462b3)))))
  }

  function Shifted(c: bv30, v: bv5): bv30 {
    ((c & 0x1ffffff) << 5) ^ (v as bv30)
  }

  function Top(c: bv30): bv30 {
    c >> 25
  }

  function Step(c: bv30, v: bv5): bv30 {
    Xor(Shifted(c, v), Feedback(Top(c)))
  }

  function PolyFrom(c: bv30, v: Data): bv30 {
    if v == [] then c else Step(PolyFrom(c, v[..|v| - 1]), v[|v| - 1])
  }

  method PolyMod(v: Data) returns (c: bv30)
    ensures c == PolyFrom(1, v)
  {
    hide Step;
    c := 1;
    for i := 0 to |v|
      invariant c == PolyFrom(1, v[..i])
    {
      assert v[..i + 1][..i] == v[..i];
      c := Step(c, v[i]);
    }
    assert v[..|v|] == v;
  }

  // One bit of a sum is the sum of the bits.
  lemma Bit1(a: bv30, b: bv30)
    ensures (Xor(a, b) & 1 != 0) == ((a & 1 != 0) != (b & 1 != 0))
  {
  }

  lemma Term1(a: bv30, b: bv30)
    ensures Term(Xor(a, b), 1, 0x3b6a57b2) == Xor(Term(a, 1, 0x3b6a57b2), Term(b, 1, 0x3b6a57b2))
  {
    hide Xor, Term;
    Bit1(a, b);
    TermLinear(a, b, 1, 0x3b6a57b2);
  }

  lemma Bit2(a: bv30, b: bv30)
    ensures (Xor(a, b) & 2 != 0) == ((a & 2 != 0) != (b & 2 != 0))
  {
  }

  lemma Term2(a: bv30, b: bv30)
    ensures Term(Xor(a, b), 2, 0x26508e6d) == Xor(Term(a, 2, 0x26508e6d), Term(b, 2, 0x26508e6d))
  {
    hide Xor, Term;
    Bit2(a, b);
    TermLinear(a, b, 2, 0x26508e6d);
  }

  lemma Bit4(a: bv30, b: bv30)
    ensures (Xor(a, b) & 4 != 0) == ((a & 4 != 0) != (b & 4 != 0))
  {
  }

  lemma Term4(a: bv30, b: bv30)
    ensures Term(Xor(a, b), 4, 0x1ea119fa) == Xor(Term(a, 4, 0x1ea119fa), Term(b, 4, 0x1ea119fa))
  {
    hide Xor, Term;
    Bit4(a, b);
    TermLinear(a, b, 4, 0x1ea119fa);
  }

  lemma Bit8(a: bv30, b: bv30)
    ensures (Xor(a, b) & 8 != 0) == ((a & 8 != 0) != (b & 8 != 0))
  {
  }

  lemma Term8(a: bv30, b: bv30)
    ensures Term(Xor(a, b), 8, 0x3d4233dd) == Xor(Term(a, 8, 0x3d4233dd), Term(b, 8, 0x3d4233dd))
  {
    hide Xor, Term;
    Bit8(a, b);
    TermLinear(a, b, 8, 0x3d4233dd);
  }

  lemma Bit16(a: bv30, b: bv30)
    ensures (Xor(a, b) & 16 != 0) == ((a & 16 != 0) != (b & 16 != 0))
  {
  }

  lemma Term16(a: bv30, b: bv30)
    ensures Term(Xor(a, b), 16, 0x2a1462b3) == Xor(Term(a, 16, 0x2a1462b3), Term(b, 16, 0x2a1462b3))
  {
    hide Xor, Term;
    Bit16(a, b);
    TermLinear(a, b, 16, 0x2a1462b3);
  }

  lemma XorLaws(k: bv30)
    ensures Xor(k, k) == 0 && Xor(k, 0) == k && Xor(0, k) == k
  {
  }

  lemma TermLinear(a: bv30, b: bv30, mask: bv30, k: bv30)
    requires (Xor(a, b) & mask != 0) == ((a & mask != 0) != (b & mask != 0))
    ensures Term(Xor(a, b), mask, k) == Xor(Term(a, mask, k), Term(b, mask, k))
  {
    hide Xor;
    XorLaws(k);
    XorLaws(0);
  }

  lemma Associative(a: bv30, b: bv30, c: bv30)
    ensures Xor(Xor(a, b), c) == Xor(a, Xor(b, c))
  {
  }

  lemma Commutative(a: bv30, b: bv30)
    ensures Xor(a, b) == Xor(b, a)
  {
  }

  lemma Regroup(a: bv30, b: bv30, c: bv30, d: bv30)
    ensures Xor(Xor(a, b), Xor(c, d)) == Xor(Xor(a, c), Xor(b, d))
  {
    hide Xor;
    Associative(a, b, Xor(c, d));
    Associative(b, c, d);
    Commutative(b, c);
    Associative(c, b, d);
    Associative(a, c, Xor(b, d));
  }

  lemma FeedbackLinear(a: bv30, b: bv30)
    ensures Feedback(Xor(a, b)) == Xor(Feedback(a), Feedback(b))
  {
    hide Xor, Term;
    var a1, b1 := Term(a, 1, 0x3b6a57b2), Term(b, 1, 0x3b6a57b2);
    var a2, b2 := Term(a, 2, 0x26508e6d), Term(b, 2, 0x26508e6d);
    var a3, b3 := Term(a, 4, 0x1ea119fa), Term(b, 4, 0x1ea119fa);
    var a4, b4 := Term(a, 8, 0x3d4233dd), Term(b, 8, 0x3d4233dd);
    var a5, b5 := Term(a, 16, 0x2a1462b3), Term(b, 16, 0x2a1462b3);
    Term1(a, b);
    Term2(a, b);
    Term4(a, b);
    Term8(a, b);
    Term16(a, b);
    Regroup(a4, b4, a5, b5);
    Regroup(a3, b3, Xor(a4, a5), Xor(b4, b5));
    Regroup(a2, b2, Xor(a3, Xor(a4, a5)), Xor(b3, Xor(b4, b5)));
    Regroup(a1, b1, Xor(a2, Xor(a3, Xor(a4, a5))), Xor(b2, Xor(b3, Xor(b4, b5))));
  }

  lemma ShiftedLinear(c: bv30, d: bv30, v: bv5, w: bv5)
    ensures Shifted(Xor(c, d), XorSymbol(v, w)) == Xor(Shifted(c, v), Shifted(d, w))
  {
  }

  lemma TopLinear(c: bv30, d: bv30)
    ensures Top(Xor(c, d)) == Xor(Top(c), Top(d))
  {
  }

  lemma StepLinear(c: bv30, d: bv30, v: bv5, w: bv5)
    ensures Step(Xor(c, d), XorSymbol(v, w)) == Xor(Step(c, v), Step(d, w))
  {
    hide Feedback, Shifted, Top, Xor, XorSymbol;
    TopLinear(c, d);
    FeedbackLinear(Top(c), Top(d));
    ShiftedLinear(c, d, v, w);
    Regroup(Shifted(c, v), Shifted(d, w), Feedback(Top(c)), Feedback(Top(d)));
  }

  /** The step loses nothing: only the zero state is mapped to zero. */
  lemma StepInjective(d: bv30)
    ensures Step(d, 0) == 0 <==> d == 0
  {
  }

  // As long as the top symbol is zero the step only shifts.
  lemma StepShifts(d: bv30, v: bv5)
    requires d <= 0x1ffffff
    ensures Step(d, v) == (d << 5) ^ (v as bv30)
  {
  }

  // ----- words -----

  function Zeros(n: nat): Data {
    if n == 0 then [] else Zeros(n - 1) + [0]
  }

  function XorAll(v: Data, w: Data): Data
    requires |v| == |w|
  {
    if v == [] then [] else XorAll(v[..|v| - 1], w[..|w| - 1]) + [XorSymbol(v[|v| - 1], w[|w| - 1])]
  }

  lemma {:induction false} PolyCat(c: bv30, v: Data, w: Data)
    ensures PolyFrom(c, v + w) == PolyFrom(PolyFrom(c, v), w)
    decreases |w|
  {
    hide Step;
    if w == [] {
      assert v + w == v;
    } else {
      PolyCat(c, v, w[..|w| - 1]);
      assert (v + w)[..|v + w| - 1] == v + w[..|w| - 1];
    }
  }

  /** The checksum of a sum is the sum of the checksums. */
  lemma {:induction false} PolyLinear(c: bv30, d: bv30, v: Data, w: Data)
    requires |v| == |w|
    ensures PolyFrom(Xor(c, d), XorAll(v, w)) == Xor(PolyFrom(c, v), PolyFrom(d, w))
    decreases |v|
  {
    hide Step, Xor, XorSymbol;
    if v != [] {
      var v', w' := v[..|v| - 1], w[..|w| - 1];
      PolyLinear(c, d, v', w');
      StepLinear(PolyFrom(c, v'), PolyFrom(d, w'), v[|v| - 1], w[|w| - 1]);
      XorAllLast(v, w);
    }
  }

  lemma XorAllLast(v: Data, w: Data)
    requires |v| == |w| > 0
    ensures var x := XorAll(v, w);
            |x| > 0 && x[..|x| - 1] == XorAll(v[..|v| - 1], w[..|w| - 1])
              && x[|x| - 1] == XorSymbol(v[|v| - 1], w[|w| - 1])
  {
    hide XorSymbol;
  }

  // Zero symbols lead the zero state, and only it, to zero.
  lemma {:induction false} PolyZero(d: bv30, n: nat)
    ensures PolyFrom(d, Zeros(n)) == 0 <==> d == 0
    decreases n
  {
    hide Step;
    if n > 0 {
      PolyZero(d, n - 1);
      assert Zeros(n)[..|Zeros(n)| - 1] == Zeros(n - 1);
      StepInjective(PolyFrom(d, Zeros(n - 1)));
    }
  }

  lemma {:induction false} XorSelf(v: Data)
    ensures XorAll(v, v) == Zeros(|v|)
    decreases |v|
  {
    if v != [] {
      XorSelf(v[..|v| - 1]);
    }
  }

  lemma XorEqual(a: bv30, b: bv30)
    ensures Xor(a, b) == 0 <==> a == b
  {
  }

  lemma XorEqualSymbol(a: bv5, b: bv5)
    ensures XorSymbol(a, b) == 0 <==> a == b
  {
  }

  /** Different states stay different, whatever follows. */
  lemma PolyInjective(x: bv30, y: bv30, v: Data)
    requires PolyFrom(x, v) == PolyFrom(y, v)
    ensures x == y
  {
    hide Step, Xor, PolyFrom;
    PolyLinear(x, y, v, v);
    XorSelf(v);
    XorEqual(PolyFrom(x, v), PolyFrom(y, v));
    PolyZero(Xor(x, y), |v|);
    XorEqual(x, y);
  }

  // ----- six symbols -----

  // The largest value of n symbols, as long as nothing is fed back.
  function Limit(n: nat): bv30 {
    if n == 0 then 0 else if n == 1 then 0x1f else if n == 2 then 0x3ff else if n == 3 then 0x7fff
    else if n == 4 then 0xfffff else if n == 5 then 0x1ffffff else 0x3fffffff
  }

  function Append(x: bv30, v: bv5): bv30 {
    (x << 5) ^ (v as bv30)
  }

  predicate AtMost(x: bv30, n: nat) {
    x <= Limit(n)
  }

  lemma AppendStep(x: bv30, v: bv5, n: nat)
    requires n <= 5 && AtMost(x, n)
    ensures Step(x, v) == Append(x, v) && AtMost(Append(x, v), n + 1) && (Append(x, v) == 0 <==> x == 0 && v == 0)
  {
    hide Step;
    StepShifts(x, v);
  }

  // Up to six symbols are simply packed: the result is zero only if all of them are.
  lemma {:induction false} PackedZero(v: Data)
    requires |v| <= 6
    ensures AtMost(PolyFrom(0, v), |v|) && (PolyFrom(0, v) == 0 ==> v == Zeros(|v|))
    decreases |v|
  {
    hide Step, AtMost, Append;
    if v == [] {
      assert AtMost(0, 0) by { LimitZero(); }
    } else {
      var v', x := v[..|v| - 1], v[|v| - 1];
      PackedZero(v');
      AppendStep(PolyFrom(0, v'), x, |v'|);
      assert v == v' + [x];
    }
  }

  lemma LimitZero()
    ensures AtMost(0, 0)
  {
  }

  lemma {:induction false} XorZeros(v: Data, w: Data)
    requires |v| == |w| && XorAll(v, w) == Zeros(|v|)
    ensures v == w
    decreases |v|
  {
    hide XorSymbol;
    if v != [] {
      XorAllLast(v, w);
      assert Zeros(|v|)[..|Zeros(|v|)| - 1] == Zeros(|v| - 1);
      XorZeros(v[..|v| - 1], w[..|w| - 1]);
      XorEqualSymbol(v[|v| - 1], w[|w| - 1]);
      assert v == v[..|v| - 1] + [v[|v| - 1]] && w == w[..|w| - 1] + [w[|w| - 1]];
    }
  }

  lemma {:induction false} XorAllSize(v: Data, w: Data)
    requires |v| == |w|
    ensures |XorAll(v, w)| == |v|
    decreases |v|
  {
    if v != [] {
      XorAllSize(v[..|v| - 1], w[..|w| - 1]);
    }
  }

  // Different blocks of up to six symbols lead to different states.
  lemma BlockInjective(c: bv30, a: Data, b: Data)
    requires |a| == |b| <= 6 && PolyFrom(c, a) == PolyFrom(c, b)
    ensures a == b
  {
    hide Step, Xor, PolyFrom;
    PolyLinear(c, c, a, b);
    XorEqual(c, c);
    XorEqual(PolyFrom(c, a), PolyFrom(c, b));
    XorAllSize(a, b);
    PackedZero(XorAll(a, b));
    XorZeros(a, b);
  }

  /** Two words of any length that differ only within six consecutive symbols have different checksums. */
  lemma BurstDetected(prefix: Data, a: Data, b: Data, suffix: Data)
    requires |a| == |b| <= 6 && a != b
    ensures PolyFrom(1, prefix + a + suffix) != PolyFrom(1, prefix + b + suffix)
  {
    hide PolyFrom;
    PolyCat(1, prefix, a);
    PolyCat(1, prefix, b);
    PolyCat(1, prefix + a, suffix);
    PolyCat(1, prefix + b, suffix);
    var c := PolyFrom(1, prefix);
    if PolyFrom(1, prefix + a + suffix) == PolyFrom(1, prefix + b + suffix) {
      PolyInjective(PolyFrom(c, a), PolyFrom(c, b), suffix);
      BlockInjective(c, a, b);
    }
  }

  // ----- creating a checksum -----

  // The i-th of the six symbols packed into a state.
  function Symbol(m: bv30, i: nat): bv5
    requires i < 6
  {
    if i == 0 then ((m >> 25) & 31) as bv5
    else if i == 1 then ((m >> 20) & 31) as bv5
    else if i == 2 then ((m >> 15) & 31) as bv5
    else if i == 3 then ((m >> 10) & 31) as bv5
    else if i == 4 then ((m >> 5) & 31) as bv5
    else (m & 31) as bv5
  }

  function Unpack(m: bv30): Data {
    [Symbol(m, 0), Symbol(m, 1), Symbol(m, 2), Symbol(m, 3), Symbol(m, 4), Symbol(m, 5)]
  }

  // Each further symbol completes the upper part of the state.
  lemma Unpack2(m: bv30)
    ensures Append(Append(0, Symbol(m, 0)), Symbol(m, 1)) == m >> 20
  {
  }

  lemma Unpack4(m: bv30)
    ensures Append(Append(m >> 20, Symbol(m, 2)), Symbol(m, 3)) == m >> 10
  {
  }

  lemma Unpack6(m: bv30)
    ensures Append(Append(m >> 10, Symbol(m, 4)), Symbol(m, 5)) == m
  {
  }


  // ----- creating a checksum: the proof -----

  lemma PolyAppend(v: Data, k: nat)
    requires k < |v| <= 6
    ensures PolyFrom(0, v[..k + 1]) == Append(PolyFrom(0, v[..k]), v[k])
  {
    hide Step, Append, AtMost;
    PackedZero(v[..k]);
    AppendStep(PolyFrom(0, v[..k]), v[k], k);
    assert v[..k + 1][..k] == v[..k];
  }

  lemma UnpackPoly(m: bv30)
    ensures PolyFrom(0, Unpack(m)) == m
  {
    hide Step, Append, Symbol;
    var v := Unpack(m);
    assert v[..0] == [];
    PolyAppend(v, 0);
    PolyAppend(v, 1);
    PolyAppend(v, 2);
    PolyAppend(v, 3);
    PolyAppend(v, 4);
    PolyAppend(v, 5);
    assert v[..6] == v;
    Unpack2(m);
    Unpack4(m);
    Unpack6(m);
  }

  // The six symbols to append to a word.
  function ChecksumOf(word: Data): (r: Data)
    ensures |r| == 6
  {
    Unpack(Xor(PolyFrom(1, word + Zeros(6)), 1))
  }

  lemma XorSymbolZero(v: bv5)
    ensures XorSymbol(0, v) == v
  {
  }

  lemma {:induction false} XorWithZeros(v: Data)
    ensures |Zeros(|v|)| == |v| && XorAll(Zeros(|v|), v) == v
    decreases |v|
  {
    hide XorSymbol;
    if v != [] {
      var v', x := v[..|v| - 1], v[|v| - 1];
      XorWithZeros(v');
      ZerosLast(|v'|);
      XorAllLast(Zeros(|v|), v);
      XorAllSize(Zeros(|v|), v);
      XorSymbolZero(x);
      hide XorAll, Zeros;
      assert v == v' + [x];
    }
  }

  lemma ZerosLast(n: nat)
    requires |Zeros(n)| == n
    ensures |Zeros(n + 1)| == n + 1 && Zeros(n + 1)[..n] == Zeros(n) && Zeros(n + 1)[n] == 0
  {
  }

  lemma XorCancel(p: bv30)
    ensures Xor(p, 0) == p && Xor(p, Xor(p, 1)) == 1
  {
  }

  /** The checksum that is created is accepted. */
  lemma ChecksumVerifies(word: Data)
    ensures PolyFrom(1, word + ChecksumOf(word)) == 1
  {
    hide PolyFrom, Xor, Unpack;
    var c, sum := PolyFrom(1, word), ChecksumOf(word);
    PolyCat(1, word, sum);
    PolyCat(1, word, Zeros(6));
    XorWithZeros(sum);
    PolyLinear(c, 0, Zeros(6), sum);
    XorCancel(c);
    var p := PolyFrom(c, Zeros(6));
    UnpackPoly(Xor(p, 1));
    XorCancel(p);
  }

  /** It is the only one that is. */
  lemma ChecksumUnique(word: Data, sum: Data)
    requires |sum| == 6 && PolyFrom(1, word + sum) == 1
    ensures sum == ChecksumOf(word)
  {
    hide PolyFrom, ChecksumOf;
    ChecksumVerifies(word);
    assert word + sum + [] == word + sum && word + ChecksumOf(word) + [] == word + ChecksumOf(word);
    if sum != ChecksumOf(word) {
      BurstDetected(word, sum, ChecksumOf(word), []);
    }
  }

  // ----- human-readable part -----

  // Characters are bytes of the original.
  function HighBits(c: char): bv5 {
    ((c as int) / 32 % 32) as bv5
  }

  function LowBits(c: char): bv5 {
    ((c as int) % 32) as bv5
  }

  function Expanded(hrp: string): Data {
    seq(|hrp|, i requires 0 <= i < |hrp| => HighBits(hrp[i]))
    + [0] + seq(|hrp|, i requires 0 <= i < |hrp| => LowBits(hrp[i]))
  }

  method ExpandHRP(hrp: string) returns (r: Data)
    ensures r == Expanded(hrp)
  {
    hide HighBits, LowBits;
    var n := |hrp|;
    var ret := new bv5[2 * n + 1](_ => 0);
    for i := 0 to n
      invariant forall j :: 0 <= j < i ==> ret[j] == HighBits(hrp[j]) && ret[j + n + 1] == LowBits(hrp[j])
    {
      ret[i] := HighBits(hrp[i]);
      ret[i + n + 1] := LowBits(hrp[i]);
    }
    ret[n] := 0;
    r := ret[..];
    var e := Expanded(hrp);
    assert |e| == |r|;
    forall i | 0 <= i < |r|
      ensures r[i] == e[i]
    {
      if i > n {
        assert r[i] == ret[(i - n - 1) + n + 1];
      }
    }
  }

  predicate Verifies(hrp: string, values: Data) {
    PolyFrom(1, Expanded(hrp) + values) == 1
  }

  method VerifyChecksum(hrp: string, values: Data) returns (ok: bool)
    ensures ok == Verifies(hrp, values)
  {
    var e := ExpandHRP(hrp);
    var c := PolyMod(e + values);
    ok := c == 1;
  }

  method CreateChecksum(hrp: string, values: Data) returns (r: Data)
    ensures r == ChecksumOf(Expanded(hrp) + values)
  {
    hide PolyFrom, Symbol;
    var enc := ExpandHRP(hrp);
    enc := enc + values;
    var c := PolyMod(enc + Zeros(6));
    var m := Xor(c, 1);
    r := [];
    for i := 0 to 6
      invariant |r| == i && forall j :: 0 <= j < i ==> r[j] == Symbol(m, j)
    {
      r := r + [Symbol(m, i)];
    }
    assert r == Unpack(m);
  }

  /** Changing up to six consecutive symbols of an accepted word, of any length, makes it rejected. */
  lemma BurstRejected(hrp: string, prefix: Data, a: Data, b: Data, suffix: Data)
    requires |a| == |b| <= 6 && a != b && Verifies(hrp, prefix + a + suffix)
    ensures !Verifies(hrp, prefix + b + suffix)
  {
    hide PolyFrom, Expanded;
    var e := Expanded(hrp);
    BurstDetected(e + prefix, a, b, suffix);
    assert e + (prefix + a + suffix) == (e + prefix) + a + suffix;
    assert e + (prefix + b + suffix) == (e + prefix) + b + suffix;
  }

  // ----- characters -----

  const CHARSET := "qpzry9x8gf2tvdw0s3jn54khce6mua7l"

  // The table for decoding, by rows.
  function Rev(c: int): int {
    if c < 48 then -1
    else if c < 64 then [15, -1, 10, 17, 21, 20, 26, 30, 7, 5, -1, -1, -1, -1, -1, -1][c - 48]
    else if c < 80 then [-1, 29, -1, 24, 13, 25, 9, 8, 23, -1, 18, 22, 31, 27, 19, -1][c - 64]
    else if c < 96 then [1, 0, 3, 16, 11, 28, 12, 14, 6, 4, 2, -1, -1, -1, -1, -1][c - 80]
    else if c < 112 then [-1, 29, -1, 24, 13, 25, 9, 8, 23, -1, 18, 22, 31, 27, 19, -1][c - 96]
    else if c < 128 then [1, 0, 3, 16, 11, 28, 12, 14, 6, 4, 2, -1, -1, -1, -1, -1][c - 112]
    else -1
  }

  function LowerCase(c: char): char {
    if 'A' <= c <= 'Z' then (c as int - 'A' as int + 'a' as int) as char else c
  }

  predicate IsPrintable(c: char) {
    33 <= c as int <= 126
  }

  predicate IsUpper(c: char) {
    'A' <= c <= 'Z'
  }

  predicate IsLower(c: char) {
    'a' <= c <= 'z'
  }

  lemma CharsetRev(n: nat)
    requires n < 32
    ensures Rev(CHARSET[n] as int) == n
  {
  }

  lemma CharsetFacts(n: nat)
    requires n < 32
    ensures CHARSET[n] != '1' && IsPrintable(CHARSET[n]) && !IsUpper(CHARSET[n])
  {
  }

  lemma RevFacts(c: char)
    requires Rev(c as int) != -1
    ensures 0 <= Rev(c as int) < 32 && CHARSET[Rev(c as int)] == LowerCase(c)
  {
    if c as int < 64 {
    } else if c as int < 96 {
    } else {
    }
  }

  function CharOf(v: bv5): char {
    CHARSET[v as int]
  }

  function SymbolOf(c: char): Option<bv5> {
    if Rev(c as int) == -1 then None else RevFacts(c); Some(Rev(c as int) as bv5)
  }

  lemma SymbolChar(v: bv5)
    ensures SymbolOf(CharOf(v)) == Some(v) && CharOf(v) != '1' && IsPrintable(CharOf(v)) && !IsUpper(CharOf(v))
  {
    hide Rev, IsPrintable, IsUpper;
    CharsetRev(v as int);
    CharsetFacts(v as int);
  }

  lemma CharSymbol(c: char)
    requires SymbolOf(c).Some?
    ensures CharOf(SymbolOf(c).value) == LowerCase(c)
  {
    hide Rev, LowerCase;
    RevFacts(c);
    BackToInt(Rev(c as int));
  }

  lemma BackToInt(n: nat)
    requires n < 32
    ensures (n as bv5) as int == n
  {
  }

  function Chars(values: Data): string {
    seq(|values|, i requires 0 <= i < |values| => CharOf(values[i]))
  }

  // The symbols of a text, if all its characters are in the character set.
  function Symbols(s: string): Option<Data> {
    if s == "" then Some([]) else
    match (Symbols(s[..|s| - 1]), SymbolOf(s[|s| - 1]))
    case (Some(d), Some(v)) => Some(d + [v])
    case _ => None
  }

  function Lower(s: string): string {
    seq(|s|, i requires 0 <= i < |s| => LowerCase(s[i]))
  }

  lemma {:induction false} SymbolsOfChars(values: Data)
    ensures Symbols(Chars(values)) == Some(values)
    decreases |values|
  {
    hide SymbolOf, CharOf;
    if values != [] {
      var d, v := values[..|values| - 1], values[|values| - 1];
      SymbolsOfChars(d);
      SymbolChar(v);
      assert Chars(values)[..|values| - 1] == Chars(d);
      assert values == d + [v];
    }
  }

  lemma {:induction false} CharsOfSymbols(s: string)
    requires Symbols(s).Some?
    ensures Chars(Symbols(s).value) == Lower(s)
    decreases |s|
  {
    hide SymbolOf, CharOf, LowerCase;
    if s != "" {
      var s', c := s[..|s| - 1], s[|s| - 1];
      CharsOfSymbols(s');
      CharSymbol(c);
      var d, v := Symbols(s').value, SymbolOf(c).value;
      assert Chars(d + [v]) == Chars(d) + [CharOf(v)];
      assert Lower(s) == Lower(s') + [LowerCase(c)];
    }
  }

  // ----- encoding and decoding -----

  function Encoded(hrp: string, values: Data): string {
    hrp + "1" + Chars(values + ChecksumOf(Expanded(hrp) + values))
  }

  // The position of the last '1', or -1.
  function LastOne(s: string): int {
    if s == "" then -1 else if s[|s| - 1] == '1' then |s| - 1 else LastOne(s[..|s| - 1])
  }

  lemma {:induction false} LastOneFound(a: string, b: string)
    requires forall i :: 0 <= i < |b| ==> b[i] != '1'
    ensures LastOne(a + "1" + b) == |a|
    decreases |b|
  {
    var s := a + "1" + b;
    if b != "" {
      LastOneFound(a, b[..|b| - 1]);
      assert s[..|s| - 1] == a + "1" + b[..|b| - 1];
    }
  }

  lemma {:induction false} LastOneIsOne(s: string)
    ensures LastOne(s) < |s| && (LastOne(s) >= 0 ==> s[LastOne(s)] == '1')
    decreases |s|
  {
    if s != "" {
      LastOneIsOne(s[..|s| - 1]);
    }
  }

  predicate CharactersOk(s: string) {
    && (forall i :: 0 <= i < |s| ==> IsPrintable(s[i]))
    && !((exists i :: 0 <= i < |s| && IsLower(s[i])) && (exists i :: 0 <= i < |s| && IsUpper(s[i])))
  }

  // The prefix and the data of a string, without the checksum.
  function Decoded(s: string): Option<(string, Data)> {
    var pos := LastOne(s);
    if !CharactersOk(s) || |s| > 90 || pos <= 0 || pos + 7 > |s| then None else
    match Symbols(s[pos + 1..])
    case None => None
    case Some(values) =>
      if |values| >= 6 && Verifies(Lower(s[..pos]), values) then Some((Lower(s[..pos]), values[..|values| - 6]))
         else None
  }

  // A prefix the encoder accepts and the decoder can return.
  predicate IsPrefix(hrp: string) {
    hrp != "" && forall i :: 0 <= i < |hrp| ==> IsPrintable(hrp[i]) && !IsUpper(hrp[i])
  }

  lemma LowerAgain(hrp: string)
    requires forall i :: 0 <= i < |hrp| ==> !IsUpper(hrp[i])
    ensures Lower(hrp) == hrp
  {
  }

  lemma EncodedCharacters(hrp: string, values: Data)
    requires IsPrefix(hrp)
    ensures CharactersOk(Encoded(hrp, values)) && LastOne(Encoded(hrp, values)) == |hrp|
  {
    hide ChecksumOf, Expanded, CharOf;
    var all := values + ChecksumOf(Expanded(hrp) + values);
    forall i | 0 <= i < |all|
      ensures Chars(all)[i] != '1' && IsPrintable(Chars(all)[i]) && !IsUpper(Chars(all)[i])
    {
      SymbolChar(all[i]);
    }
    LastOneFound(hrp, Chars(all));
  }

  /** Decoding inverts encoding. */
  lemma DecodeEncoded(hrp: string, values: Data)
    requires IsPrefix(hrp) && |hrp| + 1 + |values| + 6 <= 90
    ensures Decoded(Encoded(hrp, values)) == Some((hrp, values))
  {
    hide ChecksumOf, Expanded, CharOf, CharactersOk, LastOne, Symbols, PolyFrom;
    var sum := ChecksumOf(Expanded(hrp) + values);
    var all, s := values + sum, Encoded(hrp, values);
    EncodedCharacters(hrp, values);
    assert s[..|hrp|] == hrp && s[|hrp| + 1..] == Chars(all);
    SymbolsOfChars(all);
    LowerAgain(hrp);
    ChecksumVerifies(Expanded(hrp) + values);
    assert Expanded(hrp) + all == Expanded(hrp) + values + sum;
    assert all[..|all| - 6] == values;
  }

  /** Whatever is decoded encodes to the same string in lower case. */
  lemma EncodeDecoded(s: string)
    requires Decoded(s).Some?
    ensures Encoded(Decoded(s).value.0, Decoded(s).value.1) == Lower(s)
  {
    hide ChecksumOf, Expanded, CharOf, CharactersOk, LastOne, Symbols, PolyFrom, LowerCase;
    var pos := LastOne(s);
    LastOneIsOne(s);
    var all := Symbols(s[pos + 1..]).value;
    var hrp, values, sum := Lower(s[..pos]), all[..|all| - 6], all[|all| - 6..];
    CharsOfSymbols(s[pos + 1..]);
    assert all == values + sum;
    assert Expanded(hrp) + all == Expanded(hrp) + values + sum;
    ChecksumUnique(Expanded(hrp) + values, sum);
    assert LowerCase('1') == '1' by { LowerOne(); }
    assert Lower(s) == hrp + "1" + Lower(s[pos + 1..]);
  }

  lemma LowerOne()
    ensures LowerCase('1') == '1'
  {
  }

  method Encode(hrp: string, values: Data) returns (r: string)
    requires forall i :: 0 <= i < |hrp| ==> !IsUpper(hrp[i])
    ensures r == Encoded(hrp, values)
  {
    hide ChecksumOf, Expanded, CharOf;
    var checksum := CreateChecksum(hrp, values);
    var combined := values + checksum;
    r := hrp + "1";
    for i := 0 to |combined|
      invariant r == hrp + "1" + Chars(combined[..i])
    {
      assert Chars(combined[..i + 1]) == Chars(combined[..i]) + [CharOf(combined[i])];
      r := r + [CharOf(combined[i])];
    }
    assert combined[..|combined|] == combined;
  }

  method CheckCharacters(s: string) returns (ok: bool)
    ensures ok == CharactersOk(s)
  {
    hide IsLower, IsUpper, IsPrintable;
    var lower, upper := false, false;
    for i := 0 to |s|
      invariant forall j :: 0 <= j < i ==> IsPrintable(s[j])
      invariant lower <==> exists j :: 0 <= j < i && IsLower(s[j])
      invariant upper <==> exists j :: 0 <= j < i && IsUpper(s[j])
    {
      LettersPrintable(s[i]);
      if IsLower(s[i]) {
        lower := true;
      } else if IsUpper(s[i]) {
        upper := true;
      } else if !IsPrintable(s[i]) {
        return false;
      }
    }
    ok := !(lower && upper);
  }

  lemma LettersPrintable(c: char)
    ensures (IsLower(c) || IsUpper(c) ==> IsPrintable(c)) && !(IsLower(c) && IsUpper(c))
  {
  }

  method Decode(s: string) returns (r: Option<(string, Data)>)
    ensures r == Decoded(s)
  {
    hide CharactersOk, LastOne, SymbolOf, LowerCase, PolyFrom, Expanded;
    var ok := CheckCharacters(s);
    if !ok {
      return None;
    }
    var pos := LastOne(s);
    if |s| > 90 || pos == -1 || pos == 0 || pos + 7 > |s| {
      LastOneFrom(s);
      return None;
    }
    LastOneFrom(s);
    ghost var rest := s[pos + 1..];
    var values: Data := [];
    for i := 0 to |s| - 1 - pos
      invariant |values| == i && Symbols(rest[..i]) == Some(values)
    {
      assert rest[..i + 1][..i] == rest[..i];
      var rev := SymbolOf(s[i + pos + 1]);
      if rev == None {
        SymbolsPrefix(rest, i + 1);
        return None;
      }
      values := values + [rev.value];
    }
    assert rest[..|rest|] == rest;
    var hrp := "";
    for i := 0 to pos
      invariant hrp == Lower(s[..i])
    {
      assert Lower(s[..i + 1]) == Lower(s[..i]) + [LowerCase(s[i])];
      hrp := hrp + [LowerCase(s[i])];
    }
    ok := VerifyChecksum(hrp, values);
    if !ok {
      return None;
    }
    r := Some((hrp, values[..|values| - 6]));
  }

  lemma LastOneFrom(s: string)
    ensures -1 <= LastOne(s) < |s|
  {
    LastOneIsOne(s);
    LastOneLow(s);
  }

  lemma {:induction false} LastOneLow(s: string)
    ensures LastOne(s) >= -1
    decreases |s|
  {
    if s != "" {
      LastOneLow(s[..|s| - 1]);
    }
  }

  lemma {:induction false} SymbolsPrefix(s: string, i: nat)
    requires i <= |s| && Symbols(s[..i]) == None
    ensures Symbols(s) == None
    decreases |s|
  {
    if i < |s| {
      assert s[..|s| - 1][..i] == s[..i];
      SymbolsPrefix(s[..|s| - 1], i);
    } else {
      assert s[..i] == s;
    }
  }
}
