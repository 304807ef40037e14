/**
 The compact form of difficulty targets, src/arith_uint256.cpp, and the work a block proves,
 src/chain.cpp: a 32-bit word with an exponent of base 256, a sign bit and a 23-bit mantissa.

 Main results: the overflow flag is exact; decoding what was encoded truncates low bytes and nothing
 else, raises no flag and encodes to the same word again; the proof of a target is 2^256 divided by the
 target plus one.
 */
module Compact {
  import opened ArithModel
  import opened Arith

  type Word = x: int | 0 <= x < BASE

  // 256 to the n.
  function Bytes(n: nat): (r: nat)
    ensures r > 0
  {
    Pow2(8 * n)
  }

  function SizeOf(c: Word): nat {
    c / 0x1000000
  }

  // The mantissa as it is used: shifted down when the exponent is below three.
  function Mantissa(c: Word): nat {
    if SizeOf(c) <= 3 then Quo(c % 0x800000, Bytes(3 - SizeOf(c))) else c % 0x800000
  }

  // The number a word stands for, however large.
  function Meaning(c: Word): nat {
    if SizeOf(c) <= 3 then Mantissa(c) else Mantissa(c) * Bytes(SizeOf(c) - 3)
  }

  predicate IsNegative(c: Word) {
    Mantissa(c) != 0 && c / 0x800000 % 2 == 1
  }

  predicate IsOverflow(c: Word) {
    var m, size := Mantissa(c), SizeOf(c);
    m != 0 && (size > 34 || (m > 0xff && size > 33) || (m > 0xffff && size > 32))
  }

  lemma BytesAdd(a: nat, b: nat)
    ensures Bytes(a + b) == Bytes(a) * Bytes(b)
  {
    Pow2Add(8 * a, 8 * b);
  }

  lemma BytesSmall()
    ensures Bytes(0) == 1 && Bytes(1) == 256 && Bytes(2) == 0x10000 && Bytes(3) == 0x1000000
  {
    assert Pow2(8) == 256;
    BytesAdd(1, 1);
    BytesAdd(2, 1);
  }

  lemma BytesTop()
    ensures Bytes(32) == Pow(WIDTH)
  {
    PowIsPow2(WIDTH);
  }

  lemma QuoLess(x: nat, d: nat)
    requires d > 0
    ensures Quo(x, d) <= x
  {
    QuoRem(x, d);
    Monotone(1, d, Quo(x, d));
  }

  lemma MantissaBound(c: Word)
    ensures Mantissa(c) < 0x800000
  {
    hide Quo, Bytes;
    if SizeOf(c) <= 3 {
      QuoLess(c % 0x800000, Bytes(3 - SizeOf(c)));
    }
  }

  // A product with a power reaches another power exactly when the rest does.
  lemma Reaches(m: nat, a: nat, b: nat)
    ensures m * Bytes(a) >= Bytes(a + b) <==> m >= Bytes(b)
  {
    hide Bytes;
    BytesAdd(a, b);
    if m >= Bytes(b) {
      Monotone(Bytes(b), m, Bytes(a));
    } else {
      Monotone(m + 1, Bytes(b), Bytes(a));
      Distrib(m, 1, Bytes(a));
    }
  }

  /** The flag is set exactly when the number does not fit in 256 bits. */
  lemma OverflowExact(c: Word)
    ensures IsOverflow(c) <==> Meaning(c) >= Pow(WIDTH)
  {
    hide Bytes, Quo, Pow;
    var m, size := Mantissa(c), SizeOf(c);
    MantissaBound(c);
    BytesTop();
    BytesSmall();
    if size <= 3 {
      assert Bytes(32) >= Bytes(3) by { Grows(3, 32); }
    } else if size <= 32 {
      Reaches(m, size - 3, 35 - size);
      Grows(3, 35 - size);
    } else if size <= 35 {
      Reaches(m, size - 3, 35 - size);
    } else {
      Grows(32, size - 3);
      if m > 0 {
        Monotone(1, m, Bytes(size - 3));
      }
    }
  }

  lemma Grows(a: nat, b: nat)
    requires a <= b
    ensures Bytes(a) <= Bytes(b)
  {
    Pow2Monotone(8 * a, 8 * b);
  }

  // ----- encoding -----

  // The number of bytes of a number.
  ghost predicate IsLength(x: nat, n: nat) {
    x < Bytes(n) && (n > 0 ==> Bytes(n - 1) <= x)
  }

  function ByteLength(x: nat): nat {
    if x == 0 then 0 else 1 + ByteLength(x / 256)
  }

  lemma {:induction false} LengthIs(x: nat)
    ensures IsLength(x, ByteLength(x))
  {
    hide Bytes;
    BytesSmall();
    if x > 0 {
      LengthIs(x / 256);
      var m := ByteLength(x / 256);
      BytesAdd(m, 1);
      if m > 0 {
        BytesAdd(m - 1, 1);
      }
    }
  }

  lemma LengthUnique(x: nat, n: nat, m: nat)
    requires IsLength(x, n) && IsLength(x, m)
    ensures n == m
  {
    hide Bytes;
    if n < m {
      Grows(n, m - 1);
    } else if m < n {
      Grows(m, n - 1);
    }
  }

  lemma LengthAtMost(x: nat)
    requires x < Pow(WIDTH)
    ensures ByteLength(x) <= 32
  {
    hide Bytes, Pow, ByteLength;
    LengthIs(x);
    BytesTop();
    if ByteLength(x) > 32 {
      Grows(32, ByteLength(x) - 1);
    }
  }

  // The highest three bytes, filled up with zeros if there are fewer.
  function Top(x: nat, n: nat): nat {
    if n <= 3 then x * Bytes(3 - n) else Quo(x, Bytes(n - 3))
  }

  // The mantissa and the exponent; the sign bit is kept free.
  function Parts(x: nat, n: nat): (nat, nat) {
    if Top(x, n) >= 0x800000 then (Top(x, n) / 256, n + 1) else (Top(x, n), n)
  }

  function Encoded(x: nat, n: nat, negative: bool): int {
    var (m, size) := Parts(x, n);
    m + size * 0x1000000 + if negative && m != 0 then 0x800000 else 0
  }

  lemma TopBound(x: nat, n: nat)
    requires IsLength(x, n)
    ensures Top(x, n) < 0x1000000
  {
    hide Bytes, Quo;
    BytesSmall();
    if n <= 3 {
      BytesAdd(n, 3 - n);
      Monotone(x + 1, Bytes(n), Bytes(3 - n));
      Distrib(x, 1, Bytes(3 - n));
    } else {
      BytesAdd(n - 3, 3);
      var d := Bytes(n - 3);
      QuoRem(x, d);
      if Quo(x, d) >= 0x1000000 {
        Monotone(0x1000000, Quo(x, d), d);
      }
    }
  }

  lemma EncodedParts(x: nat, n: nat)
    requires IsLength(x, n) && n <= 32
    ensures var (m, size) := Parts(x, n);
            && m < 0x800000 && size <= 33 && 0 <= Encoded(x, n, false) < BASE
            && SizeOf(Encoded(x, n, false)) == size && Encoded(x, n, false) % 0x800000 == m
               && Encoded(x, n, false) / 0x800000 % 2 == 0
  {
    hide Top;
    TopBound(x, n);
    Packed(Parts(x, n).0, Parts(x, n).1);
  }

  lemma Packed(m: nat, size: nat)
    requires m < 0x800000 && size < 256
    ensures var c := m + size * 0x1000000;
            0 <= c < BASE && c / 0x1000000 == size && c % 0x800000 == m && c / 0x800000 % 2 == 0
  {
  }

  // How many low bytes are lost.
  function Dropped(x: nat, n: nat): nat {
    if Top(x, n) >= 0x800000 then (if n >= 2 then n - 2 else 0) else if n >= 3 then n - 3 else 0
  }

  // The number with its low k bytes zeroed.
  function Truncated(x: nat, k: nat): nat {
    Quo(x, Bytes(k)) * Bytes(k)
  }

  lemma QuoExact(x: nat, d: nat)
    requires d > 0
    ensures Quo(x * d, d) == x
  {
    ModUnique(0, x, d);
  }

  lemma QuoUnique(x: nat, d: nat, q: nat, r: nat)
    requires r < d && x == q * d + r
    ensures Quo(x, d) == q
  {
    ModUnique(r, q, d);
  }

  lemma QuoQuo(x: nat, a: nat, b: nat)
    requires a > 0 && b > 0
    ensures a * b > 0 && Quo(Quo(x, a), b) == Quo(x, a * b)
  {
    hide Quo, Rem;
    var y := Quo(x, a);
    QuoRem(x, a);
    QuoRem(y, b);
    var q, r := Quo(y, b), Rem(y, b) * a + Rem(x, a);
    assert x == q * (a * b) + r by {
      Distrib(q * b, Rem(y, b), a);
      Commute(q, b, a);
      Commute(b, a, q);
    }
    Fits(Rem(x, a), Rem(y, b), a, b);
    QuoUnique(x, a * b, q, r);
  }

  lemma QuoByte(y: nat)
    ensures Quo(y, 256) == y / 256
  {
  }

  lemma TruncatedNone(x: nat)
    ensures Truncated(x, 0) == x
  {
    hide Bytes;
    BytesSmall();
  }

  /** What comes back is the number without its low bytes. */
  lemma Decoded(x: nat, n: nat)
    requires IsLength(x, n) && n <= 32
    ensures 0 <= Encoded(x, n, false) < BASE && Meaning(Encoded(x, n, false)) == Truncated(x, Dropped(x, n))
  {
    hide Bytes, Quo;
    EncodedParts(x, n);
    BytesSmall();
    TruncatedNone(x);
    if n <= 2 {
      BytesAdd(2 - n, 1);
      Assoc(x, Bytes(2 - n), 256);
      QuoExact(x, Bytes(3 - n));
      QuoExact(x, Bytes(2 - n));
    } else if n == 3 {
      QuoByte(x);
      QuoExact(x, 1);
    } else {
      BytesAdd(n - 3, 1);
      QuoQuo(x, Bytes(n - 3), 256);
      QuoByte(Quo(x, Bytes(n - 3)));
    }
  }

  lemma TruncatedLess(x: nat, k: nat)
    ensures Truncated(x, k) <= x
  {
    hide Bytes, Quo;
    QuoRem(x, Bytes(k));
  }

  // Zeroing some but not all bytes keeps the length.
  lemma TruncatedLength(x: nat, n: nat, k: nat)
    requires IsLength(x, n) && (n > 0 ==> k < n)
    ensures IsLength(Truncated(x, k), n)
  {
    hide Bytes, Quo;
    TruncatedLess(x, k);
    if n > 0 {
      BytesAdd(n - 1 - k, k);
      var d, b := Bytes(k), Bytes(n - 1 - k);
      QuoRem(x, d);
      if Quo(x, d) < b {
        Monotone(Quo(x, d) + 1, b, d);
        Distrib(Quo(x, d), 1, d);
        assert false;
      }
      Monotone(b, Quo(x, d), d);
    }
  }

  lemma TopByte(y: nat)
    requires y >= 0x800000
    ensures y / 256 * 256 >= 0x800000 && y / 256 * 256 / 256 == y / 256
  {
  }

  // The mantissa and the exponent do not depend on the bytes that are lost.
  lemma PartsKept(x: nat, n: nat)
    requires IsLength(x, n)
    ensures Parts(Truncated(x, Dropped(x, n)), n) == Parts(x, n)
  {
    hide Bytes, Quo, IsLength;
    BytesSmall();
    TruncatedNone(x);
    if n == 3 && Top(x, n) >= 0x800000 {
      QuoByte(x);
      TopByte(x);
    } else if n > 3 {
      var d := Bytes(n - 3);
      var y := Quo(x, d);
      if Top(x, n) >= 0x800000 {
        BytesAdd(n - 3, 1);
        QuoQuo(x, d, 256);
        QuoByte(y);
        TopByte(y);
        Commute(y / 256, 256, d);
        assert Truncated(x, n - 2) == (y / 256 * 256) * d;
        QuoExact(y / 256 * 256, d);
      } else {
        QuoExact(y, d);
      }
    }
  }

  function Encode(x: nat, negative: bool): int {
    Encoded(x, ByteLength(x), negative)
  }

  lemma UnsignedRoundTrip(x: nat)
    requires x < Pow(WIDTH)
    ensures 0 <= Encode(x, false) < BASE && Encode(x, false) / 0x800000 % 2 == 0
    ensures var c: Word := Encode(x, false); var t := Meaning(c);
            && t == Truncated(x, Dropped(x, ByteLength(x))) && !IsOverflow(c)
            && ByteLength(t) == ByteLength(x) && Parts(t, ByteLength(x)) == Parts(x, ByteLength(x))
            && c % 0x800000 == Parts(x, ByteLength(x)).0
  {
    hide Bytes, Quo, Meaning, Pow, IsLength, Truncated, Top, ByteLength;
    var n := ByteLength(x);
    LengthIs(x);
    LengthAtMost(x);
    EncodedParts(x, n);
    Decoded(x, n);
    var c: Word := Encode(x, false);
    var t := Truncated(x, Dropped(x, n));
    TruncatedLess(x, Dropped(x, n));
    assert Dropped(x, n) < n || n == 0;
    TruncatedLength(x, n, Dropped(x, n));
    LengthIs(t);
    LengthUnique(t, n, ByteLength(t));
    PartsKept(x, n);
    OverflowExact(c);
  }

  // The sign bit does not take part in the number.
  lemma WithSign(c: Word)
    requires c / 0x800000 % 2 == 0
    ensures c + 0x800000 < BASE && (c + 0x800000) / 0x800000 % 2 == 1
    ensures SizeOf(c + 0x800000) == SizeOf(c) && (c + 0x800000) % 0x800000 == c % 0x800000
  {
  }

  lemma SameNumber(c: Word, d: Word)
    requires SizeOf(c) == SizeOf(d) && c % 0x800000 == d % 0x800000
    ensures Mantissa(c) == Mantissa(d) && Meaning(c) == Meaning(d) && IsOverflow(c) == IsOverflow(d)
  {
    hide Bytes, Quo;
  }

  // Only zero has a mantissa of zero.
  lemma NonzeroMantissa(x: nat)
    requires x < Pow(WIDTH)
    ensures 0 <= Encode(x, false) < BASE
    ensures Mantissa(Encode(x, false)) != 0 <==> x != 0
    ensures Parts(x, ByteLength(x)).0 != 0 <==> x != 0
  {
    hide Bytes, Quo, Pow, IsLength, Truncated, Top, Parts;
    UnsignedRoundTrip(x);
    var c: Word := Encode(x, false);
    if x == 0 {
      ZeroEncodes();
    } else {
      assert Meaning(c) != 0;
      QuoZero(Bytes(3 - if SizeOf(c) <= 3 then SizeOf(c) else 3));
    }
  }

  lemma QuoZero(d: nat)
    requires d > 0
    ensures Quo(0, d) == 0
  {
  }

  lemma ZeroEncodes()
    ensures Encode(0, false) == 0 && Encode(0, true) == 0 && Parts(0, ByteLength(0)).0 == 0
    ensures Mantissa(0) == 0 && Meaning(0) == 0
  {
    hide Bytes, Quo;
    QuoZero(Bytes(3));
    BytesSmall();
  }

  /** Encoding, decoding and encoding again, for both signs: low bytes are lost once, there is no overflow,
      the sign comes back unless the number is zero, and the word is the same. */
  lemma CompactRoundTrip(x: nat, negative: bool)
    requires x < Pow(WIDTH)
    ensures 0 <= Encode(x, negative) < BASE
    ensures var c: Word := Encode(x, negative); var t := Meaning(c);
            && t == Truncated(x, Dropped(x, ByteLength(x))) && !IsOverflow(c)
            && (IsNegative(c) <==> negative && x != 0) && Encode(t, IsNegative(c)) == c
  {
    hide Bytes, Quo, Meaning, Pow, Truncated, Top, ByteLength, Mantissa, IsOverflow, Parts;
    UnsignedRoundTrip(x);
    NonzeroMantissa(x);
    var c: Word := Encode(x, false);
    if negative && x != 0 {
      WithSign(c);
      SameNumber(c, c + 0x800000);
    }
  }

  // ----- canonical words -----

  /** The words that encoding produces: zero, or a mantissa that could not do with a smaller exponent and
      has no bits below the point. */
  predicate Canonical(c: Word) {
    var w, size := c % 0x800000, SizeOf(c);
    c == 0 || (size > 0 && w >= 0x8000 && (size == 1 ==> w % 0x10000 == 0) && (size == 2 ==> w % 0x100 == 0))
  }

  // The top bytes of a number of up to three bytes followed by k zero bytes.
  lemma TopScaled(w: nat, b: nat, k: nat)
    requires 0 < b <= 3 && IsLength(w, b)
    ensures IsLength(w * Bytes(k), b + k) && Top(w * Bytes(k), b + k) == w * Bytes(3 - b)
  {
    hide Bytes, Quo;
    BytesAdd(b, k);
    BytesAdd(b - 1, k);
    Monotone(w + 1, Bytes(b), Bytes(k));
    Distrib(w, 1, Bytes(k));
    Monotone(Bytes(b - 1), w, Bytes(k));
    if b + k <= 3 {
      BytesAdd(k, 3 - b - k);
      Assoc(w, Bytes(k), Bytes(3 - b - k));
    } else {
      BytesAdd(3 - b, b + k - 3);
      Assoc(w, Bytes(3 - b), Bytes(b + k - 3));
      QuoExact(w * Bytes(3 - b), Bytes(b + k - 3));
    }
  }

  function ShortBytes(w: nat): nat {
    if w < 0x100 then 1 else if w < 0x10000 then 2 else 3
  }

  lemma PartsScaled(w: nat, k: nat)
    requires 0 < w < 0x1000000
    ensures var b, x := ShortBytes(w), w * Bytes(k);
            && ByteLength(x) == b + k
            && Parts(x, b + k) == if b == 3 then (if w >= 0x800000 then (w / 256, k + 4) else (w, k + 3))
                                  else if b == 2 then (if w >= 0x8000 then (w, k + 3) else (w * 256, k + 2))
                                  else if w >= 0x80 then (w * 256, k + 2) else (w * 0x10000, k + 1)
  {
    hide Bytes, Top, ByteLength;
    BytesSmall();
    var b, x := ShortBytes(w), w * Bytes(k);
    TopScaled(w, b, k);
    LengthIs(x);
    LengthUnique(x, b + k, ByteLength(x));
  }

  lemma WordParts(c: Word)
    ensures c == c % 0x800000 + SizeOf(c) * 0x1000000 + c / 0x800000 % 2 * 0x800000
  {
  }

  // The encoded word has the mantissa and the exponent of the parts.
  lemma EncodedIs(c: Word, m: nat, size: nat)
    requires 0 < m < 0x800000
    ensures m + size * 0x1000000 + (if c / 0x800000 % 2 == 1 then 0x800000 else 0) == c
       <==> m == c % 0x800000 && size == SizeOf(c)
  {
    WordParts(c);
  }

  // The number of a word that is not zero, as a short number followed by zero bytes.
  function Short(c: Word): nat {
    var w, size := c % 0x800000, SizeOf(c);
    if size >= 3 then w else if size == 2 then w / 0x100 else if size == 1 then w / 0x10000 else 0
  }

  lemma MeaningIs(c: Word)
    ensures Mantissa(c) == Short(c) && Meaning(c) == Short(c) * Bytes(if SizeOf(c) >= 3 then SizeOf(c) - 3 else 0)
  {
    hide Bytes, Quo;
    BytesSmall();
    var size, w := SizeOf(c), c % 0x800000;
    QuoIs(w, Bytes(3 - if size <= 3 then size else 3));
  }

  /** A word comes back from decoding and encoding exactly when it is canonical. */
  lemma CanonicalIff(c: Word)
    ensures Encode(Meaning(c), IsNegative(c)) == c <==> Canonical(c)
  {
    hide Bytes, Quo, Meaning, Mantissa, ByteLength, Parts;
    MeaningIs(c);
    var w, size, short := c % 0x800000, SizeOf(c), Short(c);
    var k := if size >= 3 then size - 3 else 0;
    if short == 0 {
      ZeroEncodes();
    } else {
      PartsScaled(short, k);
      var (m, n) := Parts(Meaning(c), ByteLength(Meaning(c)));
      EncodedIs(c, m, n);
      ShortParts(c, m, n);
    }
  }

  lemma ShortParts(c: Word, m: nat, n: nat)
    requires Short(c) != 0
    requires var w, k := Short(c), if SizeOf(c) >= 3 then SizeOf(c) - 3 else 0;
             var b := ShortBytes(w);
             (m, n) == if b == 3 then (if w >= 0x800000 then (w / 256, k + 4) else (w, k + 3))
                       else if b == 2 then (if w >= 0x8000 then (w, k + 3) else (w * 256, k + 2))
                       else if w >= 0x80 then (w * 256, k + 2) else (w * 0x10000, k + 1)
    ensures 0 < m < 0x800000 && (m == c % 0x800000 && n == SizeOf(c) <==> Canonical(c))
  {
  }

  // ----- as they run -----

  method SetCompact(x: ArithUint256, c: Word) returns (negative: bool, overflow: bool)
    requires x.Valid()
    modifies x.pn
    ensures x.Value() == Meaning(c) % Pow(WIDTH)
    ensures negative == IsNegative(c) && overflow == (Meaning(c) >= Pow(WIDTH))
  {
    hide Pow, V, Pow2, Quo;
    var size := c / 0x1000000;
    var word := c % 0x800000;
    MantissaBound(c);
    OverflowExact(c);
    if size <= 3 {
      word := Quo(word, Pow2(8 * (3 - size)));
      SetWord(x, word);
      assert word == word % Pow(WIDTH) by { WordFits(word); }
    } else {
      SetWord(x, word);
      x.ShiftLeft(8 * (size - 3));
    }
    negative := word != 0 && c / 0x800000 % 2 == 1;
    overflow := word != 0 && (size > 34 || (word > 0xff && size > 33) || (word > 0xffff && size > 32));
  }

  lemma WordFits(w: nat)
    requires w < BASE
    ensures w == w % Pow(WIDTH)
  {
    hide Pow2;
    PowStep(0);
    PowIsPow2(1);
    PowIsPow2(WIDTH);
    Pow2Monotone(32, 32 * WIDTH);
    hide Pow;
    NoWrap(w, Pow(WIDTH));
  }

  method SetWord(x: ArithUint256, w: nat)
    requires x.Valid() && w < BASE
    modifies x.pn
    ensures x.Value() == w
  {
    x.SetZero();
    x.pn[0] := w;
    hide V;
    VNone(x.pn[..], x.pn[..], x.pn[..]);
    VStep(x.pn[..], 0);
    VZero(x.pn[..], 1, WIDTH);
  }

  method GetLow64(x: ArithUint256) returns (r: nat)
    requires x.Valid()
    ensures r == x.Value() % (BASE * BASE)
  {
    hide Pow, V;
    r := x.pn[0] + x.pn[1] * BASE;
    TwoLimbs(x.pn[..]);
    VSplit(x.pn[..], 2, WIDTH - 2);
    VBound(x.pn[..], 2);
    PowStep(0);
    PowStep(1);
    ModUnique(r, V(x.pn[2..], WIDTH - 2), Pow(2));
    assert x.pn[..][2..] == x.pn[2..];
  }

  // The length in bytes from the length in bits.
  lemma LengthFromBits(x: nat, bits: nat)
    requires (bits == 0 <==> x == 0) && (bits > 0 ==> Pow2(bits - 1) <= x < Pow2(bits))
    ensures IsLength(x, (bits + 7) / 8)
  {
    hide Pow2;
    var n := (bits + 7) / 8;
    if bits > 0 {
      Pow2Monotone(bits, 8 * n);
      Pow2Monotone(8 * (n - 1), bits - 1);
    }
  }

  method TopBytes(x: ArithUint256, size: nat) returns (top: nat)
    requires x.Valid() && IsLength(x.Value(), size)
    ensures top == Top(x.Value(), size) < 0x1000000
  {
    hide Pow, V, Pow2, Quo, IsLength;
    TopBound(x.Value(), size);
    if size <= 3 {
      var low := GetLow64(x);
      assert x.Value() < 0x1000000 by { ShortLength(x.Value(), size); }
      assert low == x.Value() by { NoWrap(x.Value(), BASE * BASE); }
      top := (low * Pow2(8 * (3 - size))) % BASE;
    } else {
      var bn := new ArithUint256.Copy(x);
      bn.ShiftRight(8 * (size - 3));
      assert bn.Value() == Top(x.Value(), size) by { QuoIs(x.Value(), Pow2(8 * (size - 3))); }
      var low := GetLow64(bn);
      assert low == bn.Value() by { NoWrap(bn.Value(), BASE * BASE); }
      top := low % BASE;
    }
  }

  method GetCompact(x: ArithUint256, negative: bool) returns (c: int)
    requires x.Valid()
    ensures c == Encode(x.Value(), negative)
  {
    hide ArithUint256.Value, Pow2, IsLength, Top, ByteLength;
    var bits := x.Bits();
    var size := (bits + 7) / 8;
    LengthFromBits(x.Value(), bits);
    LengthIs(x.Value());
    LengthUnique(x.Value(), size, ByteLength(x.Value()));
    var top := TopBytes(x, size);
    if top / 0x800000 % 2 == 1 {
      top := top / 256;
      size := size + 1;
    }
    assert top < 0x800000 && size < 256;
    c := top + size * 0x1000000;
    if negative && top != 0 {
      c := c + 0x800000;
    }
  }

  lemma QuoIs(x: nat, d: nat)
    requires d > 0
    ensures Quo(x, d) == x / d
  {
  }

  lemma ShortLength(x: nat, n: nat)
    requires IsLength(x, n) && n <= 3
    ensures x < 0x1000000
  {
    hide Bytes;
    BytesSmall();
    Grows(n, 3);
  }

  // ----- proof of work -----

  predicate IsUsable(c: Word) {
    !IsNegative(c) && !IsOverflow(c) && Meaning(c) != 0
  }

  lemma {:induction false} ByteMultiple(m: nat, k: nat)
    requires k > 0
    ensures m * Bytes(k) % 256 == 0
  {
    hide Bytes;
    BytesSmall();
    BytesAdd(k - 1, 1);
    Assoc(m, Bytes(k - 1), 256);
    ModUnique(0, m * Bytes(k - 1), 256);
  }

  // A usable target plus one does not wrap.
  lemma TargetBelow(c: Word)
    requires !IsOverflow(c)
    ensures Meaning(c) + 1 < Pow(WIDTH)
  {
    hide Bytes, Quo, Pow;
    OverflowExact(c);
    MantissaBound(c);
    BytesTop();
    BytesSmall();
    if SizeOf(c) <= 3 {
      Grows(3, 32);
    } else {
      ByteMultiple(Mantissa(c), SizeOf(c) - 3);
      ByteMultiple(1, 32);
    }
  }

  // Dividing the complement and adding one is dividing the whole range.
  lemma WholeRange(w: nat, t: nat, q: nat, rest: nat)
    requires t + 1 < w && w - 1 - t == q * (t + 1) + rest && rest < t + 1
    ensures w / (t + 1) == q + 1 && (t > 0 ==> q + 1 < w)
  {
    Distrib(q, 1, t + 1);
    ModUnique(rest, q + 1, t + 1);
    if t > 0 {
      Monotone(2, t + 1, q + 1);
    }
  }

  function Work(c: Word): nat {
    if IsUsable(c) then Quo(Pow(WIDTH), Meaning(c) + 1) else 0
  }

  lemma MeaningZero(c: Word)
    ensures Meaning(c) == 0 <==> Mantissa(c) == 0
  {
  }

  lemma QuotientBounds(w: nat, t: nat)
    requires 0 < t < w
    ensures 0 < Quo(w, t + 1) < w
  {
    hide Quo, Rem;
    QuoRem(w, t + 1);
    if Quo(w, t + 1) > 0 {
      Monotone(2, t + 1, Quo(w, t + 1));
    }
  }

  /** A block counts as work exactly if its target is not negative, does not overflow and has a mantissa; the work
      then fits in 256 bits. */
  lemma WorkPositiveIff(c: Word)
    ensures Work(c) > 0 <==> !IsNegative(c) && !IsOverflow(c) && Mantissa(c) > 0
    ensures Work(c) < Pow(WIDTH)
  {
    hide Pow, Meaning, Mantissa, IsOverflow, IsNegative, Quo;
    MeaningZero(c);
    BytesTop();
    if IsUsable(c) {
      TargetBelow(c);
      QuotientBounds(Pow(WIDTH), Meaning(c));
    }
  }

  lemma QuotientOrder(w: nat, a: nat, b: nat)
    requires 0 < a <= b
    ensures Quo(w, a) >= Quo(w, b)
  {
    hide Quo, Rem;
    QuoRem(w, a);
    QuoRem(w, b);
    if Quo(w, a) < Quo(w, b) {
      Monotone(Quo(w, a) + 1, Quo(w, b), a);
      Distrib(Quo(w, a), 1, a);
      Monotone(a, b, Quo(w, b));
    }
  }

  /** A lower target is at least as much work. */
  lemma WorkOrder(c: Word, d: Word)
    requires IsUsable(c) && IsUsable(d) && Meaning(c) <= Meaning(d)
    ensures Work(c) >= Work(d)
  {
    hide Pow, Meaning, Quo;
    QuotientOrder(Pow(WIDTH), Meaning(c) + 1, Meaning(d) + 1);
  }

  /** The work of a target: 2^256 divided by the target plus one, without wrapping; zero for an unusable
      word. */
  method GetBlockProof(c: Word) returns (r: ArithUint256)
    ensures r.Valid() && r.Value() == Work(c) == if IsUsable(c) then Pow(WIDTH) / (Meaning(c) + 1) else 0
  {
    hide Pow, V, Meaning, Quo;
    var target := new ArithUint256();
    var negative, overflow := SetCompact(target, c);
    OverflowExact(c);
    var isZero := target.EqualTo(0);
    if !overflow {
      NoWrap(Meaning(c), Pow(WIDTH));
    }
    if negative || overflow || isZero {
      r := new ArithUint256();
      return;
    }
    TargetBelow(c);
    var t := target.Value();
    r := target.Complement();
    var divisor := new ArithUint256.Copy(target);
    assert divisor.pn[..] == target.pn[..];
    divisor.Increment();
    NoWrap(t + 1, Pow(WIDTH));
    var ok, rest := r.Divide(divisor);
    WholeRange(Pow(WIDTH), t, r.Value(), rest);
    QuoIs(Pow(WIDTH), t + 1);
    NoWrap(r.Value() + 1, Pow(WIDTH));
    r.Increment();
  }
}
