/**
 EncodeBase58 and DecodeBase58 of src/base58.cpp: radix conversion in place, in buffers sized by a rational
 bound. Leading zero bytes and leading '1' characters correspond.

 Main results: the assertions that no carry is left never fail, for input of any length; DecodedIff (a text
 is decoded to some bytes exactly when it is their encoding, with white space around it or not).
 */
module Base58 {
  import opened ArithModel
  import opened Radix
  import opened Wrappers

  // ----- in-place conversion -----

  // The buffer holds a number in its last length positions, without leading zeros there.
  ghost predicate HoldsNumber(s: seq<nat>, length: nat, n: nat, b: nat) {
    && b > 1 && length <= |s| && s[|s| - length..] == Digits(n, b)
    && forall j :: 0 <= j < |s| - length ==> s[j] == 0
  }

  lemma NumberValue(s: seq<nat>, length: nat, n: nat, b: nat)
    requires HoldsNumber(s, length, n, b)
    ensures Val(s, b) == n && AreDigits(s, b) && (length > 0 ==> s[|s| - length] != 0)
  {
    DigitsOk(n, b);
    var k := |s| - length;
    assert s == s[..k] + s[k..];
    ValZeros(s[..k], s[k..], b);
  }

  lemma NumberFrom(s: seq<nat>, length: nat, b: nat)
    requires b > 1 && length <= |s| && AreDigits(s, b) && (length > 0 ==> s[|s| - length] != 0)
    requires forall j :: 0 <= j < |s| - length ==> s[j] == 0
    ensures HoldsNumber(s, length, Val(s, b), b)
  {
    var k := |s| - length;
    assert s == s[..k] + s[k..];
    ValZeros(s[..k], s[k..], b);
    DigitsUnique(s[k..], b);
  }

  // One digit of the conversion.
  lemma DigitStep(low: int, was: int, d: nat, carry: nat, mult: nat, b: nat, p: nat, start: int)
    requires b > 1 && low + carry * p == start + mult * was
    ensures var t := carry + mult * d;
            ((t % b) * p + low) + (t / b) * (b * p) == start + mult * (d * p + was)
  {
    var t := carry + mult * d;
    assert t == (t / b) * b + t % b;
    Distrib((t / b) * b, t % b, p);
    Assoc(t / b, b, p);
    Distrib(carry, mult * d, p);
    Assoc(mult, d, p);
    Distrib(d * p, was, mult);
  }

  // The last i digits are done.
  ghost predicate Partial(u: seq<nat>, s: seq<nat>, length: nat, i: nat, carry: nat, mult: nat, add: nat, b: nat) {
    && b > 1 && i <= |u| == |s| && AreDigits(u, b) && (forall j :: 0 <= j < |u| - i ==> u[j] == s[j])
    && Val(u[|u| - i..], b) + carry * Power(b, i) == add + mult * Val(s[|s| - i..], b)
    && (i >= length && i > 0 && carry == 0 ==> u[|u| - i] != 0)
  }

  lemma PartialStart(s: seq<nat>, length: nat, n: nat, mult: nat, add: nat, b: nat)
    requires HoldsNumber(s, length, n, b)
    ensures Partial(s, s, length, 0, add, mult, add, b)
  {
    hide Val, Power, HoldsNumber;
    NumberLength(s, length, n, b);
    NumberValue(s, length, n, b);
    ValLast(s[|s|..], 0, b);
    PowerStep(b, 0);
    assert s[|s|..] == [];
  }

  lemma PartialStep(u: seq<nat>, s: seq<nat>, length: nat, n: nat, i: nat, carry: nat, mult: nat, add: nat, b: nat)
    requires HoldsNumber(s, length, n, b) && Partial(u, s, length, i, carry, mult, add, b) && mult > 0
    requires (carry != 0 || i < length) && i < |u|
    ensures var k := |u| - 1 - i; var t := carry + mult * u[k];
            t >= 0 && t / b >= 0 && t % b >= 0 && Partial(u[k := t % b], s, length, i + 1, t / b, mult, add, b)
  {
    hide Val, Power, HoldsNumber;
    var k := |u| - 1 - i;
    var low, was, t := u[|u| - i..], s[|s| - i..], carry + mult * u[k];
    NumberValue(s, length, n, b);
    NumberLength(s, length, n, b);
    DigitStep(Val(low, b), Val(was, b), u[k], carry, mult, b, Power(b, i), add);
    TopDigit(carry, mult, u[k], b);
    var u' := u[k := t % b];
    assert u'[k..] == [t % b] + low && s[k..] == [s[k]] + was;
    ValFirst(t % b, low, b);
    ValFirst(s[k], was, b);
    PowerStep(b, i);
  }

  lemma PartialDone(u: seq<nat>, s: seq<nat>, length: nat, n: nat, i: nat, carry: nat, mult: nat, add: nat, b: nat)
    requires HoldsNumber(s, length, n, b) && Partial(u, s, length, i, carry, mult, add, b)
    requires (carry == 0 && i >= length) || i == |u|
    requires mult * n + add < Power(b, |u|)
    ensures carry == 0 && HoldsNumber(u, i, mult * n + add, b)
  {
    hide Val, Power, HoldsNumber;
    NumberValue(s, length, n, b);
    NumberLength(s, length, n, b);
    var k := |u| - i;
    assert carry == 0 by {
      if k == 0 {
        assert s[k..] == s && u[k..] == u;
        NoCarry(Val(u, b), carry, Power(b, |u|), mult * n + add);
      }
    }
    assert Val(s[k..], b) == n by {
      assert s == s[..k] + s[k..];
      ValZeros(s[..k], s[k..], b);
    }
    assert Val(u, b) == Val(u[k..], b) by {
      assert u == u[..k] + u[k..];
      ValZeros(u[..k], u[k..], b);
    }
    NumberFrom(u, i, b);
  }

  /** Replace the number in the buffer by itself times mult plus add. The carry is used up when the result
      fits the buffer. */
  method MultiplyAdd(buf: array<nat>, length: nat, mult: nat, add: nat, b: nat, ghost n: nat) returns (i: nat)
    requires HoldsNumber(buf[..], length, n, b) && mult > 0 && mult * n + add < Power(b, buf.Length)
    modifies buf
    ensures HoldsNumber(buf[..], i, mult * n + add, b)
  {
    hide Partial, Power, HoldsNumber;
    ghost var s := buf[..];
    var size := buf.Length;
    NumberLength(s, length, n, b);
    PartialStart(s, length, n, mult, add, b);
    var carry: nat := add;
    i := 0;
    while (carry != 0 || i < length) && i < size
      invariant 0 <= i <= size && Partial(buf[..], s, length, i, carry, mult, add, b)
    {
      ghost var u := buf[..];
      PartialStep(u, s, length, n, i, carry, mult, add, b);
      var k := size - 1 - i;
      var t := carry + mult * buf[k];
      buf[k] := t % b;
      carry := t / b;
      i := i + 1;
      assert buf[..] == u[k := buf[k]];
    }
    PartialDone(buf[..], s, length, n, i, carry, mult, add, b);
    assert carry == 0;
  }

  lemma NumberLength(s: seq<nat>, length: nat, n: nat, b: nat)
    requires HoldsNumber(s, length, n, b)
    ensures b > 1 && length <= |s| && forall j :: 0 <= j < |s| - length ==> s[j] == 0
  {
  }

  // Without a carry out, the new digit is zero only if nothing came in.
  lemma TopDigit(carry: nat, mult: nat, d: nat, b: nat)
    requires b > 1 && mult > 0
    ensures var t := carry + mult * d;
            t >= 0 && t / b >= 0 && 0 <= t % b < b && (t / b == 0 && (carry != 0 || d != 0) ==> t % b != 0)
  {
    if d != 0 {
      Monotone(1, d, mult);
    }
  }

  lemma NoCarry(v: nat, carry: nat, p: nat, total: nat)
    requires v + carry * p == total < p
    ensures carry == 0
  {
    if carry > 0 {
      Monotone(1, carry, p);
    }
  }

  // ----- characters -----

  // The alphabet, by rows.
  function BaseChar(d: nat): char
    requires d < 58
  {
    if d < 20 then "123456789ABCDEFGHJKL"[d]
    else if d < 40 then "MNPQRSTUVWXYZabcdefg"[d - 20]
    else "hijkmnopqrstuvwxyz"[d - 40]
  }

  // The table for decoding, by rows.
  function MapBase58(c: int): int {
    if c < 48 then -1
    else if c < 64 then [-1, 0, 1, 2, 3, 4, 5, 6, 7, 8, -1, -1, -1, -1, -1, -1][c - 48]
    else if c < 80 then [-1, 9, 10, 11, 12, 13, 14, 15, 16, -1, 17, 18, 19, 20, 21, -1][c - 64]
    else if c < 96 then [22, 23, 24, 25, 26, 27, 28, 29, 30, 31, 32, -1, -1, -1, -1, -1][c - 80]
    else if c < 112 then [-1, 33, 34, 35, 36, 37, 38, 39, 40, 41, 42, 43, -1, 44, 45, 46][c - 96]
    else if c < 128 then [47, 48, 49, 50, 51, 52, 53, 54, 55, 56, 57, -1, -1, -1, -1, -1][c - 112]
    else -1
  }

  predicate IsSpace(c: char) {
    c == ' ' || c == '\n' || c == '\r' || c == '\t' || c as int == 11 || c as int == 12
  }

  // The tables as arithmetic: runs of consecutive characters.
  function CodeOf(d: nat): int {
    d + if d < 9 then 49 else if d < 17 then 56 else if d < 22 then 57 else if d < 33 then 58 else if d < 44 then 64
      else 65
  }

  function DigitOf(c: int): int {
    if 49 <= c <= 57 then c - 49 else if 65 <= c <= 72 then c - 56 else if 74 <= c <= 78 then c - 57
    else if 80 <= c <= 90 then c - 58 else if 97 <= c <= 107 then c - 64 else if 109 <= c <= 122 then c - 65 else -1
  }

  lemma AlphabetIs(d: nat)
    requires d < 58
    ensures BaseChar(d) as int == CodeOf(d)
  {
    if d < 20 {
    } else if d < 40 {
    } else {
    }
  }

  lemma MapIs(c: int)
    ensures MapBase58(c) == DigitOf(c)
  {
    if c < 64 {
    } else if c < 80 {
    } else if c < 96 {
    } else if c < 112 {
    } else {
    }
  }

  lemma CharFacts(d: nat)
    requires d < 58
    ensures MapBase58(BaseChar(d) as int) == d && (BaseChar(d) == '1' <==> d == 0) && !IsSpace(BaseChar(d))
            && BaseChar(d) != '\0'
  {
    hide BaseChar, MapBase58;
    AlphabetIs(d);
    MapIs(CodeOf(d));
  }

  lemma MapFacts(c: char)
    requires MapBase58(c as int) != -1
    ensures 0 <= MapBase58(c as int) < 58 && BaseChar(MapBase58(c as int)) == c
  {
    hide BaseChar, MapBase58;
    MapIs(c as int);
    AlphabetIs(DigitOf(c as int));
  }

  function Chars(digits: seq<nat>): string
    requires AreDigits(digits, 58)
  {
    seq(|digits|, i requires 0 <= i < |digits| => BaseChar(digits[i]))
  }

  // ----- encoding -----

  function LeadingZeros(s: seq<nat>): (z: nat)
    ensures z <= |s| && (forall i :: 0 <= i < z ==> s[i] == 0) && (z < |s| ==> s[z] != 0)
  {
    if s == [] || s[0] != 0 then 0 else 1 + LeadingZeros(s[1..])
  }

  function Repeat<T>(x: T, n: nat): (s: seq<T>)
    ensures |s| == n && forall i :: 0 <= i < n ==> s[i] == x
  {
    if n == 0 then [] else Repeat(x, n - 1) + [x]
  }

  function Encoded(bytes: seq<nat>): string {
    var z := LeadingZeros(bytes);
    var n := Val(bytes[z..], 256);
    DigitsOk(n, 58);
    Repeat('1', z) + Chars(Digits(n, 58))
  }

  // The bytes after the leading zeros, converted.
  method ConvertBytes(rest: seq<nat>) returns (b58: array<nat>, length: nat)
    requires AreDigits(rest, 256)
    ensures fresh(b58) && HoldsNumber(b58[..], length, Val(rest, 256), 58)
  {
    hide Val, Digits, Power, HoldsNumber;
    var size := |rest| * 138 / 100 + 1;
    b58 := new nat[size](_ => 0);
    length := 0;
    ghost var none: seq<nat> := [];
    EmptyBuffer(b58[..], 58);
    assert rest[..0] == none;
    ValLast(none, 0, 256);
    for k := 0 to |rest|
      invariant HoldsNumber(b58[..], length, Val(rest[..k], 256), 58)
    {
      assert rest[..k + 1] == rest[..k] + [rest[k]];
      ValLast(rest[..k], rest[k], 256);
      PrefixFits(rest, k + 1);
      EncodeFits(|rest|);
      length := MultiplyAdd(b58, length, 256, rest[k], 58, Val(rest[..k], 256));
    }
    assert rest[..|rest|] == rest;
  }

  // Skipping leading zeros in the buffer skips nothing beyond the number: its first digit is not zero.
  lemma NothingSkipped(s: seq<nat>, length: nat, n: nat, it: nat)
    requires HoldsNumber(s, length, n, 58) && length <= |s| && |s| - length <= it <= |s|
    requires forall j :: |s| - length <= j < it ==> s[j] == 0
    ensures it == |s| - length && s[it..] == Digits(n, 58) && AreDigits(s, 58)
  {
    hide Digits, Val;
    DigitsOk(n, 58);
    NumberValue(s, length, n, 58);
  }

  method Encode(input: seq<nat>) returns (str: string)
    requires AreDigits(input, 256)
    ensures str == Encoded(input)
  {
    hide Val, Digits, HoldsNumber, BaseChar;
    var zeroes := 0;
    while zeroes < |input| && input[zeroes] == 0
      invariant 0 <= zeroes <= |input| && forall j :: 0 <= j < zeroes ==> input[j] == 0
    {
      zeroes := zeroes + 1;
    }
    ZerosUnique(input, zeroes);
    var b58, length := ConvertBytes(input[zeroes..]);
    ghost var n := Val(input[zeroes..], 256);
    var size := b58.Length;
    NumberLength(b58[..], length, n, 58);
    var it := size - length;
    while it < size && b58[it] == 0
      invariant size - length <= it <= size && forall j :: size - length <= j < it ==> b58[j] == 0
    {
      it := it + 1;
    }
    NothingSkipped(b58[..], length, n, it);
    str := Repeat('1', zeroes);
    ghost var from := it;
    while it < size
      invariant from <= it <= size && str == Repeat('1', zeroes) + Chars(b58[from..it])
    {
      assert b58[from..it + 1] == b58[from..it] + [b58[it]];
      str := str + [BaseChar(b58[it])];
      it := it + 1;
    }
    assert b58[from..size] == b58[from..];
  }

  lemma ZerosUnique(s: seq<nat>, z: nat)
    requires z <= |s| && (forall i :: 0 <= i < z ==> s[i] == 0) && (z < |s| ==> s[z] != 0)
    ensures z == LeadingZeros(s)
  {
  }

  lemma EmptyBuffer(s: seq<nat>, b: nat)
    requires b > 1 && forall i :: 0 <= i < |s| ==> s[i] == 0
    ensures HoldsNumber(s, 0, 0, b)
  {
    assert s[|s|..] == [];
  }

  lemma NumberDigits(s: seq<nat>, length: nat, n: nat, b: nat)
    requires HoldsNumber(s, length, n, b)
    ensures length <= |s| && s[|s| - length..] == Digits(n, b)
  {
  }

  // A prefix is not larger than the whole would allow.
  lemma PrefixFits(s: seq<nat>, k: nat)
    requires k <= |s| && AreDigits(s, 256)
    ensures Val(s[..k], 256) < Power(256, |s|)
  {
    hide Val, Power;
    ValBound(s[..k], 256);
    PowerGrows(256, k, |s|);
  }

  // ----- decoding -----

  predicate IsOne(c: char) {
    c == '1'
  }

  predicate NotSpace(c: char) {
    !IsSpace(c)
  }

  // How many characters at the start satisfy p.
  function Run(s: string, p: char -> bool): (n: nat)
    ensures n <= |s| && (forall i :: 0 <= i < n ==> p(s[i])) && (n < |s| ==> !p(s[n]))
  {
    if s == "" || !p(s[0]) then 0 else 1 + Run(s[1..], p)
  }

  lemma RunUnique(s: string, p: char -> bool, n: nat)
    requires n <= |s| && (forall i :: 0 <= i < n ==> p(s[i])) && (n < |s| ==> !p(s[n]))
    ensures n == Run(s, p)
  {
  }

  // The digits of a text, if all its characters are in the alphabet.
  function DigitsIn(s: string): Option<seq<nat>> {
    if s == "" then Some([]) else
    match DigitsIn(s[..|s| - 1])
    case None => None
    case Some(d) =>
      var m := MapBase58(s[|s| - 1] as int);
      if m < 0 then None else Some(d + [m])
  }

  // The bytes of a text without leading '1's, unless it has a bad character or becomes too long after
  // z zero bytes.
  function DecodedDigits(s: string, z: nat, max: nat): Option<seq<nat>> {
    match DigitsIn(s)
    case None => None
    case Some(d) =>
      var rest := Digits(Val(d, 58), 256);
      if z + |rest| > max then None else Some(rest)
  }

  function Decoded(str: string, max: int): Option<seq<nat>> {
    var s1 := str[Run(str, IsSpace)..];
    var z := Run(s1, IsOne);
    var s2 := s1[z..];
    var w := Run(s2, NotSpace);
    var t := s2[w..];
    if '\0' in str || Run(t, IsSpace) != |t| then None else
    match DecodedDigits(s2[..w], z, Limit(max))
    case None => None
    case Some(rest) => Some(Repeat(0, z) + rest)
  }

  // Without any character a negative limit is not looked at.
  function Limit(max: int): nat {
    if max < 0 then 0 else max
  }

  lemma {:induction false} DigitsInOk(s: string)
    requires DigitsIn(s).Some?
    ensures |DigitsIn(s).value| == |s| && AreDigits(DigitsIn(s).value, 58) && Chars(DigitsIn(s).value) == s
    decreases |s|
  {
    hide MapBase58, BaseChar;
    if s != "" {
      DigitsInOk(s[..|s| - 1]);
      MapFacts(s[|s| - 1]);
      var d := DigitsIn(s[..|s| - 1]).value;
      assert DigitsIn(s).value == d + [MapBase58(s[|s| - 1] as int)];
      assert s == s[..|s| - 1] + [s[|s| - 1]];
    }
  }

  lemma {:induction false} DigitsOfChars(d: seq<nat>)
    requires AreDigits(d, 58)
    ensures DigitsIn(Chars(d)) == Some(d)
    decreases |d|
  {
    hide MapBase58, BaseChar;
    if d != [] {
      var d', x := d[..|d| - 1], d[|d| - 1];
      DigitsOfChars(d');
      CharFacts(x);
      assert Chars(d)[..|d| - 1] == Chars(d');
      assert d == d' + [x];
    }
  }

  lemma {:induction false} DigitsInPrefix(s: string, k: nat)
    requires k <= |s|
    ensures DigitsIn(s[..k]).None? ==> DigitsIn(s).None?
    ensures DigitsIn(s).Some? ==>
              && DigitsIn(s[..k]).Some? && k <= |DigitsIn(s).value|
              && DigitsIn(s[..k]).value == DigitsIn(s).value[..k]
    decreases |s|
  {
    hide MapBase58;
    if k == |s| {
      assert s[..k] == s;
      if DigitsIn(s).Some? {
        DigitsInOk(s);
      }
    } else {
      assert s[..|s| - 1][..k] == s[..k];
      DigitsInPrefix(s[..|s| - 1], k);
      if DigitsIn(s).Some? {
        DigitsInOk(s[..|s| - 1]);
      }
    }
  }

  lemma {:induction false} DigitsMonotone(m: nat, n: nat, b: nat)
    requires b > 1 && m <= n
    ensures |Digits(m, b)| <= |Digits(n, b)|
    decreases n
  {
    hide Quo, Rem;
    if m > 0 {
      Smaller(n, b);
      QuoMonotone(m, n, b);
      DigitsMonotone(Quo(m, b), Quo(n, b), b);
    }
  }

  lemma QuoMonotone(m: nat, n: nat, b: nat)
    requires m <= n && b > 0
    ensures Quo(m, b) <= Quo(n, b)
  {
    hide Quo, Rem;
    QuoRem(m, b);
    QuoRem(n, b);
    if Quo(m, b) > Quo(n, b) {
      Monotone(Quo(n, b) + 1, Quo(m, b), b);
      Distrib(Quo(n, b), 1, b);
    }
  }

  lemma {:induction false} ValMonotone(d: seq<nat>, k: nat, b: nat)
    requires k <= |d| && b > 0
    ensures Val(d[..k], b) <= Val(d, b)
    decreases |d|
  {
    if k == |d| {
      assert d[..k] == d;
    } else {
      ValMonotone(d[..|d| - 1], k, b);
      assert d[..|d| - 1][..k] == d[..k];
      Monotone(1, b, Val(d[..|d| - 1], b));
    }
  }

  // A prefix that is already too long.
  lemma TooLong(s: string, k: nat, z: nat, max: nat)
    requires k <= |s| && DigitsIn(s[..k]).Some? && z + |Digits(Val(DigitsIn(s[..k]).value, 58), 256)| > max
    ensures DecodedDigits(s, z, max) == None
  {
    hide DigitsIn, Digits, Val;
    DigitsInPrefix(s, k);
    if DigitsIn(s).Some? {
      ValMonotone(DigitsIn(s).value, k, 58);
      DigitsMonotone(Val(DigitsIn(s).value[..k], 58), Val(DigitsIn(s).value, 58), 256);
    }
  }

  lemma BadDigit(s: string, k: nat, z: nat, max: nat)
    requires k <= |s| && DigitsIn(s[..k]).None?
    ensures DecodedDigits(s, z, max) == None
  {
    hide DigitsIn;
    DigitsInPrefix(s, k);
  }

  // The characters up to the first space.
  method DecodeDigits(s: string, z: nat, max: nat) returns (r: Option<seq<nat>>, used: nat)
    requires z <= max
    ensures used <= |s| && r == DecodedDigits(s[..Run(s, NotSpace)], z, max)
    ensures r.Some? ==> used == Run(s, NotSpace)
  {
    hide Val, Digits, Power, HoldsNumber, MapBase58, DigitsIn, IsSpace, DecodedDigits, Run;
    ghost var w := Run(s, NotSpace);
    var size := |s| * 733 / 1000 + 1;
    var b256 := new nat[size](_ => 0);
    var length: nat := 0;
    EmptyBuffer(b256[..], 256);
    assert s[..0] == "";
    NoDigits();
    used := 0;
    while used < |s| && !IsSpace(s[used])
      invariant 0 <= used <= w && z + length <= max
      invariant DigitsIn(s[..used]).Some? && HoldsNumber(b256[..], length, Val(DigitsIn(s[..used]).value, 58), 256)
    {
      assert used < w;
      var carry := MapBase58(s[used] as int);
      NextDigit(s, used);
      assert s[..w][..used + 1] == s[..used + 1];
      if carry == -1 {
        BadDigit(s[..w], used + 1, z, max);
        return None, used;
      }
      length := PushDigit(b256, length, s, used, carry);
      NumberDigits(b256[..], length, Val(DigitsIn(s[..used + 1]).value, 58), 256);
      if length + z > max {
        TooLong(s[..w], used + 1, z, max);
        return None, used;
      }
      used := used + 1;
    }
    RunUnique(s, NotSpace, used);
    ghost var n := Val(DigitsIn(s[..used]).value, 58);
    NumberDigits(b256[..], length, n, 256);
    r := Some(b256[size - length..]);
    assert r == DecodedDigits(s[..used], z, max) by { GoodDigits(s[..used], z, max); }
  }

  lemma GoodDigits(s: string, z: nat, max: nat)
    requires DigitsIn(s).Some? && z + |Digits(Val(DigitsIn(s).value, 58), 256)| <= max
    ensures DecodedDigits(s, z, max) == Some(Digits(Val(DigitsIn(s).value, 58), 256))
  {
  }

  method PushDigit(b256: array<nat>, length: nat, ghost s: string, ghost k: nat, carry: nat) returns (i: nat)
    requires k < |s| && b256.Length == |s| * 733 / 1000 + 1 && DigitsIn(s[..k]).Some?
    requires DigitsIn(s[..k + 1]) == Some(DigitsIn(s[..k]).value + [carry])
    requires HoldsNumber(b256[..], length, Val(DigitsIn(s[..k]).value, 58), 256)
    modifies b256
    ensures HoldsNumber(b256[..], i, Val(DigitsIn(s[..k + 1]).value, 58), 256)
  {
    hide Val, Power, HoldsNumber, DigitsIn;
    ghost var d := DigitsIn(s[..k]).value;
    DecodedFits(s, k + 1);
    ValLast(d, carry, 58);
    i := MultiplyAdd(b256, length, 58, carry, 256, Val(d, 58));
  }

  lemma NoDigits()
    ensures DigitsIn("") == Some([]) && Val([], 58) == 0
  {
  }

  lemma NextDigit(s: string, k: nat)
    requires k < |s| && DigitsIn(s[..k]).Some?
    ensures var m := MapBase58(s[k] as int);
            DigitsIn(s[..k + 1]) == if m < 0 then None else Some(DigitsIn(s[..k]).value + [m])
    ensures MapBase58(s[k] as int) >= -1
  {
    assert s[..k + 1][..k] == s[..k];
    MapIs(s[k] as int);
    hide MapBase58;
  }

  lemma DecodedFits(s: string, k: nat)
    requires k <= |s| && DigitsIn(s[..k]).Some?
    ensures Val(DigitsIn(s[..k]).value, 58) < Power(256, |s| * 733 / 1000 + 1)
  {
    hide Val, Power, DigitsIn;
    DigitsInOk(s[..k]);
    ValBound(DigitsIn(s[..k]).value, 58);
    PowerGrows(58, k, |s|);
    DecodeFits(|s|);
  }

  lemma TooManyZeros(s: string, z: nat, max: nat)
    requires z > max
    ensures DecodedDigits(s, z, max) == None
  {
  }

  method Decode(str: string, max: int) returns (r: Option<seq<nat>>)
    ensures r == Decoded(str, max)
  {
    hide DecodedDigits, IsSpace, Repeat, Run;
    if '\0' in str {
      return None;
    }
    var psz := Run(str, IsSpace);
    var s1 := str[psz..];
    var zeroes := 0;
    ghost var z := Run(s1, IsOne);
    while zeroes < |s1| && s1[zeroes] == '1'
      invariant 0 <= zeroes <= z && zeroes <= Limit(max)
    {
      zeroes := zeroes + 1;
      if zeroes > max {
        assert s1[z..] == str[Run(str, IsSpace)..][z..];
        TooManyZeros(s1[z..][..Run(s1[z..], NotSpace)], z, Limit(max));
        return None;
      }
    }
    RunUnique(s1, IsOne, zeroes);
    var s2 := s1[zeroes..];
    var rest, used := DecodeDigits(s2, zeroes, Limit(max));
    if rest == None {
      return None;
    }
    var t := s2[used..];
    if Run(t, IsSpace) != |t| {
      return None;
    }
    r := Some(Repeat(0, zeroes) + rest.value);
  }

  // ----- round trips -----

  // Neither white space nor a null character.
  predicate IsClean(c: char) {
    !IsSpace(c) && c != '\0'
  }

  lemma CharsClean(d: seq<nat>)
    requires AreDigits(d, 58)
    ensures |Chars(d)| == |d| && forall i :: 0 <= i < |d| ==> IsClean(Chars(d)[i])
    ensures d != [] && d[0] != 0 ==> Chars(d)[0] != '1'
  {
    hide BaseChar;
    forall i | 0 <= i < |d|
      ensures IsClean(Chars(d)[i]) && (Chars(d)[i] == '1' <==> d[i] == 0)
    {
      CharFacts(d[i]);
    }
  }

  lemma OnesClean(str: string, z: nat, w: string)
    requires str == Repeat('1', z) + w && (forall i :: 0 <= i < |w| ==> IsClean(w[i])) && (w != "" ==> w[0] != '1')
    ensures '\0' !in str && Run(str, IsSpace) == 0 && Run(str, IsOne) == z
    ensures str[z..] == w && Run(str[z..], NotSpace) == |str| - z
  {
    hide Run, Repeat;
    assert IsClean('1');
    assert forall i :: 0 <= i < |str| ==> IsClean(str[i]);
    assert str[z..] == w;
    hide IsSpace;
    RunUnique(str, IsSpace, 0);
    RunUnique(str, IsOne, z);
    RunUnique(w, NotSpace, |w|);
  }

  lemma EncodedClean(bytes: seq<nat>)
    ensures var z := LeadingZeros(bytes); var str := Encoded(bytes);
            && '\0' !in str && Run(str, IsSpace) == 0 && Run(str, IsOne) == z
            && Run(str[z..], NotSpace) == |str| - z
  {
    hide Val, Digits, Chars, Run, Repeat, LeadingZeros, IsClean, IsSpace;
    var z := LeadingZeros(bytes);
    var d := Digits(Val(bytes[z..], 256), 58);
    DigitsOk(Val(bytes[z..], 256), 58);
    CharsClean(d);
    OnesClean(Encoded(bytes), z, Chars(d));
  }

  /** Decoding inverts encoding, whenever the result is allowed to be that long. */
  lemma DecodeEncoded(bytes: seq<nat>, max: int)
    requires AreDigits(bytes, 256) && |bytes| <= Limit(max)
    ensures Decoded(Encoded(bytes), max) == Some(bytes)
  {
    hide Val, Digits, BaseChar, DigitsIn, IsSpace, Run, Repeat, LeadingZeros;
    var z := LeadingZeros(bytes);
    var rest, str := bytes[z..], Encoded(bytes);
    var n := Val(rest, 256);
    EncodedClean(bytes);
    DigitsOk(n, 58);
    assert str[0..] == str;
    assert str[z..] == Chars(Digits(n, 58));
    assert str[z..][..|str| - z] == str[z..] && str[z..][|str| - z..] == "";
    DigitsOfChars(Digits(n, 58));
    DigitsUnique(rest, 256);
    assert bytes == Repeat(0, z) + rest;
  }

  lemma EncodedOf(z: nat, d: seq<nat>)
    requires AreDigits(d, 58) && IsMinimal(d)
    ensures var bytes := Repeat(0, z) + Digits(Val(d, 58), 256);
            AreDigits(bytes, 256) && Encoded(bytes) == Repeat('1', z) + Chars(d)
  {
    hide Val, Digits, BaseChar, Repeat, LeadingZeros;
    DigitsUnique(d, 58);
    DigitsOk(Val(d, 58), 256);
    var rest := Digits(Val(d, 58), 256);
    var bytes := Repeat(0, z) + rest;
    ZerosUnique(bytes, z);
    assert bytes[z..] == rest;
  }

  lemma FirstDigit(s: string)
    requires DigitsIn(s).Some? && (s != "" ==> s[0] != '1')
    ensures AreDigits(DigitsIn(s).value, 58) && IsMinimal(DigitsIn(s).value) && Chars(DigitsIn(s).value) == s
  {
    hide DigitsIn, BaseChar;
    DigitsInOk(s);
    var d := DigitsIn(s).value;
    if s != "" {
      CharFacts(d[0]);
      assert Chars(d)[0] == s[0];
    }
  }

  // The text without the white space around it.
  function TrimEnd(s: string): (t: string)
    ensures t <= s && (t != "" ==> !IsSpace(t[|t| - 1])) && forall i :: |t| <= i < |s| ==> IsSpace(s[i])
  {
    if s != "" && IsSpace(s[|s| - 1]) then TrimEnd(s[..|s| - 1]) else s
  }

  function Trimmed(str: string): string {
    TrimEnd(str[Run(str, IsSpace)..])
  }

  lemma TrimUnique(s: string, k: nat)
    requires k <= |s| && (k > 0 ==> !IsSpace(s[k - 1])) && forall i :: k <= i < |s| ==> IsSpace(s[i])
    ensures TrimEnd(s) == s[..k]
  {
    hide IsSpace;
    var t := TrimEnd(s);
    if |t| < k {
      assert false;
    }
    if k < |t| {
      assert false;
    }
  }

  /** Encoding what was decoded gives the text back, without the white space around it. */
  lemma EncodeDecoded(str: string, max: int)
    requires Decoded(str, max).Some?
    ensures AreDigits(Decoded(str, max).value, 256) && |Decoded(str, max).value| <= Limit(max)
    ensures Encoded(Decoded(str, max).value) == Trimmed(str)
  {
    hide Val, Digits, DigitsIn, IsSpace, Run, Repeat, Encoded, Chars, TrimEnd;
    var s1 := str[Run(str, IsSpace)..];
    var z := Run(s1, IsOne);
    var s2 := s1[z..];
    var w := Run(s2, NotSpace);
    FirstDigit(s2[..w]);
    EncodedOf(z, DigitsIn(s2[..w]).value);
    assert s1[..z + w] == Repeat('1', z) + s2[..w];
    forall i | z + w <= i < |s1| ensures IsSpace(s1[i]) {
      assert s1[i] == s2[w..][i - z - w];
    }
    OneIsDigit();
    TrimUnique(s1, z + w);
  }

  lemma OneIsDigit()
    ensures !IsSpace('1')
  {
  }

  /** A text is decoded to some bytes exactly when, apart from white space around it, it is their encoding,
      and there are not too many of them. */
  lemma DecodedIff(str: string, max: int, bytes: seq<nat>)
    ensures Decoded(str, max) == Some(bytes) <==>
            '\0' !in str && AreDigits(bytes, 256) && (bytes == [] || |bytes| <= max) && Trimmed(str) == Encoded(bytes)
  {
    hide Val, Digits, DigitsIn, IsSpace, Run, Repeat, Encoded, Trimmed, Decoded;
    if Decoded(str, max) == Some(bytes) {
      EncodeDecoded(str, max);
      NoNull(str, max);
    } else if '\0' !in str && AreDigits(bytes, 256) && |bytes| <= Limit(max) && Trimmed(str) == Encoded(bytes) {
      DecodeSpaced(str, max, bytes);
      assert false;
    }
  }

  lemma NoNull(str: string, max: int)
    requires Decoded(str, max).Some?
    ensures '\0' !in str
  {
  }

  // White space after a text changes neither of its parts.
  lemma SpacedRuns(s: string, e: string, z: nat)
    requires e <= s && (forall i :: |e| <= i < |s| ==> IsSpace(s[i]))
    requires z <= |e| && Run(e, IsOne) == z && Run(e[z..], NotSpace) == |e| - z
    ensures Run(s, IsOne) == z
    ensures Run(s[z..], NotSpace) == |e| - z && s[z..][..|e| - z] == e[z..]
    ensures Run(s[z..][|e| - z..], IsSpace) == |s| - |e|
  {
    hide IsSpace, Run;
    OneIsDigit();
    RunUnique(s, IsOne, z);
    var s2, e2 := s[z..], e[z..];
    assert forall i :: 0 <= i < |e2| ==> s2[i] == e2[i];
    RunUnique(s2, NotSpace, |e2|);
    RunUnique(s2[|e2|..], IsSpace, |s| - |e|);
  }

  lemma DecodeSpaced(str: string, max: int, bytes: seq<nat>)
    requires '\0' !in str && AreDigits(bytes, 256) && |bytes| <= Limit(max) && Trimmed(str) == Encoded(bytes)
    ensures Decoded(str, max) == Some(bytes)
  {
    hide Val, Digits, DigitsIn, IsSpace, Run, Repeat, LeadingZeros, TrimEnd, Encoded, DecodedDigits;
    var e, z := Encoded(bytes), LeadingZeros(bytes);
    EncodedClean(bytes);
    DecodeEncoded(bytes, max);
    assert e[0..] == e;
    assert e[z..][..|e| - z] == e[z..];
    SpacedRuns(str[Run(str, IsSpace)..], e, z);
  }
}
