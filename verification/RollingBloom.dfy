/**
 CRollingBloomFilter of src/bloom.cpp: a Bloom filter whose positions carry, in two bits kept in separate
 words, the generation that last set them. When a generation number is about to be used again, the
 positions that still carry it are wiped.

 Main result: after any run of inserts the filter contains every key at most two generations back, that is
 the last two to three generations (LiveContained, LiveIff);
 what each position holds, and so what the filter contains, is characterised exactly (CellExact,
 ContainsExact).
 */
module RollingBloom {
  import opened ArithModel

  type Key = seq<nat>

  const RANGE: nat := 0x1_0000_0000

  // A position: a bit of a pair of words.
  datatype Cell = Cell(pair: nat, bit: bv6)

  datatype Params = Params(hash: (nat, nat, Key) -> nat, nHashFuncs: nat, size: nat, perGeneration: nat)
  {
    ghost predicate Valid() {
      size > 0 && size % 2 == 0 && perGeneration > 0
    }

    function Hash(n: nat, tweak: nat, key: Key): (h: nat)
      ensures h < RANGE
    {
      hash(n, tweak, key) % RANGE
    }
  }

  function FastMod(x: nat, n: nat): nat {
    x * n / RANGE
  }

  lemma FastModBelow(x: nat, n: nat)
    requires x < RANGE && n > 0
    ensures FastMod(x, n) < n
  {
    Monotone(x + 1, RANGE, n);
    Distrib(x, 1, n);
  }

  /** A 32-bit number is scaled down to n equal parts of its range. */
  lemma FastModIs(x: nat, n: nat, k: nat)
    ensures FastMod(x, n) == k <==> k * RANGE <= x * n < (k + 1) * RANGE
  {
    Distrib(k, 1, RANGE);
  }

  lemma EveryPosition(n: nat, pair: nat, bit: nat) returns (h: nat)
    requires n > 0 && n % 2 == 0 && n <= 0x800_0000 && pair < n / 2 && bit < 64
    ensures h < RANGE && FastMod(h, n) / 2 == pair && h % 64 == bit
  {
    var low, high := 2 * pair * RANGE, (2 * pair + 2) * RANGE;
    var start := FirstAtLeast(low, n);
    h := start + (bit - start) % 64;
    assert h % 64 == bit;
    Monotone(h, start + 63, n);
    Distrib(start, 63, n);
    assert low <= h * n by { Monotone(start, h, n); }
    assert h * n < high;
    Monotone(2 * pair + 2, n, RANGE);
    if h >= RANGE {
      Monotone(RANGE, h, n);
    }
    var k := FastMod(h, n);
    FastModIs(h, n, k);
    Between(k, pair, h * n);
  }

  // The first number whose product with n is at least low.
  lemma {:induction false} FirstAtLeast(low: nat, n: nat) returns (s: nat)
    requires n > 0
    ensures low <= s * n < low + n
  {
    hide Quo, Rem;
    QuoRem(low, n);
    var q := Quo(low, n);
    if Rem(low, n) == 0 {
      s := q;
    } else {
      s := q + 1;
      Distrib(q, 1, n);
    }
  }

  lemma Between(k: nat, pair: nat, x: nat)
    requires 2 * pair * RANGE <= x < (2 * pair + 2) * RANGE && k * RANGE <= x < (k + 1) * RANGE
    ensures k / 2 == pair
  {
    if k < 2 * pair {
      Monotone(k + 1, 2 * pair, RANGE);
    } else if k >= 2 * pair + 2 {
      Monotone(2 * pair + 2, k, RANGE);
    }
  }

  function CellOf(p: Params, tweak: nat, key: Key, n: nat): Cell {
    var h := p.Hash(n, tweak, key);
    Cell(FastMod(h, p.size) / 2, (h % 64) as bv6)
  }

  /** Every position of a filter of up to 1 GB can be hit: for each pair of words and each bit there is a hash that
      leads there. */
  lemma EveryCell(size: nat, c: Cell) returns (h: nat)
    requires size > 0 && size % 2 == 0 && size <= 0x800_0000 && c.pair < size / 2
    ensures h < RANGE
    ensures forall p: Params, tweak, key, n :: p.size == size && p.Hash(n, tweak, key) == h ==>
              CellOf(p, tweak, key, n) == c
  {
    hide FastMod, Params.Hash;
    h := EveryPosition(size, c.pair, c.bit as nat);
  }

  ghost predicate Hits(p: Params, tweak: nat, key: Key, k: nat, c: Cell) {
    exists n :: 0 <= n < k && CellOf(p, tweak, key, n) == c
  }

  // ----- the history -----

  // The generation number of the i-th insert since the reset.
  function Gen(e: nat, i: nat): nat
    requires e > 0
  {
    i / e % 3 + 1
  }

  /** What a position holds after inserting keys one after the other. */
  ghost function CellAt(p: Params, tweak: nat, keys: seq<Key>, c: Cell): nat
    requires p.Valid()
    decreases |keys|
  {
    if keys == [] then 0 else
    var m := |keys| - 1;
    var was := CellAt(p, tweak, keys[..m], c);
    if Hits(p, tweak, keys[m], p.nHashFuncs, c) then Gen(p.perGeneration, m)
    else if m > 0 && m % p.perGeneration == 0 && was == Gen(p.perGeneration, m) then 0
    else was
  }

  // The last insert that set a position, or -1.
  ghost function LastWrite(p: Params, tweak: nat, keys: seq<Key>, c: Cell): (i: int)
    ensures -1 <= i < |keys|
    decreases |keys|
  {
    if keys == [] then -1
    else if Hits(p, tweak, keys[|keys| - 1], p.nHashFuncs, c) then |keys| - 1
    else LastWrite(p, tweak, keys[..|keys| - 1], c)
  }

  // Whether the i-th of m inserts is at most two generations back.
  predicate IsLive(e: nat, i: int, m: nat)
    requires e > 0
  {
    i >= 0 && m > 0 && (m - 1) / e <= i / e + 2
  }

  lemma BlockNext(e: nat, m: nat)
    requires e > 0 && m > 0
    ensures m / e == if m % e == 0 then (m - 1) / e + 1 else (m - 1) / e
  {
    hide Quo, Rem;
    QuoRem(m, e);
    assert Quo(m, e) == m / e && Rem(m, e) == m % e by { Parted(m, e); }
    var q, r := Quo(m, e), Rem(m, e);
    if r == 0 {
      assert q > 0;
      Distrib(q - 1, 1, e);
      ModUnique(e - 1, q - 1, e);
    } else {
      ModUnique(r - 1, q, e);
    }
  }

  lemma Parted(m: nat, e: nat)
    requires e > 0
    ensures Quo(m, e) == m / e && Rem(m, e) == m % e
  {
  }

  lemma BlockOrder(e: nat, i: nat, j: nat)
    requires e > 0 && i <= j
    ensures i / e <= j / e
  {
    hide Quo, Rem;
    QuoRem(i, e);
    QuoRem(j, e);
    Parted(i, e);
    Parted(j, e);
    if Quo(i, e) > Quo(j, e) {
      Monotone(Quo(j, e) + 1, Quo(i, e), e);
      Distrib(Quo(j, e), 1, e);
    }
  }

  // A generation number is used again after exactly three generations.
  lemma Reused(b: nat, g: nat)
    requires b <= g <= b + 2
    ensures (g + 1) % 3 == b % 3 <==> g == b + 2
  {
  }

  // What one more insert, the m-th, means for a position last set by the i-th.
  lemma LiveNext(e: nat, i: nat, m: nat)
    requires e > 0 && i < m
    ensures m % e != 0 ==> IsLive(e, i, m + 1) == IsLive(e, i, m)
    ensures m % e == 0 ==> (IsLive(e, i, m + 1) <==> IsLive(e, i, m) && Gen(e, i) != Gen(e, m))
  {
    BlockNext(e, m);
    BlockOrder(e, i, m - 1);
    BlockReuse(i / e, (m - 1) / e, m / e);
  }

  lemma BlockReuse(b: nat, g: nat, h: nat)
    requires b <= g && (h == g || h == g + 1)
    ensures h == g + 1 ==> (h <= b + 2 <==> g <= b + 2 && b % 3 + 1 != h % 3 + 1)
  {
    if g <= b + 2 {
      Reused(b, g);
    }
  }

  lemma LiveBasics(e: nat, m: nat)
    requires e > 0
    ensures IsLive(e, m, m + 1) && !IsLive(e, -1, m) && Gen(e, m) > 0
  {
  }

  /** A position holds the generation of the insert that last set it, for as long as that insert is at most
      two generations back, and nothing afterwards. */
  lemma {:induction false} CellExact(p: Params, tweak: nat, keys: seq<Key>, c: Cell)
    requires p.Valid()
    ensures var i := LastWrite(p, tweak, keys, c);
            CellAt(p, tweak, keys, c) == if IsLive(p.perGeneration, i, |keys|) then Gen(p.perGeneration, i) else 0
    decreases |keys|
  {
    hide Hits, IsLive, Gen;
    var e := p.perGeneration;
    LiveBasics(e, |keys|);
    if keys != [] {
      var m := |keys| - 1;
      CellExact(p, tweak, keys[..m], c);
      LiveBasics(e, m);
      if !Hits(p, tweak, keys[m], p.nHashFuncs, c) {
        var i := LastWrite(p, tweak, keys[..m], c);
        if i >= 0 {
          LiveNext(e, i, m);
          LiveBasics(e, i);
        }
      }
    }
  }

  // ----- what is contained -----

  ghost predicate Contained(p: Params, tweak: nat, keys: seq<Key>, key: Key)
    requires p.Valid()
  {
    forall n :: 0 <= n < p.nHashFuncs ==> CellAt(p, tweak, keys, CellOf(p, tweak, key, n)) != 0
  }

  /** The filter contains exactly the keys all of whose positions were set by an insert at most two
      generations back. */
  lemma ContainsExact(p: Params, tweak: nat, keys: seq<Key>, key: Key)
    requires p.Valid()
    ensures Contained(p, tweak, keys, key) <==>
              forall n :: 0 <= n < p.nHashFuncs ==>
                IsLive(p.perGeneration, LastWrite(p, tweak, keys, CellOf(p, tweak, key, n)), |keys|)
  {
    hide CellAt, LastWrite, CellOf, IsLive;
    forall n | 0 <= n < p.nHashFuncs
      ensures CellAt(p, tweak, keys, CellOf(p, tweak, key, n)) != 0
         <==> IsLive(p.perGeneration, LastWrite(p, tweak, keys, CellOf(p, tweak, key, n)), |keys|)
    {
      CellExact(p, tweak, keys, CellOf(p, tweak, key, n));
    }
  }

  lemma {:induction false} LastWriteAfter(p: Params, tweak: nat, keys: seq<Key>, i: nat, n: nat)
    requires i < |keys| && n < p.nHashFuncs
    ensures LastWrite(p, tweak, keys, CellOf(p, tweak, keys[i], n)) >= i
    decreases |keys|
  {
    hide CellOf;
    var c := CellOf(p, tweak, keys[i], n);
    if i < |keys| - 1 {
      LastWriteAfter(p, tweak, keys[..|keys| - 1], i, n);
    } else {
      assert Hits(p, tweak, keys[i], p.nHashFuncs, c);
    }
  }

  // The number of inserts, of m in all, that are at most two generations back.
  function Window(e: nat, m: nat): nat
    requires e > 0 && m > 0
  {
    2 * e + 1 + (m - 1) % e
  }

  /** That is between two and three generations; older inserts no longer count. */
  lemma LiveIff(e: nat, i: nat, m: nat)
    requires e > 0 && i < m
    ensures IsLive(e, i, m) <==> i >= m - Window(e, m)
    ensures 2 * e < Window(e, m) <= 3 * e
  {
    hide Quo, Rem;
    QuoRem(i, e);
    QuoRem(m - 1, e);
    Parted(i, e);
    Parted(m - 1, e);
    var g, b := Quo(m - 1, e), Quo(i, e);
    Distrib(b, 2, e);
    if g <= b + 2 {
      Monotone(g, b + 2, e);
    } else {
      Monotone(b + 3, g, e);
      Distrib(b + 2, 1, e);
    }
  }

  /** Every inserted key that is at most two generations back is contained. */
  lemma LiveContained(p: Params, tweak: nat, keys: seq<Key>, i: nat)
    requires p.Valid() && i < |keys| && IsLive(p.perGeneration, i, |keys|)
    ensures Contained(p, tweak, keys, keys[i])
  {
    hide CellOf, LastWrite, CellAt;
    ContainsExact(p, tweak, keys, keys[i]);
    forall n | 0 <= n < p.nHashFuncs
      ensures IsLive(p.perGeneration, LastWrite(p, tweak, keys, CellOf(p, tweak, keys[i], n)), |keys|)
    {
      LastWriteAfter(p, tweak, keys, i, n);
      BlockOrder(p.perGeneration, i, LastWrite(p, tweak, keys, CellOf(p, tweak, keys[i], n)));
    }
  }

  /** So the last two to three generations of inserted keys are contained, depending on how far the current
      one is filled; in particular always the last two. */
  lemma RecentContained(p: Params, tweak: nat, keys: seq<Key>, i: nat)
    requires p.Valid() && i < |keys| && i >= |keys| - Window(p.perGeneration, |keys|)
    ensures Contained(p, tweak, keys, keys[i])
  {
    hide Contained, IsLive, Window;
    LiveIff(p.perGeneration, i, |keys|);
    LiveContained(p, tweak, keys, i);
  }

  /** A filter made for nElements contains the last nElements keys, and once the current generation is
      full the last 1.5 * nElements. */
  lemma LastElementsContained(p: Params, tweak: nat, keys: seq<Key>, nElements: nat, i: nat)
    requires p.Valid() && p.perGeneration == (nElements + 1) / 2 && i < |keys|
    requires i >= |keys| - nElements || (|keys| % p.perGeneration == 0 && 2 * i >= 2 * |keys| - 3 * nElements)
    ensures Contained(p, tweak, keys, keys[i])
  {
    hide Contained, Quo, Rem;
    LiveIff(p.perGeneration, i, |keys|);
    if |keys| % p.perGeneration == 0 {
      FullGeneration(p.perGeneration, |keys|);
    }
    RecentContained(p, tweak, keys, i);
  }

  lemma FullGeneration(e: nat, m: nat)
    requires e > 0 && m > 0 && m % e == 0
    ensures (m - 1) % e == e - 1
  {
    hide Quo, Rem;
    QuoRem(m, e);
    Parted(m, e);
    assert Quo(m, e) > 0;
    Distrib(Quo(m, e) - 1, 1, e);
    ModUnique(e - 1, Quo(m, e) - 1, e);
  }

  // ----- bits of words -----

  predicate Bit(w: bv64, b: bv6) {
    (w >> b) & 1 == 1
  }

  function AndWord(v: bv64, w: bv64): bv64 {
    v & w
  }

  function OrWord(v: bv64, w: bv64): bv64 {
    v | w
  }

  function XorWord(v: bv64, w: bv64): bv64 {
    v ^ w
  }

  function NotWord(w: bv64): bv64 {
    !w
  }

  function ShiftWord(g: bv64, b: bv6): bv64 {
    g << b
  }

  lemma AndBit(v: bv64, w: bv64, b: bv6)
    ensures Bit(AndWord(v, w), b) == (Bit(v, b) && Bit(w, b))
  {
    hide Bit;
    RawAndBit(v, w, b);
  }

  lemma RawAndBit(v: bv64, w: bv64, b: bv6)
    ensures Bit(v & w, b) == (Bit(v, b) && Bit(w, b))
  {
  }

  lemma OrBit(v: bv64, w: bv64, b: bv6)
    ensures Bit(OrWord(v, w), b) == (Bit(v, b) || Bit(w, b))
  {
    hide Bit;
    RawOrBit(v, w, b);
  }

  lemma RawOrBit(v: bv64, w: bv64, b: bv6)
    ensures Bit(v | w, b) == (Bit(v, b) || Bit(w, b))
  {
  }

  lemma XorBit(v: bv64, w: bv64, b: bv6)
    ensures Bit(XorWord(v, w), b) == (Bit(v, b) != Bit(w, b))
  {
    hide Bit;
    RawXorBit(v, w, b);
  }

  lemma RawXorBit(v: bv64, w: bv64, b: bv6)
    ensures Bit(v ^ w, b) == (Bit(v, b) != Bit(w, b))
  {
  }

  lemma NotBit(w: bv64, b: bv6)
    ensures Bit(NotWord(w), b) == !Bit(w, b)
  {
  }

  lemma ShiftBit(g: bv64, b: bv6, c: bv6)
    requires g <= 1
    ensures Bit(ShiftWord(g, b), c) == (b == c && g == 1)
  {
  }

  lemma FullBit(b: bv6)
    ensures Bit(0xffffffffffffffff, b) && !Bit(0, b)
  {
  }

  // A word with one bit replaced.
  function Put(w: bv64, b: bv6, g: bv64): bv64 {
    OrWord(AndWord(w, NotWord(ShiftWord(1, b))), ShiftWord(g, b))
  }

  lemma PutBit(w: bv64, b: bv6, c: bv6, g: bv64)
    requires g <= 1
    ensures Bit(Put(w, b, g), c) == if b == c then g == 1 else Bit(w, c)
  {
    hide Bit, AndWord, OrWord, NotWord, ShiftWord;
    ShiftBit(1, b, c);
    ShiftBit(g, b, c);
    NotBit(ShiftWord(1, b), c);
    AndBit(w, NotWord(ShiftWord(1, b)), c);
    OrBit(AndWord(w, NotWord(ShiftWord(1, b))), ShiftWord(g, b), c);
  }

  // The positions of a pair of words that do not hold the generation of the masks.
  function KeepMask(p1: bv64, p2: bv64, m1: bv64, m2: bv64): bv64 {
    OrWord(XorWord(p1, m1), XorWord(p2, m2))
  }

  // After the wipe: positions with the generation of the masks are clear, the others unchanged.
  lemma WipeBits(p1: bv64, p2: bv64, m1: bv64, m2: bv64, b: bv6)
    ensures var keep := KeepMask(p1, p2, m1, m2);
            var wiped := Bit(p1, b) == Bit(m1, b) && Bit(p2, b) == Bit(m2, b);
            Bit(AndWord(p1, keep), b) == (Bit(p1, b) && !wiped) && Bit(AndWord(p2, keep), b) == (Bit(p2, b) && !wiped)
  {
    hide Bit, AndWord, OrWord, XorWord;
    var keep := KeepMask(p1, p2, m1, m2);
    XorBit(p1, m1, b);
    XorBit(p2, m2, b);
    OrBit(XorWord(p1, m1), XorWord(p2, m2), b);
    AndBit(p1, keep, b);
    AndBit(p2, keep, b);
  }

  // The number two bits stand for.
  function Level(low: bool, high: bool): nat {
    (if low then 1 else 0) + (if high then 2 else 0)
  }

  function Mask(on: bool): bv64 {
    if on then 0xffffffffffffffff else 0
  }

  lemma WipeLevel(p1: bv64, p2: bv64, g: nat, b: bv6)
    requires 1 <= g <= 3
    ensures var keep := KeepMask(p1, p2, Mask(g % 2 == 1), Mask(g / 2 == 1));
            var was := Level(Bit(p1, b), Bit(p2, b));
            Level(Bit(AndWord(p1, keep), b), Bit(AndWord(p2, keep), b)) == if was == g then 0 else was
  {
    hide Bit, KeepMask, AndWord;
    WipeBits(p1, p2, Mask(g % 2 == 1), Mask(g / 2 == 1), b);
    FullBit(b);
  }

  // ----- the filter -----

  class RollingBloomFilter {
    const p: Params
    const data: array<bv64>
    var nEntriesThisGeneration: nat
    var nGeneration: nat
    var nTweak: nat
    ghost var keys: seq<Key>   // inserted since the last reset

    // What a position holds.
    ghost function Holds(c: Cell): nat
      requires c.pair * 2 + 1 < data.Length
      reads data
    {
      Level(Bit(data[c.pair * 2], c.bit), Bit(data[c.pair * 2 + 1], c.bit))
    }

    ghost predicate Valid()
      reads this, data
    {
      && p.Valid() && data.Length == p.size
      && (forall c: Cell :: c.pair * 2 + 1 < data.Length ==> Holds(c) == CellAt(p, nTweak, keys, c))
      && (if keys == [] then nEntriesThisGeneration == 0 && nGeneration == 1
          else
            && nGeneration == Gen(p.perGeneration, |keys| - 1)
            && nEntriesThisGeneration == (|keys| - 1) % p.perGeneration + 1)
    }

    constructor (p: Params, tweak: nat)
      requires p.Valid()
      ensures Valid() && keys == [] && this.p == p && fresh(data)
    {
      this.p := p;
      data := new bv64[p.size](_ => 0);
      nEntriesThisGeneration, nGeneration, nTweak, keys := 0, 1, tweak, [];
      new;
      Cleared();
    }

    lemma Cleared()
      requires data.Length == p.size && forall i :: 0 <= i < data.Length ==> data[i] == 0
      ensures forall c: Cell :: c.pair * 2 + 1 < data.Length ==> Holds(c) == 0
    {
      hide Bit;
      forall c: Cell | c.pair * 2 + 1 < data.Length
        ensures Holds(c) == 0
      {
        FullBit(c.bit);
      }
    }

    method Reset(tweak: nat)
      requires p.Valid() && data.Length == p.size
      modifies this, data
      ensures Valid() && keys == []
    {
      nTweak := tweak;
      nEntriesThisGeneration := 0;
      nGeneration := 1;
      for i := 0 to data.Length
        invariant forall j :: 0 <= j < i ==> data[j] == 0
        modifies data
      {
        data[i] := 0;
      }
      keys := [];
      Cleared();
    }

    // Clear the positions that hold generation g.
    method Wipe(g: nat)
      requires p.Valid() && data.Length == p.size && 1 <= g <= 3
      modifies data
      ensures forall c: Cell :: c.pair * 2 + 1 < data.Length ==>
              Holds(c) == if old(Holds(c)) == g then 0 else old(Holds(c))
    {
      hide Bit, AndWord, KeepMask, Level, Mask;
      var mask1, mask2 := Mask(g % 2 == 1), Mask(g / 2 == 1);
      var i := 0;
      while i < data.Length
        invariant 0 <= i <= data.Length && i % 2 == 0
        invariant forall j :: i <= j < data.Length ==> data[j] == old(data[j])
        invariant forall c: Cell :: c.pair * 2 < i ==> Holds(c) == if old(Holds(c)) == g then 0 else old(Holds(c))
      {
        WipePair(i, g, mask1, mask2);
        forall c: Cell | c.pair * 2 < i + 2
          ensures Holds(c) == if old(Holds(c)) == g then 0 else old(Holds(c))
        {
          if c.pair * 2 >= i {
            assert c.pair * 2 == i;
          }
        }
        i := i + 2;
      }
    }

    method WipePair(i: nat, g: nat, mask1: bv64, mask2: bv64)
      requires p.Valid() && data.Length == p.size && 1 <= g <= 3 && i % 2 == 0 && i < data.Length
      requires mask1 == Mask(g % 2 == 1) && mask2 == Mask(g / 2 == 1)
      modifies data
      ensures forall j :: 0 <= j < data.Length && j != i && j != i + 1 ==> data[j] == old(data[j])
      ensures forall c: Cell :: c.pair * 2 == i ==> Holds(c) == if old(Holds(c)) == g then 0 else old(Holds(c))
    {
      hide Bit, AndWord, KeepMask, Level, Mask;
      var p1, p2 := data[i], data[i + 1];
      var mask := KeepMask(p1, p2, mask1, mask2);
      data[i] := AndWord(p1, mask);
      data[i + 1] := AndWord(p2, mask);
      forall c: Cell | c.pair * 2 == i
        ensures Holds(c) == if old(Holds(c)) == g then 0 else old(Holds(c))
      {
        WipeLevel(p1, p2, g, c.bit);
      }
    }

    // Set the positions of a key to the current generation.
    method Mark(key: Key)
      requires p.Valid() && data.Length == p.size && 1 <= nGeneration <= 3
      modifies data
      ensures forall c: Cell :: c.pair * 2 + 1 < data.Length ==>
                Holds(c) == if Hits(p, nTweak, key, p.nHashFuncs, c) then nGeneration else old(Holds(c))
    {
      hide Bit, Put, FastMod;
      for n := 0 to p.nHashFuncs
        invariant forall c: Cell :: c.pair * 2 + 1 < data.Length ==>
                    Holds(c) == if Hits(p, nTweak, key, n, c) then nGeneration else old(Holds(c))
      {
        var h := p.Hash(n, nTweak, key);
        var bit := (h % 64) as bv6;
        FastModBelow(h, p.size);
        var pos := FastMod(h, p.size);
        MarkOne(pos, bit, key, n);
      }
    }

    method MarkOne(pos: nat, bit: bv6, ghost key: Key, ghost n: nat)
      requires p.Valid() && data.Length == p.size && 1 <= nGeneration <= 3 && pos < p.size
      requires CellOf(p, nTweak, key, n) == Cell(pos / 2, bit)
      modifies data
      ensures forall c: Cell :: c.pair * 2 + 1 < data.Length ==>
                Holds(c) == if c == Cell(pos / 2, bit) then nGeneration else old(Holds(c))
    {
      hide Bit, Put, CellOf;
      var g1: bv64, g2: bv64 := if nGeneration % 2 == 1 then 1 else 0, if nGeneration / 2 == 1 then 1 else 0;
      var even := pos - pos % 2;
      ghost var w1, w2 := data[even], data[even + 1];
      data[even] := Put(data[even], bit, g1);
      data[even + 1] := Put(data[even + 1], bit, g2);
      forall c: Cell | c.pair * 2 + 1 < data.Length
        ensures Holds(c) == if c == Cell(pos / 2, bit) then nGeneration else old(Holds(c))
      {
        PutBit(w1, bit, c.bit, g1);
        PutBit(w2, bit, c.bit, g2);
      }
    }

    method Insert(key: Key)
      requires Valid()
      modifies this, data
      ensures Valid() && keys == old(keys) + [key] && nTweak == old(nTweak)
    {
      hide Bit, Hits, CellAt, Gen;
      ghost var m := |keys|;
      if nEntriesThisGeneration == p.perGeneration {
        nEntriesThisGeneration := 0;
        nGeneration := nGeneration + 1;
        if nGeneration == 4 {
          nGeneration := 1;
        }
        GenNext(p.perGeneration, m);
        Wipe(nGeneration);
      } else {
        GenNext(p.perGeneration, m);
      }
      nEntriesThisGeneration := nEntriesThisGeneration + 1;
      Mark(key);
      keys := keys + [key];
      CellsNext(p, nTweak, old(keys), key);
    }

    method Contains(key: Key) returns (r: bool)
      requires Valid()
      ensures r == Contained(p, nTweak, keys, key)
    {
      hide Bit, CellAt, FastMod, OrWord;
      for n := 0 to p.nHashFuncs
        invariant forall j :: 0 <= j < n ==> CellAt(p, nTweak, keys, CellOf(p, nTweak, key, j)) != 0
      {
        var h := p.Hash(n, nTweak, key);
        var bit := (h % 64) as bv6;
        FastModBelow(h, p.size);
        var pos := FastMod(h, p.size);
        var even := pos - pos % 2;
        ghost var c := CellOf(p, nTweak, key, n);
        OrBit(data[even], data[even + 1], bit);
        assert c == Cell(even / 2, bit) && even / 2 * 2 == even;
        assert Holds(c) == CellAt(p, nTweak, keys, c);
        if !Bit(OrWord(data[even], data[even + 1]), bit) {
          return false;
        }
      }
      r := true;
    }
  }

  // ----- one more insert -----

  lemma GenNext(e: nat, m: nat)
    requires e > 0
    ensures m == 0 ==> Gen(e, 0) == 1
    ensures m > 0 ==> ((m - 1) % e + 1 == e <==> m % e == 0) && (m % e != 0 ==> m % e == (m - 1) % e + 1)
    ensures m > 0 && m % e == 0 ==> Gen(e, m) == if Gen(e, m - 1) == 3 then 1 else Gen(e, m - 1) + 1
    ensures m > 0 && m % e != 0 ==> Gen(e, m) == Gen(e, m - 1)
    ensures 1 <= Gen(e, m) <= 3
  {
    if m == 0 {
      ModUnique(0, 0, e);
    } else {
      BlockNext(e, m);
      RemNext(e, m);
    }
  }

  lemma RemNext(e: nat, m: nat)
    requires e > 0 && m > 0
    ensures m % e == if (m - 1) % e + 1 == e then 0 else (m - 1) % e + 1
  {
    hide Quo, Rem;
    QuoRem(m - 1, e);
    Parted(m - 1, e);
    var q, r := Quo(m - 1, e), Rem(m - 1, e);
    if r + 1 == e {
      Distrib(q, 1, e);
      ModUnique(0, q + 1, e);
    } else {
      ModUnique(r + 1, q, e);
    }
  }

  lemma CellsNext(p: Params, tweak: nat, keys: seq<Key>, key: Key)
    requires p.Valid()
    ensures forall c :: CellAt(p, tweak, keys + [key], c)
              == if Hits(p, tweak, key, p.nHashFuncs, c) then Gen(p.perGeneration, |keys|)
                 else if |keys| > 0 && |keys| % p.perGeneration == 0
                   && CellAt(p, tweak, keys, c) == Gen(p.perGeneration, |keys|) then 0
                 else CellAt(p, tweak, keys, c)
  {
    hide Hits, Gen;
    assert (keys + [key])[..|keys|] == keys;
  }
}
