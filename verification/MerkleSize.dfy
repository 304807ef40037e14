/**
 The size of an encoded partial Merkle tree. The comment that describes the format in src/merkleblock.h
 promises three bounds in terms of the number N of stored hashes. The two on N hold; the one on the flag
 bits and the one on the bytes do not, and this module says exactly when they do.

 Main results: FlagBitsExact (the number of flag bits, and when it is at most 2 * N - 1),
 FlagBitsForAllMasks (the bound holds for every mask exactly for powers of two), WireSizeExact and
 WireSizeIff (the number of bytes, and when it is within the promised one), EncodingBounds.
 */
module MerkleSize {
  import opened MerkleModel

  // ----- flag bits -----

  // The last node of a level, the only one that can have a single child.
  function Last(n: nat, height: nat): nat
    requires n > 0
  {
    WidthPositive(n, height);
    Width(n, height) - 1
  }

  // The last node at this height is traversed by the encoder and has a single child.
  predicate SingleChild(n: nat, mask: seq<bool>, height: nat)
    requires n > 0 && height > 0
  {
    Width(n, height - 1) % 2 == 1 && ParentOfMatch(mask, height, Last(n, height))
  }

  // The number of such nodes up to a height.
  function Singles(n: nat, mask: seq<bool>, height: nat): (s: nat)
    requires n > 0
    ensures s <= height
  {
    if height == 0 || !ParentOfMatch(mask, height, Last(n, height)) then 0
    else Singles(n, mask, height - 1) + Width(n, height - 1) % 2
  }

  // One bit more than hashes for each pair of children, and one for each single child.
  lemma {:induction false} BuildBits(t: Tree, mask: seq<bool>, height: nat, pos: nat)
    requires |mask| == |t.txids| > 0 && t.HasNode(height, pos)
    ensures var d := Build(t, mask, height, pos);
            |d.bits| == 2 * |d.hashes| - 1 +
                        if pos == Last(|t.txids|, height) then Singles(|t.txids|, mask, height) else 0
    decreases height
  {
    hide Width, First, Pow2, Build, ParentOfMatch;
    if height == 0 || !ParentOfMatch(mask, height, pos) {
      BuildStored(t, mask, height, pos);
    } else {
      var _, _ := BuildInner(t, mask, height, pos);
      ChildrenInside(|t.txids|, height, pos);
      WidthHalves(|t.txids|, height);
      BuildBits(t, mask, height - 1, 2 * pos);
      if t.HasNode(height - 1, 2 * pos + 1) {
        BuildBits(t, mask, height - 1, 2 * pos + 1);
      }
    }
  }

  // A match below the last node of a level is below the last node of the next level.
  lemma LastNests(n: nat, mask: seq<bool>, height: nat)
    requires n > 0 && height > 0 && ParentOfMatch(mask, height - 1, Last(n, height - 1))
    ensures ParentOfMatch(mask, height, Last(n, height))
  {
    hide Width, First, Pow2;
    var pos := Last(n, height);
    WidthHalves(n, height);
    LeavesSplit(height, pos);
    assert Last(n, height - 1) == 2 * pos || Last(n, height - 1) == 2 * pos + 1;
    var i :| First(height - 1, Last(n, height - 1)) <= i < First(height - 1, Last(n, height - 1) + 1)
             && i < |mask| && mask[i];
    assert First(height, pos) <= i < First(height, pos + 1);
  }

  lemma {:induction false} LastNestsUp(n: nat, mask: seq<bool>, low: nat, height: nat)
    requires n > 0 && low <= height && ParentOfMatch(mask, low, Last(n, low))
    ensures ParentOfMatch(mask, height, Last(n, height))
    decreases height
  {
    hide ParentOfMatch, Last;
    if low < height {
      LastNestsUp(n, mask, low, height - 1);
      LastNests(n, mask, height);
    }
  }

  lemma {:induction false} SinglesZero(n: nat, mask: seq<bool>, height: nat)
    requires n > 0
    ensures Singles(n, mask, height) == 0 <==> forall h :: 0 < h <= height ==> !SingleChild(n, mask, h)
  {
    hide ParentOfMatch, Last, Width;
    if height > 0 {
      SinglesZero(n, mask, height - 1);
      if ParentOfMatch(mask, height, Last(n, height)) {
        assert SingleChild(n, mask, height) <==> Width(n, height - 1) % 2 == 1;
      } else {
        forall h | 0 < h <= height ensures !SingleChild(n, mask, h) {
          if SingleChild(n, mask, h) {
            LastNestsUp(n, mask, h, height);
          }
        }
      }
    }
  }

  /** The exact number of flag bits for N hashes: 2 * N - 1 and one more for each node with a single
      child that lies above a match. So the documented limit of 2 * N - 1 holds exactly when there is no
      such node. */
  lemma FlagBitsExact(t: Tree, mask: seq<bool>)
    requires |mask| == |t.txids| > 0
    ensures var d, h := Encode(t, mask), TreeHeight(|t.txids|);
            && |d.bits| == 2 * |d.hashes| - 1 + Singles(|t.txids|, mask, h)
            && (|d.bits| <= 2 * |d.hashes| - 1 <==> forall k :: 0 < k <= h ==> !SingleChild(|t.txids|, mask, k))
  {
    hide Width, Build, SingleChild, Singles;
    var n, h := |t.txids|, TreeHeight(|t.txids|);
    WidthPositive(n, h);
    BuildBits(t, mask, h, 0);
    SinglesZero(n, mask, h);
  }

  // ----- which numbers of transactions are safe -----

  function AllTrue(n: nat): seq<bool> {
    seq(n, _ => true)
  }

  lemma EveryNodeMatched(n: nat, height: nat, pos: nat)
    requires pos < Width(n, height)
    ensures ParentOfMatch(AllTrue(n), height, pos)
  {
    hide Width, Pow2;
    NodeHasLeaf(n, height, pos);
    FirstGrows(height, pos);
    assert AllTrue(n)[First(height, pos)];
  }

  lemma {:induction false} EvenWidths(n: nat, height: nat)
    requires forall h :: 0 <= h < height ==> Width(n, h) % 2 == 0
    ensures n == Width(n, height) * Pow2(height)
  {
    hide Width;
    if height == 0 {
      WidthZero(n);
    } else {
      EvenWidths(n, height - 1);
      WidthHalves(n, height);
      var w, p := Width(n, height), Pow2(height - 1);
      assert Width(n, height - 1) == 2 * w;
      assert 2 * w * p == w * (2 * p);
    }
  }

  lemma {:induction false} PowerWidths(k: nat, height: nat)
    requires height <= k
    ensures Width(Pow2(k), height) == Pow2(k - height)
  {
    hide Width;
    if height == 0 {
      WidthZero(Pow2(k));
    } else {
      PowerWidths(k, height - 1);
      WidthHalves(Pow2(k), height);
    }
  }

  ghost predicate IsPowerOfTwo(n: nat) {
    exists k: nat :: n == Pow2(k)
  }

  lemma PowerSafe(n: nat, mask: seq<bool>)
    requires n > 0 && IsPowerOfTwo(n)
    ensures Singles(n, mask, TreeHeight(n)) == 0
  {
    hide Width, ParentOfMatch, HeightFrom;
    var k: nat :| n == Pow2(k);
    PowerWidths(k, k);
    assert TreeHeight(n) <= k;
    forall h | 0 < h <= TreeHeight(n) ensures !SingleChild(n, mask, h) {
      PowerWidths(k, h - 1);
    }
    SinglesZero(n, mask, TreeHeight(n));
  }

  lemma OtherUnsafe(n: nat)
    requires n > 0 && !IsPowerOfTwo(n)
    ensures Singles(n, AllTrue(n), TreeHeight(n)) > 0
  {
    hide Width, ParentOfMatch, HeightFrom, Singles;
    var top := TreeHeight(n);
    WidthPositive(n, top);
    if forall h :: 0 <= h < top ==> Width(n, h) % 2 == 0 {
      EvenWidths(n, top);
      assert false;
    }
    var h :| 0 <= h < top && Width(n, h) % 2 == 1;
    EveryNodeMatched(n, h + 1, Last(n, h + 1));
    assert SingleChild(n, AllTrue(n), h + 1);
    SinglesZero(n, AllTrue(n), top);
  }

  predicate WithinFlagBound(t: Tree, mask: seq<bool>)
    requires |mask| == |t.txids| > 0
  {
    |Encode(t, mask).bits| <= 2 * |Encode(t, mask).hashes| - 1
  }

  /** The documented limit on the flag bits holds whatever is matched exactly when the number of
      transactions is a power of two. */
  lemma FlagBitsForAllMasks(t: Tree)
    requires |t.txids| > 0
    ensures (forall mask: seq<bool> :: |mask| == |t.txids| ==> WithinFlagBound(t, mask))
       <==> IsPowerOfTwo(|t.txids|)
  {
    hide Encode, Singles, IsPowerOfTwo;
    var n := |t.txids|;
    forall mask: seq<bool> | |mask| == n
      ensures WithinFlagBound(t, mask) <==> Singles(n, mask, TreeHeight(n)) == 0
    {
      FlagBitsExact(t, mask);
    }
    if IsPowerOfTwo(n) {
      forall mask: seq<bool> | |mask| == n ensures WithinFlagBound(t, mask) {
        PowerSafe(n, mask);
      }
    } else {
      OtherUnsafe(n);
      assert !WithinFlagBound(t, AllTrue(n));
    }
  }

  /** The smallest block that exceeds it: three transactions with only the last one matched take 4 bits
      for 2 hashes, whatever the hash function and the txids. */
  lemma ThreeLeavesExceed(t: Tree)
    requires |t.txids| == 3
    ensures var d := Encode(t, [false, false, true]);
            |d.hashes| == 2 && |d.bits| == 4 > 2 * |d.hashes| - 1
  {
    hide Width, First, Pow2, Build, HeightFrom, ParentOfMatch;
    var mask := [false, false, true];
    WidthZero(3);
    WidthHalves(3, 1);
    WidthHalves(3, 2);
    assert TreeHeight(3) == 2;
    ThreeLeaves(mask);
    var _, r := BuildInner(t, mask, 2, 0);
    var _, _ := BuildInner(t, mask, 1, 1);
    BuildStored(t, mask, 1, 0);
    BuildStored(t, mask, 0, 2);
    FlagBitsExact(t, mask);
    assert Singles(3, mask, 2) == 1;
  }

  lemma ThreeLeaves(mask: seq<bool>)
    requires mask == [false, false, true]
    ensures ParentOfMatch(mask, 2, 0) && !ParentOfMatch(mask, 1, 0) && ParentOfMatch(mask, 1, 1)
  {
    assert Pow2(1) == 2 && Pow2(2) == 4;
    assert mask[2];
  }

  // ----- hashes -----

  function CountMatches(mask: seq<bool>, lo: nat, hi: nat): (c: nat)
    ensures lo <= hi ==> c <= hi - lo
    decreases hi
  {
    if hi <= lo || hi == 0 then 0
    else CountMatches(mask, lo, hi - 1) + if hi <= |mask| && mask[hi - 1] then 1 else 0
  }

  lemma {:induction false} CountSplit(mask: seq<bool>, lo: nat, mid: nat, hi: nat)
    requires lo <= mid <= hi
    ensures CountMatches(mask, lo, hi) == CountMatches(mask, lo, mid) + CountMatches(mask, mid, hi)
    decreases hi
  {
    if mid < hi {
      CountSplit(mask, lo, mid, hi - 1);
    }
  }

  lemma {:induction false} CountPositive(mask: seq<bool>, lo: nat, hi: nat)
    requires AnyMatch(mask, lo, hi)
    ensures CountMatches(mask, lo, hi) >= 1
    decreases hi
  {
    var i :| lo <= i < hi && i < |mask| && mask[i];
    if i < hi - 1 {
      CountPositive(mask, lo, hi - 1);
    }
  }

  lemma {:induction false} CountBeyond(mask: seq<bool>, lo: nat, hi: nat)
    requires lo >= |mask|
    ensures CountMatches(mask, lo, hi) == 0
    decreases hi
  {
    if lo < hi {
      CountBeyond(mask, lo, hi - 1);
    }
  }

  lemma SomeMatch(mask: seq<bool>, height: nat, pos: nat)
    requires ParentOfMatch(mask, height, pos)
    ensures CountMatches(mask, First(height, pos), First(height, pos + 1)) >= 1
  {
    CountPositive(mask, First(height, pos), First(height, pos + 1));
  }

  lemma HashesAdd(ml: nat, mr: nat, height: nat, nl: nat, nr: nat)
    requires height > 0 && ml + mr >= 1
    requires nl <= 1 + ml * (height - 1) && nr <= 1 + mr * (height - 1)
    ensures nl + nr <= 1 + (ml + mr) * height
  {
    assert (ml + mr) * height == ml * (height - 1) + mr * (height - 1) + ml + mr;
  }

  lemma {:induction false} BuildHashesPerMatch(t: Tree, mask: seq<bool>, height: nat, pos: nat)
    requires |mask| == |t.txids| && t.HasNode(height, pos)
    ensures |Build(t, mask, height, pos).hashes| <=
            1 + CountMatches(mask, First(height, pos), First(height, pos + 1)) * height
    decreases height
  {
    hide Width, First, Pow2, Build, CountMatches, ParentOfMatch;
    var lo, hi := First(height, pos), First(height, pos + 1);
    if height == 0 || !ParentOfMatch(mask, height, pos) {
      BuildStored(t, mask, height, pos);
      assert CountMatches(mask, lo, hi) * height >= 0;
    } else {
      var l, r := BuildInner(t, mask, height, pos);
      LeavesSplit(height, pos);
      var mid := First(height - 1, 2 * pos + 1);
      SomeMatch(mask, height, pos);
      CountSplit(mask, lo, mid, hi);
      BuildHashesPerMatch(t, mask, height - 1, 2 * pos);
      if t.HasNode(height - 1, 2 * pos + 1) {
        BuildHashesPerMatch(t, mask, height - 1, 2 * pos + 1);
      }
      HashesAdd(CountMatches(mask, lo, mid), CountMatches(mask, mid, hi), height, |l.hashes|, |r.hashes|);
    }
  }

  /** The number N of hashes is at most the number of transactions and at most 1 + matched * height, as
      documented; the number of flag bits is at most 2 * N - 1 + height. */
  lemma EncodingBounds(t: Tree, mask: seq<bool>)
    requires |mask| == |t.txids| > 0
    ensures var d, h := Encode(t, mask), TreeHeight(|t.txids|);
            && |d.hashes| <= |t.txids|
            && |d.hashes| <= 1 + CountMatches(mask, 0, |t.txids|) * h
            && |d.bits| <= 2 * |d.hashes| - 1 + h
  {
    hide Width, Pow2, Build, Singles;
    var n, h := |t.txids|, TreeHeight(|t.txids|);
    WidthPositive(n, h);
    BuildHashes(t, mask, h, 0);
    BuildHashesPerMatch(t, mask, h, 0);
    FlagBitsExact(t, mask);
    RootCoversAll(t);
    CountSplit(mask, 0, n, First(h, 1));
    CountBeyond(mask, n, First(h, 1));
  }

  // With everything matched all txids are stored.
  lemma {:induction false} BuildAll(t: Tree, height: nat, pos: nat)
    requires t.HasNode(height, pos)
    ensures |Build(t, AllTrue(|t.txids|), height, pos).hashes| == LeafCount(|t.txids|, height, pos)
    decreases height
  {
    hide Width, First, Pow2, Build, ParentOfMatch;
    var n := |t.txids|;
    EveryNodeMatched(n, height, pos);
    NodeHasLeaf(n, height, pos);
    FirstGrows(height, pos);
    if height == 0 {
      FirstZero(pos);
      BuildStored(t, AllTrue(n), 0, pos);
    } else {
      var _, _ := BuildInner(t, AllTrue(n), height, pos);
      LeavesSplit(height, pos);
      BuildAll(t, height - 1, 2 * pos);
      NodeHasLeaf(n, height - 1, 2 * pos + 1);
      if t.HasNode(height - 1, 2 * pos + 1) {
        BuildAll(t, height - 1, 2 * pos + 1);
      }
    }
  }

  lemma EncodeAll(t: Tree)
    requires |t.txids| > 0
    ensures |Encode(t, AllTrue(|t.txids|)).hashes| == |t.txids|
  {
    hide Width, Build;
    var h := TreeHeight(|t.txids|);
    WidthPositive(|t.txids|, h);
    BuildAll(t, h, 0);
    RootCoversAll(t);
  }

  // ----- bytes on the wire -----

  // GetSizeOfCompactSize: the bytes of a length prefix.
  function CompactSize(n: nat): nat {
    if n < 253 then 1 else if n <= 0xFFFF then 3 else if n <= 0xFFFF_FFFF then 5 else 9
  }

  // nTransactions, the hashes and the bytes of flag bits, each list with its length.
  function WireSize(d: Encoding): nat {
    var bytes := Padded(|d.bits|);
    4 + CompactSize(|d.hashes|) + 32 * |d.hashes| + CompactSize(bytes) + bytes
  }

  // The promised 10 + ceil(32.25 * N).
  function PromisedSize(hashes: nat): nat {
    10 + (129 * hashes + 3) / 4
  }

  // The bytes of flag bits beyond the ceil(N / 4) that the promise allows for.
  function ExtraBytes(hashes: nat, singles: nat): nat
    requires hashes > 0
  {
    ((2 * hashes - 2) % 8 + singles) / 8
  }

  lemma FlagBytes(hashes: nat, singles: nat)
    requires hashes > 0
    ensures Padded(2 * hashes - 1 + singles) == (hashes + 3) / 4 + ExtraBytes(hashes, singles)
  {
  }

  lemma PromisedParts(hashes: nat)
    ensures PromisedSize(hashes) == 10 + 32 * hashes + (hashes + 3) / 4
  {
  }

  /** The exact size: the promised one, off by the length prefixes and the bytes for the single children. */
  lemma WireSizeExact(t: Tree, mask: seq<bool>)
    requires |mask| == |t.txids| > 0
    ensures var d, s := Encode(t, mask), Singles(|t.txids|, mask, TreeHeight(|t.txids|));
            var hashes := |d.hashes|;
            WireSize(d) == PromisedSize(hashes) - 6 + ExtraBytes(hashes, s) + CompactSize(hashes)
                           + CompactSize((hashes + 3) / 4 + ExtraBytes(hashes, s))
  {
    hide Encode, Singles, ExtraBytes, Padded, PromisedSize, CompactSize;
    var d, s := Encode(t, mask), Singles(|t.txids|, mask, TreeHeight(|t.txids|));
    FlagBitsExact(t, mask);
    FlagBytes(|d.hashes|, s);
    PromisedParts(|d.hashes|);
  }

  lemma HeightLimit(n: nat)
    requires n <= MAX_TRANSACTIONS
    ensures TreeHeight(n) <= 15
  {
    hide HeightFrom;
    assert Pow2(5) == 32;
    assert Pow2(10) == 1024;
    assert Pow2(15) == 32768;
    assert Width(n, 15) <= 1;
  }

  // The promise in numbers: N hashes and s single children.
  lemma PromiseIff(hashes: nat, s: nat)
    requires 0 < hashes <= MAX_TRANSACTIONS && s <= 15
    ensures CompactSize(hashes) + ExtraBytes(hashes, s) + CompactSize((hashes + 3) / 4 + ExtraBytes(hashes, s)) <= 6
       <==> 2 * hashes + s <= 2017 || (2 * hashes - 2) % 8 + s < 8
  {
    var extra := ExtraBytes(hashes, s);
    assert extra <= 2;
    FlagBytes(hashes, s);
    assert (hashes + 3) / 4 + extra < 253 <==> 2 * hashes + s <= 2017;
  }

  /** The hard guarantee on the size, for a block that respects the limit on transactions: it holds
      exactly when the flag bits take fewer than 253 bytes or the single children do not push them into
      another byte. */
  lemma WireSizeIff(t: Tree, mask: seq<bool>)
    requires |mask| == |t.txids| && 0 < |t.txids| <= MAX_TRANSACTIONS
    ensures var d, s := Encode(t, mask), Singles(|t.txids|, mask, TreeHeight(|t.txids|));
            WireSize(d) <= PromisedSize(|d.hashes|) <==>
            2 * |d.hashes| + s <= 2017 || (2 * |d.hashes| - 2) % 8 + s < 8
  {
    hide Encode, Singles, ExtraBytes, WireSize, PromisedSize, CompactSize, HeightFrom;
    WireSizeExact(t, mask);
    EncodingBounds(t, mask);
    HeightLimit(|t.txids|);
    PromiseIff(|Encode(t, mask).hashes|, Singles(|t.txids|, mask, TreeHeight(|t.txids|)));
  }

  lemma Widths1012()
    ensures Width(1012, 0) == 1012 && Width(1012, 1) == 506 && Width(1012, 2) == 253 && Width(1012, 3) == 127
    ensures Width(1012, 4) == 64 && Width(1012, 5) == 32 && Width(1012, 6) == 16 && Width(1012, 7) == 8
    ensures Width(1012, 8) == 4 && Width(1012, 9) == 2 && Width(1012, 10) == 1
  {
    hide Width;
    WidthZero(1012);
    WidthHalves(1012, 1);
    WidthHalves(1012, 2);
    WidthHalves(1012, 3);
    WidthHalves(1012, 4);
    WidthHalves(1012, 5);
    WidthHalves(1012, 6);
    WidthHalves(1012, 7);
    WidthHalves(1012, 8);
    WidthHalves(1012, 9);
    WidthHalves(1012, 10);
  }

  // With everything matched, the single children are the odd levels.
  lemma SinglesStep(n: nat, height: nat)
    requires n > 0 && height > 0
    ensures Singles(n, AllTrue(n), height) == Singles(n, AllTrue(n), height - 1) + Width(n, height - 1) % 2
  {
    hide Width, ParentOfMatch;
    EveryNodeMatched(n, height, Last(n, height));
  }

  lemma Singles1012()
    ensures TreeHeight(1012) == 10 && Singles(1012, AllTrue(1012), 10) == 2
  {
    hide Width, Singles, HeightFrom, AllTrue;
    Widths1012();
    assert Singles(1012, AllTrue(1012), 0) == 0 by { SinglesNone(1012); }
    SinglesStep(1012, 1);
    SinglesStep(1012, 2);
    SinglesStep(1012, 3);
    SinglesStep(1012, 4);
    SinglesStep(1012, 5);
    SinglesStep(1012, 6);
    SinglesStep(1012, 7);
    SinglesStep(1012, 8);
    SinglesStep(1012, 9);
    SinglesStep(1012, 10);
  }

  lemma SinglesNone(n: nat)
    requires n > 0
    ensures Singles(n, AllTrue(n), 0) == 0
  {
  }

  /** A block that exceeds the promised size: 1012 transactions, all matched, take one byte more. */
  lemma PromiseExceeded(t: Tree)
    requires |t.txids| == 1012
    ensures WireSize(Encode(t, AllTrue(1012))) == PromisedSize(1012) + 1
  {
    hide Encode, Singles, HeightFrom;
    EncodeAll(t);
    Singles1012();
    WireSizeExact(t, AllTrue(1012));
  }
}
