/**
 The partial Merkle tree of src/merkleblock.cpp as functions: the encoder and decoder of the
 "Partial Merkle branch format" of BIP 37. The hash that combines two children is a parameter;
 results hold for every such function, up to a collision that the statement pins down.

 Main results: RoundTripIff and RoundTrip (when decoding an encoding gives the root and exactly the matched txids),
 ExtractSound (nothing false is ever reported, whatever was received), NullRootForged and SoundIff (which
 blocks that does not cover).
 */
module MerkleModel {
  type Uint256 = nat

  const NULL_HASH: Uint256 := 0

  // ----- the shape of the tree -----

  function Pow2(n: nat): (p: nat)
    ensures p > 0
  {
    if n == 0 then 1 else 2 * Pow2(n - 1)
  }

  // CalcTreeWidth: the number of nodes at a height.
  function Width(n: nat, height: nat): nat {
    (n + Pow2(height) - 1) / Pow2(height)
  }

  // w is n divided by p, rounded up.
  predicate IsCeil(n: nat, p: nat, w: nat) {
    p * w >= n && (w > 0 ==> p * (w - 1) < n)
  }

  lemma CeilDiv(n: nat, p: nat)
    requires p > 0
    ensures IsCeil(n, p, (n + p - 1) / p)
  {
    var w := (n + p - 1) / p;
    assert n + p - 1 == p * w + (n + p - 1) % p;
    assert p * (w - 1) == p * w - p;
  }

  lemma CeilUnique(n: nat, p: nat, v: nat, w: nat)
    requires p > 0 && IsCeil(n, p, v) && IsCeil(n, p, w)
    ensures v == w
  {
    if v < w {
      MulMonotone(p, v, w - 1);
    } else if w < v {
      MulMonotone(p, w, v - 1);
    }
  }

  lemma {:induction false} MulMonotone(p: nat, a: nat, b: nat)
    requires a <= b
    ensures p * a <= p * b
  {
    if p > 0 {
      MulMonotone(p - 1, a, b);
      assert p * a == (p - 1) * a + a && p * b == (p - 1) * b + b;
    }
  }

  lemma CeilOfHalf(n: nat, p: nat, w: nat, v: nat)
    requires IsCeil(n, p, w) && w <= 2 * v <= w + 1
    ensures IsCeil(n, 2 * p, v)
  {
    MulMonotone(p, w, 2 * v);
    assert p * (2 * v) == 2 * p * v;
    if v > 0 {
      MulMonotone(p, 2 * v - 2, w - 1);
      assert p * (2 * v - 2) == 2 * p * (v - 1);
    }
  }

  // Each level has half as many nodes as the one below it, rounded up.
  lemma WidthHalves(n: nat, height: nat)
    requires height > 0
    ensures Width(n, height) == (Width(n, height - 1) + 1) / 2
  {
    hide IsCeil;
    var p, w := Pow2(height - 1), Width(n, height - 1);
    CeilDiv(n, p);
    CeilDiv(n, 2 * p);
    CeilOfHalf(n, p, w, (w + 1) / 2);
    CeilUnique(n, 2 * p, (w + 1) / 2, Width(n, height));
  }

  lemma WidthZero(n: nat)
    ensures Width(n, 0) == n
  {
  }

  function HeightFrom(n: nat, h: nat): (r: nat)
    ensures r >= h && Width(n, r) <= 1 && forall k :: h <= k < r ==> Width(n, k) > 1
    decreases Width(n, h)
  {
    if Width(n, h) > 1 then
      WidthHalves(n, h + 1);
      HeightFrom(n, h + 1)
    else h
  }

  // The smallest height with at most one node.
  function TreeHeight(n: nat): (r: nat)
    ensures Width(n, r) <= 1 && forall k :: 0 <= k < r ==> Width(n, k) > 1
  {
    HeightFrom(n, 0)
  }

  lemma {:induction false} WidthPositive(n: nat, height: nat)
    requires n > 0
    ensures Width(n, height) > 0
  {
    if height == 0 {
      WidthZero(n);
    } else {
      WidthPositive(n, height - 1);
      WidthHalves(n, height);
    }
  }

  // The children of a node: the first always exists, the second unless the node is the last of its
  // level and the level below is odd.
  lemma ChildrenInside(n: nat, height: nat, pos: nat)
    requires height > 0 && pos < Width(n, height)
    ensures 2 * pos < Width(n, height - 1)
    ensures 2 * pos + 1 >= Width(n, height - 1) ==> pos == Width(n, height) - 1 && 2 * pos == Width(n, height - 1) - 1
    ensures pos < Width(n, height) - 1 ==> 2 * pos + 1 < Width(n, height - 1) - 1
  {
    WidthHalves(n, height);
  }

  // The leaves below a node.
  function First(height: nat, pos: nat): nat {
    pos * Pow2(height)
  }

  lemma LeavesSplit(height: nat, pos: nat)
    requires height > 0
    ensures First(height, pos) == First(height - 1, 2 * pos)
    ensures First(height, pos + 1) == First(height - 1, 2 * pos + 2)
    ensures First(height - 1, 2 * pos) < First(height - 1, 2 * pos + 1) < First(height - 1, 2 * pos + 2)
  {
    var p := Pow2(height - 1);
    assert pos * (2 * p) == 2 * pos * p;
    assert (pos + 1) * (2 * p) == (2 * pos + 2) * p;
    assert (2 * pos + 1) * p == 2 * pos * p + p && (2 * pos + 2) * p == 2 * pos * p + 2 * p;
  }

  // A node exists exactly when its first leaf does.
  lemma NodeHasLeaf(n: nat, height: nat, pos: nat)
    ensures pos < Width(n, height) <==> First(height, pos) < n
  {
    var p, w := Pow2(height), Width(n, height);
    CeilDiv(n, p);
    if pos < w {
      MulMonotone(p, pos, w - 1);
      assert p * pos == pos * p;
    } else {
      MulMonotone(p, w, pos);
      assert p * pos == pos * p;
    }
  }

  // ----- the full tree -----

  datatype Tree = Tree(combine: (Uint256, Uint256) -> Uint256, txids: seq<Uint256>) {
    predicate HasNode(height: nat, pos: nat) {
      pos < Width(|txids|, height)
    }

    function CalcHash(height: nat, pos: nat): Uint256
      requires HasNode(height, pos)
      decreases height
    {
      if height == 0 then WidthZero(|txids|); txids[pos]
      else var c := Children(height, pos); combine(c.0, c.1)
    }

    // The hashes below an inner node; a missing right child repeats the left one.
    function Children(height: nat, pos: nat): (Uint256, Uint256)
      requires height > 0 && HasNode(height, pos)
      decreases height, 0
    {
      ChildrenInside(|txids|, height, pos);
      var left := CalcHash(height - 1, 2 * pos);
      (left, if HasNode(height - 1, 2 * pos + 1) then CalcHash(height - 1, 2 * pos + 1) else left)
    }

    function Root(): Uint256
      requires |txids| > 0
    {
      WidthPositive(|txids|, TreeHeight(|txids|));
      CalcHash(TreeHeight(|txids|), 0)
    }

    // Two nodes of one level of this very tree have the same hash but different children.
    ghost predicate NodesCollide() {
      exists h, p, q ::
        && h > 0 && HasNode(h, p) && HasNode(h, q)
        && Children(h, p) != Children(h, q) && CalcHash(h, p) == CalcHash(h, q)
    }

    predicate DistinctTxids() {
      forall i, j :: 0 <= i < j < |txids| ==> txids[i] != txids[j]
    }
  }

  /** Distinct transactions give distinct hashes at every level, or else two nodes of the tree collide. */
  lemma {:induction false} EqualNodesCollide(t: Tree, h: nat, p: nat, q: nat)
    requires t.DistinctTxids() && t.HasNode(h, p) && t.HasNode(h, q) && p != q
    requires t.CalcHash(h, p) == t.CalcHash(h, q)
    ensures t.NodesCollide()
    decreases h
  {
    if h == 0 {
      WidthZero(|t.txids|);
      assert false;
    } else if t.Children(h, p) == t.Children(h, q) {
      ChildrenInside(|t.txids|, h, p);
      ChildrenInside(|t.txids|, h, q);
      EqualNodesCollide(t, h - 1, 2 * p, 2 * q);
    }
  }

  // ----- encoding -----

  datatype Encoding = Encoding(bits: seq<bool>, hashes: seq<Uint256>)

  predicate AnyMatch(mask: seq<bool>, lo: nat, hi: nat) {
    exists i :: lo <= i < hi && i < |mask| && mask[i]
  }

  predicate ParentOfMatch(mask: seq<bool>, height: nat, pos: nat) {
    AnyMatch(mask, First(height, pos), First(height, pos + 1))
  }

  // TraverseAndBuild: what it appends.
  function Build(t: Tree, mask: seq<bool>, height: nat, pos: nat): (e: Encoding)
    requires |mask| == |t.txids| && t.HasNode(height, pos)
    ensures |e.hashes| >= 1 && |e.bits| >= |e.hashes|
    decreases height
  {
    var parentOfMatch := ParentOfMatch(mask, height, pos);
    if height == 0 || !parentOfMatch then Encoding([parentOfMatch], [t.CalcHash(height, pos)])
    else
      ChildrenInside(|t.txids|, height, pos);
      var l := Build(t, mask, height - 1, 2 * pos);
      if t.HasNode(height - 1, 2 * pos + 1) then
        var r := Build(t, mask, height - 1, 2 * pos + 1);
        Encoding([true] + l.bits + r.bits, l.hashes + r.hashes)
      else Encoding([true] + l.bits, l.hashes)
  }

  // ----- decoding -----

  datatype Match = Match(hash: Uint256, index: nat)

  /** The outcome of TraverseAndExtract: the node's hash, the bits and hashes used so far, whether the
      data was found invalid, and the matches appended. */
  datatype Extraction = Extraction(hash: Uint256, nBits: nat, nHashes: nat, bad: bool, matches: seq<Match>)

  function Extract(combine: (Uint256, Uint256) -> Uint256, n: nat, e: Encoding,
                   height: nat, pos: nat, nBits: nat, nHashes: nat): (x: Extraction)
    ensures x.nBits >= nBits && x.nHashes >= nHashes
    decreases height
  {
    if nBits >= |e.bits| then Extraction(NULL_HASH, nBits, nHashes, true, [])
    else if height == 0 || !e.bits[nBits] then
      if nHashes >= |e.hashes| then Extraction(NULL_HASH, nBits + 1, nHashes, true, [])
      else
        var hash := e.hashes[nHashes];
        Extraction(hash, nBits + 1, nHashes + 1, false,
                   if height == 0 && e.bits[nBits] then [Match(hash, pos)] else [])
    else
      var l := Extract(combine, n, e, height - 1, 2 * pos, nBits + 1, nHashes);
      if 2 * pos + 1 < Width(n, height - 1) then
        var r := Extract(combine, n, e, height - 1, 2 * pos + 1, l.nBits, l.nHashes);
        Extraction(combine(l.hash, r.hash), r.nBits, r.nHashes, l.bad || r.bad || r.hash == l.hash,
                   l.matches + r.matches)
      else
        Extraction(combine(l.hash, l.hash), l.nBits, l.nHashes, l.bad, l.matches)
  }

  // ----- decoding inverts encoding -----

  // The matched transactions from index lo up to but excluding hi.
  function MatchesIn(t: Tree, mask: seq<bool>, lo: nat, hi: nat): seq<Match>
    requires |mask| == |t.txids|
    decreases hi
  {
    if hi <= lo || hi == 0 then []
    else MatchesIn(t, mask, lo, hi - 1) +
         if hi <= |mask| && mask[hi - 1] then [Match(t.txids[hi - 1], hi - 1)] else []
  }

  lemma {:induction false} MatchesSplit(t: Tree, mask: seq<bool>, lo: nat, mid: nat, hi: nat)
    requires |mask| == |t.txids| && lo <= mid <= hi
    ensures MatchesIn(t, mask, lo, hi) == MatchesIn(t, mask, lo, mid) + MatchesIn(t, mask, mid, hi)
    decreases hi
  {
    if mid < hi {
      MatchesSplit(t, mask, lo, mid, hi - 1);
    }
  }

  lemma {:induction false} NoMatches(t: Tree, mask: seq<bool>, lo: nat, hi: nat)
    requires |mask| == |t.txids| && !AnyMatch(mask, lo, hi)
    ensures MatchesIn(t, mask, lo, hi) == []
    decreases hi
  {
    if lo < hi {
      assert hi <= |mask| ==> !mask[hi - 1];
      NoMatches(t, mask, lo, hi - 1);
    }
  }

  predicate HoldsAt<T(==)>(s: seq<T>, at: nat, part: seq<T>) {
    at + |part| <= |s| && s[at..at + |part|] == part
  }

  lemma HoldsAtParts<T>(s: seq<T>, at: nat, a: seq<T>, b: seq<T>)
    requires HoldsAt(s, at, a + b)
    ensures HoldsAt(s, at, a) && HoldsAt(s, at + |a|, b)
  {
    var whole := s[at..at + |a + b|];
    assert whole[..|a|] == a && whole[|a|..] == b;
    assert s[at..at + |a|] == whole[..|a|];
    assert s[at + |a|..at + |a| + |b|] == whole[|a|..];
  }

  // e continues with the encoding d at the given positions.
  predicate Contains(e: Encoding, nBits: nat, nHashes: nat, d: Encoding) {
    HoldsAt(e.bits, nBits, d.bits) && HoldsAt(e.hashes, nHashes, d.hashes)
  }

  lemma ContainsParts(e: Encoding, nBits: nat, nHashes: nat, bit: bool, l: Encoding, r: Encoding)
    requires Contains(e, nBits, nHashes, Encoding([bit] + l.bits + r.bits, l.hashes + r.hashes))
    ensures nBits < |e.bits| && e.bits[nBits] == bit
    ensures Contains(e, nBits + 1, nHashes, l)
    ensures Contains(e, nBits + 1 + |l.bits|, nHashes + |l.hashes|, r)
  {
    hide HoldsAt;
    HoldsAtParts(e.bits, nBits, [bit] + l.bits, r.bits);
    HoldsAtParts(e.bits, nBits, [bit], l.bits);
    HoldsAtParts(e.hashes, nHashes, l.hashes, r.hashes);
    HoldsOne(e.bits, nBits, bit);
  }

  lemma HoldsOne<T>(s: seq<T>, at: nat, x: T)
    requires HoldsAt(s, at, [x])
    ensures at < |s| && s[at] == x
  {
    assert s[at..at + 1][0] == x;
  }

  /** Two children of a node that was expanded have the same hash. Repeating transactions at the end of a block
      would otherwise not change its root. */
  predicate Twins(t: Tree, mask: seq<bool>, height: nat, pos: nat)
    requires |mask| == |t.txids| && t.HasNode(height, pos)
    decreases height
  {
    && height > 0 && ParentOfMatch(mask, height, pos)
    && (ChildrenInside(|t.txids|, height, pos);
        || Twins(t, mask, height - 1, 2 * pos)
        || (t.HasNode(height - 1, 2 * pos + 1) &&
            (t.CalcHash(height - 1, 2 * pos) == t.CalcHash(height - 1, 2 * pos + 1)
             || Twins(t, mask, height - 1, 2 * pos + 1))))
  }

  lemma {:induction false} NoTwins(t: Tree, mask: seq<bool>, height: nat, pos: nat)
    requires |mask| == |t.txids| && t.HasNode(height, pos) && t.DistinctTxids() && !t.NodesCollide()
    ensures !Twins(t, mask, height, pos)
    decreases height
  {
    hide Tree.NodesCollide, Tree.DistinctTxids, Width, ParentOfMatch, Tree.CalcHash;
    if height > 0 {
      ChildrenInside(|t.txids|, height, pos);
      NoTwins(t, mask, height - 1, 2 * pos);
      if t.HasNode(height - 1, 2 * pos + 1) {
        NoTwins(t, mask, height - 1, 2 * pos + 1);
        if t.CalcHash(height - 1, 2 * pos) == t.CalcHash(height - 1, 2 * pos + 1) {
          EqualNodesCollide(t, height - 1, 2 * pos, 2 * pos + 1);
        }
      }
    }
  }

  // The decoder, positioned at the encoding of a node, consumes exactly that encoding, computes the
  // node's hash, reports the matches below the node and finds nothing invalid but twins.
  ghost predicate Decoded(t: Tree, mask: seq<bool>, height: nat, pos: nat, nBits: nat, nHashes: nat, x: Extraction)
    requires |mask| == |t.txids| && t.HasNode(height, pos)
  {
    var d := Build(t, mask, height, pos);
    x == Extraction(t.CalcHash(height, pos), nBits + |d.bits|, nHashes + |d.hashes|, Twins(t, mask, height, pos),
                    MatchesIn(t, mask, First(height, pos), First(height, pos + 1)))
  }

  lemma BuildInner(t: Tree, mask: seq<bool>, height: nat, pos: nat) returns (l: Encoding, r: Encoding)
    requires |mask| == |t.txids| && t.HasNode(height, pos) && height > 0 && ParentOfMatch(mask, height, pos)
    ensures t.HasNode(height - 1, 2 * pos) && l == Build(t, mask, height - 1, 2 * pos)
    ensures r == if t.HasNode(height - 1, 2 * pos + 1) then Build(t, mask, height - 1, 2 * pos + 1)
            else Encoding([], [])
    ensures Build(t, mask, height, pos) == Encoding([true] + l.bits + r.bits, l.hashes + r.hashes)
  {
    ChildrenInside(|t.txids|, height, pos);
    l := Build(t, mask, height - 1, 2 * pos);
    r := if t.HasNode(height - 1, 2 * pos + 1) then Build(t, mask, height - 1, 2 * pos + 1) else Encoding([], []);
    assert [true] + l.bits + [] == [true] + l.bits && l.hashes + [] == l.hashes;
  }

  lemma {:induction false} MatchesBeyond(t: Tree, mask: seq<bool>, lo: nat, hi: nat)
    requires |mask| == |t.txids| && lo >= |mask|
    ensures MatchesIn(t, mask, lo, hi) == []
    decreases hi
  {
    if lo < hi {
      MatchesBeyond(t, mask, lo, hi - 1);
    }
  }

  lemma ExtractOuter(combine: (Uint256, Uint256) -> Uint256, n: nat, e: Encoding, height: nat, pos: nat, nBits: nat,
                     nHashes: nat)
    requires nBits >= |e.bits| || height == 0 || !e.bits[nBits]
    ensures Extract(combine, n, e, height, pos, nBits, nHashes) ==
            if nBits >= |e.bits| then Extraction(NULL_HASH, nBits, nHashes, true, [])
            else if nHashes >= |e.hashes| then Extraction(NULL_HASH, nBits + 1, nHashes, true, [])
            else Extraction(e.hashes[nHashes], nBits + 1, nHashes + 1, false,
                            if height == 0 && e.bits[nBits] then [Match(e.hashes[nHashes], pos)] else [])
  {
  }

  lemma ExtractInner(combine: (Uint256, Uint256) -> Uint256, n: nat, e: Encoding, height: nat, pos: nat, nBits: nat,
                     nHashes: nat)
    requires height > 0 && nBits < |e.bits| && e.bits[nBits]
    ensures var l := Extract(combine, n, e, height - 1, 2 * pos, nBits + 1, nHashes);
            var r := if 2 * pos + 1 < Width(n, height - 1)
                     then Extract(combine, n, e, height - 1, 2 * pos + 1, l.nBits, l.nHashes)
                     else Extraction(l.hash, l.nBits, l.nHashes, false, []);
            Extract(combine, n, e, height, pos, nBits, nHashes) ==
            Extraction(combine(l.hash, r.hash), r.nBits, r.nHashes,
                       l.bad || r.bad || (2 * pos + 1 < Width(n, height - 1) && r.hash == l.hash),
                       l.matches + r.matches)
  {
    hide Width;
    var l := Extract(combine, n, e, height - 1, 2 * pos, nBits + 1, nHashes);
    assert l.matches + [] == l.matches;
  }

  lemma {:induction false} ExtractBuilt(t: Tree, mask: seq<bool>, e: Encoding, height: nat, pos: nat, nBits: nat,
                                        nHashes: nat)
    requires |mask| == |t.txids| && t.HasNode(height, pos)
    requires Contains(e, nBits, nHashes, Build(t, mask, height, pos))
    ensures Decoded(t, mask, height, pos, nBits, nHashes, Extract(t.combine, |t.txids|, e, height, pos, nBits, nHashes))
    decreases height
  {
    hide Build, Extract, Width, First, Pow2, MatchesIn, ParentOfMatch, Contains;
    var lo, hi := First(height, pos), First(height, pos + 1);
    if height == 0 || !ParentOfMatch(mask, height, pos) {
      ExtractStored(t, mask, e, height, pos, nBits, nHashes);
    } else {
      var l, r := BuildInner(t, mask, height, pos);
      ContainsParts(e, nBits, nHashes, true, l, r);
      ExtractInner(t.combine, |t.txids|, e, height, pos, nBits, nHashes);
      ExtractBuilt(t, mask, e, height - 1, 2 * pos, nBits + 1, nHashes);
      LeavesSplit(height, pos);
      MatchesSplit(t, mask, lo, First(height - 1, 2 * pos + 1), hi);
      if t.HasNode(height - 1, 2 * pos + 1) {
        ExtractBuilt(t, mask, e, height - 1, 2 * pos + 1, nBits + 1 + |l.bits|, nHashes + |l.hashes|);
      } else {
        NodeHasLeaf(|t.txids|, height - 1, 2 * pos + 1);
        MatchesBeyond(t, mask, First(height - 1, 2 * pos + 1), hi);
      }
      var x := Extract(t.combine, |t.txids|, e, height, pos, nBits, nHashes);
      assert x.hash == t.CalcHash(height, pos);
      assert x.nBits == nBits + |Build(t, mask, height, pos).bits|;
      assert x.nHashes == nHashes + |Build(t, mask, height, pos).hashes|;
      assert x.matches == MatchesIn(t, mask, lo, hi);
      assert x.bad == Twins(t, mask, height, pos);
    }
  }

  // A node whose hash is stored.
  lemma ExtractStored(t: Tree, mask: seq<bool>, e: Encoding, height: nat, pos: nat, nBits: nat, nHashes: nat)
    requires |mask| == |t.txids| && t.HasNode(height, pos) && (height == 0 || !ParentOfMatch(mask, height, pos))
    requires Contains(e, nBits, nHashes, Build(t, mask, height, pos))
    ensures Decoded(t, mask, height, pos, nBits, nHashes, Extract(t.combine, |t.txids|, e, height, pos, nBits, nHashes))
  {
    var lo, hi := First(height, pos), First(height, pos + 1);
    var d := Build(t, mask, height, pos);
    HoldsOne(e.bits, nBits, d.bits[0]);
    HoldsOne(e.hashes, nHashes, d.hashes[0]);
    if !ParentOfMatch(mask, height, pos) {
      NoMatches(t, mask, lo, hi);
    } else {
      WidthZero(|t.txids|);
      assert lo == pos && hi == pos + 1;
      assert MatchesIn(t, mask, pos, pos) == [];
    }
  }

  // ----- whole messages -----

  const MAX_BLOCK_WEIGHT: nat := 4000000
  const MIN_TRANSACTION_WEIGHT: nat := 4 * 60
  const MAX_TRANSACTIONS: nat := MAX_BLOCK_WEIGHT / MIN_TRANSACTION_WEIGHT

  function Padded(n: nat): nat {
    (n + 7) / 8
  }

  // The outcome of ExtractMatches: the hash it returns and the matches it appends.
  function ExtractMatches(combine: (Uint256, Uint256) -> Uint256, n: nat, e: Encoding, bad: bool): (Uint256, seq<Match>)
  {
    if n == 0 || n > MAX_TRANSACTIONS || |e.hashes| > n || |e.bits| < |e.hashes| then (NULL_HASH, [])
    else
      var x := Extract(combine, n, e, TreeHeight(n), 0, 0, 0);
      if bad || x.bad || Padded(x.nBits) != Padded(|e.bits|) || x.nHashes != |e.hashes| then (NULL_HASH, x.matches)
      else (x.hash, x.matches)
  }

  function Encode(t: Tree, mask: seq<bool>): (e: Encoding)
    requires |mask| == |t.txids| > 0
    ensures |e.hashes| >= 1
  {
    WidthPositive(|t.txids|, TreeHeight(|t.txids|));
    Build(t, mask, TreeHeight(|t.txids|), 0)
  }

  lemma RootCoversAll(t: Tree)
    requires |t.txids| > 0
    ensures First(TreeHeight(|t.txids|), 0) == 0 && First(TreeHeight(|t.txids|), 1) >= |t.txids|
  {
    NodeHasLeaf(|t.txids|, TreeHeight(|t.txids|), 1);
  }

  predicate HasTwins(t: Tree, mask: seq<bool>)
    requires |mask| == |t.txids| > 0
  {
    WidthPositive(|t.txids|, TreeHeight(|t.txids|));
    Twins(t, mask, TreeHeight(|t.txids|), 0)
  }

  /** For any block within the size limit and any mask, decoding what was encoded, with the flag bits padded
      to whole bytes as on the wire, reports exactly the matched txids with their positions, in order, and
      returns the root of the full tree, exactly if no expanded node has two children with the same hash. */
  lemma RoundTripIff(t: Tree, mask: seq<bool>, padding: seq<bool>)
    requires |mask| == |t.txids| && 0 < |t.txids| <= MAX_TRANSACTIONS
    requires Padded(|Encode(t, mask).bits|) == Padded(|Encode(t, mask).bits| + |padding|)
    ensures var d := Encode(t, mask);
            ExtractMatches(t.combine, |t.txids|, Encoding(d.bits + padding, d.hashes), false)
            == (if HasTwins(t, mask) then NULL_HASH else t.Root(), MatchesIn(t, mask, 0, |t.txids|))
  {
    hide Build, Extract, Width, First, Pow2, MatchesIn, HeightFrom, Twins;
    var n := |t.txids|;
    var d, h := Encode(t, mask), TreeHeight(n);
    var e := Encoding(d.bits + padding, d.hashes);
    assert e.bits[0..0 + |d.bits|] == d.bits && e.hashes[0..0 + |d.hashes|] == d.hashes;
    WidthPositive(n, h);
    ExtractBuilt(t, mask, e, h, 0, 0, 0);
    BuildHashes(t, mask, h, 0);
    RootCoversAll(t);
    MatchesSplit(t, mask, 0, n, First(h, 1));
    MatchesBeyond(t, mask, n, First(h, 1));
    assert MatchesIn(t, mask, 0, n) + [] == MatchesIn(t, mask, 0, n);
  }

  /** For distinct txids decoding what was encoded returns the root of the full tree and exactly the matched
      txids — unless two nodes of that tree collide. */
  lemma RoundTrip(t: Tree, mask: seq<bool>, padding: seq<bool>)
    requires |mask| == |t.txids| && 0 < |t.txids| <= MAX_TRANSACTIONS
    requires t.DistinctTxids() && !t.NodesCollide()
    requires Padded(|Encode(t, mask).bits|) == Padded(|Encode(t, mask).bits| + |padding|)
    ensures var d := Encode(t, mask);
            ExtractMatches(t.combine, |t.txids|, Encoding(d.bits + padding, d.hashes), false)
            == (t.Root(), MatchesIn(t, mask, 0, |t.txids|))
  {
    hide Tree.NodesCollide, Tree.DistinctTxids, Encode, ExtractMatches, Width, MatchesIn, HeightFrom, Twins;
    RoundTripIff(t, mask, padding);
    WidthPositive(|t.txids|, TreeHeight(|t.txids|));
    NoTwins(t, mask, TreeHeight(|t.txids|), 0);
  }

  // ----- number of hashes -----

  // The leaves below a node that exist.
  function LeafCount(n: nat, height: nat, pos: nat): int {
    (if First(height, pos + 1) <= n then First(height, pos + 1) else n) - First(height, pos)
  }

  lemma {:induction false} BuildHashes(t: Tree, mask: seq<bool>, height: nat, pos: nat)
    requires |mask| == |t.txids| && t.HasNode(height, pos)
    ensures |Build(t, mask, height, pos).hashes| <= LeafCount(|t.txids|, height, pos)
    decreases height
  {
    hide Width, First, Pow2, Build, ParentOfMatch;
    NodeHasLeaf(|t.txids|, height, pos);
    FirstGrows(height, pos);
    if height == 0 || !ParentOfMatch(mask, height, pos) {
      BuildStored(t, mask, height, pos);
    } else {
      var _, _ := BuildInner(t, mask, height, pos);
      LeavesSplit(height, pos);
      BuildHashes(t, mask, height - 1, 2 * pos);
      NodeHasLeaf(|t.txids|, height - 1, 2 * pos + 1);
      if t.HasNode(height - 1, 2 * pos + 1) {
        BuildHashes(t, mask, height - 1, 2 * pos + 1);
      }
    }
  }

  lemma BuildStored(t: Tree, mask: seq<bool>, height: nat, pos: nat)
    requires |mask| == |t.txids| && t.HasNode(height, pos) && (height == 0 || !ParentOfMatch(mask, height, pos))
    ensures Build(t, mask, height, pos) == Encoding([ParentOfMatch(mask, height, pos)], [t.CalcHash(height, pos)])
  {
  }

  lemma FirstZero(pos: nat)
    ensures First(0, pos) == pos && First(0, pos + 1) == pos + 1
  {
  }

  lemma FirstGrows(height: nat, pos: nat)
    ensures First(height, pos + 1) == First(height, pos) + Pow2(height) > First(height, pos)
  {
    assert (pos + 1) * Pow2(height) == pos * Pow2(height) + Pow2(height);
  }

  // ----- soundness for arbitrary data -----

  /** Somewhere in the traversal the decoder combined a pair of hashes that is not the pair the full tree
      has at that node, yet has the same hash: a collision between the received data and the tree. */
  predicate Collides(t: Tree, e: Encoding, height: nat, pos: nat, nBits: nat, nHashes: nat)
    requires t.HasNode(height, pos)
    decreases height
  {
    if nBits >= |e.bits| || height == 0 || !e.bits[nBits] then false
    else
      ChildrenInside(|t.txids|, height, pos);
      var n := |t.txids|;
      var l := Extract(t.combine, n, e, height - 1, 2 * pos, nBits + 1, nHashes);
      var hasRight := 2 * pos + 1 < Width(n, height - 1);
      var r := if hasRight then Extract(t.combine, n, e, height - 1, 2 * pos + 1, l.nBits, l.nHashes) else l;
      || ((l.hash, r.hash) != t.Children(height, pos) && t.combine(l.hash, r.hash) == t.CalcHash(height, pos))
      || Collides(t, e, height - 1, 2 * pos, nBits + 1, nHashes)
      || (hasRight && Collides(t, e, height - 1, 2 * pos + 1, l.nBits, l.nHashes))
  }

  // Every reported transaction is really at the reported position, below the given node.
  predicate Genuine(t: Tree, lo: nat, hi: nat, matches: seq<Match>) {
    && (forall k :: 0 <= k < |matches| ==>
          lo <= matches[k].index < hi && matches[k].index < |t.txids| && matches[k].hash == t.txids[matches[k].index])
    && (forall j, k :: 0 <= j < k < |matches| ==> matches[j].index < matches[k].index)
  }

  lemma NoneGenuine(t: Tree, lo: nat, hi: nat)
    ensures Genuine(t, lo, hi, [])
  {
  }

  lemma GenuineJoin(t: Tree, lo: nat, mid: nat, hi: nat, a: seq<Match>, b: seq<Match>)
    requires lo <= mid <= hi && Genuine(t, lo, mid, a) && Genuine(t, mid, hi, b)
    ensures Genuine(t, lo, hi, a + b)
  {
  }

  lemma ExtractOverrun(t: Tree, e: Encoding, height: nat, pos: nat, nBits: nat, nHashes: nat)
    requires nBits >= |e.bits|
    ensures Genuine(t, First(height, pos), First(height, pos + 1),
                    Extract(t.combine, |t.txids|, e, height, pos, nBits, nHashes).matches)
  {
  }

  lemma ExtractLeaf(t: Tree, e: Encoding, height: nat, pos: nat, nBits: nat, nHashes: nat)
    requires t.HasNode(height, pos) && nBits < |e.bits| && (height == 0 || !e.bits[nBits])
    requires Extract(t.combine, |t.txids|, e, height, pos, nBits, nHashes).hash == t.CalcHash(height, pos)
    ensures Genuine(t, First(height, pos), First(height, pos + 1),
                    Extract(t.combine, |t.txids|, e, height, pos, nBits, nHashes).matches)
  {
    WidthZero(|t.txids|);
    FirstZero(pos);
  }

  // Without a collision, agreeing with the tree at a node means agreeing at its children.
  lemma ChildrenAgree(t: Tree, e: Encoding, height: nat, pos: nat, nBits: nat, nHashes: nat)
    requires t.HasNode(height, pos) && height > 0 && nBits < |e.bits| && e.bits[nBits]
    requires Extract(t.combine, |t.txids|, e, height, pos, nBits, nHashes).hash == t.CalcHash(height, pos)
    requires !Collides(t, e, height, pos, nBits, nHashes)
    ensures t.HasNode(height - 1, 2 * pos)
    ensures var l := Extract(t.combine, |t.txids|, e, height - 1, 2 * pos, nBits + 1, nHashes);
            && l.hash == t.CalcHash(height - 1, 2 * pos)
            && !Collides(t, e, height - 1, 2 * pos, nBits + 1, nHashes)
            && (t.HasNode(height - 1, 2 * pos + 1) ==>
                && Extract(t.combine, |t.txids|, e, height - 1, 2 * pos + 1, l.nBits, l.nHashes).hash
                   == t.CalcHash(height - 1, 2 * pos + 1)
                && !Collides(t, e, height - 1, 2 * pos + 1, l.nBits, l.nHashes))
  {
    hide Width, Extract;
    ChildrenInside(|t.txids|, height, pos);
    ExtractInner(t.combine, |t.txids|, e, height, pos, nBits, nHashes);
  }

  lemma {:induction false} ExtractGenuine(t: Tree, e: Encoding, height: nat, pos: nat, nBits: nat, nHashes: nat)
    requires t.HasNode(height, pos)
    requires Extract(t.combine, |t.txids|, e, height, pos, nBits, nHashes).hash == t.CalcHash(height, pos)
    requires !Collides(t, e, height, pos, nBits, nHashes)
    ensures Genuine(t, First(height, pos), First(height, pos + 1),
                    Extract(t.combine, |t.txids|, e, height, pos, nBits, nHashes).matches)
    decreases height
  {
    var n := |t.txids|;
    hide Width, First, Pow2, Genuine, Extract, Collides, Tree.CalcHash;
    if nBits >= |e.bits| {
      ExtractOverrun(t, e, height, pos, nBits, nHashes);
    } else if height == 0 || !e.bits[nBits] {
      ExtractLeaf(t, e, height, pos, nBits, nHashes);
    } else {
      ChildrenAgree(t, e, height, pos, nBits, nHashes);
      ExtractInner(t.combine, n, e, height, pos, nBits, nHashes);
      LeavesSplit(height, pos);
      var l := Extract(t.combine, n, e, height - 1, 2 * pos, nBits + 1, nHashes);
      ExtractGenuine(t, e, height - 1, 2 * pos, nBits + 1, nHashes);
      var lo, mid, hi := First(height, pos), First(height - 1, 2 * pos + 1), First(height, pos + 1);
      if 2 * pos + 1 < Width(n, height - 1) {
        var r := Extract(t.combine, n, e, height - 1, 2 * pos + 1, l.nBits, l.nHashes);
        ExtractGenuine(t, e, height - 1, 2 * pos + 1, l.nBits, l.nHashes);
        GenuineJoin(t, lo, mid, hi, l.matches, r.matches);
      } else {
        NoneGenuine(t, mid, hi);
        GenuineJoin(t, lo, mid, hi, l.matches, []);
      }
    }
  }

  /** Whatever data is received for a block of |txids| transactions: if ExtractMatches returns the block's
      (non-zero) Merkle root, every reported pair is a txid of the block at its true position, each
      position at most once and in order — or the data exhibits a hash collision with the tree. */
  lemma ExtractSound(t: Tree, e: Encoding, bad: bool)
    requires |t.txids| > 0 && t.Root() != NULL_HASH
    requires ExtractMatches(t.combine, |t.txids|, e, bad).0 == t.Root()
    ensures t.HasNode(TreeHeight(|t.txids|), 0)
    ensures Collides(t, e, TreeHeight(|t.txids|), 0, 0, 0) ||
            Genuine(t, 0, |t.txids|, ExtractMatches(t.combine, |t.txids|, e, bad).1)
  {
    WidthPositive(|t.txids|, TreeHeight(|t.txids|));
    if !Collides(t, e, TreeHeight(|t.txids|), 0, 0, 0) {
      ExtractGenuine(t, e, TreeHeight(|t.txids|), 0, 0, 0);
    }
  }

  // ----- blocks whose root is the null hash -----

  // Flag bits that lead to the first leaf and stop there.
  function LeftBits(n: nat): seq<bool> {
    if n == 1 then [true, false, false, false, false, false, false, false, false]
    else seq(TreeHeight(n) + 1, _ => true)
  }

  // The traversal reports the first leaf, and below any inner node then runs out of bits.
  lemma {:induction false} ExtractLeft(combine: (Uint256, Uint256) -> Uint256, n: nat, hash: Uint256, height: nat)
    requires n > 1 && height <= TreeHeight(n)
    ensures var x := Extract(combine, n, Encoding(LeftBits(n), [hash]), height, 0, TreeHeight(n) - height, 0);
            && x.matches == [Match(hash, 0)] && x.nBits == TreeHeight(n) + 1 && x.nHashes == 1
            && (height > 0 ==> x.bad)
    decreases height
  {
    hide Width, HeightFrom, Extract;
    var e := Encoding(LeftBits(n), [hash]);
    var used := TreeHeight(n) - height;
    if height == 0 {
      ExtractOuter(combine, n, e, 0, 0, used, 0);
    } else {
      ExtractInner(combine, n, e, height, 0, used, 0);
      ExtractLeft(combine, n, hash, height - 1);
      ExtractOuter(combine, n, e, height - 1, 1, TreeHeight(n) + 1, 1);
      WidthZero(n);
      assert [Match(hash, 0)] + [] == [Match(hash, 0)];
    }
  }

  /** Failure is reported as the null hash. So for every block whose root is the null hash, and every hash
      that is not its first txid, some data is accepted that reports that hash as its first txid. */
  lemma NullRootForged(t: Tree, hash: Uint256)
    requires 0 < |t.txids| <= MAX_TRANSACTIONS && t.Root() == NULL_HASH && hash != t.txids[0]
    ensures var x := ExtractMatches(t.combine, |t.txids|, Encoding(LeftBits(|t.txids|), [hash]), false);
            x == (t.Root(), [Match(hash, 0)]) && !Genuine(t, 0, |t.txids|, x.1)
  {
    hide Width, HeightFrom, Extract, Tree.CalcHash, Genuine;
    var n := |t.txids|;
    WidthZero(n);
    var e := Encoding(LeftBits(n), [hash]);
    if n == 1 {
      ExtractOuter(t.combine, n, e, 0, 0, 0, 0);
    } else {
      ExtractLeft(t.combine, n, hash, TreeHeight(n));
    }
    Forged(t, hash);
  }

  lemma Forged(t: Tree, hash: Uint256)
    requires |t.txids| > 0 && hash != t.txids[0]
    ensures !Genuine(t, 0, |t.txids|, [Match(hash, 0)])
  {
    assert [Match(hash, 0)][0].index == 0;
  }

  predicate Accepted(t: Tree, e: Encoding, bad: bool)
    requires |t.txids| > 0
  {
    ExtractMatches(t.combine, |t.txids|, e, bad).0 == t.Root()
  }

  predicate CollidesAtRoot(t: Tree, e: Encoding)
    requires |t.txids| > 0
  {
    WidthPositive(|t.txids|, TreeHeight(|t.txids|));
    Collides(t, e, TreeHeight(|t.txids|), 0, 0, 0)
  }

  // Whatever data is accepted as a proof for this block reports only its transactions, or collides with it.
  ghost predicate Sound(t: Tree)
    requires |t.txids| > 0
  {
    forall e, bad :: Accepted(t, e, bad) ==>
      CollidesAtRoot(t, e) || Genuine(t, 0, |t.txids|, ExtractMatches(t.combine, |t.txids|, e, bad).1)
  }

  // Every wrong first txid gives a collision with the tree.
  ghost predicate EveryForgeryCollides(t: Tree)
    requires |t.txids| > 0
  {
    forall hash :: hash != t.txids[0] ==> CollidesAtRoot(t, Encoding(LeftBits(|t.txids|), [hash]))
  }

  /** Acceptance proves membership, up to a collision, for every block whose root is not the null hash, and
      for no other, unless every wrong first txid there collides with the tree. */
  lemma SoundIff(t: Tree)
    requires 0 < |t.txids| <= MAX_TRANSACTIONS
    ensures t.Root() != NULL_HASH ==> Sound(t)
    ensures t.Root() == NULL_HASH && Sound(t) ==> |t.txids| > 1 && EveryForgeryCollides(t)
  {
    hide Genuine, ExtractMatches, Collides, Tree.Root;
    if t.Root() != NULL_HASH {
      forall e, bad | Accepted(t, e, bad)
        ensures CollidesAtRoot(t, e) || Genuine(t, 0, |t.txids|, ExtractMatches(t.combine, |t.txids|, e, bad).1)
      {
        ExtractSound(t, e, bad);
      }
    } else if Sound(t) {
      forall hash | hash != t.txids[0]
        ensures CollidesAtRoot(t, Encoding(LeftBits(|t.txids|), [hash]))
      {
        NullRootForged(t, hash);
        assert Accepted(t, Encoding(LeftBits(|t.txids|), [hash]), false);
      }
      OneLeaf(t, Encoding(LeftBits(|t.txids|), [t.txids[0] + 1]));
    }
  }

  // Without inner nodes nothing can collide.
  lemma OneLeaf(t: Tree, e: Encoding)
    requires |t.txids| > 0
    ensures |t.txids| == 1 ==> !CollidesAtRoot(t, e)
  {
    WidthZero(|t.txids|);
  }

  function NullOnlyForBlock(a: Uint256, b: Uint256): Uint256 {
    if a == 1 && b == 2 then NULL_HASH else 5
  }

  /** Such an acceptance need not involve a hash collision: here none is. */
  lemma NullRootUnsound()
    ensures var t := Tree(NullOnlyForBlock, [1, 2]);
            var e := Encoding([true, true], [7]);
            && t.Root() == NULL_HASH == ExtractMatches(t.combine, 2, e, false).0
            && ExtractMatches(t.combine, 2, e, false).1 == [Match(7, 0)]
            && t.HasNode(1, 0) && !Collides(t, e, 1, 0, 0, 0)
  {
    hide Width, HeightFrom, Extract, Genuine;
    WidthZero(2);
    WidthHalves(2, 1);
    assert TreeHeight(2) == 1;
    var t := Tree(NullOnlyForBlock, [1, 2]);
    assert LeftBits(2) == [true, true];
    NullRootForged(t, 7);
    var e := Encoding([true, true], [7]);
    ExtractOuter(t.combine, 2, e, 0, 0, 1, 0);
    ExtractOuter(t.combine, 2, e, 0, 1, 2, 1);
  }
}
