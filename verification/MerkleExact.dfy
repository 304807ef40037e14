/**
 Which data the decoder of src/merkleblock.cpp turns down, beyond what MerkleModel says about what it accepts.

 Main results: TwinsIff (an encoding is turned down exactly if a pair of equal hashes was expanded) and
 NothingLeftOver (accepted data cannot be continued).
 */
module MerkleExact {
  import opened MerkleModel

  // ----- repeated hashes -----

  // An expanded node with two children that have the same hash.
  predicate Twin(t: Tree, mask: seq<bool>, height: nat, pos: nat) {
    && height > 0 && t.HasNode(height, pos) && t.HasNode(height - 1, 2 * pos) && t.HasNode(height - 1, 2 * pos + 1)
    && ParentOfMatch(mask, height, pos)
    && t.CalcHash(height - 1, 2 * pos) == t.CalcHash(height - 1, 2 * pos + 1)
  }

  lemma {:induction false} TwinsFound(t: Tree, mask: seq<bool>, height: nat, pos: nat) returns (h: nat, p: nat)
    requires |mask| == |t.txids| && t.HasNode(height, pos) && Twins(t, mask, height, pos)
    ensures Twin(t, mask, h, p)
    decreases height
  {
    hide Width, ParentOfMatch, Tree.CalcHash;
    ChildrenInside(|t.txids|, height, pos);
    if Twins(t, mask, height - 1, 2 * pos) {
      h, p := TwinsFound(t, mask, height - 1, 2 * pos);
    } else if t.CalcHash(height - 1, 2 * pos) == t.CalcHash(height - 1, 2 * pos + 1) {
      h, p := height, pos;
    } else {
      h, p := TwinsFound(t, mask, height - 1, 2 * pos + 1);
    }
  }

  // Below an expanded node, so below its parent.
  lemma TwinsNest(t: Tree, mask: seq<bool>, height: nat, pos: nat)
    requires |mask| == |t.txids| && t.HasNode(height, pos) && Twins(t, mask, height, pos)
    ensures t.HasNode(height + 1, pos / 2) && Twins(t, mask, height + 1, pos / 2)
  {
    var up := pos / 2;
    LeavesSplit(height + 1, up);
    NodeHasLeaf(|t.txids|, height, pos);
    NodeHasLeaf(|t.txids|, height + 1, up);
    hide First, Width, Tree.CalcHash;
    var i :| First(height, pos) <= i < First(height, pos + 1) && i < |mask| && mask[i];
    assert pos == 2 * up || pos == 2 * up + 1;
    assert First(height + 1, up) <= i < First(height + 1, up + 1);
  }

  lemma {:induction false} TwinsReach(t: Tree, mask: seq<bool>, height: nat, pos: nat)
    requires |mask| == |t.txids| && t.HasNode(height, pos) && Twins(t, mask, height, pos)
    requires height <= TreeHeight(|t.txids|)
    ensures HasTwins(t, mask)
    decreases TreeHeight(|t.txids|) - height
  {
    hide Width, HeightFrom, Twins;
    if height < TreeHeight(|t.txids|) {
      TwinsNest(t, mask, height, pos);
      TwinsReach(t, mask, height + 1, pos / 2);
    }
  }

  /** Decoding an encoding fails exactly if some node on the way to a match has two children with the same hash. */
  lemma TwinsIff(t: Tree, mask: seq<bool>)
    requires |mask| == |t.txids| > 0
    ensures HasTwins(t, mask) <==> exists h, p :: Twin(t, mask, h, p)
  {
    hide Width, HeightFrom, Tree.CalcHash, ParentOfMatch;
    var height := TreeHeight(|t.txids|);
    WidthPositive(|t.txids|, height);
    if HasTwins(t, mask) {
      var h, p := TwinsFound(t, mask, height, 0);
    }
    if h, p :| Twin(t, mask, h, p) {
      if h > height {
        WidthShrinks(|t.txids|, height, h - 1);
      }
      TwinsReach(t, mask, h, p);
    }
  }

  lemma {:induction false} WidthShrinks(n: nat, low: nat, height: nat)
    requires low <= height
    ensures Width(n, height) <= Width(n, low)
    decreases height
  {
    hide Width;
    if low < height {
      WidthShrinks(n, low, height - 1);
      WidthHalves(n, height);
    }
  }

  // ----- data left over -----

  /** Valid data is used up to a point, and what follows makes no difference. */
  lemma {:induction false} ExtractPrefix(combine: (Uint256, Uint256) -> Uint256, n: nat, e: Encoding, more: Encoding,
                                         height: nat, pos: nat, nBits: nat, nHashes: nat)
    requires !Extract(combine, n, e, height, pos, nBits, nHashes).bad
    ensures var x := Extract(combine, n, e, height, pos, nBits, nHashes);
            && x.nBits <= |e.bits| && x.nHashes <= |e.hashes|
            && Extract(combine, n, Encoding(e.bits + more.bits, e.hashes + more.hashes), height, pos, nBits, nHashes)
               == x
    decreases height
  {
    hide Width, Extract;
    var longer := Encoding(e.bits + more.bits, e.hashes + more.hashes);
    if nBits >= |e.bits| || height == 0 || !e.bits[nBits] {
      ExtractOuter(combine, n, e, height, pos, nBits, nHashes);
      ExtractOuter(combine, n, longer, height, pos, nBits, nHashes);
    } else {
      ExtractInner(combine, n, e, height, pos, nBits, nHashes);
      ExtractInner(combine, n, longer, height, pos, nBits, nHashes);
      var l := Extract(combine, n, e, height - 1, 2 * pos, nBits + 1, nHashes);
      ExtractPrefix(combine, n, e, more, height - 1, 2 * pos, nBits + 1, nHashes);
      if 2 * pos + 1 < Width(n, height - 1) {
        ExtractPrefix(combine, n, e, more, height - 1, 2 * pos + 1, l.nBits, l.nHashes);
      }
    }
  }

  /** Accepted data continued by more flag bits or hashes is accepted, with the same outcome, exactly if there is no
      further hash and no further byte of flags. */
  lemma NothingLeftOver(combine: (Uint256, Uint256) -> Uint256, n: nat, e: Encoding, more: Encoding)
    requires ExtractMatches(combine, n, e, false).0 != NULL_HASH
    ensures var longer := Encoding(e.bits + more.bits, e.hashes + more.hashes);
            if more.hashes == [] && Padded(|longer.bits|) == Padded(|e.bits|)
            then ExtractMatches(combine, n, longer, false) == ExtractMatches(combine, n, e, false)
            else ExtractMatches(combine, n, longer, false).0 == NULL_HASH
  {
    hide Extract, Width, HeightFrom;
    ExtractPrefix(combine, n, e, more, TreeHeight(n), 0, 0, 0);
  }

  /** What cannot be a proof is turned down before it is looked at. */
  lemma Impossible(combine: (Uint256, Uint256) -> Uint256, n: nat, e: Encoding, bad: bool)
    requires n == 0 || n > 16666 || |e.hashes| > n || |e.bits| < |e.hashes|
    ensures ExtractMatches(combine, n, e, bad) == (NULL_HASH, [])
  {
  }
}
