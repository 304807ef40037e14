/**
 CPartialMerkleTree of src/merkleblock.cpp as it runs: recursion that appends to and consumes the
 flag bits and hashes, and loops that pack the bits into bytes. Each method is proved to compute
 what the function of the same name in MerkleModel defines.
 */
module MerkleBlock {
  import opened Bits
  import opened MerkleModel

  // ----- flag bits as bytes -----

  method BitsToBytes(bits: seq<bool>) returns (ret: seq<bv8>)
    ensures |ret| == Padded(|bits|)
    ensures forall q :: 0 <= q < 8 * |ret| ==> BitAt(ret, q) == (q < |bits| && bits[q])
  {
    ret := seq(Padded(|bits|), _ => 0);
    assert forall q :: 0 <= q < 8 * |ret| ==> !BitAt(ret, q);
    for p := 0 to |bits|
      invariant |ret| == Padded(|bits|)
      invariant forall q :: 0 <= q < 8 * |ret| ==> BitAt(ret, q) == (q < p && bits[q])
    {
      hide BitAt;
      if bits[p] {
        StoreBit(ret, p, true);
        ret := ret[p / 8 := ret[p / 8] | Mask(p % 8)];
      }
    }
  }

  method BytesToBits(bytes: seq<bv8>) returns (ret: seq<bool>)
    ensures |ret| == 8 * |bytes|
    ensures forall q :: 0 <= q < |ret| ==> ret[q] == BitAt(bytes, q)
  {
    ret := seq(8 * |bytes|, _ => false);
    for p := 0 to |ret|
      invariant |ret| == 8 * |bytes|
      invariant forall q :: 0 <= q < p ==> ret[q] == BitAt(bytes, q)
    {
      ret := ret[p := bytes[p / 8] & Mask(p % 8) != 0];
    }
  }

  // ----- the object -----

  function Hashes(matches: seq<Match>): (r: seq<Uint256>)
  {
    seq(|matches|, i requires 0 <= i < |matches| => matches[i].hash)
  }

  function Indexes(matches: seq<Match>): (r: seq<nat>)
  {
    seq(|matches|, i requires 0 <= i < |matches| => matches[i].index)
  }

  lemma ListsJoin(a: seq<Match>, b: seq<Match>)
    ensures Hashes(a + b) == Hashes(a) + Hashes(b)
    ensures Indexes(a + b) == Indexes(a) + Indexes(b)
  {
  }

  lemma ListsSmall(hash: Uint256, pos: nat)
    ensures Hashes([]) == [] && Hashes([Match(hash, pos)]) == [hash]
    ensures Indexes([]) == [] && Indexes([Match(hash, pos)]) == [pos]
  {
  }

  method CalcHeight(n: nat) returns (nHeight: nat)
    ensures nHeight == TreeHeight(n)
  {
    nHeight := 0;
    while Width(n, nHeight) > 1
      invariant HeightFrom(n, nHeight) == TreeHeight(n)
      decreases Width(n, nHeight)
    {
      WidthHalves(n, nHeight + 1);
      nHeight := nHeight + 1;
    }
  }

  // The loop deciding whether some leaf below a node is matched.
  method FindMatch(height: nat, pos: nat, vMatch: seq<bool>) returns (fParentOfMatch: bool)
    ensures fParentOfMatch == ParentOfMatch(vMatch, height, pos)
  {
    fParentOfMatch := false;
    var p, end := First(height, pos), First(height, pos + 1);
    FirstGrows(height, pos);
    while p < end && p < |vMatch|
      invariant First(height, pos) <= p <= end
      invariant fParentOfMatch == AnyMatch(vMatch, First(height, pos), p)
      decreases |vMatch| - p
    {
      fParentOfMatch := fParentOfMatch || vMatch[p];
      p := p + 1;
    }
  }

  class PartialMerkleTree {
    const combine: (Uint256, Uint256) -> Uint256
    var nTransactions: nat
    var vBits: seq<bool>
    var vHash: seq<Uint256>
    var fBad: bool

    // A tree without content, marked bad.
    constructor Empty(combine: (Uint256, Uint256) -> Uint256)
      ensures nTransactions == 0 && vBits == [] && vHash == [] && fBad
    {
      this.combine := combine;
      nTransactions, vBits, vHash, fBad := 0, [], [], true;
    }

    constructor FromTxids(combine: (Uint256, Uint256) -> Uint256, vTxid: seq<Uint256>, vMatch: seq<bool>)
      requires |vMatch| == |vTxid| > 0
      ensures this.combine == combine && nTransactions == |vTxid| && !fBad
      ensures Encoding(vBits, vHash) == Encode(Tree(combine, vTxid), vMatch)
    {
      this.combine := combine;
      nTransactions, vBits, vHash, fBad := |vTxid|, [], [], false;
      new;
      var nHeight := CalcHeight(|vTxid|);
      WidthPositive(|vTxid|, nHeight);
      TraverseAndBuild(nHeight, 0, vTxid, vMatch);
    }

    // The received form of a tree.
    constructor Deserialize(combine: (Uint256, Uint256) -> Uint256, nTransactions: nat, vHash: seq<Uint256>,
                            bytes: seq<bv8>)
      ensures this.combine == combine && this.nTransactions == nTransactions && this.vHash == vHash && !fBad
      ensures |vBits| == 8 * |bytes| && forall q :: 0 <= q < |vBits| ==> vBits[q] == BitAt(bytes, q)
    {
      var bits := BytesToBits(bytes);
      this.combine := combine;
      this.nTransactions, this.vHash, this.vBits, fBad := nTransactions, vHash, bits, false;
    }

    method TraverseAndBuild(height: nat, pos: nat, vTxid: seq<Uint256>, vMatch: seq<bool>)
      requires |vMatch| == |vTxid| == nTransactions && Tree(combine, vTxid).HasNode(height, pos)
      modifies this
      ensures var d := Build(Tree(combine, vTxid), vMatch, height, pos);
              vBits == old(vBits) + d.bits && vHash == old(vHash) + d.hashes
      ensures nTransactions == old(nTransactions) && fBad == old(fBad)
      decreases height
    {
      hide Build, ParentOfMatch, Width, Tree.CalcHash;
      ghost var t := Tree(combine, vTxid);
      var fParentOfMatch := FindMatch(height, pos, vMatch);
      vBits := vBits + [fParentOfMatch];
      if height == 0 || !fParentOfMatch {
        BuildStored(t, vMatch, height, pos);
        vHash := vHash + [Tree(combine, vTxid).CalcHash(height, pos)];
      } else {
        ghost var l, r := BuildInner(t, vMatch, height, pos);
        TraverseAndBuild(height - 1, 2 * pos, vTxid, vMatch);
        if 2 * pos + 1 < Width(nTransactions, height - 1) {
          TraverseAndBuild(height - 1, 2 * pos + 1, vTxid, vMatch);
        }
        assert vBits == old(vBits) + ([true] + l.bits + r.bits);
        assert vHash == old(vHash) + (l.hashes + r.hashes);
      }
    }

    method TraverseAndExtract(height: nat, pos: nat, nBits: nat, nHashes: nat, vMatch: seq<Uint256>, vnIndex: seq<nat>)
      returns (hash: Uint256, nBitsUsed: nat, nHashUsed: nat, vMatch': seq<Uint256>, vnIndex': seq<nat>)
      modifies this`fBad
      ensures var x := Extract(combine, nTransactions, Encoding(vBits, vHash), height, pos, nBits, nHashes);
              && hash == x.hash && nBitsUsed == x.nBits && nHashUsed == x.nHashes
              && fBad == (old(fBad) || x.bad)
              && vMatch' == vMatch + Hashes(x.matches) && vnIndex' == vnIndex + Indexes(x.matches)
      decreases height
    {
      hide Extract, Width, Hashes, Indexes;
      ghost var e := Encoding(vBits, vHash);
      if nBits >= |vBits| || height == 0 || !vBits[nBits] {
        ExtractOuter(combine, nTransactions, e, height, pos, nBits, nHashes);
      }
      ListsSmall(if nHashes < |vHash| then vHash[nHashes] else NULL_HASH, pos);
      assert vMatch + [] == vMatch && vnIndex + [] == vnIndex;
      nBitsUsed, nHashUsed, vMatch', vnIndex' := nBits, nHashes, vMatch, vnIndex;
      if nBitsUsed >= |vBits| {
        fBad := true;
        return NULL_HASH, nBitsUsed, nHashUsed, vMatch', vnIndex';
      }
      var fParentOfMatch := vBits[nBitsUsed];
      nBitsUsed := nBitsUsed + 1;
      if height == 0 || !fParentOfMatch {
        if nHashUsed >= |vHash| {
          fBad := true;
          return NULL_HASH, nBitsUsed, nHashUsed, vMatch', vnIndex';
        }
        hash := vHash[nHashUsed];
        nHashUsed := nHashUsed + 1;
        if height == 0 && fParentOfMatch {
          vMatch', vnIndex' := vMatch' + [hash], vnIndex' + [pos];
        }
      } else {
        ExtractInner(combine, nTransactions, e, height, pos, nBits, nHashes);
        ghost var l := Extract(combine, nTransactions, e, height - 1, 2 * pos, nBits + 1, nHashes);
        var left, right;
        left, nBitsUsed, nHashUsed, vMatch', vnIndex' :=
          TraverseAndExtract(height - 1, 2 * pos, nBitsUsed, nHashUsed, vMatch', vnIndex');
        if 2 * pos + 1 < Width(nTransactions, height - 1) {
          ghost var r := Extract(combine, nTransactions, e, height - 1, 2 * pos + 1, l.nBits, l.nHashes);
          ListsJoin(l.matches, r.matches);
          right, nBitsUsed, nHashUsed, vMatch', vnIndex' :=
            TraverseAndExtract(height - 1, 2 * pos + 1, nBitsUsed, nHashUsed, vMatch', vnIndex');
          if right == left {
            fBad := true;
          }
          assert vMatch' == vMatch + Hashes(l.matches + r.matches);
          assert vnIndex' == vnIndex + Indexes(l.matches + r.matches);
        } else {
          right := left;
          assert l.matches + [] == l.matches;
        }
        hash := combine(left, right);
      }
    }

    // The caller's vMatch is cleared but its vnIndex is only appended to.
    method ExtractMatches(vnIndex: seq<nat>) returns (root: Uint256, vMatch: seq<Uint256>, vnIndex': seq<nat>)
      modifies this`fBad
      ensures var x := MerkleModel.ExtractMatches(combine, nTransactions, Encoding(vBits, vHash), old(fBad));
              root == x.0 && vMatch == Hashes(x.1) && vnIndex' == vnIndex + Indexes(x.1)
    {
      vMatch, vnIndex' := [], vnIndex;
      if nTransactions == 0 || nTransactions > MAX_TRANSACTIONS || |vHash| > nTransactions || |vBits| < |vHash| {
        return NULL_HASH, vMatch, vnIndex';
      }
      var nHeight := CalcHeight(nTransactions);
      var nBitsUsed, nHashUsed;
      root, nBitsUsed, nHashUsed, vMatch, vnIndex' := TraverseAndExtract(nHeight, 0, 0, 0, vMatch, vnIndex');
      if fBad || (nBitsUsed + 7) / 8 != (|vBits| + 7) / 8 || nHashUsed != |vHash| {
        root := NULL_HASH;
      }
    }
  }

  /** Building a tree, sending its hashes and packed flag bits, and extracting at the other end. */
  method Relay(combine: (Uint256, Uint256) -> Uint256, vTxid: seq<Uint256>, vMatch: seq<bool>)
    returns (root: Uint256, hashes: seq<Uint256>, indexes: seq<nat>)
    requires |vMatch| == |vTxid| && 0 < |vTxid| <= MAX_TRANSACTIONS
    ensures var t := Tree(combine, vTxid);
            t.DistinctTxids() && !t.NodesCollide() ==>
            && root == t.Root()
            && hashes == Hashes(MatchesIn(t, vMatch, 0, |vTxid|))
            && indexes == Indexes(MatchesIn(t, vMatch, 0, |vTxid|))
  {
    var sent := new PartialMerkleTree.FromTxids(combine, vTxid, vMatch);
    var bytes := BitsToBytes(sent.vBits);
    var received := new PartialMerkleTree.Deserialize(combine, sent.nTransactions, sent.vHash, bytes);
    ghost var bits := sent.vBits;
    ghost var padding := received.vBits[|bits|..];
    assert received.vBits == bits + padding by {
      assert forall q :: 0 <= q < |bits| ==> received.vBits[q] == bits[q];
    }
    ghost var t := Tree(combine, vTxid);
    if t.DistinctTxids() && !t.NodesCollide() {
      RoundTrip(t, vMatch, padding);
    }
    root, hashes, indexes := received.ExtractMatches([]);
  }
}
