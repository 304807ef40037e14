/**
 The block tree of src/chain.cpp and src/chain.h: blocks that point to their parent and, through a skip
 pointer, to one distant ancestor; and the active chain, a vector of blocks by height.

 Main results: GetAncestor over skip pointers is walking the parents; SetTip leaves the ancestors of the
 tip; FindFork and LastCommonAncestor return the highest common block; GetLocator lists exactly the
 ancestors at the documented distances, logarithmically many.
 */
module Chain {
  // ----- skip heights -----

  // Turn the lowest '1' bit of a number into a '0'.
  function InvertLowestOne(n: nat): (r: nat)
    ensures r <= n && (n > 0 ==> r < n) && (n > 0 && n % 2 == 0 ==> r < n - 1)
  {
    if n == 0 then 0
    else if n % 2 == 1 then n - 1
    else 2 * InvertLowestOne(n / 2)
  }

  // Bitwise and.
  function And(x: nat, y: nat): nat
    decreases x + y
  {
    if x == 0 || y == 0 then 0
    else (if x % 2 == 1 && y % 2 == 1 then 1 else 0) + 2 * And(x / 2, y / 2)
  }

  lemma {:induction false} AndSelf(x: nat)
    ensures And(x, x) == x
  {
    if x > 0 {
      AndSelf(x / 2);
    }
  }

  /** The definition above is n & (n - 1). */
  lemma {:induction false} InvertIsAnd(n: nat)
    requires n > 0
    ensures InvertLowestOne(n) == And(n, n - 1)
  {
    if n % 2 == 1 {
      AndSelf(n / 2);
    } else {
      InvertIsAnd(n / 2);
    }
  }

  function Pow2(n: nat): (r: nat)
    ensures r > n
  {
    if n == 0 then 1 else 2 * Pow2(n - 1)
  }

  /** What is taken away is the largest power of two that divides the number. */
  lemma {:induction false} LowestOne(n: nat) returns (k: nat, m: nat)
    requires n > 0
    ensures n == (2 * m + 1) * Pow2(k) && InvertLowestOne(n) == n - Pow2(k)
  {
    if n % 2 == 1 {
      k, m := 0, n / 2;
    } else {
      k, m := LowestOne(n / 2);
      assert n == 2 * ((2 * m + 1) * Pow2(k)) == (2 * m + 1) * (2 * Pow2(k));
      k := k + 1;
    }
  }

  function GetSkipHeight(height: nat): (h: nat)
    ensures h <= height && (height > 0 ==> h < height)
  {
    if height < 2 then 0
    else if height % 2 == 1 then InvertLowestOne(InvertLowestOne(height - 1)) + 1
    else InvertLowestOne(height)
  }

  // The height GetAncestor goes to next on its way to a lower one: the skip is taken only if the skip of
  // the parent is not better.
  function NextHeight(h: nat, target: nat): (r: nat)
    requires target < h
    ensures target <= r < h
  {
    var skip, skipPrev := GetSkipHeight(h), GetSkipHeight(h - 1);
    if skip == target || (skip > target && !(skipPrev < skip - 2 && skipPrev >= target)) then skip else h - 1
  }

  // The steps of GetAncestor when every block above the first has its skip pointer.
  function Steps(h: nat, target: nat): nat
    decreases h
  {
    if h <= target then 0 else 1 + Steps(NextHeight(h, target), target)
  }

  // ----- blocks -----

  class BlockIndex {
    const pprev: BlockIndex?
    const nHeight: nat
    var pskip: BlockIndex?

    constructor (pprev: BlockIndex?)
      ensures this.pprev == pprev && pskip == null && nHeight == if pprev == null then 0 else pprev.nHeight + 1
    {
      this.pprev := pprev;
      nHeight := if pprev == null then 0 else pprev.nHeight + 1;
      pskip := null;
    }

    // The ancestor at a height, or null if there is none at that height. Same as walking the parents, in
    // as many steps as skip pointers allow.
    method GetAncestor(height: int, ghost blocks: set<BlockIndex>) returns (r: BlockIndex?, ghost steps: nat)
      requires Tree(blocks) && this in blocks
      ensures r == if 0 <= height <= nHeight then Ancestor(this, height) else null
      ensures 0 <= height && AllSkip(blocks) ==> steps == if height <= nHeight then Steps(nHeight, height) else 0
    {
      hide Tree, GetSkipHeight, AllSkip, Steps;
      steps := 0;
      if height > nHeight || height < 0 {
        return null, 0;
      }
      var walk, heightWalk := this, nHeight;
      TreeBlock(blocks, this);
      AncestorSelf(this);
      while heightWalk > height
        invariant walk in blocks && WellFormed(walk) && walk.nHeight == heightWalk >= height
        invariant Ancestor(walk, height) == Ancestor(this, height)
        invariant AllSkip(blocks) ==> steps + Steps(heightWalk, height) == Steps(nHeight, height)
      {
        TreeBlock(blocks, walk);
        SkipsAt(blocks, walk);
        StepsNext(heightWalk, height);
        steps := steps + 1;
        var skip, skipPrev := GetSkipHeight(heightWalk), GetSkipHeight(heightWalk - 1);
        if walk.pskip != null && (skip == height || (skip > height && !(skipPrev < skip - 2 && skipPrev >= height))) {
          AncestorFacts(walk, skip);
          AncestorIn(blocks, walk, skip);
          AncestorTwice(walk, skip, height);
          walk := walk.pskip;
          heightWalk := skip;
        } else {
          walk := walk.pprev;
          heightWalk := heightWalk - 1;
        }
      }
      AncestorSelf(walk);
      StepsDone(heightWalk);
      r := walk;
    }

    // Called once, for a block that is being added to the tree.
    method BuildSkip(ghost blocks: set<BlockIndex>)
      requires Tree(blocks) && this !in blocks && WellFormed(this) && pskip == null
               && (pprev != null ==> pprev in blocks)
      modifies this
      ensures pskip == if pprev == null then null else Ancestor(this, GetSkipHeight(nHeight))
      ensures Tree(blocks + {this})
    {
      hide GetSkipHeight, Ancestor;
      if pprev != null {
        AncestorUp(this, GetSkipHeight(nHeight));
        var a, _ := pprev.GetAncestor(GetSkipHeight(nHeight), blocks);
        pskip := a;
      }
    }
  }

  // A block whose ancestors go down to height 0.
  ghost predicate WellFormed(b: BlockIndex)
    decreases b.nHeight
  {
    if b.pprev == null then b.nHeight == 0
    else b.nHeight > 0 && b.pprev.nHeight == b.nHeight - 1 && WellFormed(b.pprev)
  }

  /** The ancestor at a height, by walking the parents. */
  ghost function Ancestor(b: BlockIndex, height: nat): (a: BlockIndex)
    requires WellFormed(b) && height <= b.nHeight
    ensures WellFormed(a) && a.nHeight == height
    decreases b.nHeight
  {
    if b.nHeight == height then b else Ancestor(b.pprev, height)
  }

  // Closed under parents, with every skip pointer that is set pointing to the ancestor it should.
  ghost predicate Tree(blocks: set<BlockIndex>)
    reads blocks
  {
    forall b :: b in blocks ==>
      && WellFormed(b) && (b.pprev != null ==> b.pprev in blocks)
      && (b.pskip != null ==> b.nHeight > 0 && b.pskip == Ancestor(b, GetSkipHeight(b.nHeight)))
  }

  lemma TreeBlock(blocks: set<BlockIndex>, b: BlockIndex)
    requires Tree(blocks) && b in blocks
    ensures WellFormed(b) && (b.pprev != null ==> b.pprev in blocks)
    ensures b.pskip != null ==> b.nHeight > 0 && b.pskip == Ancestor(b, GetSkipHeight(b.nHeight))
  {
  }

  // Every block above the first has its skip pointer, as AddBlock leaves it.
  ghost predicate AllSkip(blocks: set<BlockIndex>)
    reads blocks
  {
    forall b :: b in blocks && b.pprev != null ==> b.pskip != null
  }

  lemma SkipsAt(blocks: set<BlockIndex>, b: BlockIndex)
    requires b in blocks
    ensures AllSkip(blocks) && b.pprev != null ==> b.pskip != null
  {
  }

  lemma StepsNext(h: nat, target: nat)
    requires target < h
    ensures Steps(h, target) == 1 + Steps(NextHeight(h, target), target)
  {
    hide GetSkipHeight;
  }

  lemma StepsDone(h: nat)
    ensures Steps(h, h) == 0
  {
  }

  lemma AncestorSelf(b: BlockIndex)
    requires WellFormed(b)
    ensures Ancestor(b, b.nHeight) == b
  {
  }

  lemma AncestorUp(b: BlockIndex, height: nat)
    requires WellFormed(b) && height < b.nHeight
    ensures Ancestor(b, height) == Ancestor(b.pprev, height)
  {
  }

  lemma AncestorFacts(b: BlockIndex, height: nat)
    requires WellFormed(b) && height <= b.nHeight
    ensures WellFormed(Ancestor(b, height)) && Ancestor(b, height).nHeight == height
  {
  }

  lemma {:induction false} AncestorIn(blocks: set<BlockIndex>, b: BlockIndex, height: nat)
    requires Tree(blocks) && b in blocks && WellFormed(b) && height <= b.nHeight
    ensures Ancestor(b, height) in blocks
    decreases b.nHeight
  {
    hide GetSkipHeight;
    if height < b.nHeight {
      AncestorIn(blocks, b.pprev, height);
    }
  }

  // The ancestor of an ancestor is an ancestor.
  lemma {:induction false} AncestorTwice(b: BlockIndex, middle: nat, height: nat)
    requires WellFormed(b) && height <= middle <= b.nHeight
    ensures Ancestor(Ancestor(b, middle), height) == Ancestor(b, height)
    decreases b.nHeight
  {
    if middle < b.nHeight {
      AncestorTwice(b.pprev, middle, height);
    }
  }

  /** A new block on top of any block of the tree, or a new root. */
  method AddBlock(ghost blocks: set<BlockIndex>, pprev: BlockIndex?) returns (b: BlockIndex)
    requires Tree(blocks) && (pprev != null ==> pprev in blocks)
    ensures fresh(b) && b.pprev == pprev && Tree(blocks + {b}) && (AllSkip(blocks) ==> AllSkip(blocks + {b}))
  {
    b := new BlockIndex(pprev);
    b.BuildSkip(blocks);
  }

  // ----- the active chain -----

  // Every entry is a block at its own height whose parent is the entry below.
  ghost predicate Linked(v: seq<BlockIndex?>) {
    forall i :: 0 <= i < |v| ==>
      v[i] != null && WellFormed(v[i]) && v[i].nHeight == i && (i > 0 ==> v[i].pprev == v[i - 1])
  }

  // The ancestors of a block, by height.
  ghost function Path(b: BlockIndex): (v: seq<BlockIndex?>)
    requires WellFormed(b)
  {
    seq(b.nHeight + 1, i requires 0 <= i <= b.nHeight => Ancestor(b, i))
  }

  lemma {:induction false} LinkedAncestor(v: seq<BlockIndex?>, i: nat, j: nat)
    requires Linked(v) && j <= i < |v|
    ensures Ancestor(v[i], j) == v[j]
  {
    if j < i {
      LinkedAncestor(v, i - 1, j);
    }
  }

  // A chain is nothing but the ancestors of its last block.
  lemma LinkedIsPath(v: seq<BlockIndex?>)
    requires Linked(v) && |v| > 0
    ensures v == Path(v[|v| - 1])
  {
    forall i | 0 <= i < |v|
      ensures v[i] == Ancestor(v[|v| - 1], i)
    {
      LinkedAncestor(v, |v| - 1, i);
    }
  }

  lemma PathLinked(b: BlockIndex)
    requires WellFormed(b)
    ensures Linked(Path(b))
  {
    forall i | 0 < i <= b.nHeight
      ensures Ancestor(b, i).pprev == Ancestor(b, i - 1)
    {
      AncestorTwice(b, i, i - 1);
    }
  }

  class CChain {
    var vChain: seq<BlockIndex?>

    ghost predicate Valid()
      reads this
    {
      Linked(vChain)
    }

    constructor ()
      ensures Valid() && vChain == []
    {
      vChain := [];
    }

    function At(height: int): BlockIndex?
      reads this
    {
      if 0 <= height < |vChain| then vChain[height] else null
    }

    predicate Contains(b: BlockIndex)
      reads this
    {
      At(b.nHeight) == b
    }

    function Height(): int
      reads this
    {
      |vChain| - 1
    }

    function Tip(): BlockIndex?
      reads this
    {
      if |vChain| > 0 then vChain[|vChain| - 1] else null
    }

    /** The blocks of the chain are those it finds by height, from 0 up to the tip. */
    lemma FoundByHeight(h: int, b: BlockIndex)
      requires Valid()
      ensures At(h) != null <==> 0 <= h <= Height()
      ensures At(h) != null ==> At(h).nHeight == h
      ensures Contains(b) <==> b in vChain
      ensures Tip() == At(Height()) && (Tip() == null <==> vChain == []) && |vChain| == Height() + 1
    {
      if b in vChain {
        var i :| 0 <= i < |vChain| && vChain[i] == b;
      }
    }

    /** Whatever the chain was, it becomes the ancestors of the new tip; entries shared with the old chain
        are not visited. */
    method SetTip(pindex: BlockIndex?)
      requires Valid() && (pindex != null ==> WellFormed(pindex))
      modifies this
      ensures Valid() && vChain == if pindex == null then [] else Path(pindex)
    {
      if pindex == null {
        vChain := [];
        return;
      }
      ghost var was := vChain;
      vChain := if pindex.nHeight + 1 <= |vChain| then vChain[..pindex.nHeight + 1]
                else vChain + seq(pindex.nHeight + 1 - |vChain|, _ => null);
      ghost var resized := vChain;
      var p: BlockIndex? := pindex;
      AncestorSelf(pindex);
      while p != null && vChain[p.nHeight] != p
        invariant |vChain| == |resized| == pindex.nHeight + 1
        invariant p != null ==> WellFormed(p) && p.nHeight <= pindex.nHeight && p == Ancestor(pindex, p.nHeight)
        invariant forall i :: 0 <= i < |vChain| && (p == null || i > p.nHeight) ==> vChain[i] == Ancestor(pindex, i)
        invariant forall i :: 0 <= i < |vChain| && p != null && i <= p.nHeight ==> vChain[i] == resized[i]
        decreases if p == null then 0 else p.nHeight + 1
      {
        vChain := vChain[p.nHeight := p];
        if p.nHeight > 0 {
          AncestorTwice(pindex, p.nHeight, p.nHeight - 1);
        }
        p := p.pprev;
      }
      if p != null {
        SharedPart(was, resized, pindex, p.nHeight);
      }
      assert vChain == Path(pindex);
      PathLinked(pindex);
    }

    /** The last block of the chain that is the given block or one of its ancestors; null if there is none. */
    method FindFork(pindex: BlockIndex?, ghost blocks: set<BlockIndex>) returns (r: BlockIndex?)
      requires Valid() && Tree(blocks) && (pindex != null ==> pindex in blocks)
      ensures pindex == null ==> r == null
      ensures pindex != null && r != null ==>
                && WellFormed(pindex) && r.nHeight <= pindex.nHeight && r == Ancestor(pindex, r.nHeight) && Contains(r)
                && (forall h :: r.nHeight < h <= pindex.nHeight ==> !Contains(Ancestor(pindex, h)))
      ensures pindex != null && r == null ==>
                WellFormed(pindex) && forall h :: 0 <= h <= pindex.nHeight ==> !Contains(Ancestor(pindex, h))
    {
      if pindex == null {
        return null;
      }
      hide Tree, Linked;
      TreeBlock(blocks, pindex);
      AncestorSelf(pindex);
      r := pindex;
      if pindex.nHeight > Height() {
        var a, _ := pindex.GetAncestor(Height(), blocks);
        r := a;
      }
      while r != null && !Contains(r)
        invariant r != null ==> r.nHeight <= pindex.nHeight && r == Ancestor(pindex, r.nHeight)
        invariant forall h :: 0 <= h <= pindex.nHeight && (r == null || h > r.nHeight) ==>
                  !Contains(Ancestor(pindex, h))
        decreases if r == null then 0 else r.nHeight + 1
      {
        if r.nHeight > 0 {
          AncestorTwice(pindex, r.nHeight, r.nHeight - 1);
        }
        r := r.pprev;
      }
    }

    // The ancestor at a height, from the vector if the block is in the chain.
    method StepBack(p: BlockIndex, height: nat, ghost blocks: set<BlockIndex>) returns (r: BlockIndex)
      requires Valid() && Tree(blocks) && p in blocks && WellFormed(p) && height <= p.nHeight
      ensures r == Ancestor(p, height) && r in blocks && WellFormed(r) && r.nHeight == height
    {
      AncestorIn(blocks, p, height);
      if Contains(p) {
        LinkedAncestor(vChain, p.nHeight, height);
        r := At(height);
      } else {
        var a, _ := p.GetAncestor(height, blocks);
        r := a;
      }
    }

    /** The ancestors at distances 0 to 11, then at doubling steps, down to the first block. */
    method GetLocator(start: BlockIndex?, ghost blocks: set<BlockIndex>) returns (have: seq<BlockIndex>)
      requires Valid() && Tree(blocks) && (start != null ==> start in blocks)
      requires forall i :: 0 <= i < |vChain| ==> vChain[i] in blocks
      ensures start == null && Tip() == null ==> have == []
      ensures start != null || Tip() != null ==> IsLocator(if start != null then start else Tip(), have)
    {
      var p := if start != null then start else Tip();
      if p == null {
        return [];
      }
      have := LocatorFrom(p, blocks);
    }

    method LocatorFrom(from: BlockIndex, ghost blocks: set<BlockIndex>) returns (have: seq<BlockIndex>)
      requires Valid() && Tree(blocks) && from in blocks
      ensures IsLocator(from, have)
    {
      hide Tree, Linked, Ancestor, WellFormed, LocatorHeight, LocatorStep, CeilLog2, Located;
      TreeBlock(blocks, from);
      LocatorStart(from);
      var p, nStep := from, 1;
      have := [p];
      while p.nHeight != 0
        invariant p in blocks && WellFormed(p) && WellFormed(from) && |have| > 0
        invariant Located(from, have) && have[|have| - 1] == p && nStep == LocatorStep(|have| - 1)
        decreases p.nHeight
      {
        LocatedLast(from, have);
        LocatorNext(from.nHeight, |have| - 1);
        var nHeight := if p.nHeight - nStep > 0 then p.nHeight - nStep else 0;
        AncestorTwice(from, p.nHeight, nHeight);
        p := StepBack(p, nHeight, blocks);
        LocatedNext(from, have, p);
        if |have| > 10 {
          nStep := nStep * 2;
        }
        have := have + [p];
      }
      LocatedDone(from, have);
    }
  }

  // Below a block that is already in place the old chain is right.
  lemma SharedPart(was: seq<BlockIndex?>, resized: seq<BlockIndex?>, tip: BlockIndex, h: nat)
    requires Linked(was) && WellFormed(tip) && h <= tip.nHeight && |resized| == tip.nHeight + 1
    requires forall i :: 0 <= i < |resized| ==> resized[i] == if i < |was| then was[i] else null
    requires resized[h] == Ancestor(tip, h)
    ensures forall i :: 0 <= i <= h ==> resized[i] == Ancestor(tip, i)
  {
    forall i | 0 <= i <= h
      ensures resized[i] == Ancestor(tip, i)
    {
      LinkedAncestor(was, h, i);
      AncestorTwice(tip, h, i);
    }
  }

  // ----- locators -----

  // Ancestors at the right heights, with the first block at most as the last entry.
  ghost predicate Located(from: BlockIndex, have: seq<BlockIndex>) {
    && WellFormed(from) && (forall i :: 0 <= i < |have| ==> IsEntry(from, i, have[i]))
    && (forall i :: 0 <= i < |have| - 1 ==> have[i].nHeight > 0)
  }

  ghost predicate IsEntry(from: BlockIndex, i: nat, b: BlockIndex) {
    WellFormed(from) && b == Ancestor(from, LocatorHeight(from.nHeight, i))
  }

  ghost predicate IsLocator(from: BlockIndex, have: seq<BlockIndex>) {
    && Located(from, have) && |have| > 0 && have[0] == from && have[|have| - 1].nHeight == 0
    && (forall i :: 0 <= i < |have| - 1 ==> have[i].nHeight > have[i + 1].nHeight)
    && |have| <= 12 + CeilLog2(from.nHeight + 1)
  }

  // The step taken after an entry has been added.
  function LocatorStep(entries: nat): (r: nat)
    ensures r > 0
  {
    if entries <= 10 then 1 else Pow2(entries - 10)
  }

  // The distance of an entry from the first.
  function LocatorDistance(i: nat): nat {
    if i <= 10 then i else 9 + Pow2(i - 10)
  }

  function LocatorHeight(height: nat, i: nat): (h: nat)
    ensures h <= height
  {
    if LocatorDistance(i) <= height then height - LocatorDistance(i) else 0
  }

  lemma LocatorStart(from: BlockIndex)
    requires WellFormed(from)
    ensures Located(from, [from]) && LocatorStep(0) == 1
  {
  }

  lemma LocatedLast(from: BlockIndex, have: seq<BlockIndex>)
    requires Located(from, have) && |have| > 0
    ensures have[|have| - 1] == Ancestor(from, LocatorHeight(from.nHeight, |have| - 1))
  {
  }

  lemma LocatedNext(from: BlockIndex, have: seq<BlockIndex>, p: BlockIndex)
    requires Located(from, have) && |have| > 0 && have[|have| - 1].nHeight > 0 && IsEntry(from, |have|, p)
    ensures Located(from, have + [p])
  {
    hide IsEntry;
    var longer := have + [p];
    forall i | 0 <= i < |longer|
      ensures IsEntry(from, i, longer[i])
    {
      assert longer[i] == if i < |have| then have[i] else p;
    }
  }

  lemma LocatedDone(from: BlockIndex, have: seq<BlockIndex>)
    requires Located(from, have) && |have| > 0 && have[|have| - 1].nHeight == 0
    ensures IsLocator(from, have)
  {
    hide CeilLog2, LocatorHeight, LocatorStep, LocatorDistance;
    LocatorStart(from);
    forall i | 0 <= i < |have| - 1
      ensures have[i].nHeight > have[i + 1].nHeight
    {
      LocatorNext(from.nHeight, i);
    }
    if |have| > 1 {
      assert IsEntry(from, |have| - 2, have[|have| - 2]);
    }
    LocatorSize(from.nHeight, |have|);
    assert LocatorHeight(from.nHeight, 0) == from.nHeight by { LocatorFirst(from.nHeight); }
  }

  lemma LocatorFirst(height: nat)
    ensures LocatorHeight(height, 0) == height
  {
  }

  lemma LocatorNext(height: nat, i: nat)
    requires LocatorHeight(height, i) > 0
    ensures var h := LocatorHeight(height, i) - LocatorStep(i); LocatorHeight(height, i + 1) == if h > 0 then h else 0
    ensures LocatorStep(i + 1) == if i + 1 > 10 then LocatorStep(i) * 2 else LocatorStep(i)
  {
    if i >= 10 {
      assert Pow2(i + 1 - 10) == 2 * Pow2(i - 10);
    }
  }

  /** The first twelve entries are consecutive blocks; from there on every gap is twice the one before. */
  lemma LocatorGaps(i: nat)
    ensures i <= 11 ==> LocatorDistance(i) == i
    ensures i >= 11 ==> LocatorDistance(i + 1) - LocatorDistance(i) == 2 * (LocatorDistance(i) - LocatorDistance(i - 1))
  {
    assert Pow2(1) == 2 && Pow2(2) == 4;
    if i > 11 {
      assert Pow2(i - 10) == 2 * Pow2(i - 11) && Pow2(i + 1 - 10) == 2 * Pow2(i - 10);
    }
  }

  function CeilLog2(x: nat): nat {
    if x <= 1 then 0 else 1 + CeilLog2((x + 1) / 2)
  }

  // The least exponent of two that reaches x.
  lemma {:induction false} CeilLog2Is(x: nat)
    ensures var k := CeilLog2(x); Pow2(k) >= x && (k > 0 ==> Pow2(k - 1) < x)
  {
    if x > 1 {
      CeilLog2Is((x + 1) / 2);
      var k := CeilLog2(x);
      assert Pow2(k) == 2 * Pow2(k - 1);
      assert k > 1 ==> Pow2(k - 1) == 2 * Pow2(k - 2);
    }
  }

  lemma {:induction false} CeilLog2Bound(j: nat, x: nat)
    requires Pow2(j) < x
    ensures j < CeilLog2(x)
    decreases j
  {
    if j > 0 {
      CeilLog2Bound(j - 1, (x + 1) / 2);
    }
  }

  /** A locator has at most 12 + ceil(log2(height + 1)) entries. */
  lemma LocatorSize(height: nat, n: nat)
    requires n > 1 ==> LocatorHeight(height, n - 2) > 0
    ensures n <= 12 + CeilLog2(height + 1)
  {
    if n > 12 {
      CeilLog2Bound(n - 12, height + 1);
    }
  }

  // ----- common ancestors -----

  ghost predicate IsAncestor(a: BlockIndex, b: BlockIndex) {
    WellFormed(b) && a.nHeight <= b.nHeight && a == Ancestor(b, a.nHeight)
  }

  /** The highest block that is an ancestor of both; null only if they have different roots. The assertion
      that the two walks meet holds in every case. */
  method LastCommonAncestor(x: BlockIndex, y: BlockIndex, ghost blocks: set<BlockIndex>) returns (r: BlockIndex?)
    requires Tree(blocks) && x in blocks && y in blocks
    ensures WellFormed(x) && WellFormed(y)
    ensures r != null ==> IsAncestor(r, x) && IsAncestor(r, y)
    ensures r != null ==> forall h :: r.nHeight < h <= x.nHeight && h <= y.nHeight ==> Ancestor(x, h) != Ancestor(y, h)
    ensures r == null ==> forall h :: 0 <= h <= x.nHeight && h <= y.nHeight ==> Ancestor(x, h) != Ancestor(y, h)
    ensures r == null <==> Ancestor(x, 0) != Ancestor(y, 0)
  {
    hide Tree;
    TreeBlock(blocks, x);
    TreeBlock(blocks, y);
    AncestorSelf(x);
    AncestorSelf(y);
    var pa: BlockIndex?, pb: BlockIndex? := x, y;
    if x.nHeight > y.nHeight {
      var a, _ := x.GetAncestor(y.nHeight, blocks);
      pa := a;
    } else if y.nHeight > x.nHeight {
      var a, _ := y.GetAncestor(x.nHeight, blocks);
      pb := a;
    }
    while pa != pb && pa != null && pb != null
      invariant pa == null <==> pb == null
      invariant pa != null ==> pa.nHeight == pb.nHeight && IsAncestor(pa, x) && IsAncestor(pb, y)
      invariant forall h :: 0 <= h <= x.nHeight && h <= y.nHeight && (pa == null || h > pa.nHeight) ==>
                Ancestor(x, h) != Ancestor(y, h)
      decreases if pa == null then 0 else pa.nHeight + 1
    {
      if pa.nHeight > 0 {
        AncestorTwice(x, pa.nHeight, pa.nHeight - 1);
        AncestorTwice(y, pb.nHeight, pb.nHeight - 1);
      }
      pa := pa.pprev;
      pb := pb.pprev;
    }
    assert pa == pb;
    r := pa;
    if r != null {
      AncestorTwice(x, r.nHeight, 0);
      AncestorTwice(y, r.nHeight, 0);
    }
  }
}
