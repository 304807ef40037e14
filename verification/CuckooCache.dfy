/**
 CuckooCache::cache of src/cuckoocache.h as it runs, on bit-packed collection flags: each method is
 proved to do what the function of the same name in CuckooModel defines.
 */
module CuckooCache {
  import opened Bits
  import opened CuckooModel
  import opened Wrappers

  // ----- bit-packed flags -----

  class BitPackedFlags {
    var mem: seq<bv8>

    predicate Holds(n: nat)
      reads this
    {
      n <= 8 * |mem|
    }

    // The first n flags.
    function Flags(n: nat): (r: seq<bool>)
      requires Holds(n)
      reads this
      ensures |r| == n && forall i :: 0 <= i < n ==> r[i] == BitAt(mem, i)
    {
      var m := mem;
      seq(n, i requires 0 <= i < n <= 8 * |m| => BitAt(m, i))
    }

    // All flags are set.
    constructor (size: nat)
      ensures Holds(size) && Flags(size) == seq(size, _ => true)
    {
      mem := seq((size + 7) / 8, _ => 0xFF);
      new;
      forall i | 0 <= i < size
        ensures BitAt(mem, i)
      {
        MasksDisjoint(i % 8, i % 8);
        AllOnes(Mask(i % 8));
      }
    }

    static lemma AllOnes(m: bv8)
      ensures 0xFF & m == m
    {
    }

    method BitSet(s: nat, ghost n: nat)
      requires Holds(n) && s < n
      modifies this
      ensures Holds(n) && Flags(n) == old(Flags(n))[s := true]
    {
      hide BitAt, WithBit;
      StoreBit(mem, s, true);
      mem := mem[s / 8 := WithBit(mem[s / 8], s % 8, true)];
    }

    method BitUnset(s: nat, ghost n: nat)
      requires Holds(n) && s < n
      modifies this
      ensures Holds(n) && Flags(n) == old(Flags(n))[s := false]
    {
      hide BitAt, WithBit;
      StoreBit(mem, s, false);
      mem := mem[s / 8 := WithBit(mem[s / 8], s % 8, false)];
    }

    method BitIsSet(s: nat) returns (b: bool)
      requires Holds(s + 1)
      ensures b == BitAt(mem, s)
    {
      b := Mask(s % 8) & mem[s / 8] != 0;
    }
  }

  // ----- the cache -----

  class Cache<T(==)> {
    const p: Params<T>
    var table: seq<T>
    const collectionFlags: BitPackedFlags
    var epochFlags: seq<bool>
    var counter: nat

    ghost predicate Valid()
      reads this, collectionFlags
    {
      p.Valid() && |table| == |epochFlags| == p.size && collectionFlags.Holds(p.size)
    }

    ghost function Abs(): (s: Slots<T>)
      requires Valid()
      reads this, collectionFlags
      ensures Sized(s, p.size)
    {
      Slots(table, collectionFlags.Flags(p.size), epochFlags)
    }

    constructor (p: Params<T>)
      requires p.Valid()
      ensures this.p == p && Valid() && fresh(collectionFlags)
      ensures State(Abs(), counter) == Setup(p)
    {
      this.p := p;
      table := seq(p.size, _ => p.default);
      collectionFlags := new BitPackedFlags(p.size);
      epochFlags := seq(p.size, _ => false);
      counter := p.EpochSize();
    }

    // The scan for live entries of the current epoch.
    method CountUnused() returns (unused: nat)
      requires Valid()
      ensures unused == Live(Abs(), true, p.size)
    {
      unused := 0;
      for i := 0 to p.size
        invariant unused == Live(Abs(), true, i)
      {
        var collected := collectionFlags.BitIsSet(i);
        if epochFlags[i] && !collected {
          unused := unused + 1;
        }
      }
    }

    // The loop that ages every entry.
    method Age()
      requires Valid()
      modifies this`epochFlags, collectionFlags
      ensures Valid() && Abs() == Aged(old(Abs()))
    {
      ghost var s := Abs();
      for i := 0 to p.size
        invariant Valid()
        invariant forall j :: 0 <= j < p.size ==>
          epochFlags[j] == if j < i then Aged(s).recent[j] else s.recent[j]
        invariant forall j :: 0 <= j < p.size ==>
          collectionFlags.Flags(p.size)[j] == if j < i then Aged(s).dead[j] else s.dead[j]
      {
        if epochFlags[i] {
          epochFlags := epochFlags[i := false];
        } else {
          collectionFlags.BitSet(i, p.size);
        }
      }
    }

    method EpochCheck()
      requires Valid()
      modifies this`epochFlags, this`counter, collectionFlags
      ensures Valid() && State(Abs(), counter) == CuckooModel.EpochCheck(p, old(State(Abs(), counter)))
    {
      if counter != 0 {
        counter := counter - 1;
        return;
      }
      var unused := CountUnused();
      if unused >= p.EpochSize() {
        Age();
        counter := p.EpochSize();
      } else {
        counter := Max(1, Max(p.EpochSize() / 16, p.EpochSize() - unused));
      }
    }

    method FindIn(e: T, locs: seq<nat>) returns (r: Option<nat>)
      requires Valid() && forall k :: 0 <= k < |locs| ==> locs[k] < p.size
      ensures r == Find(table, e, locs)
    {
      for k := 0 to |locs|
        invariant Find(table, e, locs) == Find(table, e, locs[k..])
      {
        assert locs[k..][1..] == locs[k + 1..];
        if table[locs[k]] == e {
          return Some(locs[k]);
        }
      }
      return None;
    }

    method FindDead(locs: seq<nat>) returns (r: Option<nat>)
      requires Valid() && forall k :: 0 <= k < |locs| ==> locs[k] < p.size
      ensures r == FirstDead(Abs(), locs)
    {
      for k := 0 to |locs|
        invariant FirstDead(Abs(), locs) == FirstDead(Abs(), locs[k..])
      {
        assert locs[k..][1..] == locs[k + 1..];
        var collected := collectionFlags.BitIsSet(locs[k]);
        if collected {
          return Some(locs[k]);
        }
      }
      return None;
    }

    // Store in a slot and keep the element.
    method Keep(loc: nat, e: T, recent: bool)
      requires Valid() && loc < p.size
      modifies this`table, this`epochFlags, collectionFlags
      ensures Valid() && Abs() == Put(old(Abs()), loc, e, recent)
    {
      table := table[loc := e];
      collectionFlags.BitUnset(loc, p.size);
      epochFlags := epochFlags[loc := recent];
    }

    // The displacement loop.
    method Displace(e: T) returns (ghost discarded: T)
      requires Valid()
      modifies this`table, this`epochFlags, collectionFlags
      ensures Valid()
      ensures Outcome(Abs(), discarded) == CuckooModel.Displace(p, old(Abs()), e, true, INVALID, p.depthLimit)
    {
      hide Params.Locs, FirstDead, NextLoc, CuckooModel.Displace;
      var x, lastEpoch, lastLoc := e, true, INVALID;
      ghost var goal := CuckooModel.Displace(p, Abs(), e, true, INVALID, p.depthLimit);
      for depth := 0 to p.depthLimit
        invariant Valid()
        invariant goal == CuckooModel.Displace(p, Abs(), x, lastEpoch, lastLoc, p.depthLimit - depth)
      {
        DisplaceOnce(p, Abs(), x, lastEpoch, lastLoc, p.depthLimit - depth);
        var locs := p.Locs(x);
        var dead := FindDead(locs);
        if dead.Some? {
          discarded := table[dead.value];
          Keep(dead.value, x, lastEpoch);
          return;
        }
        var loc := NextLoc(locs, lastLoc);
        var evicted, epoch := table[loc], epochFlags[loc];
        table, epochFlags := table[loc := x], epochFlags[loc := lastEpoch];
        x, lastEpoch, lastLoc := evicted, epoch, loc;
      }
      DisplaceNone(p, Abs(), x, lastEpoch, lastLoc);
      discarded := x;
    }

    method Insert(e: T) returns (ghost discarded: T)
      requires Valid()
      modifies this, collectionFlags
      ensures Valid() && State(Abs(), counter) == Step(p, old(State(Abs(), counter)), Add(e))
      ensures multiset(table) + multiset{discarded} == multiset(old(table)) + multiset{e}
      ensures old(Inv(p, State(Abs(), counter))) ==> Inv(p, State(Abs(), counter))
    {
      ghost var before := State(Abs(), counter);
      if Inv(p, before) {
        StepInv(p, before, Add(e));
      }
      EpochCheck();
      ghost var s := Abs();
      InsertConserves(p, s, e);
      var found := FindIn(e, p.Locs(e));
      if found.Some? {
        discarded := e;
        Keep(found.value, e, true);
        assert Put(s, found.value, e, true).table == s.table;
      } else {
        discarded := Displace(e);
      }
    }

    method Contains(e: T, erase: bool) returns (found: bool)
      requires Valid()
      modifies collectionFlags
      ensures Valid() && (found, Abs()) == CuckooModel.Contains(p, old(Abs()), e, erase)
      ensures !erase ==> Abs() == old(Abs())
      ensures Placed(p, Abs()) && e != p.default ==> (found <==> e in table)
    {
      if Placed(p, Abs()) && e != p.default {
        FindDecides(p, Abs(), e);
      }
      var loc := FindIn(e, p.Locs(e));
      if loc.None? {
        return false;
      }
      if erase {
        collectionFlags.BitSet(loc.value, p.size);
      }
      return true;
    }
  }
}
