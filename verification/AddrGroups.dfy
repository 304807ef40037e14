/**
 How the address manager of src/addrman.cpp selects buckets, and the design goal of src/addrman.h that no one
 who controls few address ranges can fill its tables.

 Main results: TriedRangeBound (addresses of one range hold at most 512 of the 16384 tried slots, in every
 consistent state) and FloodBound (announcements from one range change at most 4096 of the 65536 new slots, over
 every run).
 */
module AddrGroups {
  import opened AddrModel
  import opened AddrOps
  import opened AddrStats

  type Group = nat

  /** The keyed hashes and the range of an address. */
  datatype Keyed = Keyed(group: NetAddr -> Group, position: (Service, bool, nat) -> nat,
                         address: Service -> nat, tried: (Group, nat) -> nat,
                         pair: (Group, Group) -> nat, announced: (Group, nat) -> nat) {
    // GetTriedBucket, GetNewBucket and GetBucketPosition before the final remainders.
    function Buckets(): Hashing {
      Hashing(position, (a: Service) => tried(group(a.ip), address(a) % 8),
              (a: Service, source: NetAddr) => announced(group(source), pair(group(a.ip), group(source)) % 64))
    }
  }

  // ----- the buckets of a range -----

  function Buckets(f: nat -> nat, n: nat): set<nat> {
    set i | 0 <= i < n :: f(i)
  }

  function TriedBucket(k: Keyed, g: Group): nat -> nat {
    i => k.tried(g, i) % 256
  }

  function NewBucket(k: Keyed, g: Group): nat -> nat {
    i => k.announced(g, i) % 1024
  }

  function TriedBuckets(k: Keyed, g: Group): set<nat> {
    Buckets(TriedBucket(k, g), 8)
  }

  function NewBuckets(k: Keyed, g: Group): set<nat> {
    Buckets(NewBucket(k, g), 64)
  }

  lemma {:induction false} FewBuckets(f: nat -> nat, n: nat)
    ensures |Buckets(f, n)| <= n
  {
    if n > 0 {
      FewBuckets(f, n - 1);
      assert Buckets(f, n) == Buckets(f, n - 1) + {f(n - 1)};
    }
  }

  /** The tried slot of an address, by the full address, in one of the eight buckets of its range; the new slot,
      by its range and that of its source, in one of the 64 buckets of the source's range. Addresses of one
      range announced from one range go to the same bucket. */
  lemma SlotsAre(k: Keyed, a: Service, source: NetAddr)
    ensures var p := k.Buckets();
            && p.TriedSlot(a).bucket in TriedBuckets(k, k.group(a.ip))
            && p.NewSlot(a, source).bucket in NewBuckets(k, k.group(source))
            && p.TriedSlot(a).pos == k.position(a, false, p.TriedSlot(a).bucket) % 64
            && p.NewSlot(a, source).pos == k.position(a, true, p.NewSlot(a, source).bucket) % 64
            && forall b: Service, from :: k.group(b.ip) == k.group(a.ip) && k.group(from) == k.group(source) ==>
                 p.NewSlot(b, from).bucket == p.NewSlot(a, source).bucket
  {
    assert TriedBucket(k, k.group(a.ip))(k.address(a) % 8) in TriedBuckets(k, k.group(a.ip));
    var g := k.group(source);
    assert NewBucket(k, g)(k.pair(k.group(a.ip), g) % 64) in NewBuckets(k, g);
  }

  // ----- counting slots -----

  function Grid(buckets: set<nat>): set<Slot> {
    set b, i | b in buckets && 0 <= i < 64 :: Slot(b, i)
  }

  function Row(b: nat, n: nat): set<Slot> {
    set i | 0 <= i < n :: Slot(b, i)
  }

  lemma {:induction false} RowSize(b: nat, n: nat)
    ensures |Row(b, n)| == n
  {
    if n > 0 {
      RowSize(b, n - 1);
      assert Row(b, n) == Row(b, n - 1) + {Slot(b, n - 1)};
    }
  }

  lemma {:induction false} GridSize(buckets: set<nat>)
    ensures |Grid(buckets)| == 64 * |buckets|
    decreases buckets
  {
    if buckets == {} {
      assert Grid(buckets) == {};
    } else {
      var b :| b in buckets;
      GridSize(buckets - {b});
      RowSize(b, 64);
      assert Grid(buckets) == Grid(buckets - {b}) + Row(b, 64);
      assert Grid(buckets - {b}) !! Row(b, 64);
    }
  }

  lemma {:induction false} SubsetAtMost<T>(a: set<T>, b: set<T>)
    requires a <= b
    ensures |a| <= |b|
    decreases a
  {
    if a != {} {
      var x :| x in a;
      SubsetAtMost(a - {x}, b - {x});
    }
  }

  // ----- the tried table -----

  // The tried slots held by addresses of a range.
  function TriedSlots(k: Keyed, s: State, g: Group): set<Slot> {
    set t | t in s.vvTried && s.vvTried[t] in s.mapInfo && k.group(s.mapInfo[s.vvTried[t]].service.ip) == g
  }

  /** In every consistent state, so after every run, the addresses of one range hold at most 512 tried slots. */
  lemma TriedRangeBound(k: Keyed, s: State, g: Group)
    requires Inv(k.Buckets(), s)
    ensures TriedSlots(k, s, g) <= Grid(TriedBuckets(k, g)) && |TriedSlots(k, s, g)| <= 512
  {
    var p := k.Buckets();
    forall t | t in TriedSlots(k, s, g)
      ensures t in Grid(TriedBuckets(k, g))
    {
      TriedInPlace(p, s, t);
      SlotsAre(k, s.mapInfo[s.vvTried[t]].service, 0);
    }
    FewBuckets(TriedBucket(k, g), 8);
    GridSize(TriedBuckets(k, g));
    SubsetAtMost(TriedSlots(k, s, g), Grid(TriedBuckets(k, g)));
  }

  lemma TriedInPlace(p: Hashing, s: State, t: Slot)
    requires Inv(p, s) && t in s.vvTried
    ensures s.vvTried[t] in s.mapInfo && t == p.TriedSlot(s.mapInfo[s.vvTried[t]].service) && t.pos < 64
  {
  }

  // ----- the new table -----

  // The tables are the same but for the new slots in these buckets.
  ghost predicate SameOutside(s: State, t: State, buckets: set<nat>) {
    && t.vvTried == s.vvTried
    && forall a :: a !in Grid(buckets) ==>
         (a in s.vvNew <==> a in t.vvNew) && (a in s.vvNew ==> s.vvNew[a] == t.vvNew[a])
  }

  // Announcements from one range, and whatever else does not move entries.
  predicate FromRange(k: Keyed, op: Op, g: Group) {
    match op
    case AddOp(_, source, _, _, _) => k.group(source) == g
    case GoodOp(_, _, _) => false
    case ResolveOp(_, _, _) => false
    case _ => true
  }

  lemma OneSlot(s: State, t: State, a: Slot, buckets: set<nat>, n: Id)
    requires t.vvTried == s.vvTried && (t.vvNew == s.vvNew || t.vvNew == s.vvNew[a := n])
    requires a.bucket in buckets && a.pos < 64
    ensures SameOutside(s, t, buckets)
  {
    assert a in Grid(buckets);
  }

  lemma AddOutside(k: Keyed, s: State, addr: Address, source: NetAddr, timePenalty: int, now: int, roll: nat -> nat)
    requires Inv(k.Buckets(), s)
    ensures SameOutside(s, Add(k.Buckets(), s, addr, source, timePenalty, now, roll), NewBuckets(k, k.group(source)))
  {
    hide Inv, Add, Grid, SameOutside, Keyed.Buckets, SlotAvailable, FreeOrTerrible, Promising, Refreshed;
    var p := k.Buckets();
    var t := Add(p, s, addr, source, timePenalty, now, roll);
    if addr.service.ip in s.mapAddr {
      var n := s.mapAddr[addr.service.ip];
      KnownAdded(p, s, addr, source, timePenalty, now, roll, n);
      SlotsAre(k, s.mapInfo[n].service, source);
      OneSlot(s, t, p.NewSlot(s.mapInfo[n].service, source), NewBuckets(k, k.group(source)), n);
    } else {
      AddedWhere(p, s, addr, source, timePenalty, now, roll);
      SlotsAre(k, addr.service, source);
      OneSlot(s, t, p.NewSlot(addr.service, source), NewBuckets(k, k.group(source)), s.nIdCount);
    }
  }

  lemma StepOutside(k: Keyed, s: State, op: Op, g: Group)
    requires Inv(k.Buckets(), s) && op.PositiveTimes() && FromRange(k, op, g)
    ensures SameOutside(s, Step(k.Buckets(), s, op), NewBuckets(k, g))
  {
    hide Inv, Add, Grid, NewBuckets, Keyed.Buckets;
    if op.AddOp? {
      AddOutside(k, s, op.addr, op.source, op.timePenalty, op.now, op.roll);
    }
  }

  /** Over every run whose announcements all come from one range, at most 4096 slots of the new table change, all of
      them in the 64 buckets of that range, and none of the tried table. */
  lemma {:induction false} FloodBound(k: Keyed, s: State, ops: seq<Op>, t: State, g: Group)
    requires Reaches(k.Buckets(), s, ops, t) && forall i :: 0 <= i < |ops| ==> FromRange(k, ops[i], g)
    ensures SameOutside(s, t, NewBuckets(k, g)) && |Grid(NewBuckets(k, g))| <= 4096
    decreases |ops|
  {
    hide Inv, Step, Grid, NewBuckets, FromRange, Keyed.Buckets;
    FloodSize(k, g);
    if ops != [] {
      StepOutside(k, s, ops[0], g);
      FloodBound(k, Step(k.Buckets(), s, ops[0]), ops[1..], t, g);
    }
  }

  lemma FloodSize(k: Keyed, g: Group)
    ensures |Grid(NewBuckets(k, g))| <= 4096
  {
    FewBuckets(NewBucket(k, g), 64);
    GridSize(NewBuckets(k, g));
  }
}
