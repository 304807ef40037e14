/**
 CAddrMan of src/addrman.cpp as it runs: maps and vectors updated in place and two fixed-size bucket
 tables with -1 for an empty position. Every method is proved to do what the function of the same
 name in AddrOps does to the whole state, given a state that passes the consistency check.
 Random numbers and the clock are parameters.
 */
module AddrMan {
  import opened AddrModel
  import opened AddrOps
  import opened Wrappers

  /** A table of buckets: int[buckets][BUCKET_SIZE], -1 for an empty position. */
  class BucketTable {
    const cells: array2<int>

    ghost predicate Valid()
      reads cells
    {
      && cells.Length1 == BUCKET_SIZE
      && (forall b, i :: 0 <= b < cells.Length0 && 0 <= i < BUCKET_SIZE ==> cells[b, i] >= -1)
    }

    // The occupied slots.
    ghost function Abs(): Table
      requires Valid()
      reads cells
    {
      map b, i | 0 <= b < cells.Length0 && 0 <= i < BUCKET_SIZE && cells[b, i] != -1 :: Slot(b, i) := cells[b, i]
    }

    constructor (buckets: nat)
      ensures Valid() && fresh(cells) && cells.Length0 == buckets && Abs() == map[]
    {
      cells := new int[buckets, BUCKET_SIZE]((_, _) => -1);
    }

    method Get(a: Slot) returns (v: int)
      requires Valid() && a.bucket < cells.Length0 && a.pos < BUCKET_SIZE
      ensures v == -1 <==> a !in Abs()
      ensures v != -1 ==> v >= 0 && Abs()[a] == v
    {
      v := cells[a.bucket, a.pos];
    }

    method Put(a: Slot, n: Id)
      requires Valid() && a.bucket < cells.Length0 && a.pos < BUCKET_SIZE
      modifies cells
      ensures Valid() && Abs() == old(Abs())[a := n]
    {
      cells[a.bucket, a.pos] := n;
    }

    method Erase(a: Slot)
      requires Valid() && a.bucket < cells.Length0 && a.pos < BUCKET_SIZE
      modifies cells
      ensures Valid() && Abs() == old(Abs()) - {a}
    {
      cells[a.bucket, a.pos] := -1;
    }

    // The loops of Clear.
    method Wipe()
      requires Valid()
      modifies cells
      ensures Valid() && Abs() == map[]
    {
      for b := 0 to cells.Length0
        invariant Valid()
        invariant forall c, i :: 0 <= c < b && 0 <= i < BUCKET_SIZE ==> cells[c, i] == -1
      {
        for i := 0 to BUCKET_SIZE
          invariant Valid()
          invariant forall c, j :: 0 <= c < b && 0 <= j < BUCKET_SIZE ==> cells[c, j] == -1
          invariant forall j :: 0 <= j < i ==> cells[b, j] == -1
        {
          cells[b, i] := -1;
        }
      }
      assert Abs() == map[];
    }
  }

  class AddrMan {
    var p: Hashing   // the bucket functions under nKey
    var nIdCount: nat
    var mapInfo: map<Id, Info>
    var mapAddr: map<NetAddr, Id>
    var vRandom: seq<Id>
    var nTried: int
    const vvTried: BucketTable
    var nNew: int
    const vvNew: BucketTable
    var nLastGood: int
    var collisions: set<Id>

    ghost predicate Valid()
      reads this, vvTried.cells, vvNew.cells
    {
      && vvTried.Valid() && vvTried.cells.Length0 == TRIED_BUCKET_COUNT
      && vvNew.Valid() && vvNew.cells.Length0 == NEW_BUCKET_COUNT
      && vvTried.cells != vvNew.cells
    }

    ghost function Abs(): State
      requires Valid()
      reads this, vvTried.cells, vvNew.cells
    {
      State(nIdCount, mapInfo, mapAddr, vRandom, nTried, vvTried.Abs(), nNew, vvNew.Abs(), nLastGood, collisions)
    }

    constructor (p: Hashing)
      ensures this.p == p && Valid() && Abs() == EMPTY && Sound(p, Abs())
      ensures fresh(vvTried) && fresh(vvNew) && fresh(vvTried.cells) && fresh(vvNew.cells)
    {
      this.p := p;
      vvTried := new BucketTable(TRIED_BUCKET_COUNT);
      vvNew := new BucketTable(NEW_BUCKET_COUNT);
      nIdCount, mapInfo, mapAddr, vRandom, nTried, nNew, nLastGood, collisions := 0, map[], map[], [], 0, 0, 1, {};
      new;
      EmptySound(p);
    }

    // Everything is reset except the collisions, and a new key is used.
    method Clear(key: Hashing)
      requires Valid()
      modifies this, vvTried.cells, vvNew.cells
      ensures Valid() && p == key && Abs() == Reset(old(Abs())) && Inv(p, Abs())
      ensures Sound(p, Abs()) <==> old(collisions) == {}
      ensures CanGoStale(p, Abs()) <==> old(collisions) != {}
    {
      hide BucketTable.Abs, BucketTable.Valid, Sound, Inv, CanGoStale;
      ResetInv(key, Abs());
      ClearSoundIff(key, Abs());
      ClearStaleIff(key, Abs());
      vRandom := [];
      p := key;
      vvNew.Wipe();
      vvTried.Wipe();
      nIdCount, nTried, nNew, nLastGood := 0, 0, 0, 1;
      mapInfo, mapAddr := map[], map[];
    }

    method Create(addr: Address, source: NetAddr) returns (n: Id)
      requires Valid()
      modifies this
      ensures p == old(p)
      ensures Valid() && n == old(nIdCount) && Abs() == AddrModel.Create(old(Abs()), addr, source)
    {
      hide BucketTable.Abs, BucketTable.Valid;
      n := nIdCount;
      nIdCount := nIdCount + 1;
      var info := Info(addr.service, addr.nTime, addr.nServices, source, 0, 0, 0, 0, 0, false, |vRandom|);
      mapInfo := mapInfo[n := info];
      mapAddr := mapAddr[addr.service.ip := n];
      vRandom := vRandom + [n];
      nNew := nNew + 1;
    }

    method SwapRandom(i: nat, j: nat)
      requires Valid() && InRange(Abs(), i) && InRange(Abs(), j)
      modifies this
      ensures p == old(p)
      ensures Valid() && Abs() == AddrModel.SwapRandom(old(Abs()), i, j)
    {
      hide BucketTable.Abs, BucketTable.Valid;
      if i == j {
        return;
      }
      var n, m := vRandom[i], vRandom[j];
      mapInfo := mapInfo[n := mapInfo[n].(nRandomPos := j)];
      mapInfo := mapInfo[m := mapInfo[m].(nRandomPos := i)];
      vRandom := vRandom[i := m][j := n];
    }

    // The entry must not be in the tried table and have no slot: the assertions of the original.
    method Delete(n: Id)
      requires Valid() && RandomOk(Abs()) && n in mapInfo && !mapInfo[n].fInTried && mapInfo[n].nRefCount == 0
      modifies this
      ensures p == old(p)
      ensures Valid() && n in old(mapInfo)
      ensures InRange(old(Abs()), old(mapInfo)[n].nRandomPos) && |old(vRandom)| > 0
              && InRange(old(Abs()), |old(vRandom)| - 1)
      ensures Abs() == AddrModel.Delete(old(Abs()), n)
    {
      hide BucketTable.Abs, BucketTable.Valid, RandomOk;
      PlaceOfEntry(Abs(), n);
      var ip := mapInfo[n].service.ip;
      SwapRandom(mapInfo[n].nRandomPos, |vRandom| - 1);
      vRandom := vRandom[..|vRandom| - 1];
      mapAddr := mapAddr - {ip};
      mapInfo := mapInfo - {n};
      nNew := nNew - 1;
    }

    method ClearNew(a: Slot)
      requires Valid() && Weak(p, Abs()) && a.bucket < NEW_BUCKET_COUNT && a.pos < BUCKET_SIZE
      modifies this, vvNew.cells
      ensures p == old(p)
      ensures Valid() && Abs() == AddrOps.ClearNew(p, old(Abs()), a)
    {
      hide BucketTable.Abs, BucketTable.Valid, RandomOk, AddrOk, TriedOk, NewOk, RefsOk, CountsOk, TimesOk, Orphans,
           AddrModel.Delete, SameEntries;
      var v := vvNew.Get(a);
      if v != -1 {
        UnrefKeeps(p, Abs(), a);
        mapInfo := mapInfo[v := mapInfo[v].(nRefCount := mapInfo[v].nRefCount - 1)];
        vvNew.Erase(a);
        if mapInfo[v].nRefCount == 0 {
          Delete(v);
        }
      }
    }

    // The loop that removes an entry from all new buckets.
    method UnrefAllBuckets(n: Id)
      requires Valid() && Weak(p, Abs()) && n in mapInfo
      modifies this, vvNew.cells
      ensures p == old(p)
      ensures Valid() && Abs() == UnrefBuckets(p, old(Abs()), n, NEW_BUCKET_COUNT)
    {
      hide BucketTable.Abs, BucketTable.Valid, Weak, Orphans, SameEntries, Hashing.NewSlotIn;
      ghost var s := Abs();
      var service := mapInfo[n].service;
      for b := 0 to NEW_BUCKET_COUNT
        invariant p == old(p)
        invariant Valid() && Weak(p, s) && Abs() == UnrefBuckets(p, s, n, b)
      {
        var a := p.NewSlotIn(service, b);
        var v := vvNew.Get(a);
        if v == n {
          UnrefKeeps(p, Abs(), a);
          vvNew.Erase(a);
          mapInfo := mapInfo[n := mapInfo[n].(nRefCount := mapInfo[n].nRefCount - 1)];
        }
      }
    }

    method Evict(k: Slot)
      requires Valid() && Weak(p, Abs()) && k.bucket < TRIED_BUCKET_COUNT && k.pos < BUCKET_SIZE
      modifies this, vvNew.cells, vvTried.cells
      ensures p == old(p)
      ensures Valid() && Abs() == AddrOps.Evict(p, old(Abs()), k)
    {
      hide BucketTable.Abs, BucketTable.Valid, Weak, Orphans, Cleared, AddrOps.ClearNew, Hashing.NewSlot;
      var o := vvTried.Get(k);
      if o != -1 {
        DemoteKeeps(p, Abs(), k);
        EvictedStays(p, Abs(), k);
        var u := p.NewSlot(mapInfo[o].service, mapInfo[o].source);
        mapInfo := mapInfo[o := mapInfo[o].(fInTried := false)];
        vvTried.Erase(k);
        nTried := nTried - 1;
        nNew := nNew + 1;
        ClearNew(u);
        mapInfo := mapInfo[o := mapInfo[o].(nRefCount := 1)];
        vvNew.Put(u, o);
      }
    }

    method MakeTried(n: Id)
      requires Valid() && Weak(p, Abs()) && n in mapInfo && !mapInfo[n].fInTried
      modifies this, vvNew.cells, vvTried.cells
      ensures p == old(p)
      ensures Valid() && Abs() == AddrOps.MakeTried(p, old(Abs()), n)
    {
      hide BucketTable.Abs, BucketTable.Valid, Weak, UnrefBuckets, AddrOps.Evict, Orphans, Rearranged,
           Hashing.TriedSlot;
      MakeTriedStays(p, Abs(), n);
      var k := p.TriedSlot(mapInfo[n].service);
      UnrefAllBuckets(n);
      Evict(k);
      vvTried.Put(k, n);
      nNew := nNew - 1;
      nTried := nTried + 1;
      mapInfo := mapInfo[n := mapInfo[n].(fInTried := true)];
    }

    // The search for a bucket the entry is in, from a random bucket on.
    method FindBucket(n: Id, rnd: nat) returns (found: bool)
      requires Valid() && n in mapInfo
      ensures found <==> HasBucket(p, Abs(), n)
    {
      hide BucketTable.Abs, BucketTable.Valid, Hashing.NewSlotIn;
      for i := 0 to NEW_BUCKET_COUNT
        invariant forall j :: 0 <= j < i ==> !InBucket(p, Abs(), n, Wrapped(j, rnd))
      {
        var b := Wrapped(i, rnd);
        var v := vvNew.Get(p.NewSlotIn(mapInfo[n].service, b));
        if v == n {
          assert InBucket(p, Abs(), n, b);
          return true;
        }
      }
      forall b | 0 <= b < NEW_BUCKET_COUNT
        ensures !InBucket(p, Abs(), n, b)
      {
        WrappedCovers(b, rnd);
      }
      found := false;
    }

    method Good(service: Service, testBeforeEvict: bool, time: int, rnd: nat)
      requires Valid() && Inv(p, Abs()) && time > 0
      modifies this, vvNew.cells, vvTried.cells
      ensures p == old(p)
      ensures Valid() && Abs() == AddrOps.Good(p, old(Abs()), service, testBeforeEvict, time)
    {
      hide BucketTable.Abs, BucketTable.Valid, RandomOk, AddrOk, TriedOk, NewOk, RefsOk, CountsOk, TimesOk, Orphans,
           HasBucket,
           AddrOps.MakeTried, Grows, Hashing.TriedSlot, InBucket;
      ghost var s := Abs();
      nLastGood := time;
      if service.ip !in mapAddr || mapAddr[service.ip] !in mapInfo || mapInfo[mapAddr[service.ip]].service != service {
        return;
      }
      var n := mapAddr[service.ip];
      mapInfo := mapInfo[n := mapInfo[n].(nLastSuccess := time, nLastTry := time, nAttempts := 0)];
      GoodTouch(p, s, n, time);
      if mapInfo[n].fInTried {
        return;
      }
      var found := FindBucket(n, rnd);
      if !found {
        return;
      }
      var other := vvTried.Get(p.TriedSlot(service));
      if testBeforeEvict && other != -1 {
        if |collisions| < TRIED_COLLISION_SIZE {
          collisions := collisions + {n};
        }
      } else {
        MakeTried(n);
      }
    }

    // The second half of Add.
    method Place(n: Id, source: NetAddr, now: int)
      requires Valid() && Weak(p, Abs()) && n in mapInfo && !mapInfo[n].fInTried
      modifies this, vvNew.cells
      ensures p == old(p)
      ensures Valid() && Abs() == AddrOps.Place(p, old(Abs()), n, source, now)
    {
      hide BucketTable.Abs, BucketTable.Valid, RandomOk, AddrOk, TriedOk, NewOk, RefsOk, CountsOk, TimesOk, Orphans,
           SameEntries,
           AddrOps.ClearNew, IsTerrible, Hashing.NewSlot, AddrModel.Delete;
      ghost var s := Abs();
      var a := p.NewSlot(mapInfo[n].service, source);
      var v := vvNew.Get(a);
      if v != n {
        var insert := v == -1;
        if !insert {
          UnrefKeeps(p, s, a);
          insert := IsTerrible(mapInfo[v], now) || (mapInfo[v].nRefCount > 1 && mapInfo[n].nRefCount == 0);
        }
        if insert {
          ClearNewEffect(p, s, a);
          ClearNew(a);
          mapInfo := mapInfo[n := mapInfo[n].(nRefCount := mapInfo[n].nRefCount + 1)];
          vvNew.Put(a, n);
        } else if mapInfo[n].nRefCount == 0 {
          Delete(n);
        }
      }
    }

    // The result tells that the address was not known, not that it is now.
    method Add(addr: Address, source: NetAddr, timePenalty: int, now: int, roll: nat -> nat, isRoutable: bool)
      returns (isNew: bool)
      requires Valid() && Inv(p, Abs())
      modifies this, vvNew.cells
      ensures p == old(p)
      ensures Valid() && isNew == (isRoutable && addr.service.ip !in old(mapAddr))
      ensures Abs() == if isRoutable then AddrOps.Add(p, old(Abs()), addr, source, timePenalty, now, roll)
              else old(Abs())
    {
      hide BucketTable.Abs, BucketTable.Valid, RandomOk, AddrOk, TriedOk, NewOk, RefsOk, CountsOk, TimesOk, Orphans,
           AddrOps.Place, Refreshed, Grows;
      if !isRoutable {
        return false;
      }
      ghost var s := Abs();
      var penalty := if addr.service.ip == source then 0 else timePenalty;
      var n: Id;
      if addr.service.ip in mapAddr {
        KnownEntry(p, s, addr.service.ip);
        n := mapAddr[addr.service.ip];
        RefreshKeeps(p, s, n, addr, penalty, now);
        mapInfo := mapInfo[n := Refreshed(mapInfo[n], addr, penalty, now)];
        isNew := false;
        var factor := 1;
        for i := 0 to mapInfo[n].nRefCount
          invariant p == old(p)
          invariant factor == Pow2(i)
          modifies {}
        {
          factor := factor * 2;
        }
        if || addr.nTime == 0 || (mapInfo[n].nTime != 0 && addr.nTime <= mapInfo[n].nTime)
           || mapInfo[n].fInTried || mapInfo[n].nRefCount == NEW_BUCKETS_PER_ADDRESS
           || (factor > 1 && roll(factor) != 0) {
          return;
        }
      } else {
        CreateKeeps(p, s, addr.(nTime := Max0(addr.nTime - penalty)), source);
        n := Create(addr.(nTime := Max0(addr.nTime - penalty)), source);
        isNew := true;
      }
      Place(n, source, now);
    }

    method Attempt(service: Service, countFailure: bool, time: int)
      requires Valid()
      modifies this
      ensures p == old(p)
      ensures Valid() && Abs() == AddrOps.Attempt(old(Abs()), service, countFailure, time)
    {
      hide BucketTable.Abs, BucketTable.Valid;
      if service.ip !in mapAddr || mapAddr[service.ip] !in mapInfo || mapInfo[mapAddr[service.ip]].service != service {
        return;
      }
      var n := mapAddr[service.ip];
      mapInfo := mapInfo[n := mapInfo[n].(nLastTry := time)];
      if countFailure && mapInfo[n].nLastCountAttempt < nLastGood {
        mapInfo := mapInfo[n := mapInfo[n].(nLastCountAttempt := time, nAttempts := mapInfo[n].nAttempts + 1)];
      }
    }

    method Connected(service: Service, time: nat)
      requires Valid()
      modifies this
      ensures p == old(p)
      ensures Valid() && Abs() == AddrOps.Connected(old(Abs()), service, time)
    {
      hide BucketTable.Abs, BucketTable.Valid;
      if service.ip !in mapAddr || mapAddr[service.ip] !in mapInfo || mapInfo[mapAddr[service.ip]].service != service {
        return;
      }
      var n := mapAddr[service.ip];
      if time - mapInfo[n].nTime > 20 * 60 {
        mapInfo := mapInfo[n := mapInfo[n].(nTime := time)];
      }
    }

    method SetServices(service: Service, services: set<nat>)
      requires Valid()
      modifies this
      ensures p == old(p)
      ensures Valid() && Abs() == AddrOps.SetServices(old(Abs()), service, services)
    {
      hide BucketTable.Abs, BucketTable.Valid;
      if service.ip !in mapAddr || mapAddr[service.ip] !in mapInfo || mapInfo[mapAddr[service.ip]].service != service {
        return;
      }
      var n := mapAddr[service.ip];
      mapInfo := mapInfo[n := mapInfo[n].(nServices := services)];
    }

    /** At most the number of addresses asked for, each from a different entry that is not terrible; all
        such entries when there are fewer. Only the random order changes. */
    method GetAddr(maxAddresses: nat, maxPct: nat, now: int, random: nat -> nat) returns (addrs: seq<Address>)
      requires Valid() && Sound(p, Abs())
      modifies this
      ensures p == old(p)
      ensures Valid() && Sound(p, Abs()) && Reordered(old(Abs()), Abs())
      ensures |addrs| <= Wanted(|vRandom|, maxAddresses, maxPct)
      ensures forall a :: a in addrs ==>
                exists n :: n in mapInfo && !IsTerrible(mapInfo[n], now) && a == AddressOf(mapInfo[n])
      ensures forall i, j :: 0 <= i < j < |addrs| ==> addrs[i].service.ip != addrs[j].service.ip
      ensures |addrs| < Wanted(|vRandom|, maxAddresses, maxPct) ==>
                forall n :: n in mapInfo && !IsTerrible(mapInfo[n], now) ==> AddressOf(mapInfo[n]) in addrs
    {
      hide BucketTable.Abs, BucketTable.Valid, RandomOk, AddrOk, TriedOk, NewOk, RefsOk, CountsOk, TimesOk, Orphans,
           CollisionsOk,
           IsTerrible, Wanted, Chosen, Reordered, AddrModel.SwapRandom;
      ghost var s := Abs();
      var wanted := Wanted(|vRandom|, maxAddresses, maxPct);
      var n := 0;
      addrs := [];
      assert Reordered(s, s) by { SelfReordered(s); }
      assert vRandom[..0] == [];
      ChosenNone(s.mapInfo, now);
      while n < |vRandom| && |addrs| < wanted
        invariant p == old(p)
        invariant Valid() && Sound(p, Abs()) && Reordered(s, Abs())
        invariant n <= |vRandom| && |addrs| <= wanted && addrs == Chosen(s.mapInfo, vRandom[..n], now)
        invariant |vRandom| == |s.vRandom|
      {
        var r := random(|vRandom| - n) % (|vRandom| - n) + n;
        ghost var before := Abs();
        InRandom(p, before, n);
        InRandom(p, before, r);
        SwapSound(p, before, n, r);
        SwapReorders(before, n, r);
        SwapPrefix(before, n, r);
        ReorderedTransitive(s, before, AddrModel.SwapRandom(before, n, r));
        SwapRandom(n, r);
        InRandom(p, Abs(), n);
        ReorderedEntry(s, Abs(), vRandom[n], now);
        ChosenNext(s.mapInfo, vRandom, n, now);
        if !IsTerrible(mapInfo[vRandom[n]], now) {
          addrs := addrs + [AddressOf(mapInfo[vRandom[n]])];
        }
        n := n + 1;
      }
      ChosenMeaning(p, s, Abs(), n, now);
    }

    // One iteration of ResolveCollisions.
    method ResolveOne(n: Id, now: int, isValid: Service -> bool, rnd: nat)
      requires Valid() && Sound(p, Abs()) && now > 0
      modifies this, vvNew.cells, vvTried.cells
      ensures p == old(p)
      ensures Valid() && Abs() == AddrOps.Resolve(p, old(Abs()), n, now, isValid)
    {
      hide BucketTable.Abs, BucketTable.Valid, RandomOk, AddrOk, TriedOk, NewOk, RefsOk, CountsOk, TimesOk, Orphans,
           CollisionsOk,
           AddrOps.Good, Hashing.TriedSlot;
      var erase := false;
      if n !in mapInfo {
        erase := true;
      } else {
        var info := mapInfo[n];
        var k := p.TriedSlot(info.service);
        var occupant := vvTried.Get(k);
        if !isValid(info.service) {
          erase := true;
        } else if occupant != -1 {
          TriedSlotHolds(p, Abs(), k);
          var other := mapInfo[occupant];
          if now - other.nLastSuccess < REPLACEMENT_HOURS * (60 * 60) {
            erase := true;
          } else if now - other.nLastTry < REPLACEMENT_HOURS * (60 * 60) {
            if now - other.nLastTry > 60 {
              Good(info.service, false, now, rnd);
              erase := true;
            }
          } else if now - info.nLastSuccess > TEST_WINDOW {
            Good(info.service, false, now, rnd);
            erase := true;
          }
        } else {
          Good(info.service, false, now, rnd);
          erase := true;
        }
      }
      if erase {
        collisions := collisions - {n};
      }
    }

    // Each waiting entry is looked at once, in some order.
    method ResolveCollisions(now: int, isValid: Service -> bool, rnd: nat) returns (ghost order: seq<Id>)
      requires Valid() && Sound(p, Abs()) && now > 0
      modifies this, vvNew.cells, vvTried.cells
      ensures p == old(p)
      ensures Valid() && Sound(p, Abs()) && Reaches(p, old(Abs()), Resolves(order, now, isValid), Abs())
      ensures forall n :: n in order <==> n in old(collisions)
      ensures forall i, j :: 0 <= i < j < |order| ==> order[i] != order[j]
    {
      hide BucketTable.Abs, BucketTable.Valid, Inv, CollisionsOk, AddrOps.Resolve, Reaches, Resolves;
      ghost var s := Abs();
      var todo := collisions;
      order := [];
      ResolvesNone(p, s, now, isValid);
      while todo != {}
        invariant p == old(p)
        invariant Valid() && Sound(p, Abs()) && Reaches(p, s, Resolves(order, now, isValid), Abs())
        invariant forall n :: n in s.collisions <==> n in todo || n in order
        invariant forall n :: n in todo ==> n !in order
        invariant forall i, j :: 0 <= i < j < |order| ==> order[i] != order[j]
        decreases todo
      {
        var n :| n in todo;
        ResolveKeeps(p, Abs(), n, now, isValid);
        ResolvesOneMore(p, s, order, n, now, isValid, Abs());
        ResolveOne(n, now, isValid, rnd);
        order := order + [n];
        todo := todo - {n};
      }
    }

    // pick is the random choice among the waiting entries. A waiting entry that exists always yields the
    // tried entry it would replace.
    method SelectTriedCollision(pick: Id) returns (r: Option<Info>)
      requires Valid() && Sound(p, Abs()) && (collisions != {} ==> pick in collisions)
      modifies this
      ensures p == old(p)
      ensures Valid() && Sound(p, Abs())
      ensures Abs() == if pick !in mapInfo then old(Abs()).(collisions := old(collisions) - {pick}) else old(Abs())
      ensures r.None? <==> old(collisions) == {} || pick !in mapInfo
      ensures r.Some? ==> r.value in mapInfo.Values && r.value.fInTried
                          && p.TriedSlot(r.value.service) == p.TriedSlot(mapInfo[pick].service)
    {
      hide BucketTable.Abs, BucketTable.Valid, RandomOk, AddrOk, TriedOk, NewOk, RefsOk, CountsOk, TimesOk, Orphans,
           CollisionsOk,
           Hashing.TriedSlot;
      if collisions == {} {
        assert collisions - {pick} == collisions;
        return None;
      }
      if pick !in mapInfo {
        ForgetKeeps(p, Abs(), pick);
        collisions := collisions - {pick};
        return None;
      }
      NeverUncollides(p, Abs(), pick);
      TriedSlotHolds(p, Abs(), p.TriedSlot(mapInfo[pick].service));
      var o := vvTried.Get(p.TriedSlot(mapInfo[pick].service));
      r := Some(mapInfo[o]);
    }
  }

  // ----- GetAddr -----

  function Wanted(size: nat, maxAddresses: nat, maxPct: nat): nat {
    var nodes := if maxPct != 0 then maxPct * size / 100 else size;
    if maxAddresses != 0 && maxAddresses < nodes then maxAddresses else nodes
  }

  function AddressOf(info: Info): Address {
    Address(info.service, info.nTime, info.nServices)
  }

  // The addresses of the entries that are not terrible, in the order of ids.
  function Chosen(m: map<Id, Info>, ids: seq<Id>, now: int): seq<Address> {
    if ids == [] then [] else
    var n := ids[|ids| - 1];
    Chosen(m, ids[..|ids| - 1], now) + if n in m && !IsTerrible(m[n], now) then [AddressOf(m[n])] else []
  }

  lemma ChosenNone(m: map<Id, Info>, now: int)
    ensures Chosen(m, [], now) == []
  {
  }

  lemma ChosenNext(m: map<Id, Info>, ids: seq<Id>, i: nat, now: int)
    requires i < |ids|
    ensures Chosen(m, ids[..i + 1], now)
         == Chosen(m, ids[..i], now) + if ids[i] in m && !IsTerrible(m[ids[i]], now) then [AddressOf(m[ids[i]])] else []
  {
    assert ids[..i + 1][..i] == ids[..i];
  }

  lemma SelfReordered(s: State)
    ensures Reordered(s, s)
  {
  }

  lemma ReorderedTransitive(s: State, t: State, u: State)
    requires Reordered(s, t) && Reordered(t, u)
    ensures Reordered(s, u)
  {
  }

  lemma InRandom(p: Hashing, s: State, i: nat)
    requires Weak(p, s) && i < |s.vRandom|
    ensures InRange(s, i)
  {
  }

  lemma SwapPrefix(s: State, i: nat, j: nat)
    requires InRange(s, i) && InRange(s, j) && i <= j
    ensures SwapRandom(s, i, j).vRandom[..i] == s.vRandom[..i]
  {
  }

  lemma ReorderedEntry(s: State, t: State, n: Id, now: int)
    requires Reordered(s, t) && n in t.mapInfo
    ensures n in s.mapInfo && AddressOf(t.mapInfo[n]) == AddressOf(s.mapInfo[n])
    ensures IsTerrible(t.mapInfo[n], now) == IsTerrible(s.mapInfo[n], now)
  {
  }

  // Every address chosen comes from one of the ids, which are in the same order.
  lemma {:induction false} ChosenFrom(m: map<Id, Info>, ids: seq<Id>, now: int) returns (from: seq<nat>)
    ensures |from| == |Chosen(m, ids, now)|
    ensures forall k :: 0 <= k < |from| ==>
              && from[k] < |ids| && ids[from[k]] in m && !IsTerrible(m[ids[from[k]]], now)
              && Chosen(m, ids, now)[k] == AddressOf(m[ids[from[k]]])
    ensures forall k, l :: 0 <= k < l < |from| ==> from[k] < from[l]
    ensures forall i :: 0 <= i < |ids| && ids[i] in m && !IsTerrible(m[ids[i]], now) ==> i in from
  {
    hide IsTerrible;
    if ids == [] {
      from := [];
    } else {
      var last := |ids| - 1;
      from := ChosenFrom(m, ids[..last], now);
      if ids[last] in m && !IsTerrible(m[ids[last]], now) {
        from := from + [last];
      }
    }
  }

  lemma ChosenMeaning(p: Hashing, s: State, t: State, k: nat, now: int)
    requires Inv(p, t) && Reordered(s, t) && k <= |t.vRandom|
    ensures var addrs := Chosen(s.mapInfo, t.vRandom[..k], now);
            && (forall a :: a in addrs ==>
                  exists n :: n in t.mapInfo && !IsTerrible(t.mapInfo[n], now) && a == AddressOf(t.mapInfo[n]))
            && (forall i, j :: 0 <= i < j < |addrs| ==> addrs[i].service.ip != addrs[j].service.ip)
            && (k == |t.vRandom| ==>
                  forall n :: n in t.mapInfo && !IsTerrible(t.mapInfo[n], now) ==> AddressOf(t.mapInfo[n]) in addrs)
  {
    hide TriedOk, NewOk, RefsOk, CountsOk, TimesOk, Orphans, IsTerrible, Chosen, Reordered;
    var ids := t.vRandom[..k];
    var addrs := Chosen(s.mapInfo, ids, now);
    var from := ChosenFrom(s.mapInfo, ids, now);
    forall n | n in t.mapInfo
      ensures n in s.mapInfo && AddressOf(t.mapInfo[n]) == AddressOf(s.mapInfo[n])
      ensures IsTerrible(t.mapInfo[n], now) == IsTerrible(s.mapInfo[n], now)
    {
      ReorderedEntry(s, t, n, now);
    }
    forall n | k == |t.vRandom| && n in t.mapInfo && !IsTerrible(t.mapInfo[n], now)
      ensures AddressOf(t.mapInfo[n]) in addrs
    {
      var i := t.mapInfo[n].nRandomPos;
      assert ids[i] == n;
      var l :| 0 <= l < |from| && from[l] == i;
      assert addrs[l] == AddressOf(s.mapInfo[n]);
    }
  }

  // ----- ResolveCollisions -----

  function Resolves(order: seq<Id>, now: int, isValid: Service -> bool): seq<Op> {
    seq(|order|, i requires 0 <= i < |order| => ResolveOp(order[i], now, isValid))
  }

  lemma ResolvesNone(p: Hashing, s: State, now: int, isValid: Service -> bool)
    ensures Reaches(p, s, Resolves([], now, isValid), s)
  {
  }

  lemma ResolvesOneMore(p: Hashing, s: State, order: seq<Id>, n: Id, now: int, isValid: Service -> bool, t: State)
    requires Reaches(p, s, Resolves(order, now, isValid), t) && Inv(p, t) && now > 0
    ensures Reaches(p, s, Resolves(order + [n], now, isValid), AddrOps.Resolve(p, t, n, now, isValid))
  {
    hide Inv, AddrOps.Resolve, Reaches;
    ReachesOneMore(p, s, Resolves(order, now, isValid), ResolveOp(n, now, isValid), t);
    assert Resolves(order + [n], now, isValid) == Resolves(order, now, isValid) + [ResolveOp(n, now, isValid)];
  }

  lemma {:induction false} ReachesOneMore(p: Hashing, s: State, ops: seq<Op>, op: Op, t: State)
    requires Reaches(p, s, ops, t) && Inv(p, t) && op.PositiveTimes()
    ensures Reaches(p, s, ops + [op], Step(p, t, op))
    decreases |ops|
  {
    hide Inv, Step, Op.PositiveTimes;
    if ops == [] {
      assert ([op])[1..] == [];
    } else {
      ReachesOneMore(p, Step(p, s, ops[0]), ops[1..], op, t);
      assert (ops + [op])[1..] == ops[1..] + [op];
    }
  }

  // ----- Good -----

  function Wrapped(i: nat, rnd: nat): (b: nat)
    ensures b < NEW_BUCKET_COUNT
  {
    (i + rnd) % NEW_BUCKET_COUNT
  }

  // Starting anywhere, the search visits every bucket.
  lemma WrappedCovers(b: nat, rnd: nat)
    requires b < NEW_BUCKET_COUNT
    ensures exists i :: 0 <= i < NEW_BUCKET_COUNT && Wrapped(i, rnd) == b
  {
    var i := (b - rnd) % NEW_BUCKET_COUNT;
    assert Wrapped(i, rnd) == b;
  }
}
