/**
 Serialize and Unserialize of src/addrman.h as they run on the address manager: loops that number the
 entries and rebuild every table. They do what Save and Load of AddrFile do, so the round trip proved
 there is theirs.
 */
module AddrStore {
  import opened AddrModel
  import opened AddrOps
  import opened AddrMan
  import opened AddrFile
  import opened Wrappers

  // ----- Serialize -----

  lemma {:induction false} DistinctIds(ids: seq<Id>, all: set<Id>)
    requires forall i :: 0 <= i < |ids| ==> ids[i] in all
    requires forall i, j :: 0 <= i < j < |ids| ==> ids[i] < ids[j]
    ensures |ids| <= |all|
  {
    if ids != [] {
      var last := ids[|ids| - 1];
      DistinctIds(ids[..|ids| - 1], all - {last});
    }
  }

  // The assertions that the counters are not exceeded.
  lemma CountersSuffice(p: Hashing, s: State, n: Id)
    requires Inv(p, s)
    ensures IsListed(s.mapInfo, false, n) ==> |Listed(s.mapInfo, false, n)| != s.nNew
    ensures IsListed(s.mapInfo, true, n) ==> |Listed(s.mapInfo, true, n)| != s.nTried
  {
    hide RandomOk, AddrOk, TriedOk, NewOk, RefsOk, TimesOk, Orphans;
    ListedMeaning(s.mapInfo, false, n + 1);
    ListedMeaning(s.mapInfo, true, n + 1);
    forall m | m in s.mapInfo
      ensures s.mapInfo[m].nRefCount != 0 <==> !s.mapInfo[m].fInTried
    {
      ListedIff(p, s, m);
    }
    DistinctIds(Listed(s.mapInfo, false, n + 1), NewIds(s.mapInfo));
    DistinctIds(Listed(s.mapInfo, true, n + 1), TriedIds(s.mapInfo));
  }

  lemma ListedNext(m: map<Id, Info>, tried: bool, n: Id)
    ensures var l := Listed(m, tried, n);
            Listed(m, tried, n + 1) == if IsListed(m, tried, n) then l + [n] else l
  {
  }

  // One of the two loops over the entries.
  method WriteEntries(m: AddrMan, tried: bool) returns (rs: seq<Record>, mapUnkIds: map<Id, nat>)
    requires m.Valid() && Inv(m.p, m.Abs())
    ensures forall i :: 0 <= i < |Listed(m.mapInfo, tried, m.nIdCount)| ==>
            Listed(m.mapInfo, tried, m.nIdCount)[i] in m.mapInfo
    ensures rs == RecordsOf(m.mapInfo, Listed(m.mapInfo, tried, m.nIdCount))
    ensures !tried ==> forall n :: n in m.mapInfo ==> n in mapUnkIds && mapUnkIds[n] == Rank(m.mapInfo, n)
  {
    hide BucketTable.Abs, BucketTable.Valid, Inv, Listed;
    ghost var s := m.Abs();
    ghost var ids: seq<Id> := [];
    rs, mapUnkIds := [], map[];
    var nIds := 0;
    ListedMeaning(s.mapInfo, tried, 0);
    assert Listed(s.mapInfo, tried, 0) == [] by { ListedNone(s.mapInfo, tried); }
    for n := 0 to m.nIdCount
      invariant ids == Listed(m.mapInfo, tried, n) && nIds == |ids| == |rs|
      invariant forall i :: 0 <= i < |ids| ==> ids[i] in m.mapInfo && rs[i] == RecordOf(m.mapInfo[ids[i]])
      invariant !tried ==> forall k :: k in m.mapInfo && k < n ==> k in mapUnkIds && mapUnkIds[k] == Rank(m.mapInfo, k)
    {
      ListedNext(m.mapInfo, tried, n);
      if n in m.mapInfo {
        mapUnkIds := mapUnkIds[n := nIds];
        if if tried then m.mapInfo[n].fInTried else m.mapInfo[n].nRefCount != 0 {
          CountersSuffice(m.p, s, n);
          assert nIds != if tried then m.nTried else m.nNew;
          rs := rs + [RecordOf(m.mapInfo[n])];
          nIds := nIds + 1;
          ids := ids + [n];
        }
      }
    }
    forall n | n in m.mapInfo
      ensures n < m.nIdCount
    {
      ListedIff(m.p, s, n);
    }
  }

  lemma ListedNone(m: map<Id, Info>, tried: bool)
    ensures Listed(m, tried, 0) == []
  {
  }

  method WriteBuckets(m: AddrMan, mapUnkIds: map<Id, nat>) returns (buckets: seq<seq<int>>)
    requires m.Valid() && Inv(m.p, m.Abs())
    requires forall n :: n in m.mapInfo ==> n in mapUnkIds && mapUnkIds[n] == Rank(m.mapInfo, n)
    ensures buckets == BucketLists(m.Abs(), NEW_BUCKET_COUNT)
  {
    hide BucketTable.Abs, BucketTable.Valid, Inv, Rank, Order, NewSize, HomeSlot;
    ghost var s := m.Abs();
    buckets := [];
    for b := 0 to NEW_BUCKET_COUNT
      invariant buckets == BucketLists(s, b)
    {
      var list: seq<int> := [];
      for i := 0 to BUCKET_SIZE
        invariant list == BucketList(s, b, i)
      {
        var v := m.vvNew.Get(Slot(b, i));
        if v != -1 {
          RankOf(m.p, s, Slot(b, i));
          list := list + [mapUnkIds[v]];
        }
      }
      buckets := buckets + [list];
    }
  }

  method Serialize(m: AddrMan, version: nat) returns (f: File)
    requires m.Valid() && Inv(m.p, m.Abs())
    ensures f == Save(m.Abs(), version)
  {
    hide BucketTable.Abs, BucketTable.Valid, Inv, Listed, BucketLists;
    var newEntries, mapUnkIds := WriteEntries(m, false);
    var triedEntries, _ := WriteEntries(m, true);
    var buckets := WriteBuckets(m, mapUnkIds);
    f := File(FILE_FORMAT, INCOMPATIBILITY_BASE + FILE_FORMAT, newEntries, triedEntries, buckets, version);
  }

  // ----- Unserialize -----

  // The entries of the new table.
  method ReadNew(m: AddrMan, rs: seq<Record>)
    requires m.Valid() && m.Abs() == EMPTY
    modifies m
    ensures m.p == old(m.p)
    ensures m.Valid() && m.Abs() == LoadNew(rs, |rs|)
  {
    hide BucketTable.Abs, BucketTable.Valid, EntryAdded;
    m.nNew := |rs|;
    for n := 0 to |rs|
      invariant m.p == old(m.p)
      invariant m.Valid() && m.Abs() == LoadNew(rs, n).(nIdCount := 0, nNew := |rs|)
    {
      LoadNewFacts(rs, n);
      EntryAddedFacts(LoadNew(rs, n), rs[n]);
      m.mapInfo := m.mapInfo[n := Unpacked(rs[n], |m.vRandom|, false)];
      m.mapAddr := m.mapAddr[rs[n].service.ip := n];
      m.vRandom := m.vRandom + [n];
    }
    LoadNewFacts(rs, |rs|);
    m.nIdCount := m.nNew;
  }

  // The entries of the tried table. An entry whose slot is taken is lost.
  method ReadTried(m: AddrMan, rs: seq<Record>) returns (lost: nat)
    requires m.Valid() && m.nTried == 0
    modifies m, m.vvTried.cells
    ensures m.p == old(m.p)
    ensures m.Valid() && m.Abs() == LoadTried(m.p, old(m.Abs()), rs, |rs|)
    ensures |m.vRandom| + lost == old(|m.vRandom|) + |rs|
  {
    hide BucketTable.Abs, BucketTable.Valid, Hashing.TriedSlot, TriedAdded;
    ghost var s := m.Abs();
    lost := 0;
    m.nTried := |rs|;
    for n := 0 to |rs|
      invariant m.p == old(m.p)
      invariant m.Valid() && m.nTried == |rs| && lost <= n
      invariant m.Abs() == LoadTried(m.p, s, rs, n).(nTried := |rs|) && LoadTried(m.p, s, rs, n).nTried == n - lost
      invariant |m.vRandom| + lost == |s.vRandom| + n
    {
      ghost var t := LoadTried(m.p, s, rs, n);
      var k := m.p.TriedSlot(rs[n].service);
      var v := m.vvTried.Get(k);
      TriedAddedWhole(m.p, t, rs[n]);
      if v == -1 {
        m.vRandom := m.vRandom + [m.nIdCount];
        m.mapInfo := m.mapInfo[m.nIdCount := Unpacked(rs[n], |m.vRandom| - 1, true)];
        m.mapAddr := m.mapAddr[rs[n].service.ip := m.nIdCount];
        m.vvTried.Put(k, m.nIdCount);
        m.nIdCount := m.nIdCount + 1;
      } else {
        lost := lost + 1;
      }
    }
    m.nTried := m.nTried - lost;
  }

  lemma TriedAddedWhole(p: Hashing, s: State, r: Record)
    ensures p.TriedSlot(r.service) in s.vvTried ==> TriedAdded(p, s, r) == s
    ensures p.TriedSlot(r.service) !in s.vvTried ==>
         TriedAdded(p, s, r)
         == s.(nIdCount := s.nIdCount + 1, mapInfo := s.mapInfo[s.nIdCount := Unpacked(r, |s.vRandom|, true)],
               mapAddr := s.mapAddr[r.service.ip := s.nIdCount], vRandom := s.vRandom + [s.nIdCount],
               nTried := s.nTried + 1, vvTried := s.vvTried[p.TriedSlot(r.service) := s.nIdCount])
  {
    hide Hashing.TriedSlot;
  }

  method ReadBuckets(buckets: seq<seq<int>>, size: nat) returns (e: map<int, nat>)
    ensures e == Homes(buckets, size, |buckets|)
  {
    e := map[];
    for b := 0 to |buckets|
      invariant e == Homes(buckets, size, b)
    {
      ghost var e0 := e;
      for i := 0 to |buckets[b]|
        invariant e == HomesIn(e0, buckets[b][..i], b, size)
      {
        assert buckets[b][..i + 1][..i] == buckets[b][..i];
        var n := buckets[b][i];
        if 0 <= n < size {
          e := e[n := b];
        }
      }
      assert buckets[b][..|buckets[b]|] == buckets[b];
    }
  }

  // Give an entry of the new table a slot back.
  method HouseOne(m: AddrMan, e: map<int, nat>, same: bool, n: Id)
    requires m.Valid() && n in m.mapInfo && (same ==> HomeOf(e, n) < NEW_BUCKET_COUNT)
    modifies m, m.vvNew.cells
    ensures m.p == old(m.p)
    ensures m.Valid() && m.Abs() == Housed(m.p, old(m.Abs()), e, same, n)
    ensures m.vRandom == old(m.vRandom) && m.mapInfo.Keys == old(m.mapInfo.Keys)
  {
    hide BucketTable.Abs, BucketTable.Valid, Hashing.NewSlot, Hashing.NewSlotIn, HomeOf;
    var info := m.mapInfo[n];
    var a := m.p.NewSlotIn(info.service, HomeOf(e, n));
    var taken := -1;
    if same {
      taken := m.vvNew.Get(a);
    }
    if same && taken == -1 && info.nRefCount < NEW_BUCKETS_PER_ADDRESS {
      m.vvNew.Put(a, n);
      m.mapInfo := m.mapInfo[n := info.(nRefCount := info.nRefCount + 1)];
    } else {
      var u := m.p.NewSlot(info.service, info.source);
      var v := m.vvNew.Get(u);
      if v == -1 {
        m.vvNew.Put(u, n);
        m.mapInfo := m.mapInfo[n := info.(nRefCount := info.nRefCount + 1)];
      }
    }
  }

  method House(m: AddrMan, e: map<int, nat>, same: bool, size: nat)
    requires m.Valid() && (forall n: nat :: n < size ==> n in m.mapInfo)
    requires same ==> forall n: nat :: HomeOf(e, n) < NEW_BUCKET_COUNT
    modifies m, m.vvNew.cells
    ensures m.p == old(m.p)
    ensures m.Valid() && m.Abs() == HouseAll(m.p, old(m.Abs()), e, same, size)
    ensures m.vRandom == old(m.vRandom)
  {
    hide BucketTable.Abs, BucketTable.Valid, Housed, HomeOf;
    ghost var s := m.Abs();
    for n := 0 to size
      invariant m.p == old(m.p)
      invariant m.Valid() && m.Abs() == HouseAll(m.p, s, e, same, n)
      invariant m.vRandom == s.vRandom && m.mapInfo.Keys == s.mapInfo.Keys
    {
      HouseOne(m, e, same, n);
    }
  }

  // Delete the entries that found no slot.
  method PruneEntries(m: AddrMan) returns (lost: nat)
    requires m.Valid() && RandomOk(m.Abs())
    modifies m
    ensures m.p == old(m.p)
    ensures m.Valid() && m.Abs() == Prune(old(m.Abs()), old(m.nIdCount))
    ensures |m.vRandom| + lost == old(|m.vRandom|)
  {
    hide BucketTable.Abs, BucketTable.Valid, RandomOk, Delete;
    ghost var s := m.Abs();
    lost := 0;
    for n := 0 to m.nIdCount
      invariant m.p == old(m.p)
      invariant m.Valid() && m.Abs() == Prune(s, n) && RandomOk(m.Abs())
      invariant |m.vRandom| + lost == |s.vRandom|
    {
      PruneRandom(s, n + 1);
      if n in m.mapInfo && !m.mapInfo[n].fInTried && m.mapInfo[n].nRefCount == 0 {
        PlaceOfEntry(m.Abs(), n);
        DeleteShrinks(m.Abs(), n);
        m.Delete(n);
        lost := lost + 1;
      }
    }
  }

  lemma DeleteShrinks(s: State, n: Id)
    requires n in s.mapInfo && InRange(s, s.mapInfo[n].nRandomPos) && |s.vRandom| > 0 && InRange(s, |s.vRandom| - 1)
    ensures |Delete(s, n).vRandom| == |s.vRandom| - 1
  {
  }

  /** A readable file becomes the state Load describes, under the bucketing p of its key and this node's AS
      map. Every record is either an entry now or counted as lost. */
  method Unserialize(p: Hashing, f: File, version: nat) returns (r: Result<AddrMan, string>, lost: nat)
    ensures r.Success? <==> f.Readable()
    ensures r.Success? ==> fresh(r.value) && r.value.p == p && r.value.Valid() && r.value.Abs() == Load(p, f, version)
    ensures r.Success? ==> |r.value.vRandom| + lost == |f.newEntries| + |f.triedEntries|
  {
    hide BucketTable.Abs, BucketTable.Valid, RandomOk, LoadNew, LoadTried, HouseAll, Homes, Prune, Sound;
    lost := 0;
    if (f.compat - INCOMPATIBILITY_BASE) % 256 > FILE_FORMAT {
      return Failure("unsupported format"), 0;
    }
    if |f.newEntries| > NEW_BUCKET_COUNT * BUCKET_SIZE {
      return Failure("nNew exceeds limit"), 0;
    }
    if |f.triedEntries| > TRIED_BUCKET_COUNT * BUCKET_SIZE {
      return Failure("nTried exceeds limit"), 0;
    }
    var m := new AddrMan(p);
    ReadNew(m, f.newEntries);
    LoadNewFacts(f.newEntries, |f.newEntries|);
    LoadTriedFacts(p, LoadNew(f.newEntries, |f.newEntries|), f.triedEntries, |f.triedEntries|);
    var nLost := ReadTried(m, f.triedEntries);
    var e := ReadBuckets(f.buckets, |f.newEntries|);
    HomesBound(f.buckets, |f.newEntries|, |f.buckets|);
    LoadOrdered(p, f, version);
    House(m, e, f.SameBuckets(version), |f.newEntries|);
    var nLostUnk := PruneEntries(m);
    lost := nLost + nLostUnk;
    r := Success(m);
  }

  /** The round trip as it runs: saving a consistent manager and loading the file again succeeds, loses
      nothing and gives a consistent manager with the same entries. */
  method SaveAndLoad(m: AddrMan, version: nat) returns (r: Result<AddrMan, string>, lost: nat)
    requires m.Valid() && Inv(m.p, m.Abs())
    ensures r.Success? && r.value.Valid() && r.value.p == m.p && lost == 0
    ensures Inv(m.p, r.value.Abs()) && Restored(m.Abs(), Order(m.Abs()), r.value.Abs())
    ensures Lists(m.Abs(), Order(m.Abs()), NewSize(m.Abs()))
  {
    hide BucketTable.Abs, BucketTable.Valid, Inv, Restored, Lists, Order, NewSize, Load, Save;
    var f := Serialize(m, version);
    r, lost := Unserialize(m.p, f, version);
    RoundTrip(m.p, m.Abs(), version);
  }
}
