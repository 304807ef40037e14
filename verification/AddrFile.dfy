/**
 The file form of the address manager, src/addrman.h: entries without their slots, then for every bucket
 of the new table the numbers of the entries in it. The tried table and the indexes are not stored; they
 are rebuilt.

 Main results: LoadSound (any file with distinct addresses and sensible times loads into a consistent
 state, whatever its bucket lists say and under whatever bucketing) and RoundTrip (nothing is lost when
 the bucketing is the same).
 */
module AddrFile {
  import opened AddrModel
  import opened AddrOps
  import opened Wrappers

  const FILE_FORMAT: nat := 3
  const INCOMPATIBILITY_BASE: nat := 32

  datatype Record = Record(service: Service, nTime: nat, nServices: set<nat>, source: NetAddr, nLastSuccess: int,
                           nAttempts: nat)

  datatype File = File(
    format: nat, compat: nat, newEntries: seq<Record>, triedEntries: seq<Record>, buckets: seq<seq<int>>,
    asmapVersion: nat)
  {
    // The two exceptions a file can cause.
    predicate Readable() {
      && (compat - INCOMPATIBILITY_BASE) % 256 <= FILE_FORMAT
      && |newEntries| <= NEW_BUCKET_COUNT * BUCKET_SIZE
      && |triedEntries| <= TRIED_BUCKET_COUNT * BUCKET_SIZE
    }

    // Whether the bucket lists apply to a manager with the given AS map.
    predicate SameBuckets(version: nat) {
      format >= 2 && |buckets| == NEW_BUCKET_COUNT && asmapVersion == version
    }
  }

  function RecordOf(info: Info): Record {
    Record(info.service, info.nTime, info.nServices, info.source, info.nLastSuccess, info.nAttempts)
  }

  // ----- loading -----

  // A new entry without slots, with the next id.
  function EntryAdded(s: State, r: Record): State {
    var t := Create(s, Address(r.service, r.nTime, r.nServices), r.source);
    Touch(t, s.nIdCount, t.mapInfo[s.nIdCount].(nLastSuccess := r.nLastSuccess, nAttempts := r.nAttempts))
  }

  function LoadNew(rs: seq<Record>, k: nat): State
    requires k <= |rs|
  {
    if k == 0 then EMPTY else EntryAdded(LoadNew(rs, k - 1), rs[k - 1])
  }

  // A tried entry goes to its slot, or is lost if that is taken.
  function TriedAdded(p: Hashing, s: State, r: Record): State {
    if p.TriedSlot(r.service) in s.vvTried then s else Promote(p, EntryAdded(s, r), s.nIdCount)
  }

  function LoadTried(p: Hashing, s: State, rs: seq<Record>, k: nat): State
    requires k <= |rs|
  {
    if k == 0 then s else TriedAdded(p, LoadTried(p, s, rs, k - 1), rs[k - 1])
  }

  // For each entry the last bucket that lists it.
  function HomesIn(e: map<int, nat>, list: seq<int>, bucket: nat, size: nat): map<int, nat> {
    if list == [] then e else
    var e', n := HomesIn(e, list[..|list| - 1], bucket, size), list[|list| - 1];
    if 0 <= n < size then e'[n := bucket] else e'
  }

  function Homes(buckets: seq<seq<int>>, size: nat, b: nat): map<int, nat>
    requires b <= |buckets|
  {
    if b == 0 then map[] else HomesIn(Homes(buckets, size, b - 1), buckets[b - 1], b - 1, size)
  }

  function HomeOf(e: map<int, nat>, n: nat): nat {
    if n in e then e[n] else 0
  }

  // Give an entry the slot in its home bucket, or failing that the slot its source selects.
  function Housed(p: Hashing, s: State, e: map<int, nat>, same: bool, n: Id): State {
    if n !in s.mapInfo then s else
    var info := s.mapInfo[n];
    var a, u := p.NewSlotIn(info.service, HomeOf(e, n)), p.NewSlot(info.service, info.source);
    if same && a !in s.vvNew && info.nRefCount < NEW_BUCKETS_PER_ADDRESS then Ref(s, a, n)
    else if u !in s.vvNew then Ref(s, u, n)
    else s
  }

  function HouseAll(p: Hashing, s: State, e: map<int, nat>, same: bool, k: nat): State {
    if k == 0 then s else Housed(p, HouseAll(p, s, e, same, k - 1), e, same, k - 1)
  }

  predicate IsUnhoused(s: State, n: Id) {
    n in s.mapInfo && !s.mapInfo[n].fInTried && s.mapInfo[n].nRefCount == 0
  }

  // Delete an entry that found no slot. Its place in the order is always right, see LoadOrdered.
  function PruneOne(s: State, n: Id): State {
    if IsUnhoused(s, n) && InRange(s, s.mapInfo[n].nRandomPos) && |s.vRandom| > 0 && InRange(s, |s.vRandom| - 1)
    then Delete(s, n) else s
  }

  function Prune(s: State, k: nat): State {
    if k == 0 then s else PruneOne(Prune(s, k - 1), k - 1)
  }

  lemma DeleteRandom(s: State, n: Id)
    requires RandomOk(s) && n in s.mapInfo
    requires InRange(s, s.mapInfo[n].nRandomPos) && |s.vRandom| > 0 && InRange(s, |s.vRandom| - 1)
    ensures RandomOk(Delete(s, n))
  {
    hide SwapRandom, RandomOk;
    var i, j := s.mapInfo[n].nRandomPos, |s.vRandom| - 1;
    PlaceOfEntry(s, n);
    SwapRandomOk(s, i, j);
    SwapMoves(s, i, j);
    SwapReorders(s, i, j);
    LastGone(SwapRandom(s, i, j), Delete(s, n), n);
  }

  lemma LastGone(s: State, t: State, n: Id)
    requires RandomOk(s) && n in s.mapInfo && s.mapInfo[n].nRandomPos == |s.vRandom| - 1
    requires t.vRandom == s.vRandom[..|s.vRandom| - 1] && t.mapInfo == s.mapInfo - {n}
    ensures RandomOk(t)
  {
  }

  // The entries of a file, before they are given slots of the new table.
  function Entries(p: Hashing, f: File): State {
    LoadTried(p, LoadNew(f.newEntries, |f.newEntries|), f.triedEntries, |f.triedEntries|)
  }

  function HousedAll(p: Hashing, f: File, version: nat): State {
    HouseAll(p, Entries(p, f), Homes(f.buckets, |f.newEntries|, |f.buckets|), f.SameBuckets(version), |f.newEntries|)
  }

  function Load(p: Hashing, f: File, version: nat): State {
    Prune(HousedAll(p, f, version), HousedAll(p, f, version).nIdCount)
  }

  // ----- which files are read, and how -----

  /** A file is turned down exactly if its byte of compatibility is not one of those for formats 0 to 3, or it has
      more entries than there are slots. */
  lemma ReadableIff(f: File)
    requires f.compat < 256
    ensures f.Readable() <==> 32 <= f.compat <= 35 && |f.newEntries| <= 65536 && |f.triedEntries| <= 16384
  {
  }

  lemma {:induction false} HouseIgnores(p: Hashing, s: State, e: map<int, nat>, e': map<int, nat>, k: nat)
    ensures HouseAll(p, s, e, false, k) == HouseAll(p, s, e', false, k)
    decreases k
  {
    if k > 0 {
      HouseIgnores(p, s, e, e', k - 1);
    }
  }

  /** The bucket lists make no difference in a file of an older format, for another AS map, or with another number of
      buckets. */
  lemma ListsIgnored(p: Hashing, f: File, buckets: seq<seq<int>>, version: nat)
    requires f.format < 2 || f.asmapVersion != version || (|f.buckets| != 1024 && |buckets| != 1024)
    ensures Load(p, f.(buckets := buckets), version) == Load(p, f, version)
  {
    hide Entries, HouseAll, Homes, Prune;
    var g, n := f.(buckets := buckets), |f.newEntries|;
    assert Entries(p, f) == Entries(p, g) by { SameEntriesRead(p, f, g); }
    HouseIgnores(p, Entries(p, f), Homes(f.buckets, n, |f.buckets|), Homes(buckets, n, |buckets|), n);
  }

  lemma SameEntriesRead(p: Hashing, f: File, g: File)
    requires f.newEntries == g.newEntries && f.triedEntries == g.triedEntries
    ensures Entries(p, f) == Entries(p, g)
  {
  }

  /** Formats 2 and 3 are read alike. */
  lemma FormatsAlike(p: Hashing, f: File, version: nat)
    ensures Load(p, f.(format := 2), version) == Load(p, f.(format := 3), version)
  {
    hide Entries, HouseAll, Homes, Prune;
    SameEntriesRead(p, f.(format := 2), f.(format := 3));
  }

  lemma {:induction false} HomesInIs(e: map<int, nat>, list: seq<int>, bucket: nat, size: nat, n: int)
    requires 0 <= n < size
    ensures var r := HomesIn(e, list, bucket, size);
            if n in list then n in r && r[n] == bucket else (n in r <==> n in e) && (n in e ==> r[n] == e[n])
    decreases |list|
  {
    if list != [] {
      HomesInIs(e, list[..|list| - 1], bucket, size, n);
      assert list == list[..|list| - 1] + [list[|list| - 1]];
    }
  }

  /** The bucket an entry is read into: the last that lists it, or the first bucket if none does. */
  lemma {:induction false} HomeIs(buckets: seq<seq<int>>, size: nat, k: nat, n: int, b: nat)
    requires 0 <= n < size && k <= |buckets|
    requires (b < k && n in buckets[b]) || (b == 0 && forall j :: 0 <= j < k ==> n !in buckets[j])
    requires forall j :: b < j < k ==> n !in buckets[j]
    ensures HomeOf(Homes(buckets, size, k), n) == b
    ensures n in Homes(buckets, size, k) <==> exists j :: 0 <= j < k && n in buckets[j]
    decreases k
  {
    if k > 0 {
      HomesInIs(Homes(buckets, size, k - 1), buckets[k - 1], k - 1, size, n);
      if n !in buckets[k - 1] {
        HomeIs(buckets, size, k - 1, n, b);
      }
    }
  }

  // ----- the order of ids is right for every file -----

  lemma EntryAddedRandom(s: State, r: Record)
    requires RandomOk(s) && s.nIdCount == |s.vRandom| && forall n :: n in s.mapInfo ==> n < s.nIdCount
    ensures var t := EntryAdded(s, r);
            RandomOk(t) && t.nIdCount == |t.vRandom| && forall n :: n in t.mapInfo ==> n < t.nIdCount
  {
  }

  ghost predicate Ordered(s: State) {
    RandomOk(s) && s.nIdCount == |s.vRandom| && forall n :: n in s.mapInfo ==> n < s.nIdCount
  }

  lemma {:induction false} LoadNewOrdered(rs: seq<Record>, k: nat)
    requires k <= |rs|
    ensures Ordered(LoadNew(rs, k))
  {
    hide EntryAdded;
    if k > 0 {
      LoadNewOrdered(rs, k - 1);
      EntryAddedRandom(LoadNew(rs, k - 1), rs[k - 1]);
    }
  }

  lemma SamePlaces(s: State, t: State)
    requires Ordered(s) && t.vRandom == s.vRandom && t.nIdCount == s.nIdCount && t.mapInfo.Keys == s.mapInfo.Keys
    requires forall n :: n in s.mapInfo ==> t.mapInfo[n].nRandomPos == s.mapInfo[n].nRandomPos
    ensures Ordered(t)
  {
  }

  lemma {:induction false} LoadTriedOrdered(p: Hashing, s: State, rs: seq<Record>, k: nat)
    requires Ordered(s) && k <= |rs|
    ensures Ordered(LoadTried(p, s, rs, k))
  {
    hide EntryAdded, Ordered, Hashing.TriedSlot;
    if k > 0 {
      LoadTriedOrdered(p, s, rs, k - 1);
      var t := LoadTried(p, s, rs, k - 1);
      assert Ordered(EntryAdded(t, rs[k - 1])) && t.nIdCount in EntryAdded(t, rs[k - 1]).mapInfo by {
        EntryAddedOrdered(t, rs[k - 1]);
      }
      if p.TriedSlot(rs[k - 1].service) !in t.vvTried {
        SamePlaces(EntryAdded(t, rs[k - 1]), LoadTried(p, s, rs, k));
      }
    }
  }

  lemma EntryAddedOrdered(s: State, r: Record)
    requires Ordered(s)
    ensures Ordered(EntryAdded(s, r)) && s.nIdCount in EntryAdded(s, r).mapInfo
  {
    EntryAddedRandom(s, r);
  }

  lemma {:induction false} HouseAllOrdered(p: Hashing, s: State, e: map<int, nat>, same: bool, k: nat)
    requires Ordered(s)
    ensures Ordered(HouseAll(p, s, e, same, k))
  {
    hide Ordered, Housed;
    if k > 0 {
      HouseAllOrdered(p, s, e, same, k - 1);
      HousedOrdered(p, HouseAll(p, s, e, same, k - 1), e, same, k - 1);
    }
  }

  lemma HousedOrdered(p: Hashing, s: State, e: map<int, nat>, same: bool, n: Id)
    requires Ordered(s)
    ensures Ordered(Housed(p, s, e, same, n))
  {
    hide Ordered, Hashing.NewSlot, Hashing.NewSlotIn, HomeOf;
    SamePlaces(s, Housed(p, s, e, same, n));
  }

  lemma {:induction false} PruneRandom(s: State, k: nat)
    requires RandomOk(s)
    ensures RandomOk(Prune(s, k))
  {
    hide RandomOk, Delete;
    if k > 0 {
      PruneRandom(s, k - 1);
      if IsUnhoused(Prune(s, k - 1), k - 1) {
        PlaceOfEntry(Prune(s, k - 1), k - 1);
        DeleteRandom(Prune(s, k - 1), k - 1);
      }
    }
  }

  /** Whatever the file says, the random order of the loaded entries is consistent: pruning is safe. */
  lemma LoadOrdered(p: Hashing, f: File, version: nat)
    ensures Ordered(HousedAll(p, f, version)) && RandomOk(Load(p, f, version))
  {
    hide RandomOk, LoadNew, LoadTried, HouseAll, Prune, Homes;
    LoadNewOrdered(f.newEntries, |f.newEntries|);
    LoadTriedOrdered(p, LoadNew(f.newEntries, |f.newEntries|), f.triedEntries, |f.triedEntries|);
    HouseAllOrdered(p, Entries(p, f), Homes(f.buckets, |f.newEntries|, |f.buckets|), f.SameBuckets(version),
                    |f.newEntries|);
    PruneRandom(HousedAll(p, f, version), HousedAll(p, f, version).nIdCount);
  }

  // ----- a loaded state is consistent -----

  // No address twice, no negative times, and every tried entry has been connected to.
  ghost predicate WellFormed(f: File) {
    var all := f.newEntries + f.triedEntries;
    && (forall i, j :: 0 <= i < j < |all| ==> all[i].service.ip != all[j].service.ip)
    && (forall i :: 0 <= i < |all| ==> all[i].nLastSuccess >= 0)
    && (forall i :: 0 <= i < |f.triedEntries| ==> f.triedEntries[i].nLastSuccess > 0)
  }

  // Every known address is that of one of the first k records.
  ghost predicate KnownFrom(s: State, all: seq<Record>, k: nat) {
    k <= |all| && forall ip :: ip in s.mapAddr ==> exists i :: 0 <= i < k && all[i].service.ip == ip
  }

  lemma EntryAddedKeeps(p: Hashing, s: State, r: Record)
    requires Weak(p, s) && r.service.ip !in s.mapAddr && r.nLastSuccess >= 0
    ensures var t := EntryAdded(s, r);
            && Weak(p, t) && Orphans(t) == Orphans(s) + {s.nIdCount}
            && s.nIdCount in t.mapInfo && RecordOf(t.mapInfo[s.nIdCount]) == r && t.vvTried == s.vvTried
            && t.mapAddr == s.mapAddr[r.service.ip := s.nIdCount] && t.nIdCount == s.nIdCount + 1
  {
    hide RandomOk, AddrOk, TriedOk, NewOk, RefsOk, CountsOk, TimesOk, Orphans;
    var addr := Address(r.service, r.nTime, r.nServices);
    CreateKeeps(p, s, addr, r.source);
    var t, n := Create(s, addr, r.source), s.nIdCount;
    TouchKeeps(p, t, n, t.mapInfo[n].(nLastSuccess := r.nLastSuccess, nAttempts := r.nAttempts));
  }

  lemma {:induction false} LoadNewWeak(p: Hashing, f: File, k: nat)
    requires WellFormed(f) && k <= |f.newEntries|
    ensures Weak(p, LoadNew(f.newEntries, k)) && KnownFrom(LoadNew(f.newEntries, k), f.newEntries + f.triedEntries, k)
  {
    hide Weak, EntryAdded, Orphans;
    var all := f.newEntries + f.triedEntries;
    if k == 0 {
      assert Weak(p, EMPTY) by { EmptySound(p); EmptyWeak(p); }
    } else {
      LoadNewWeak(p, f, k - 1);
      var s, r := LoadNew(f.newEntries, k - 1), f.newEntries[k - 1];
      assert r == all[k - 1];
      EntryAddedKeeps(p, s, r);
      KnownNext(s, EntryAdded(s, r), all, k - 1);
    }
  }

  lemma EmptyWeak(p: Hashing)
    ensures Weak(p, EMPTY)
  {
    EmptySound(p);
  }

  lemma KnownNext(s: State, t: State, all: seq<Record>, k: nat)
    requires KnownFrom(s, all, k) && k < |all| && t.mapAddr == s.mapAddr[all[k].service.ip := s.nIdCount]
    ensures KnownFrom(t, all, k + 1)
  {
  }

  lemma KnownSkip(s: State, all: seq<Record>, k: nat)
    requires KnownFrom(s, all, k) && k < |all|
    ensures KnownFrom(s, all, k + 1)
  {
  }

  lemma {:induction false} LoadTriedWeak(p: Hashing, f: File, k: nat)
    requires WellFormed(f) && k <= |f.triedEntries|
    ensures var s := LoadNew(f.newEntries, |f.newEntries|);
            var t := LoadTried(p, s, f.triedEntries, k);
            Weak(p, t) && KnownFrom(t, f.newEntries + f.triedEntries, |f.newEntries| + k)
  {
    hide Weak, EntryAdded, Orphans, KnownFrom, Hashing.TriedSlot;
    var all, m := f.newEntries + f.triedEntries, |f.newEntries|;
    var s0 := LoadNew(f.newEntries, m);
    if k == 0 {
      LoadNewWeak(p, f, m);
    } else {
      LoadTriedWeak(p, f, k - 1);
      var s, r := LoadTried(p, s0, f.triedEntries, k - 1), f.triedEntries[k - 1];
      assert r == all[m + k - 1];
      if p.TriedSlot(r.service) in s.vvTried {
        KnownSkip(s, all, m + k - 1);
      } else {
        assert r.service.ip !in s.mapAddr by { StillUnknown(f, s, m + k - 1); }
        EntryAddedKeeps(p, s, r);
        PromoteKeeps(p, EntryAdded(s, r), s.nIdCount);
        KnownNext(s, Promote(p, EntryAdded(s, r), s.nIdCount), all, m + k - 1);
      }
    }
  }

  lemma StillUnknown(f: File, s: State, k: nat)
    requires WellFormed(f) && k < |f.newEntries + f.triedEntries| && KnownFrom(s, f.newEntries + f.triedEntries, k)
    ensures (f.newEntries + f.triedEntries)[k].service.ip !in s.mapAddr
  {
  }

  lemma HomesBound(buckets: seq<seq<int>>, size: nat, b: nat)
    requires b <= |buckets|
    ensures forall n :: n in Homes(buckets, size, b) ==> Homes(buckets, size, b)[n] < b
  {
    if b > 0 {
      HomesBound(buckets, size, b - 1);
      HomesInBound(Homes(buckets, size, b - 1), buckets[b - 1], b - 1, size);
    }
  }

  lemma HomesInBound(e: map<int, nat>, list: seq<int>, bucket: nat, size: nat)
    requires forall n :: n in e ==> e[n] <= bucket
    ensures forall n :: n in HomesIn(e, list, bucket, size) ==> HomesIn(e, list, bucket, size)[n] <= bucket
  {
  }

  lemma HousedKeeps(p: Hashing, s: State, e: map<int, nat>, same: bool, n: Id)
    requires Weak(p, s) && (same ==> HomeOf(e, n) < NEW_BUCKET_COUNT) && (n in s.mapInfo ==> n in Orphans(s))
    ensures var t := Housed(p, s, e, same, n);
            Weak(p, t) && Orphans(t) <= Orphans(s) && Orphans(s) <= Orphans(t) + {n} && t.mapInfo.Keys == s.mapInfo.Keys
  {
    hide RandomOk, AddrOk, TriedOk, NewOk, RefsOk, CountsOk, TimesOk, Orphans, Hashing.NewSlot, SameEntries;
    if n in s.mapInfo {
      IsOrphan(s, n);
      var info := s.mapInfo[n];
      var a, u := p.NewSlotIn(info.service, HomeOf(e, n)), p.NewSlot(info.service, info.source);
      if same && a !in s.vvNew {
        RefKeeps(p, s, a, n);
      } else if u !in s.vvNew {
        RefKeeps(p, s, u, n);
      }
    }
  }

  lemma {:induction false} HouseAllKeeps(p: Hashing, s: State, e: map<int, nat>, same: bool, k: nat)
    requires Weak(p, s) && (same ==> forall n: nat :: HomeOf(e, n) < NEW_BUCKET_COUNT)
    requires forall n: nat :: n < k && n in s.mapInfo ==> n in Orphans(s)
    ensures var t := HouseAll(p, s, e, same, k);
            && Weak(p, t) && t.mapInfo.Keys == s.mapInfo.Keys
            && (forall n :: n in Orphans(s) && n >= k ==> n in Orphans(t))
  {
    hide Weak, Orphans, Housed, HomeOf;
    if k > 0 {
      HouseAllKeeps(p, s, e, same, k - 1);
      HouseAllLater(p, s, e, same, k - 1, k - 1);
      HousedKeeps(p, HouseAll(p, s, e, same, k - 1), e, same, k - 1);
    }
  }

  // Entries whose turn has not come keep their slots: none.
  lemma {:induction false} HouseAllLater(p: Hashing, s: State, e: map<int, nat>, same: bool, k: nat, n: Id)
    requires n >= k
    ensures n in s.mapInfo <==> n in HouseAll(p, s, e, same, k).mapInfo
    ensures n in s.mapInfo ==> HouseAll(p, s, e, same, k).mapInfo[n] == s.mapInfo[n]
  {
    hide Hashing.NewSlot, Hashing.NewSlotIn, HomeOf;
    if k > 0 {
      HouseAllLater(p, s, e, same, k - 1, n);
    }
  }

  lemma {:induction false} PruneKeeps(p: Hashing, s: State, k: nat)
    requires Weak(p, s)
    ensures var t := Prune(s, k);
            Weak(p, t) && t.nIdCount == s.nIdCount && forall n :: n in Orphans(t) ==> n >= k
  {
    hide RandomOk, AddrOk, TriedOk, NewOk, RefsOk, CountsOk, TimesOk, Orphans, Delete;
    if k > 0 {
      PruneKeeps(p, s, k - 1);
      var t := Prune(s, k - 1);
      IsOrphan(t, k - 1);
      if IsUnhoused(t, k - 1) {
        PlaceOfEntry(t, k - 1);
        DeleteKeeps(p, t, k - 1);
        DeleteSameCount(t, k - 1);
      }
    }
  }

  lemma DeleteSameCount(s: State, n: Id)
    requires n in s.mapInfo && InRange(s, s.mapInfo[n].nRandomPos) && |s.vRandom| > 0 && InRange(s, |s.vRandom| - 1)
    ensures Delete(s, n).nIdCount == s.nIdCount && Delete(s, n).collisions == s.collisions
  {
  }

  lemma NoOrphans(p: Hashing, s: State)
    requires Weak(p, s) && forall n :: n in Orphans(s) ==> n >= s.nIdCount
    ensures Inv(p, s)
  {
    forall n
      ensures n !in Orphans(s)
    {
      assert n in s.mapInfo ==> n < s.nIdCount;
    }
  }

  // ----- what is loaded, entry by entry -----

  // An entry as it comes out of a file.
  function Unpacked(r: Record, pos: nat, tried: bool): Info {
    Info(r.service, r.nTime, r.nServices, r.source, 0, 0, r.nLastSuccess, r.nAttempts, 0, tried, pos)
  }

  ghost predicate LoadedNew(rs: seq<Record>, k: nat, t: State) {
    && k <= |rs| && t.nIdCount == k && |t.vRandom| == k && t.vvNew == map[] && t.vvTried == map[] && t.collisions == {}
    && t.nNew == k && t.nTried == 0
    && (forall n :: n in t.mapInfo <==> 0 <= n < k)
    && (forall n :: 0 <= n < k ==> t.mapInfo[n] == Unpacked(rs[n], n, false))
  }

  lemma {:induction false} LoadNewFacts(rs: seq<Record>, k: nat)
    requires k <= |rs|
    ensures LoadedNew(rs, k, LoadNew(rs, k))
  {
    hide EntryAdded;
    if k > 0 {
      LoadNewFacts(rs, k - 1);
      EntryAddedFacts(LoadNew(rs, k - 1), rs[k - 1]);
    }
  }

  lemma EntryAddedFacts(s: State, r: Record)
    ensures var t := EntryAdded(s, r);
            && t == s.(nIdCount := s.nIdCount + 1, mapInfo := s.mapInfo[s.nIdCount := Unpacked(r, |s.vRandom|, false)],
                       mapAddr := s.mapAddr[r.service.ip := s.nIdCount], vRandom := s.vRandom + [s.nIdCount],
                       nNew := s.nNew + 1)
  {
  }

  lemma {:induction false} LoadTriedFacts(p: Hashing, s: State, rs: seq<Record>, k: nat)
    requires k <= |rs|
    ensures var t := LoadTried(p, s, rs, k);
            && t.vvNew == s.vvNew && t.collisions == s.collisions && t.nIdCount >= s.nIdCount
            && (forall n :: n in s.mapInfo && n < s.nIdCount ==> n in t.mapInfo && t.mapInfo[n] == s.mapInfo[n])
  {
    hide Hashing.TriedSlot;
    if k > 0 {
      LoadTriedFacts(p, s, rs, k - 1);
    }
  }

  /** Any well-formed file loads into a consistent state, with any bucket lists and any bucketing. */
  lemma LoadSound(p: Hashing, f: File, version: nat)
    requires WellFormed(f)
    ensures Inv(p, Load(p, f, version))
  {
    hide RandomOk, AddrOk, TriedOk, NewOk, RefsOk, CountsOk, TimesOk, Orphans, LoadNew, LoadTried, HouseAll, Prune,
         Homes;
    var m := |f.newEntries|;
    var s := Entries(p, f);
    LoadTriedWeak(p, f, |f.triedEntries|);
    LoadNewFacts(f.newEntries, m);
    LoadTriedFacts(p, LoadNew(f.newEntries, m), f.triedEntries, |f.triedEntries|);
    forall n: nat | n < m
      ensures n in Orphans(s)
    {
      IsOrphan(s, n);
    }
    var e, same := Homes(f.buckets, m, |f.buckets|), f.SameBuckets(version);
    HomesBound(f.buckets, m, |f.buckets|);
    HouseAllKeeps(p, s, e, same, m);
    var t := HousedAll(p, f, version);
    PruneKeeps(p, t, t.nIdCount);
    NoOrphans(p, Load(p, f, version));
  }

  // ----- saving -----

  predicate IsListed(m: map<Id, Info>, tried: bool, n: Id) {
    n in m && if tried then m[n].fInTried else m[n].nRefCount != 0
  }

  // The ids below k of the entries of the new (or tried) table, in order.
  function Listed(m: map<Id, Info>, tried: bool, k: nat): seq<Id> {
    if k == 0 then [] else
    var l := Listed(m, tried, k - 1);
    if IsListed(m, tried, k - 1) then l + [k - 1] else l
  }

  function RecordsOf(m: map<Id, Info>, ids: seq<Id>): seq<Record>
    requires forall i :: 0 <= i < |ids| ==> ids[i] in m
  {
    seq(|ids|, i requires 0 <= i < |ids| => RecordOf(m[ids[i]]))
  }

  // The number of an entry of the new table in the file.
  function Rank(m: map<Id, Info>, n: Id): nat {
    |Listed(m, false, n)|
  }

  function BucketList(s: State, b: nat, i: nat): seq<int> {
    if i == 0 then [] else
    var l := BucketList(s, b, i - 1);
    if Slot(b, i - 1) in s.vvNew then l + [Rank(s.mapInfo, s.vvNew[Slot(b, i - 1)])] else l
  }

  function BucketLists(s: State, b: nat): seq<seq<int>> {
    if b == 0 then [] else BucketLists(s, b - 1) + [BucketList(s, b - 1, BUCKET_SIZE)]
  }

  // In increasing order, all below k.
  ghost predicate ListOk(m: map<Id, Info>, tried: bool, k: nat, l: seq<Id>) {
    && (forall i :: 0 <= i < |l| ==> l[i] < k && IsListed(m, tried, l[i]))
    && (forall i, j :: 0 <= i < j < |l| ==> l[i] < l[j])
  }

  lemma {:induction false} ListedMeaning(m: map<Id, Info>, tried: bool, k: nat)
    ensures ListOk(m, tried, k, Listed(m, tried, k))
  {
    hide IsListed;
    if k > 0 {
      ListedMeaning(m, tried, k - 1);
    }
  }

  lemma {:induction false} ListedAt(m: map<Id, Info>, tried: bool, n: Id, k: nat)
    requires n < k && IsListed(m, tried, n)
    ensures |Listed(m, tried, n)| < |Listed(m, tried, k)| && Listed(m, tried, k)[|Listed(m, tried, n)|] == n
    decreases k
  {
    hide IsListed;
    if n < k - 1 {
      ListedAt(m, tried, n, k - 1);
    }
  }

  function Save(s: State, version: nat): File {
    var m := s.mapInfo;
    assert forall i :: 0 <= i < |Listed(m, false, s.nIdCount)| ==> Listed(m, false, s.nIdCount)[i] in m by {
      ListedMeaning(m, false, s.nIdCount);
    }
    assert forall i :: 0 <= i < |Listed(m, true, s.nIdCount)| ==> Listed(m, true, s.nIdCount)[i] in m by {
      ListedMeaning(m, true, s.nIdCount);
    }
    File(FILE_FORMAT, INCOMPATIBILITY_BASE + FILE_FORMAT, RecordsOf(m, Listed(m, false, s.nIdCount)),
         RecordsOf(m, Listed(m, true, s.nIdCount)), BucketLists(s, NEW_BUCKET_COUNT), version)
  }

  // The old ids in the order of the new ones.
  function Order(s: State): seq<Id> {
    Listed(s.mapInfo, false, s.nIdCount) + Listed(s.mapInfo, true, s.nIdCount)
  }

  function NewSize(s: State): nat {
    |Listed(s.mapInfo, false, s.nIdCount)|
  }

  // The order lists every entry once, the new ones first.
  ghost predicate Lists(s: State, order: seq<Id>, nn: nat) {
    && nn <= |order|
    && (forall i :: 0 <= i < |order| ==> order[i] in s.mapInfo && (s.mapInfo[order[i]].fInTried <==> i >= nn))
    && (forall i, j :: 0 <= i < j < |order| ==> order[i] != order[j])
    && (forall n :: n in s.mapInfo ==> n in order)
  }

  lemma ListedIff(p: Hashing, s: State, n: Id)
    requires Inv(p, s) && n in s.mapInfo
    ensures n < s.nIdCount && (s.mapInfo[n].nRefCount != 0 <==> !s.mapInfo[n].fInTried)
  {
    hide RandomOk, TriedOk, CountsOk, TimesOk;
    IsOrphan(s, n);
    if s.mapInfo[n].fInTried {
      TriedHoldsNone(p, s, n);
    }
  }

  lemma OrderLists(p: Hashing, s: State)
    requires Inv(p, s)
    ensures Lists(s, Order(s), NewSize(s))
  {
    hide Inv, Listed;
    var order := Order(s);
    var a, b := Listed(s.mapInfo, false, s.nIdCount), Listed(s.mapInfo, true, s.nIdCount);
    ListedMeaning(s.mapInfo, false, s.nIdCount);
    ListedMeaning(s.mapInfo, true, s.nIdCount);
    forall n | n in s.mapInfo
      ensures n < s.nIdCount && (s.mapInfo[n].nRefCount != 0 <==> !s.mapInfo[n].fInTried)
    {
      ListedIff(p, s, n);
    }
    forall n | n in s.mapInfo
      ensures n in a + b
    {
      if s.mapInfo[n].fInTried {
        ListedAt(s.mapInfo, true, n, s.nIdCount);
        assert n in b;
      } else {
        ListedAt(s.mapInfo, false, n, s.nIdCount);
        assert n in a;
      }
    }
    assert forall i :: 0 <= i < |a| ==> order[i] == a[i];
    assert forall i :: |a| <= i < |order| ==> order[i] == b[i - |a|];
  }

  // ----- round trip: the tried table -----

  // The first k entries of the order have been loaded.
  ghost predicate LoadedEntries(s: State, order: seq<Id>, nn: nat, k: nat, t: State) {
    && nn <= k <= |order| && t.nIdCount == k && t.vvNew == map[]
    && (forall n :: n in t.mapInfo <==> 0 <= n < k)
    && (forall n :: 0 <= n < k && order[n] in s.mapInfo ==>
          t.mapInfo[n] == Unpacked(RecordOf(s.mapInfo[order[n]]), t.mapInfo[n].nRandomPos, n >= nn))
  }

  // The tried ones are where they were.
  ghost predicate LoadedSlots(p: Hashing, s: State, order: seq<Id>, nn: nat, k: nat, vvTried: Table) {
    && k <= |order|
    && (forall a :: a in vvTried ==> a in s.vvTried && nn <= vvTried[a] < k && order[vvTried[a]] == s.vvTried[a])
    && (forall n :: nn <= n < k && order[n] in s.mapInfo ==>
          var a := p.TriedSlot(s.mapInfo[order[n]].service); a in vvTried && vvTried[a] == n)
  }

  ghost predicate LoadedTo(p: Hashing, s: State, order: seq<Id>, nn: nat, k: nat, t: State) {
    LoadedEntries(s, order, nn, k, t) && LoadedSlots(p, s, order, nn, k, t.vvTried)
  }

  lemma TriedAddedFacts(p: Hashing, t: State, r: Record)
    requires p.TriedSlot(r.service) !in t.vvTried
    ensures var u := TriedAdded(p, t, r);
            && u.nIdCount == t.nIdCount + 1 && u.vvNew == t.vvNew
            && u.mapInfo == t.mapInfo[t.nIdCount := Unpacked(r, |t.vRandom|, true)]
            && u.vvTried == t.vvTried[p.TriedSlot(r.service) := t.nIdCount]
  {
    hide Hashing.TriedSlot;
  }

  lemma SlotStillFree(p: Hashing, s: State, order: seq<Id>, nn: nat, k: nat, vvTried: Table)
    requires TriedOk(p, s) && Lists(s, order, nn) && LoadedSlots(p, s, order, nn, k, vvTried) && nn <= k < |order|
    ensures var a := p.TriedSlot(s.mapInfo[order[k]].service);
            a !in vvTried && LoadedSlots(p, s, order, nn, k + 1, vvTried[a := k])
  {
    hide Hashing.TriedSlot;
    var a := p.TriedSlot(s.mapInfo[order[k]].service);
    assert a in s.vvTried && s.vvTried[a] == order[k];
  }

  lemma TriedNext(p: Hashing, s: State, order: seq<Id>, nn: nat, k: nat, t: State)
    requires TriedOk(p, s) && Lists(s, order, nn) && LoadedTo(p, s, order, nn, k, t) && k < |order|
    ensures p.TriedSlot(s.mapInfo[order[k]].service) !in t.vvTried
    ensures LoadedTo(p, s, order, nn, k + 1, TriedAdded(p, t, RecordOf(s.mapInfo[order[k]])))
  {
    hide Hashing.TriedSlot, TriedOk, LoadedSlots, TriedAdded;
    SlotStillFree(p, s, order, nn, k, t.vvTried);
    TriedAddedFacts(p, t, RecordOf(s.mapInfo[order[k]]));
  }

  lemma {:induction false} TriedRestored(p: Hashing, s: State, version: nat, k: nat)
    requires Inv(p, s) && k <= |Save(s, version).triedEntries|
    ensures var f := Save(s, version);
            LoadedTo(p, s, Order(s), NewSize(s), NewSize(s) + k,
                     LoadTried(p, LoadNew(f.newEntries, |f.newEntries|), f.triedEntries, k))
  {
    hide RandomOk, AddrOk, TriedOk, NewOk, RefsOk, CountsOk, TimesOk, Orphans, Listed, Lists, TriedAdded, LoadedTo,
         LoadNew,
         BucketLists;
    var f, order, nn := Save(s, version), Order(s), NewSize(s);
    var s0 := LoadNew(f.newEntries, nn);
    OrderLists(p, s);
    if k == 0 {
      LoadNewFacts(f.newEntries, nn);
      NewRestored(p, s, order, nn, f.newEntries, s0);
    } else {
      TriedRestored(p, s, version, k - 1);
      TriedNext(p, s, order, nn, nn + k - 1, LoadTried(p, s0, f.triedEntries, k - 1));
      assert order[nn + k - 1] == Listed(s.mapInfo, true, s.nIdCount)[k - 1];
    }
  }

  lemma NewRestored(p: Hashing, s: State, order: seq<Id>, nn: nat, rs: seq<Record>, t: State)
    requires Lists(s, order, nn) && |rs| == nn && forall i :: 0 <= i < nn ==> rs[i] == RecordOf(s.mapInfo[order[i]])
    requires t.nIdCount == nn && t.vvNew == map[] && t.vvTried == map[] && forall n :: n in t.mapInfo <==> 0 <= n < nn
    requires forall n :: 0 <= n < nn ==> t.mapInfo[n] == Unpacked(rs[n], n, false)
    ensures LoadedTo(p, s, order, nn, nn, t)
  {
    hide Hashing.TriedSlot;
  }

  // ----- round trip: the home buckets -----

  // The slot an entry of the new table gets back.
  function HomeSlot(p: Hashing, s: State, n: Id, bucket: nat): Slot
    requires n in s.mapInfo
  {
    p.NewSlotIn(s.mapInfo[n].service, bucket)
  }

  ghost predicate HomesRight(p: Hashing, s: State, order: seq<Id>, nn: nat, e: map<int, nat>) {
    forall n :: n in e ==> 0 <= n < nn <= |order| && order[n] in s.mapInfo &&
                           var a := HomeSlot(p, s, order[n], e[n]); a in s.vvNew && s.vvNew[a] == order[n]
  }

  // The holders of the slots in the buckets before b and the positions before i of bucket b have a home.
  ghost predicate HomesFound(s: State, b: nat, i: nat, e: map<int, nat>) {
    forall a :: a in s.vvNew && (a.bucket < b || (a.bucket == b && a.pos < i)) ==> Rank(s.mapInfo, s.vvNew[a]) in e
  }

  lemma RankOf(p: Hashing, s: State, a: Slot)
    requires Inv(p, s) && a in s.vvNew
    ensures var n := s.vvNew[a];
            && n in s.mapInfo && Rank(s.mapInfo, n) < NewSize(s) <= |Order(s)| && Order(s)[Rank(s.mapInfo, n)] == n
            && a == HomeSlot(p, s, n, a.bucket) && a.bucket < NEW_BUCKET_COUNT && a.pos < BUCKET_SIZE
  {
    hide RandomOk, AddrOk, TriedOk, CountsOk, TimesOk, Orphans, Listed;
    NewSlotPlace(p, s, a);
    TakenHasRef(p, s, a);
    ListedIff(p, s, s.vvNew[a]);
    ListedAt(s.mapInfo, false, s.vvNew[a], s.nIdCount);
  }

  lemma {:induction false} HomesOfBucket(p: Hashing, s: State, e: map<int, nat>, b: nat, i: nat)
    requires Inv(p, s) && HomesRight(p, s, Order(s), NewSize(s), e) && HomesFound(s, b, 0, e)
    ensures HomesRight(p, s, Order(s), NewSize(s), HomesIn(e, BucketList(s, b, i), b, NewSize(s)))
    ensures HomesFound(s, b, i, HomesIn(e, BucketList(s, b, i), b, NewSize(s)))
    decreases i
  {
    hide Inv, Listed, Order, NewSize, HomeSlot, Rank, HomesRight, HomesFound;
    if i > 0 {
      HomesOfBucket(p, s, e, b, i - 1);
      var l, e' := BucketList(s, b, i - 1), HomesIn(e, BucketList(s, b, i - 1), b, NewSize(s));
      var a := Slot(b, i - 1);
      if a in s.vvNew {
        RankOf(p, s, a);
        var r := Rank(s.mapInfo, s.vvNew[a]);
        assert (l + [r])[..|l|] == l;
        HomeAdded(p, s, Order(s), NewSize(s), e', a, r);
      } else {
        HomeSkipped(s, b, i - 1, e');
      }
    }
  }

  lemma HomeAdded(p: Hashing, s: State, order: seq<Id>, nn: nat, e: map<int, nat>, a: Slot, r: nat)
    requires HomesRight(p, s, order, nn, e) && HomesFound(s, a.bucket, a.pos, e)
    requires a in s.vvNew && r == Rank(s.mapInfo, s.vvNew[a]) && r < nn <= |order| && order[r] == s.vvNew[a]
    requires order[r] in s.mapInfo && a == HomeSlot(p, s, order[r], a.bucket)
    ensures HomesRight(p, s, order, nn, e[r := a.bucket]) && HomesFound(s, a.bucket, a.pos + 1, e[r := a.bucket])
  {
    hide HomeSlot, Rank;
  }

  lemma HomeSkipped(s: State, b: nat, i: nat, e: map<int, nat>)
    requires HomesFound(s, b, i, e) && Slot(b, i) !in s.vvNew
    ensures HomesFound(s, b, i + 1, e)
  {
    hide Rank;
  }

  lemma HomesRow(p: Hashing, s: State, b: nat, e: map<int, nat>)
    requires Inv(p, s) && HomesFound(s, b, BUCKET_SIZE, e)
    ensures HomesFound(s, b + 1, 0, e)
  {
    hide Inv, Rank, Listed, Order, NewSize, HomeSlot;
    forall a | a in s.vvNew
      ensures a.pos < BUCKET_SIZE
    {
      RankOf(p, s, a);
    }
  }

  lemma {:induction false} HomesRestored(p: Hashing, s: State, b: nat)
    requires Inv(p, s)
    ensures |BucketLists(s, b)| == b
    ensures HomesRight(p, s, Order(s), NewSize(s), Homes(BucketLists(s, b), NewSize(s), b))
    ensures HomesFound(s, b, 0, Homes(BucketLists(s, b), NewSize(s), b))
  {
    hide Inv, Order, NewSize, HomesRight, HomesFound, BucketList;
    if b == 0 {
      HomesStart(p, s);
    } else {
      HomesRestored(p, s, b - 1);
      var e := Homes(BucketLists(s, b - 1), NewSize(s), b - 1);
      HomesOfBucket(p, s, e, b - 1, BUCKET_SIZE);
      HomesRow(p, s, b - 1, HomesIn(e, BucketList(s, b - 1, BUCKET_SIZE), b - 1, NewSize(s)));
      HomesPrefix(BucketLists(s, b - 1), BucketLists(s, b), NewSize(s), b - 1);
    }
  }

  lemma HomesStart(p: Hashing, s: State)
    ensures HomesRight(p, s, Order(s), NewSize(s), map[]) && HomesFound(s, 0, 0, map[])
  {
  }

  lemma {:induction false} HomesPrefix(x: seq<seq<int>>, y: seq<seq<int>>, size: nat, b: nat)
    requires b <= |x| && b <= |y| && forall i :: 0 <= i < b ==> x[i] == y[i]
    ensures Homes(x, size, b) == Homes(y, size, b)
  {
    if b > 0 {
      HomesPrefix(x, y, size, b - 1);
    }
  }

  // Every entry of the new table has a home.
  lemma EveryoneHasHome(p: Hashing, s: State, e: map<int, nat>, k: nat)
    requires Inv(p, s) && HomesFound(s, NEW_BUCKET_COUNT, 0, e) && k < NewSize(s)
    ensures k in e
  {
    hide RandomOk, AddrOk, TriedOk, CountsOk, TimesOk, NewOk, Listed, Order, NewSize, Rank, HomeSlot;
    OrderLists(p, s);
    var n := Order(s)[k];
    ListedIff(p, s, n);
    assert Held(s.vvNew, n) != {};
    var a :| a in Held(s.vvNew, n);
    RankOf(p, s, a);
  }

  // ----- round trip: the new table -----

  // The first k entries are back in one of the slots they held.
  ghost predicate HousedTo(s: State, order: seq<Id>, k: nat, t0: State, t: State) {
    && k <= |order| && t == t0.(mapInfo := t.mapInfo, vvNew := t.vvNew) && t.mapInfo.Keys == t0.mapInfo.Keys
    && (forall n :: n in t.mapInfo ==> t.mapInfo[n] == t0.mapInfo[n].(nRefCount := if n < k then 1 else 0))
    && (forall a :: a in t.vvNew ==> t.vvNew[a] < k && a in s.vvNew && order[t.vvNew[a]] == s.vvNew[a])
  }

  lemma HouseNext(p: Hashing, s: State, order: seq<Id>, nn: nat, e: map<int, nat>, k: nat, t0: State, t: State)
    requires Lists(s, order, nn) && HomesRight(p, s, order, nn, e) && HousedTo(s, order, k, t0, t) && k < nn && k in e
    requires k in t0.mapInfo && t0.mapInfo[k].service == s.mapInfo[order[k]].service
    ensures HousedTo(s, order, k + 1, t0, Housed(p, t, e, true, k))
  {
    hide Hashing.NewSlotIn, Hashing.NewSlot;
    var a := HomeSlot(p, s, order[k], e[k]);
    assert a in s.vvNew && s.vvNew[a] == order[k];
    assert a !in t.vvNew;
    assert Housed(p, t, e, true, k) == Ref(t, a, k);
  }

  lemma {:induction false} NewTableRestored(p: Hashing, s: State, e: map<int, nat>, k: nat, t0: State)
    requires Inv(p, s) && HomesRight(p, s, Order(s), NewSize(s), e) && HomesFound(s, NEW_BUCKET_COUNT, 0, e)
    requires LoadedEntries(s, Order(s), NewSize(s), |Order(s)|, t0) && k <= NewSize(s)
    ensures HousedTo(s, Order(s), k, t0, HouseAll(p, t0, e, true, k))
    decreases k
  {
    hide Inv, Order, NewSize, HomesRight, HomesFound, Housed, Listed;
    OrderLists(p, s);
    if k > 0 {
      NewTableRestored(p, s, e, k - 1, t0);
      EveryoneHasHome(p, s, e, k - 1);
      hide HousedTo;
      HouseNext(p, s, Order(s), NewSize(s), e, k - 1, t0, HouseAll(p, t0, e, true, k - 1));
    }
  }

  lemma {:induction false} PruneNone(s: State, k: nat)
    requires forall n :: !IsUnhoused(s, n)
    ensures Prune(s, k) == s
  {
    if k > 0 {
      PruneNone(s, k - 1);
    }
  }

  // ----- round trip: the sizes -----

  function Row(b: nat, i: nat): (g: set<Slot>)
    ensures |g| == i && forall a :: a in g <==> a.bucket == b && a.pos < i
  {
    if i == 0 then {} else Row(b, i - 1) + {Slot(b, i - 1)}
  }

  function Grid(b: nat): (g: set<Slot>)
    ensures |g| == b * BUCKET_SIZE && forall a :: a in g <==> a.bucket < b && a.pos < BUCKET_SIZE
  {
    if b == 0 then {} else
    var g, r := Grid(b - 1), Row(b - 1, BUCKET_SIZE);
    assert g !! r;
    assert |g + r| == |g| + |r|;
    g + r
  }

  lemma {:induction false} DistinctFit(slots: seq<Slot>, g: set<Slot>)
    requires forall i :: 0 <= i < |slots| ==> slots[i] in g
    requires forall i, j :: 0 <= i < j < |slots| ==> slots[i] != slots[j]
    ensures |slots| <= |g|
  {
    if slots != [] {
      var last := slots[|slots| - 1];
      DistinctFit(slots[..|slots| - 1], g - {last});
      assert |g - {last}| == |g| - 1;
    }
  }

  // Different entries have different slots.
  lemma HoldersFit(t: Table, slots: seq<Slot>, ids: seq<Id>, b: nat)
    requires |slots| == |ids| && forall i :: 0 <= i < |ids| ==> slots[i] in t && t[slots[i]] == ids[i]
    requires forall i :: 0 <= i < |ids| ==> slots[i].bucket < b && slots[i].pos < BUCKET_SIZE
    requires forall i, j :: 0 <= i < j < |ids| ==> ids[i] != ids[j]
    ensures |ids| <= b * BUCKET_SIZE
  {
    DistinctFit(slots, Grid(b));
  }

  lemma TriedFit(p: Hashing, s: State, ids: seq<Id>)
    requires TriedOk(p, s) && forall i :: 0 <= i < |ids| ==> ids[i] in s.mapInfo && s.mapInfo[ids[i]].fInTried
    requires forall i, j :: 0 <= i < j < |ids| ==> ids[i] != ids[j]
    ensures |ids| <= TRIED_BUCKET_COUNT * BUCKET_SIZE
  {
    hide Hashing.TriedSlot;
    var slots := seq(|ids|, i requires 0 <= i < |ids| => p.TriedSlot(s.mapInfo[ids[i]].service));
    HoldersFit(s.vvTried, slots, ids, TRIED_BUCKET_COUNT);
  }

  ghost function SomeSlot(t: Table, n: Id): (a: Slot)
    ensures Held(t, n) != {} ==> a in t && t[a] == n
  {
    if Held(t, n) != {} then var a :| a in Held(t, n); a else Slot(0, 0)
  }

  lemma NewFit(p: Hashing, s: State, ids: seq<Id>)
    requires NewOk(p, s) && RefsOk(s) && forall i :: 0 <= i < |ids| ==>
             ids[i] in s.mapInfo && s.mapInfo[ids[i]].nRefCount != 0
    requires forall i, j :: 0 <= i < j < |ids| ==> ids[i] != ids[j]
    ensures |ids| <= NEW_BUCKET_COUNT * BUCKET_SIZE
  {
    hide Hashing.NewSlotIn, SomeSlot;
    var slots := seq(|ids|, i requires 0 <= i < |ids| => SomeSlot(s.vvNew, ids[i]));
    forall i | 0 <= i < |ids|
      ensures slots[i] in s.vvNew && s.vvNew[slots[i]] == ids[i]
    {
      assert |Held(s.vvNew, ids[i])| != 0;
    }
    HoldersFit(s.vvNew, slots, ids, NEW_BUCKET_COUNT);
  }

  lemma SavedReadable(p: Hashing, s: State, version: nat)
    requires Inv(p, s)
    ensures Save(s, version).Readable()
  {
    hide RandomOk, AddrOk, TriedOk, NewOk, RefsOk, CountsOk, TimesOk, Orphans, Listed, BucketLists;
    ListedMeaning(s.mapInfo, false, s.nIdCount);
    ListedMeaning(s.mapInfo, true, s.nIdCount);
    TriedFit(p, s, Listed(s.mapInfo, true, s.nIdCount));
    NewFit(p, s, Listed(s.mapInfo, false, s.nIdCount));
  }

  // ----- round trip -----

  lemma SavedWellFormed(p: Hashing, s: State, version: nat)
    requires Inv(p, s)
    ensures WellFormed(Save(s, version))
  {
    hide RandomOk, TriedOk, NewOk, RefsOk, CountsOk, Orphans, Listed, BucketLists;
    OrderLists(p, s);
    var f, order := Save(s, version), Order(s);
    var all := f.newEntries + f.triedEntries;
    assert |all| == |order|;
    forall i | 0 <= i < |all|
      ensures all[i] == RecordOf(s.mapInfo[order[i]])
    {
    }
    forall i | 0 <= i < |f.triedEntries|
      ensures f.triedEntries[i].nLastSuccess > 0
    {
      assert f.triedEntries[i] == all[i + NewSize(s)];
    }
  }

  /** t is s with the ids renamed, without the memory-only statistics, and with every entry of the new table
      in exactly one of the slots it had. */
  ghost predicate Restored(s: State, order: seq<Id>, t: State) {
    && (forall n :: n in t.mapInfo <==> 0 <= n < |order|)
    && (forall n :: 0 <= n < |order| ==>
          && order[n] in s.mapInfo && RecordOf(t.mapInfo[n]) == RecordOf(s.mapInfo[order[n]])
          && t.mapInfo[n].fInTried == s.mapInfo[order[n]].fInTried
          && (!t.mapInfo[n].fInTried ==> t.mapInfo[n].nRefCount == 1))
    && t.vvTried.Keys == s.vvTried.Keys
    && (forall a :: a in t.vvTried ==> t.vvTried[a] < |order| && order[t.vvTried[a]] == s.vvTried[a])
    && (forall a :: a in t.vvNew ==> a in s.vvNew && t.vvNew[a] < |order| && order[t.vvNew[a]] == s.vvNew[a])
  }

  lemma RestoredEntries(s: State, order: seq<Id>, nn: nat, t0: State, t: State)
    requires Lists(s, order, nn) && LoadedEntries(s, order, nn, |order|, t0) && HousedTo(s, order, nn, t0, t)
    ensures forall n :: n in t.mapInfo <==> 0 <= n < |order|
    ensures forall n :: 0 <= n < |order| ==>
              && order[n] in s.mapInfo && RecordOf(t.mapInfo[n]) == RecordOf(s.mapInfo[order[n]])
              && t.mapInfo[n].fInTried == s.mapInfo[order[n]].fInTried
              && (!t.mapInfo[n].fInTried ==> t.mapInfo[n].nRefCount == 1)
    ensures forall n :: !IsUnhoused(t, n)
  {
  }

  lemma RestoredTried(p: Hashing, s: State, order: seq<Id>, nn: nat, vvTried: Table)
    requires TriedOk(p, s) && Lists(s, order, nn) && LoadedSlots(p, s, order, nn, |order|, vvTried)
    ensures vvTried.Keys == s.vvTried.Keys
  {
    hide Hashing.TriedSlot;
    forall a | a in s.vvTried
      ensures a in vvTried
    {
      var n := s.vvTried[a];
      assert n in order;
      var i :| 0 <= i < |order| && order[i] == n;
    }
  }

  lemma RestoredAll(p: Hashing, s: State, order: seq<Id>, nn: nat, t0: State, t: State)
    requires TriedOk(p, s) && Lists(s, order, nn) && LoadedTo(p, s, order, nn, |order|, t0)
             && HousedTo(s, order, nn, t0, t)
    ensures Restored(s, order, t) && forall n :: !IsUnhoused(t, n)
  {
    RestoredEntries(s, order, nn, t0, t);
    RestoredTried(p, s, order, nn, t0.vvTried);
    hide Hashing.TriedSlot, TriedOk, LoadedEntries, Lists, IsUnhoused;
  }

  /** Saving and loading under the same bucketing loses nothing: no exception, no address lost from either
      table, the tried table as it was up to the renaming of ids, every new entry in exactly one of the
      slots it had, and the whole invariant again. */
  lemma RoundTrip(p: Hashing, s: State, version: nat)
    requires Inv(p, s)
    ensures Save(s, version).Readable()
    ensures var t := Load(p, Save(s, version), version);
            Inv(p, t) && Restored(s, Order(s), t) && Lists(s, Order(s), NewSize(s)) && t.nIdCount == |Order(s)|
    ensures |Load(p, Save(s, version), version).vRandom|
         == |Save(s, version).newEntries| + |Save(s, version).triedEntries|
  {
    hide RandomOk, AddrOk, TriedOk, NewOk, RefsOk, CountsOk, TimesOk, Orphans, Listed, BucketLists, LoadNew, LoadTried,
         HouseAll,
         Prune, Homes, LoadedEntries, LoadedSlots, Lists, WellFormed, HomesRight, HomesFound, IsUnhoused, Restored;
    var f, order, nn := Save(s, version), Order(s), NewSize(s);
    SavedReadable(p, s, version);
    SavedWellFormed(p, s, version);
    LoadSound(p, f, version);
    OrderLists(p, s);
    TriedRestored(p, s, version, |f.triedEntries|);
    var t0 := Entries(p, f);
    HomesRestored(p, s, NEW_BUCKET_COUNT);
    var e := Homes(f.buckets, nn, NEW_BUCKET_COUNT);
    NewTableRestored(p, s, e, nn, t0);
    var t := HousedAll(p, f, version);
    RestoredAll(p, s, order, nn, t0, t);
    PruneNone(t, t.nIdCount);
    LoadedCount(s, order, nn, t0);
    LoadOrdered(p, f, version);
  }

  lemma LoadedCount(s: State, order: seq<Id>, nn: nat, t: State)
    requires LoadedEntries(s, order, nn, |order|, t)
    ensures t.nIdCount == |order|
  {
  }
}
