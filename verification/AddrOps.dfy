/**
 The calls of src/addrman.cpp as functions on whole states, composed of the small changes of
 AddrModel.

 Main results: RunInv (every run keeps the whole consistency check, so every internal assertion
 holds, and a tried slot once occupied stays occupied), GoodFindsBucket, and NeverUncollides (an entry
 waiting for a tried slot always finds that slot occupied).
 */
module AddrOps {
  import opened AddrModel
  import opened Wrappers

  // ----- statistics -----

  const DAY: int := 24 * 60 * 60
  const HORIZON_DAYS: int := 30
  const RETRIES: nat := 3
  const MAX_FAILURES: nat := 10
  const MIN_FAIL_DAYS: int := 7
  const REPLACEMENT_HOURS: int := 4
  const TEST_WINDOW: int := 40 * 60

  predicate IsTerrible(info: Info, now: int) {
    if info.nLastTry != 0 && info.nLastTry >= now - 60 then false
    else
      || info.nTime > now + 3 * 60
      || info.nTime == 0 || now - info.nTime > HORIZON_DAYS * DAY
      || (info.nLastSuccess == 0 && info.nAttempts >= RETRIES)
      || (now - info.nLastSuccess > MIN_FAIL_DAYS * DAY && info.nAttempts >= MAX_FAILURES)
  }

  // ----- what later calls may rely on -----

  /** Ids are never reused, surviving entries keep their address, and a tried slot once occupied stays
      occupied. */
  ghost predicate Grows(s: State, t: State) {
    && s.nIdCount <= t.nIdCount && t.collisions == s.collisions
    && s.vvTried.Keys <= t.vvTried.Keys
    && (forall n :: n in t.mapInfo && n < s.nIdCount ==> n in s.mapInfo && t.mapInfo[n].service == s.mapInfo[n].service)
  }

  lemma GrowsKeepsCollisions(p: Hashing, s: State, t: State)
    requires CollisionsOk(p, s) && Grows(s, t)
    ensures CollisionsOk(p, t)
  {
    hide Hashing.TriedSlot;
  }

  // ----- ClearNew -----

  ghost function ClearNew(p: Hashing, s: State, a: Slot): State
    requires Weak(p, s)
  {
    if a !in s.vvNew then s else
    UnrefKeeps(p, s, a);
    var n, t := s.vvNew[a], Unref(s, a);
    if t.mapInfo[n].nRefCount == 0 then DeleteKeeps(p, t, n); Delete(t, n) else t
  }

  // Nothing but the slot and its holder is affected, and the holder only disappears with its last slot.
  ghost predicate Cleared(s: State, a: Slot, t: State) {
    && t.vvNew == s.vvNew - {a} && t.vvTried == s.vvTried && t.nIdCount == s.nIdCount && t.collisions == s.collisions
    && t.nLastGood == s.nLastGood && t.mapInfo.Keys <= s.mapInfo.Keys
    && (forall n :: n in s.mapInfo && !(a in s.vvNew && s.vvNew[a] == n) ==>
          n in t.mapInfo && t.mapInfo[n].nRefCount == s.mapInfo[n].nRefCount)
    && (forall n :: n in t.mapInfo ==> SameStatistics(s.mapInfo[n], t.mapInfo[n]))
  }

  // Versions of an entry that differ only in reference count and random position.
  predicate SameStatistics(a: Info, b: Info) {
    b == a.(nRefCount := b.nRefCount, nRandomPos := b.nRandomPos)
  }

  lemma ClearNewEffect(p: Hashing, s: State, a: Slot)
    requires Weak(p, s)
    ensures Cleared(s, a, ClearNew(p, s, a))
  {
    hide RandomOk, AddrOk, TriedOk, NewOk, RefsOk, CountsOk, TimesOk, Orphans, SameEntries;
    if a in s.vvNew {
      UnrefKeeps(p, s, a);
      var n, t := s.vvNew[a], Unref(s, a);
      if t.mapInfo[n].nRefCount == 0 {
        IsOrphan(t, n);
        DeleteKeeps(p, t, n);
        SwapReorders(t, t.mapInfo[n].nRandomPos, |t.vRandom| - 1);
        hide SwapRandom;
      }
    } else {
      assert s.vvNew - {a} == s.vvNew;
    }
  }

  lemma IsOrphan(s: State, n: Id)
    ensures n in Orphans(s) <==> n in s.mapInfo && !s.mapInfo[n].fInTried && s.mapInfo[n].nRefCount == 0
  {
  }

  lemma ClearNewKeeps(p: Hashing, s: State, a: Slot)
    requires Weak(p, s)
    ensures Weak(p, ClearNew(p, s, a)) && Orphans(ClearNew(p, s, a)) == Orphans(s)
  {
    hide RandomOk, AddrOk, TriedOk, NewOk, RefsOk, CountsOk, TimesOk, Orphans;
    if a in s.vvNew {
      UnrefKeeps(p, s, a);
      var n, t := s.vvNew[a], Unref(s, a);
      IsOrphan(s, n);
      IsOrphan(t, n);
      if t.mapInfo[n].nRefCount == 0 {
        DeleteKeeps(p, t, n);
        assert Orphans(s) + {n} - {n} == Orphans(s);
      }
    }
  }

  // ----- MakeTried -----

  // The loop over the first b buckets that removes an entry from the new table.
  ghost function UnrefBuckets(p: Hashing, s: State, n: Id, b: nat): (t: State)
    requires Weak(p, s) && n in s.mapInfo
    ensures Weak(p, t) && n in t.mapInfo && t.mapInfo[n].service == s.mapInfo[n].service
  {
    if b == 0 then s else
    var t := UnrefBuckets(p, s, n, b - 1);
    var a := p.NewSlotIn(s.mapInfo[n].service, b - 1);
    if a in t.vvNew && t.vvNew[a] == n then UnrefKeeps(p, t, a); Unref(t, a) else t
  }

  // The state after the loop: only the entry's count and its slots in the buckets visited change.
  ghost predicate Unreferenced(s: State, n: Id, b: nat, t: State) {
    && n in s.mapInfo && t.mapInfo.Keys == s.mapInfo.Keys
    && t == s.(mapInfo := t.mapInfo, vvNew := t.vvNew)
    && (forall m :: m in s.mapInfo && m != n ==> t.mapInfo[m] == s.mapInfo[m])
    && t.mapInfo[n] == s.mapInfo[n].(nRefCount := t.mapInfo[n].nRefCount)
    && t.vvNew.Keys <= s.vvNew.Keys
    && (forall a :: a in t.vvNew ==> t.vvNew[a] == s.vvNew[a] && (t.vvNew[a] == n ==> a.bucket >= b))
  }

  lemma {:induction false} UnrefBucketsEffect(p: Hashing, s: State, n: Id, b: nat)
    requires Weak(p, s) && n in s.mapInfo
    ensures Unreferenced(s, n, b, UnrefBuckets(p, s, n, b))
    decreases b
  {
    hide RandomOk, AddrOk, TriedOk, NewOk, RefsOk, CountsOk, TimesOk, SameEntries, Hashing.NewSlotIn, Unref, Orphans;
    if b > 0 {
      UnrefBucketsEffect(p, s, n, b - 1);
      var t := UnrefBuckets(p, s, n, b - 1);
      var a := p.NewSlotIn(s.mapInfo[n].service, b - 1);
      forall c | c in t.vvNew && t.vvNew[c] == n && c.bucket == b - 1
        ensures c == a
      {
        NewSlotPlace(p, t, c);
      }
      if a in t.vvNew && t.vvNew[a] == n {
        UnrefKeeps(p, t, a);
        UnrefOneMore(s, n, b, t, a);
      }
    }
  }

  lemma UnrefOneMore(s: State, n: Id, b: nat, t: State, a: Slot)
    requires b > 0 && Unreferenced(s, n, b - 1, t) && a in t.vvNew && t.vvNew[a] == n && t.mapInfo[n].nRefCount > 0
    requires forall c :: c in t.vvNew && t.vvNew[c] == n && c.bucket == b - 1 ==> c == a
    ensures Unreferenced(s, n, b, Unref(t, a))
  {
  }

  lemma NewSlotPlace(p: Hashing, s: State, a: Slot)
    requires NewOk(p, s) && a in s.vvNew
    ensures a.bucket < NEW_BUCKET_COUNT && s.vvNew[a] in s.mapInfo
    ensures a == p.NewSlotIn(s.mapInfo[s.vvNew[a]].service, a.bucket)
  {
  }

  lemma {:induction false} UnrefBucketsOrphans(p: Hashing, s: State, n: Id, b: nat)
    requires Weak(p, s) && n in s.mapInfo && !s.mapInfo[n].fInTried
    ensures Orphans(UnrefBuckets(p, s, n, b)) + {n} == Orphans(s) + {n}
    decreases b
  {
    hide RandomOk, AddrOk, TriedOk, NewOk, RefsOk, CountsOk, TimesOk, SameEntries, Hashing.NewSlotIn, Orphans;
    if b > 0 {
      UnrefBucketsOrphans(p, s, n, b - 1);
      var t := UnrefBuckets(p, s, n, b - 1);
      var a := p.NewSlotIn(s.mapInfo[n].service, b - 1);
      if a in t.vvNew && t.vvNew[a] == n {
        UnrefKeeps(p, t, a);
      }
    }
  }

  // After all buckets have been visited no slot holds the entry: the assertion on its count holds.
  lemma UnrefAll(p: Hashing, s: State, n: Id)
    requires Weak(p, s) && n in s.mapInfo && !s.mapInfo[n].fInTried
    ensures var t := UnrefBuckets(p, s, n, NEW_BUCKET_COUNT);
            Unreferenced(s, n, NEW_BUCKET_COUNT, t) && n in Orphans(t) && Orphans(t) == Orphans(s) + {n}
  {
    hide RandomOk, AddrOk, TriedOk, CountsOk, TimesOk, SameEntries, Hashing.NewSlotIn;
    var t := UnrefBuckets(p, s, n, NEW_BUCKET_COUNT);
    UnrefBucketsEffect(p, s, n, NEW_BUCKET_COUNT);
    UnrefBucketsOrphans(p, s, n, NEW_BUCKET_COUNT);
    assert Held(t.vvNew, n) == {} by { HeldNone(p, t, n); }
    assert n in Orphans(t);
    assert Orphans(t) == Orphans(t) + {n};
  }

  lemma HeldNone(p: Hashing, t: State, n: Id)
    requires NewOk(p, t) && forall a :: a in t.vvNew && t.vvNew[a] == n ==> a.bucket >= NEW_BUCKET_COUNT
    ensures Held(t.vvNew, n) == {}
  {
    hide Hashing.NewSlotIn;
  }

  /** The part of MakeTried that makes room: the tried entry in the slot goes back to the new table, where
      it takes the place of whatever is in its slot. */
  ghost function Evict(p: Hashing, s: State, k: Slot): State
    requires Weak(p, s)
  {
    if k !in s.vvTried then s else
    DemoteKeeps(p, s, k);
    var o, t := s.vvTried[k], Demote(s, k);
    var u := p.NewSlot(s.mapInfo[o].service, s.mapInfo[o].source);
    var r := ClearNew(p, t, u);
    assert o in r.mapInfo by { EvictedStays(p, s, k); }
    Ref(r, u, o)
  }

  lemma EvictedStays(p: Hashing, s: State, k: Slot)
    requires Weak(p, s) && k in s.vvTried
    ensures s.vvTried[k] in s.mapInfo
    ensures var o := s.vvTried[k];
            var t := Demote(s, k);
            var u := p.NewSlot(s.mapInfo[o].service, s.mapInfo[o].source);
            && Weak(p, t) && o in t.mapInfo && t.mapInfo[o].nRefCount == 0 && !t.mapInfo[o].fInTried
            && var r := ClearNew(p, t, u);
               && Cleared(t, u, r) && o in r.mapInfo && r.mapInfo[o].nRefCount == 0 && !r.mapInfo[o].fInTried
               && r.mapInfo[o].service == s.mapInfo[o].service && u !in r.vvNew
  {
    hide RandomOk, AddrOk, TriedOk, NewOk, RefsOk, CountsOk, TimesOk, Hashing.NewSlot, ClearNew;
    DemoteKeeps(p, s, k);
    var o, t := s.vvTried[k], Demote(s, k);
    IsOrphan(t, o);
    OrphanHoldsNone(t, o);
    ClearNewEffect(p, t, p.NewSlot(s.mapInfo[o].service, s.mapInfo[o].source));
  }

  lemma EvictKeeps(p: Hashing, s: State, k: Slot)
    requires Weak(p, s)
    ensures Weak(p, Evict(p, s, k)) && Orphans(Evict(p, s, k)) - Orphans(s) == {}
    ensures Orphans(s) - Orphans(Evict(p, s, k)) == {}
    ensures k !in Evict(p, s, k).vvTried
  {
    hide RandomOk, AddrOk, TriedOk, NewOk, RefsOk, CountsOk, TimesOk, Orphans, ClearNew, Cleared, Demote, SameEntries;
    if k in s.vvTried {
      DemoteKeeps(p, s, k);
      var o, t := s.vvTried[k], Demote(s, k);
      var u := p.NewSlot(s.mapInfo[o].service, s.mapInfo[o].source);
      EvictedStays(p, s, k);
      ClearNewKeeps(p, t, u);
      var r := ClearNew(p, t, u);
      RefKeeps(p, r, u, o);
      NotOrphanTried(p, s, k);
      EvictFrees(p, s, k);
    }
  }

  lemma NotOrphanTried(p: Hashing, s: State, k: Slot)
    requires TriedOk(p, s) && k in s.vvTried
    ensures s.vvTried[k] !in Orphans(s)
  {
  }

  lemma EvictFrees(p: Hashing, s: State, k: Slot)
    requires Weak(p, s) && k in s.vvTried
    ensures Evict(p, s, k).vvTried == s.vvTried - {k}
  {
    hide RandomOk, AddrOk, TriedOk, NewOk, RefsOk, CountsOk, TimesOk, Orphans, ClearNew;
    EvictedStays(p, s, k);
  }

  // Versions of an entry that differ only in where it is stored.
  predicate SameData(a: Info, b: Info) {
    b == a.(nRefCount := b.nRefCount, nRandomPos := b.nRandomPos, fInTried := b.fInTried)
  }

  // No entry appears or changes its data.
  ghost predicate Rearranged(s: State, t: State) {
    && t.nIdCount == s.nIdCount && t.collisions == s.collisions && t.nLastGood == s.nLastGood
    && t.mapInfo.Keys <= s.mapInfo.Keys
    && (forall n :: n in t.mapInfo ==> SameData(s.mapInfo[n], t.mapInfo[n]))
  }

  lemma EvictEffect(p: Hashing, s: State, k: Slot)
    requires Weak(p, s)
    ensures Rearranged(s, Evict(p, s, k)) && Evict(p, s, k).vvTried == s.vvTried - {k}
  {
    hide RandomOk, AddrOk, TriedOk, NewOk, RefsOk, CountsOk, TimesOk, Orphans, ClearNew;
    if k in s.vvTried {
      EvictedStays(p, s, k);
    } else {
      assert s.vvTried - {k} == s.vvTried;
    }
  }

  ghost function MakeTried(p: Hashing, s: State, n: Id): State
    requires Weak(p, s) && n in s.mapInfo && !s.mapInfo[n].fInTried
  {
    var t := UnrefBuckets(p, s, n, NEW_BUCKET_COUNT);
    var r := Evict(p, t, p.TriedSlot(s.mapInfo[n].service));
    assert n in r.mapInfo by { MakeTriedStays(p, s, n); }
    Promote(p, r, n)
  }

  lemma MakeTriedStays(p: Hashing, s: State, n: Id)
    requires Weak(p, s) && n in s.mapInfo && !s.mapInfo[n].fInTried
    ensures var t := UnrefBuckets(p, s, n, NEW_BUCKET_COUNT);
            var k := p.TriedSlot(s.mapInfo[n].service);
            var r := Evict(p, t, k);
            && Weak(p, r) && Orphans(r) == Orphans(s) + {n} && n in Orphans(r) && n in r.mapInfo
            && Rearranged(s, r) && r.mapInfo[n].service == s.mapInfo[n].service && r.vvTried == s.vvTried - {k}
  {
    hide RandomOk, AddrOk, TriedOk, NewOk, RefsOk, CountsOk, TimesOk, Orphans, UnrefBuckets, Evict;
    UnrefAll(p, s, n);
    var t, k := UnrefBuckets(p, s, n, NEW_BUCKET_COUNT), p.TriedSlot(s.mapInfo[n].service);
    EvictKeeps(p, t, k);
    EvictEffect(p, t, k);
    var r := Evict(p, t, k);
    assert Orphans(r) == Orphans(t);
    IsOrphan(r, n);
    assert Rearranged(s, t);
  }

  /** Moving a new entry that has been connected to into the tried table keeps the whole invariant; the
      entry ends up in its slot and every other tried slot stays as it was. */
  lemma MakeTriedKeeps(p: Hashing, s: State, n: Id)
    requires Inv(p, s) && n in s.mapInfo && !s.mapInfo[n].fInTried && s.mapInfo[n].nLastSuccess > 0
    ensures var t := MakeTried(p, s, n);
            && Inv(p, t) && Rearranged(s, t) && n in t.mapInfo && t.mapInfo[n].fInTried
            && t.vvTried == s.vvTried[p.TriedSlot(s.mapInfo[n].service) := n]
  {
    hide RandomOk, AddrOk, TriedOk, NewOk, RefsOk, CountsOk, TimesOk, Orphans, UnrefBuckets, Evict, Hashing.TriedSlot;
    MakeTriedStays(p, s, n);
    var t, k := UnrefBuckets(p, s, n, NEW_BUCKET_COUNT), p.TriedSlot(s.mapInfo[n].service);
    var r := Evict(p, t, k);
    PromoteKeeps(p, r, n);
    assert (s.vvTried - {k})[k := n] == s.vvTried[k := n];
  }

  /** The tried entry that had to make room is a new entry again, in the slot its own source selects. */
  lemma EvictedIsNew(p: Hashing, s: State, n: Id)
    requires Inv(p, s) && n in s.mapInfo && !s.mapInfo[n].fInTried && p.TriedSlot(s.mapInfo[n].service) in s.vvTried
    ensures var o, t := s.vvTried[p.TriedSlot(s.mapInfo[n].service)], MakeTried(p, s, n);
            && o in s.mapInfo && o in t.mapInfo && !t.mapInfo[o].fInTried && t.mapInfo[o].nRefCount == 1
            && var u := p.NewSlot(s.mapInfo[o].service, s.mapInfo[o].source); u in t.vvNew && t.vvNew[u] == o
  {
    hide RandomOk, AddrOk, TriedOk, NewOk, RefsOk, CountsOk, TimesOk, Orphans, UnrefBuckets, ClearNew, Cleared,
         Hashing.TriedSlot,
         Hashing.NewSlot, Rearranged;
    UnrefAll(p, s, n);
    var k, t := p.TriedSlot(s.mapInfo[n].service), UnrefBuckets(p, s, n, NEW_BUCKET_COUNT);
    TriedSlotHolds(p, s, k);
    EvictedStays(p, t, k);
    MakeTriedStays(p, s, n);
  }

  lemma RearrangedGrows(s: State, t: State)
    requires Rearranged(s, t) && s.vvTried.Keys <= t.vvTried.Keys
    ensures Grows(s, t)
  {
  }

  // ----- Good_ -----

  // The loop that looks for a bucket the entry is in.
  ghost predicate HasBucket(p: Hashing, s: State, n: Id) {
    exists b :: 0 <= b < NEW_BUCKET_COUNT && InBucket(p, s, n, b)
  }

  predicate InBucket(p: Hashing, s: State, n: Id, b: nat) {
    n in s.mapInfo && var a := p.NewSlotIn(s.mapInfo[n].service, b); a in s.vvNew && s.vvNew[a] == n
  }

  /** A new entry is always found in some bucket, so Good_ never gives up on one. */
  lemma GoodFindsBucket(p: Hashing, s: State, n: Id)
    requires Inv(p, s) && n in s.mapInfo && !s.mapInfo[n].fInTried
    ensures HasBucket(p, s, n)
  {
    hide RandomOk, AddrOk, TriedOk, CountsOk, TimesOk, Hashing.NewSlotIn;
    assert n !in Orphans(s);
    assert |Held(s.vvNew, n)| > 0;
    var a :| a in Held(s.vvNew, n);
    assert InBucket(p, s, n, a.bucket);
  }

  // The entry found for a service, if its port matches as well.
  function Lookup(s: State, service: Service): Option<Id> {
    if service.ip in s.mapAddr && s.mapAddr[service.ip] in s.mapInfo
       && s.mapInfo[s.mapAddr[service.ip]].service == service
    then Some(s.mapAddr[service.ip])
    else None
  }

  function Succeeded(info: Info, time: int): Info {
    info.(nLastSuccess := time, nLastTry := time, nAttempts := 0)
  }

  ghost function Good(p: Hashing, s: State, service: Service, testBeforeEvict: bool, time: int): State
    requires Inv(p, s) && time > 0
  {
    var s1 := s.(nLastGood := time);
    match Lookup(s1, service)
    case None => s1
    case Some(n) =>
      var s2 := Touch(s1, n, Succeeded(s1.mapInfo[n], time));
      GoodTouch(p, s, n, time);
      if s2.mapInfo[n].fInTried || !HasBucket(p, s2, n) then s2
      else if testBeforeEvict && p.TriedSlot(service) in s2.vvTried then
        if |s2.collisions| < TRIED_COLLISION_SIZE then s2.(collisions := s2.collisions + {n}) else s2
      else MakeTried(p, s2, n)
  }

  lemma GoodTouch(p: Hashing, s: State, n: Id, time: int)
    requires Inv(p, s) && n in s.mapInfo && time > 0
    ensures var t := Touch(s.(nLastGood := time), n, Succeeded(s.mapInfo[n], time));
            Inv(p, t) && Grows(s, t)
  {
    hide RandomOk, AddrOk, TriedOk, NewOk, RefsOk, CountsOk, TimesOk, Orphans;
    var s1 := s.(nLastGood := time);
    UnrelatedKeeps(p, s, s1);
    TouchKeeps(p, s1, n, Succeeded(s.mapInfo[n], time));
  }

  // The consistency check does not mention nLastGood or the collisions.
  lemma UnrelatedKeeps(p: Hashing, s: State, t: State)
    requires Inv(p, s) && t == s.(nLastGood := t.nLastGood, collisions := t.collisions)
    ensures Inv(p, t)
  {
    hide RandomOk, AddrOk, TriedOk, NewOk, RefsOk, CountsOk, TimesOk, Orphans;
    CarryRandom(s, t);
    CarryAddr(s, t);
    CarryTables(p, s, t);
    CarryRefs(s, t);
    CarryCounts(s, t);
    CarryTimes(s, t);
    CarryOrphans(s, t);
  }

  // A call keeps the consistency check and what the collisions rely on.
  ghost predicate Sound(p: Hashing, s: State) {
    Inv(p, s) && CollisionsOk(p, s)
  }

  lemma GoodKeeps(p: Hashing, s: State, service: Service, testBeforeEvict: bool, time: int)
    requires Sound(p, s) && time > 0
    ensures Sound(p, Good(p, s, service, testBeforeEvict, time))
    ensures s.vvTried.Keys <= Good(p, s, service, testBeforeEvict, time).vvTried.Keys
    ensures !testBeforeEvict ==> Grows(s, Good(p, s, service, testBeforeEvict, time))
  {
    hide RandomOk, AddrOk, TriedOk, NewOk, RefsOk, CountsOk, TimesOk, Orphans, HasBucket, MakeTried, Touch,
         Hashing.TriedSlot;
    var s1 := s.(nLastGood := time);
    UnrelatedKeeps(p, s, s1);
    match Lookup(s1, service)
    case None =>
      assert Grows(s, s1);
    case Some(n) =>
      GoodTouch(p, s, n, time);
      var s2 := Touch(s1, n, Succeeded(s1.mapInfo[n], time));
      GrowsKeepsCollisions(p, s, s2);
      TouchedEntry(s1, n, time);
      if s2.mapInfo[n].fInTried || !HasBucket(p, s2, n) {
      } else if testBeforeEvict && p.TriedSlot(service) in s2.vvTried {
        if |s2.collisions| < TRIED_COLLISION_SIZE {
          UnrelatedKeeps(p, s2, s2.(collisions := s2.collisions + {n}));
          EntryBelowCount(p, s2, n);
        }
      } else {
        MakeTriedKeeps(p, s2, n);
        RearrangedGrows(s2, MakeTried(p, s2, n));
        GrowsTransitive(s, s2, MakeTried(p, s2, n));
        GrowsKeepsCollisions(p, s2, MakeTried(p, s2, n));
      }
  }

  // The entry records a success at the given time, and is otherwise the same apart from its places in the tables.
  predicate Renewed(a: Info, b: Info, time: int) {
    b == a.(nLastSuccess := time, nLastTry := time, nAttempts := 0, fInTried := b.fInTried,
            nRefCount := b.nRefCount, nRandomPos := b.nRandomPos)
  }

  // What a call to Good_ does for an entry n with the given tried slot k.
  ghost predicate GoodOutcome(s: State, n: Id, k: Slot, testBeforeEvict: bool, time: int, t: State) {
    && n in s.mapInfo && n in t.mapInfo && t.nLastGood == time
    && Renewed(s.mapInfo[n], t.mapInfo[n], time)
    && if s.mapInfo[n].fInTried then t.vvTried == s.vvTried && t.vvNew == s.vvNew && t.collisions == s.collisions
       else if testBeforeEvict && k in s.vvTried then
         && t.vvTried == s.vvTried && t.vvNew == s.vvNew
         && t.collisions == if |s.collisions| < TRIED_COLLISION_SIZE then s.collisions + {n} else s.collisions
       else t.mapInfo[n].fInTried && t.vvTried == s.vvTried[k := n] && t.collisions == s.collisions
  }

  /** An unknown address changes nothing; a known one is recorded as reachable and moved to its tried slot,
      or waits if that slot is taken and the occupant is to be tested first. */
  lemma GoodEffect(p: Hashing, s: State, service: Service, testBeforeEvict: bool, time: int)
    requires Inv(p, s) && time > 0
    ensures var t := Good(p, s, service, testBeforeEvict, time);
            match Lookup(s, service)
            case None => t == s.(nLastGood := time)
            case Some(n) => GoodOutcome(s, n, p.TriedSlot(service), testBeforeEvict, time, t)
  {
    hide RandomOk, AddrOk, TriedOk, NewOk, RefsOk, CountsOk, TimesOk, Orphans, HasBucket, MakeTried, Hashing.TriedSlot,
         Grows;
    if Lookup(s, service).Some? {
      var n, s1 := Lookup(s, service).value, s.(nLastGood := time);
      var s2 := Touch(s1, n, Succeeded(s1.mapInfo[n], time));
      GoodTouch(p, s, n, time);
      if !s2.mapInfo[n].fInTried {
        GoodFindsBucket(p, s2, n);
        if !(testBeforeEvict && p.TriedSlot(service) in s2.vvTried) {
          MakeTriedKeeps(p, s2, n);
        }
      }
    }
  }

  lemma TouchedEntry(s: State, n: Id, time: int)
    requires n in s.mapInfo
    ensures var t := Touch(s, n, Succeeded(s.mapInfo[n], time));
            n in t.mapInfo && t.mapInfo[n] == Succeeded(s.mapInfo[n], time) && t.vvTried == s.vvTried
  {
  }

  lemma EntryBelowCount(p: Hashing, s: State, n: Id)
    requires Inv(p, s) && n in s.mapInfo
    ensures n < s.nIdCount
  {
  }

  lemma GrowsTransitive(s: State, t: State, u: State)
    requires Grows(s, t) && Grows(t, u)
    ensures Grows(s, u)
  {
  }

  // ----- Attempt_, Connected_, SetServices_ -----

  function Attempted(info: Info, countFailure: bool, lastGood: int, time: int): Info {
    var tried := info.(nLastTry := time);
    if countFailure && info.nLastCountAttempt < lastGood
    then tried.(nLastCountAttempt := time, nAttempts := info.nAttempts + 1)
    else tried
  }

  function Attempt(s: State, service: Service, countFailure: bool, time: int): State {
    match Lookup(s, service)
    case None => s
    case Some(n) => Touch(s, n, Attempted(s.mapInfo[n], countFailure, s.nLastGood, time))
  }

  function Connected(s: State, service: Service, time: nat): State {
    match Lookup(s, service)
    case None => s
    case Some(n) =>
      if time - s.mapInfo[n].nTime > 20 * 60 then Touch(s, n, s.mapInfo[n].(nTime := time)) else s
  }

  function SetServices(s: State, service: Service, services: set<nat>): State {
    match Lookup(s, service)
    case None => s
    case Some(n) => Touch(s, n, s.mapInfo[n].(nServices := services))
  }

  lemma TouchSound(p: Hashing, s: State, n: Id, info: Info)
    requires Sound(p, s) && n in s.mapInfo && SameStructure(s.mapInfo[n], info)
    requires info.nLastTry >= 0 && info.nLastSuccess == s.mapInfo[n].nLastSuccess
    ensures Sound(p, Touch(s, n, info)) && Grows(s, Touch(s, n, info))
  {
    hide RandomOk, AddrOk, TriedOk, NewOk, RefsOk, CountsOk, TimesOk, Orphans;
    EntryTimes(p, s, n);
    TouchKeeps(p, s, n, info);
    GrowsKeepsCollisions(p, s, Touch(s, n, info));
  }

  lemma EntryTimes(p: Hashing, s: State, n: Id)
    requires Inv(p, s) && n in s.mapInfo
    ensures s.mapInfo[n].nLastTry >= 0 && s.mapInfo[n].nLastSuccess >= 0
    ensures s.mapInfo[n].fInTried ==> s.mapInfo[n].nLastSuccess > 0
  {
  }

  lemma StatisticsKeep(p: Hashing, s: State, service: Service, countFailure: bool, time: nat, services: set<nat>)
    requires Sound(p, s)
    ensures Sound(p, Attempt(s, service, countFailure, time)) && Grows(s, Attempt(s, service, countFailure, time))
    ensures Sound(p, Connected(s, service, time)) && Grows(s, Connected(s, service, time))
    ensures Sound(p, SetServices(s, service, services)) && Grows(s, SetServices(s, service, services))
  {
    hide RandomOk, AddrOk, TriedOk, NewOk, RefsOk, CountsOk, TimesOk, Orphans, Grows, Touch, CollisionsOk;
    SelfGrows(s);
    if Lookup(s, service).Some? {
      var n := Lookup(s, service).value;
      var info := s.mapInfo[n];
      EntryTimes(p, s, n);
      TouchSound(p, s, n, Attempted(info, countFailure, s.nLastGood, time));
      TouchSound(p, s, n, info.(nTime := time));
      TouchSound(p, s, n, info.(nServices := services));
    }
  }

  lemma SelfGrows(s: State)
    ensures Grows(s, s)
  {
  }

  // ----- Add_ -----

  function Pow2(n: nat): nat {
    if n == 0 then 1 else 2 * Pow2(n - 1)
  }

  function Max0(a: int): nat {
    if a < 0 then 0 else a
  }

  // The update of a known entry's time and services.
  function Refreshed(info: Info, addr: Address, penalty: int, now: int): Info {
    var interval := if now - addr.nTime < DAY then 60 * 60 else DAY;
    var nTime := if addr.nTime != 0 && (info.nTime == 0 || info.nTime < addr.nTime - interval - penalty)
                 then Max0(addr.nTime - penalty) else info.nTime;
    info.(nTime := nTime, nServices := info.nServices + addr.nServices)
  }

  // Whether a known entry, after the update, is a candidate for one more slot. roll is the random number.
  predicate WantsSlot(info: Info, addr: Address, roll: nat -> nat) {
    && !(addr.nTime == 0 || (info.nTime != 0 && addr.nTime <= info.nTime))
    && !info.fInTried && info.nRefCount != NEW_BUCKETS_PER_ADDRESS
    && (Pow2(info.nRefCount) > 1 ==> roll(Pow2(info.nRefCount)) == 0)
  }

  // The second half of Add_: put the entry into the slot its source selects, if that slot can be had.
  ghost function Place(p: Hashing, s: State, n: Id, source: NetAddr, now: int): State
    requires Weak(p, s) && n in s.mapInfo && !s.mapInfo[n].fInTried
  {
    var a := p.NewSlot(s.mapInfo[n].service, source);
    if a in s.vvNew && s.vvNew[a] == n then s
    else if a !in s.vvNew || s.vvNew[a] !in s.mapInfo || IsTerrible(s.mapInfo[s.vvNew[a]], now)
            || (s.mapInfo[s.vvNew[a]].nRefCount > 1 && s.mapInfo[n].nRefCount == 0) then
      assert n in ClearNew(p, s, a).mapInfo by { ClearNewEffect(p, s, a); }
      Ref(ClearNew(p, s, a), a, n)
    else if s.mapInfo[n].nRefCount == 0 then
      assert n in Orphans(s);
      DeleteKeeps(p, s, n);
      Delete(s, n)
    else s
  }

  ghost predicate Placed(s: State, n: Id, t: State) {
    && t.nIdCount == s.nIdCount && t.collisions == s.collisions && t.vvTried == s.vvTried
    && t.mapInfo.Keys <= s.mapInfo.Keys
    && (forall m :: m in t.mapInfo ==> t.mapInfo[m].service == s.mapInfo[m].service)
  }

  lemma PlaceKeeps(p: Hashing, s: State, n: Id, source: NetAddr, now: int)
    requires Weak(p, s) && n in s.mapInfo && !s.mapInfo[n].fInTried && s.mapInfo[n].nRefCount < NEW_BUCKETS_PER_ADDRESS
    requires Orphans(s) <= {n}
    ensures Inv(p, Place(p, s, n, source, now)) && Placed(s, n, Place(p, s, n, source, now))
  {
    hide RandomOk, AddrOk, TriedOk, NewOk, RefsOk, CountsOk, TimesOk, Orphans, ClearNew, IsTerrible;
    IsOrphan(s, n);
    var a := p.NewSlot(s.mapInfo[n].service, source);
    if a in s.vvNew && s.vvNew[a] == n {
      TakenHasRef(p, s, a);
      assert Orphans(s) == {};
    } else if a !in s.vvNew || s.vvNew[a] !in s.mapInfo || IsTerrible(s.mapInfo[s.vvNew[a]], now)
            || (s.mapInfo[s.vvNew[a]].nRefCount > 1 && s.mapInfo[n].nRefCount == 0) {
      ClearNewEffect(p, s, a);
      ClearNewKeeps(p, s, a);
      var t := ClearNew(p, s, a);
      RefKeeps(p, t, a, n);
      assert Orphans(Ref(t, a, n)) == {};
    } else if s.mapInfo[n].nRefCount == 0 {
      DeleteKeeps(p, s, n);
      SwapReorders(s, s.mapInfo[n].nRandomPos, |s.vRandom| - 1);
      hide SwapRandom;
      assert Orphans(Delete(s, n)) == {};
    } else {
      assert Orphans(s) == {};
    }
  }

  // The time penalty does not apply to a source announcing itself.
  ghost function Add(p: Hashing, s: State, addr: Address, source: NetAddr, timePenalty: int, now: int,
                     roll: nat -> nat): State
    requires Inv(p, s)
  {
    var penalty := if addr.service.ip == source then 0 else timePenalty;
    if addr.service.ip in s.mapAddr then
      KnownEntry(p, s, addr.service.ip);
      var n := s.mapAddr[addr.service.ip];
      var info := Refreshed(s.mapInfo[n], addr, penalty, now);
      var t := Touch(s, n, info);
      assert Weak(p, t) by { RefreshKeeps(p, s, n, addr, penalty, now); }
      if WantsSlot(info, addr, roll) then Place(p, t, n, source, now) else t
    else
      CreateKeeps(p, s, addr.(nTime := Max0(addr.nTime - penalty)), source);
      Place(p, Create(s, addr.(nTime := Max0(addr.nTime - penalty)), source), s.nIdCount, source, now)
  }

  lemma KnownEntry(p: Hashing, s: State, ip: NetAddr)
    requires Weak(p, s) && ip in s.mapAddr
    ensures s.mapAddr[ip] in s.mapInfo
  {
  }

  lemma RefreshedSame(info: Info, addr: Address, penalty: int, now: int)
    ensures var r := Refreshed(info, addr, penalty, now);
            SameStructure(info, r) && r.nLastTry == info.nLastTry && r.nLastSuccess == info.nLastSuccess
  {
  }

  lemma RefreshKeeps(p: Hashing, s: State, n: Id, addr: Address, penalty: int, now: int)
    requires Inv(p, s) && n in s.mapInfo
    ensures var t := Touch(s, n, Refreshed(s.mapInfo[n], addr, penalty, now));
            Inv(p, t) && Grows(s, t)
  {
    hide RandomOk, AddrOk, TriedOk, NewOk, RefsOk, CountsOk, TimesOk, Orphans, Refreshed;
    EntryTimes(p, s, n);
    RefreshedSame(s.mapInfo[n], addr, penalty, now);
    TouchKeeps(p, s, n, Refreshed(s.mapInfo[n], addr, penalty, now));
  }

  lemma PlacedGrows(s: State, n: Id, t: State)
    requires Placed(s, n, t)
    ensures Grows(s, t)
  {
  }

  lemma CreateGrows(s: State, addr: Address, source: NetAddr)
    ensures Grows(s, Create(s, addr, source))
  {
  }

  lemma RefCountBelow(p: Hashing, s: State, n: Id)
    requires Weak(p, s) && n in s.mapInfo
    ensures s.mapInfo[n].nRefCount <= NEW_BUCKETS_PER_ADDRESS
  {
  }

  lemma AddInv(p: Hashing, s: State, addr: Address, source: NetAddr, timePenalty: int, now: int, roll: nat -> nat)
    requires Inv(p, s)
    ensures var t := Add(p, s, addr, source, timePenalty, now, roll); Inv(p, t) && Grows(s, t)
  {
    hide RandomOk, AddrOk, TriedOk, NewOk, RefsOk, CountsOk, TimesOk, Orphans, Place, Refreshed, Placed, Grows;
    var penalty := if addr.service.ip == source then 0 else timePenalty;
    var t := Add(p, s, addr, source, timePenalty, now, roll);
    if addr.service.ip in s.mapAddr {
      KnownEntry(p, s, addr.service.ip);
      var n := s.mapAddr[addr.service.ip];
      RefreshKeeps(p, s, n, addr, penalty, now);
      var info := Refreshed(s.mapInfo[n], addr, penalty, now);
      var s1 := Touch(s, n, info);
      if WantsSlot(info, addr, roll) {
        RefCountBelow(p, s1, n);
        PlaceKeeps(p, s1, n, source, now);
        PlacedGrows(s1, n, t);
        GrowsTransitive(s, s1, t);
      }
    } else {
      var created := addr.(nTime := Max0(addr.nTime - penalty));
      CreateKeeps(p, s, created, source);
      CreateGrows(s, created, source);
      var s1 := Create(s, created, source);
      PlaceKeeps(p, s1, s.nIdCount, source, now);
      PlacedGrows(s1, s.nIdCount, t);
      GrowsTransitive(s, s1, t);
    }
  }

  lemma AddKeeps(p: Hashing, s: State, addr: Address, source: NetAddr, timePenalty: int, now: int, roll: nat -> nat)
    requires Sound(p, s)
    ensures var t := Add(p, s, addr, source, timePenalty, now, roll); Sound(p, t) && Grows(s, t)
  {
    hide Add, Grows, Weak, Orphans;
    AddInv(p, s, addr, source, timePenalty, now, roll);
    GrowsKeepsCollisions(p, s, Add(p, s, addr, source, timePenalty, now, roll));
  }

  // Whether the slot an unknown address is hashed to can be had.
  predicate SlotAvailable(s: State, a: Slot, now: int) {
    a !in s.vvNew || s.vvNew[a] !in s.mapInfo || IsTerrible(s.mapInfo[s.vvNew[a]], now)
      || s.mapInfo[s.vvNew[a]].nRefCount > 1
  }

  /** Add_ reports an unknown address as added, but keeps it exactly when its slot can be had. */
  lemma AddedIff(p: Hashing, s: State, addr: Address, source: NetAddr, timePenalty: int, now: int, roll: nat -> nat)
    requires Inv(p, s) && addr.service.ip !in s.mapAddr
    ensures addr.service.ip in Add(p, s, addr, source, timePenalty, now, roll).mapAddr
       <==> SlotAvailable(s, p.NewSlot(addr.service, source), now)
  {
    hide RandomOk, AddrOk, TriedOk, NewOk, RefsOk, CountsOk, TimesOk, Orphans, Place, Placed, Hashing.NewSlot,
         SlotAvailable;
    var penalty := if addr.service.ip == source then 0 else timePenalty;
    var created := addr.(nTime := Max0(addr.nTime - penalty));
    var n, s1 := s.nIdCount, Create(s, created, source);
    CreateKeeps(p, s, created, source);
    PlaceKeeps(p, s1, n, source, now);
    SameAddress(p, s1, Place(p, s1, n, source, now), n);
    StaysIff(p, s1, n, source, now);
    var a := p.NewSlot(addr.service, source);
    assert SlotAvailable(s, a, now) == SlotAvailable(s1, a, now) by {
      SameAvailable(p, s, created, source, a, now);
    }
  }

  lemma SameAvailable(p: Hashing, s: State, addr: Address, source: NetAddr, a: Slot, now: int)
    requires Weak(p, s)
    ensures SlotAvailable(s, a, now) == SlotAvailable(Create(s, addr, source), a, now)
  {
    hide RandomOk, AddrOk, TriedOk, NewOk, RefsOk, CountsOk, TimesOk, IsTerrible;
    FreshId(s);
    if a in s.vvNew {
      TakenHasRef(p, s, a);
    }
  }

  /** Where it goes: the slot its source selects, taking the place of whatever is there; no other slot changes. */
  lemma AddedWhere(p: Hashing, s: State, addr: Address, source: NetAddr, timePenalty: int, now: int, roll: nat -> nat)
    requires Inv(p, s) && addr.service.ip !in s.mapAddr
    ensures var t, a, n := Add(p, s, addr, source, timePenalty, now, roll), p.NewSlot(addr.service, source), s.nIdCount;
            var seen := if addr.service.ip == source then addr.nTime else addr.nTime - timePenalty;
            if SlotAvailable(s, a, now) then
              && t.vvNew == s.vvNew[a := n] && n in t.mapInfo && t.vvTried == s.vvTried
              && t.mapInfo[n] == Info(addr.service, if seen < 0 then 0 else seen, addr.nServices, source,
                                      0, 0, 0, 0, 1, false, t.mapInfo[n].nRandomPos)
            else n !in t.mapInfo && t.vvNew == s.vvNew && t.vvTried == s.vvTried
  {
    hide RandomOk, AddrOk, TriedOk, NewOk, RefsOk, CountsOk, TimesOk, Orphans, Place, Hashing.NewSlot, SlotAvailable;
    var penalty := if addr.service.ip == source then 0 else timePenalty;
    var created := addr.(nTime := Max0(addr.nTime - penalty));
    CreateKeeps(p, s, created, source);
    SameAvailable(p, s, created, source, p.NewSlot(addr.service, source), now);
    PlacedWhere(p, Create(s, created, source), s.nIdCount, source, now);
    StaysIff(p, Create(s, created, source), s.nIdCount, source, now);
  }

  lemma PlacedWhere(p: Hashing, s: State, n: Id, source: NetAddr, now: int)
    requires Weak(p, s) && n in s.mapInfo && !s.mapInfo[n].fInTried && s.mapInfo[n].nRefCount == 0
    ensures var t, a := Place(p, s, n, source, now), p.NewSlot(s.mapInfo[n].service, source);
            if SlotAvailable(s, a, now) then
              && t.vvNew == s.vvNew[a := n] && n in t.mapInfo && SameStatistics(s.mapInfo[n], t.mapInfo[n])
              && t.mapInfo[n].nRefCount == 1 && t.vvTried == s.vvTried
            else t.vvNew == s.vvNew && t.vvTried == s.vvTried
  {
    hide RandomOk, AddrOk, TriedOk, NewOk, RefsOk, CountsOk, TimesOk, Orphans, ClearNew, IsTerrible, Hashing.NewSlot;
    var a := p.NewSlot(s.mapInfo[n].service, source);
    OrphanHoldsNone(s, n);
    if SlotAvailable(s, a, now) {
      ClearNewEffect(p, s, a);
      assert (s.vvNew - {a})[a := n] == s.vvNew[a := n];
    } else {
      IsOrphan(s, n);
      DeleteKeeps(p, s, n);
      DeleteTables(s, n);
      hide Delete;
    }
  }

  lemma DeleteTables(s: State, n: Id)
    requires n in s.mapInfo && InRange(s, s.mapInfo[n].nRandomPos) && |s.vRandom| > 0 && InRange(s, |s.vRandom| - 1)
    ensures Delete(s, n).vvNew == s.vvNew && Delete(s, n).vvTried == s.vvTried
  {
  }

  // An entry without slots stays exactly when it can be placed.
  lemma StaysIff(p: Hashing, s: State, n: Id, source: NetAddr, now: int)
    requires Weak(p, s) && n in s.mapInfo && !s.mapInfo[n].fInTried && s.mapInfo[n].nRefCount == 0
    ensures n in Place(p, s, n, source, now).mapInfo <==> SlotAvailable(s, p.NewSlot(s.mapInfo[n].service, source), now)
  {
    hide RandomOk, AddrOk, TriedOk, NewOk, RefsOk, CountsOk, TimesOk, Orphans, ClearNew, IsTerrible, Hashing.NewSlot,
         Delete;
    var a := p.NewSlot(s.mapInfo[n].service, source);
    ClearNewEffect(p, s, a);
    OrphanHoldsNone(s, n);
    IsOrphan(s, n);
    DeleteKeeps(p, s, n);
  }

  lemma SameAddress(p: Hashing, s: State, t: State, n: Id)
    requires Weak(p, s) && Weak(p, t) && Placed(s, n, t) && n in s.mapInfo
    ensures s.mapInfo[n].service.ip in t.mapAddr <==> n in t.mapInfo
  {
    hide RandomOk, TriedOk, NewOk, RefsOk, CountsOk, TimesOk;
  }

  // ----- ResolveCollisions_ and SelectTriedCollision_ -----

  // The decision about one waiting entry: whether it is to replace the tried entry in its slot, and
  // whether it stops waiting.
  datatype Verdict = Verdict(replace: bool, erase: bool)

  function Judge(p: Hashing, s: State, n: Id, now: int, isValid: Service -> bool): Verdict {
    if n !in s.mapInfo then Verdict(false, true) else
    var info := s.mapInfo[n];
    var k := p.TriedSlot(info.service);
    if !isValid(info.service) then Verdict(false, true)
    else if k in s.vvTried && s.vvTried[k] in s.mapInfo then
      var other := s.mapInfo[s.vvTried[k]];
      if now - other.nLastSuccess < REPLACEMENT_HOURS * 60 * 60 then Verdict(false, true)
      else if now - other.nLastTry < REPLACEMENT_HOURS * 60 * 60 then
        Verdict(now - other.nLastTry > 60, now - other.nLastTry > 60)
      else Verdict(now - info.nLastSuccess > TEST_WINDOW, now - info.nLastSuccess > TEST_WINDOW)
    else Verdict(true, true)
  }

  // One iteration of ResolveCollisions_.
  ghost function Resolve(p: Hashing, s: State, n: Id, now: int, isValid: Service -> bool): State
    requires Inv(p, s) && now > 0
  {
    var v := Judge(p, s, n, now, isValid);
    var t := if v.replace then Good(p, s, s.mapInfo[n].service, false, now) else s;
    if v.erase then t.(collisions := t.collisions - {n}) else t
  }

  lemma ResolveKeeps(p: Hashing, s: State, n: Id, now: int, isValid: Service -> bool)
    requires Sound(p, s) && now > 0
    ensures Sound(p, Resolve(p, s, n, now, isValid))
    ensures s.vvTried.Keys <= Resolve(p, s, n, now, isValid).vvTried.Keys
  {
    hide RandomOk, AddrOk, TriedOk, NewOk, RefsOk, CountsOk, TimesOk, Orphans, Good, Judge, Hashing.TriedSlot;
    assert Judge(p, s, n, now, isValid).replace ==> n in s.mapInfo by { JudgeNeedsEntry(p, s, n, now, isValid); }
    var v := Judge(p, s, n, now, isValid);
    if v.replace {
      GoodKeeps(p, s, s.mapInfo[n].service, false, now);
    }
    var t := if v.replace then Good(p, s, s.mapInfo[n].service, false, now) else s;
    UnrelatedKeeps(p, t, t.(collisions := t.collisions - {n}));
    assert |t.collisions - {n}| <= |t.collisions| by { FewerWithout(t.collisions, n); }
  }

  lemma JudgeNeedsEntry(p: Hashing, s: State, n: Id, now: int, isValid: Service -> bool)
    ensures Judge(p, s, n, now, isValid).replace ==> n in s.mapInfo
  {
  }

  // n has taken the tried slot k and stops waiting; whoever was there is a new entry again.
  ghost predicate TookSlot(s: State, n: Id, k: Slot, now: int, t: State) {
    && n in t.mapInfo && t.mapInfo[n].fInTried && t.vvTried == s.vvTried[k := n] && t.nLastGood == now
    && t.mapInfo[n].nLastSuccess == now && t.mapInfo[n].nLastTry == now && t.mapInfo[n].nAttempts == 0
    && t.collisions == s.collisions - {n}
    && (k in s.vvTried && s.vvTried[k] != n ==> s.vvTried[k] in t.mapInfo && !t.mapInfo[s.vvTried[k]].fInTried)
  }

  // The waiting entry n gets a decision about the entry `other` in its tried slot k.
  ghost predicate Settled(s: State, n: Id, k: Slot, other: Info, now: int, t: State)
    requires n in s.mapInfo
  {
    if now - other.nLastSuccess < 14400 then t == s.(collisions := s.collisions - {n})
    else if now - other.nLastTry <= 60 then t == s
    else if now - other.nLastTry < 14400 || now - s.mapInfo[n].nLastSuccess > 2400 then TookSlot(s, n, k, now, t)
    else t == s
  }

  /** What happens to a waiting entry. One that is gone or not valid just stops waiting. So does one whose
      slot is held by an entry that succeeded within four hours. Nothing happens while that entry has a
      minute to connect, nor while it has not been tried and the new entry succeeded within 40 minutes.
      Otherwise the waiting entry takes the slot. */
  lemma ResolveEffect(p: Hashing, s: State, n: Id, now: int, isValid: Service -> bool)
    requires Inv(p, s) && now > 0
    ensures var t := Resolve(p, s, n, now, isValid);
            if n !in s.mapInfo || !isValid(s.mapInfo[n].service) then t == s.(collisions := s.collisions - {n})
            else
              var k := p.TriedSlot(s.mapInfo[n].service);
              if k in s.vvTried then s.vvTried[k] in s.mapInfo && Settled(s, n, k, s.mapInfo[s.vvTried[k]], now, t)
              else TookSlot(s, n, k, now, t)
  {
    hide RandomOk, AddrOk, TriedOk, NewOk, RefsOk, CountsOk, TimesOk, Orphans, Good, Hashing.TriedSlot, TookSlot;
    if n in s.mapInfo {
      var k := p.TriedSlot(s.mapInfo[n].service);
      if k in s.vvTried {
        TriedSlotHolds(p, s, k);
      }
      GoodTakesSlot(p, s, n, now);
    }
  }

  lemma GoodTakesSlot(p: Hashing, s: State, n: Id, now: int)
    requires Inv(p, s) && n in s.mapInfo && now > 0
    ensures var t := Good(p, s, s.mapInfo[n].service, false, now);
            TookSlot(s, n, p.TriedSlot(s.mapInfo[n].service), now, t.(collisions := t.collisions - {n}))
  {
    hide RandomOk, TriedOk, NewOk, RefsOk, CountsOk, TimesOk, Orphans, HasBucket, MakeTried, Hashing.TriedSlot;
    var service := s.mapInfo[n].service;
    assert Lookup(s, service) == Some(n);
    hide AddrOk;
    GoodEffect(p, s, service, false, now);
    var k := p.TriedSlot(service);
    if s.mapInfo[n].fInTried {
      TriedEntrySlot(p, s, n);
    } else {
      GoodTouch(p, s, n, now);
      var s2 := Touch(s.(nLastGood := now), n, Succeeded(s.mapInfo[n], now));
      GoodFindsBucket(p, s2, n);
      if k in s.vvTried {
        TriedSlotHolds(p, s2, k);
        EvictedIsNew(p, s2, n);
      }
    }
  }

  lemma TriedEntrySlot(p: Hashing, s: State, n: Id)
    requires TriedOk(p, s) && n in s.mapInfo && s.mapInfo[n].fInTried
    ensures p.TriedSlot(s.mapInfo[n].service) in s.vvTried && s.vvTried[p.TriedSlot(s.mapInfo[n].service)] == n
  {
  }

  lemma FewerWithout(a: set<Id>, n: Id)
    ensures |a - {n}| <= |a|
  {
    if n in a {
      assert |a - {n}| == |a| - 1;
    } else {
      assert a - {n} == a;
    }
  }

  /** A waiting entry that still exists finds its tried slot occupied by a tried entry, so the branch for a
      collision that has gone away is never taken and SelectTriedCollision_ always has an entry to return. */
  lemma NeverUncollides(p: Hashing, s: State, n: Id)
    requires Sound(p, s) && n in s.collisions && n in s.mapInfo
    ensures var k := p.TriedSlot(s.mapInfo[n].service);
            k in s.vvTried && s.vvTried[k] in s.mapInfo && s.mapInfo[s.vvTried[k]].fInTried
  {
    hide Hashing.TriedSlot;
    TriedSlotHolds(p, s, p.TriedSlot(s.mapInfo[n].service));
  }

  // ----- runs -----

  datatype Op =
    | AddOp(addr: Address, source: NetAddr, timePenalty: int, now: int, roll: nat -> nat)
    | GoodOp(service: Service, testBeforeEvict: bool, time: int)
    | AttemptOp(service: Service, countFailure: bool, time: int)
    | ConnectedOp(service: Service, time: int)
    | SetServicesOp(service: Service, services: set<nat>)
    | SwapOp(i: nat, j: nat)   // one step of GetAddr_
    | ResolveOp(n: Id, now: int, isValid: Service -> bool)   // one step of ResolveCollisions_
    | ForgetOp(n: Id)   // SelectTriedCollision_ dropping an entry that is gone
  {
    predicate PositiveTimes() {
      match this
      case GoodOp(_, _, time) => time > 0
      case AttemptOp(_, _, time) => time >= 0
      case ConnectedOp(_, time) => time >= 0
      case ResolveOp(_, now, _) => now > 0
      case _ => true
    }
  }

  ghost function Step(p: Hashing, s: State, op: Op): State
    requires Inv(p, s) && op.PositiveTimes()
  {
    match op
    case AddOp(addr, source, timePenalty, now, roll) => Add(p, s, addr, source, timePenalty, now, roll)
    case GoodOp(service, testBeforeEvict, time) => Good(p, s, service, testBeforeEvict, time)
    case AttemptOp(service, countFailure, time) => Attempt(s, service, countFailure, time)
    case ConnectedOp(service, time) => Connected(s, service, time)
    case SetServicesOp(service, services) => SetServices(s, service, services)
    case SwapOp(i, j) => if InRange(s, i) && InRange(s, j) then SwapRandom(s, i, j) else s
    case ResolveOp(n, now, isValid) => Resolve(p, s, n, now, isValid)
    case ForgetOp(n) => s.(collisions := s.collisions - {n})
  }

  lemma SwapSound(p: Hashing, s: State, i: nat, j: nat)
    requires Sound(p, s) && InRange(s, i) && InRange(s, j)
    ensures Sound(p, SwapRandom(s, i, j)) && SwapRandom(s, i, j).vvTried == s.vvTried
  {
    hide RandomOk, AddrOk, TriedOk, NewOk, RefsOk, CountsOk, TimesOk, Orphans, SwapRandom, Hashing.TriedSlot;
    SwapKeeps(p, s, i, j);
  }

  /** Every call keeps the whole consistency check; a tried slot once occupied stays occupied. */
  lemma StepKeeps(p: Hashing, s: State, op: Op)
    requires Sound(p, s) && op.PositiveTimes()
    ensures Sound(p, Step(p, s, op)) && s.vvTried.Keys <= Step(p, s, op).vvTried.Keys
  {
    hide RandomOk, AddrOk, TriedOk, NewOk, RefsOk, CountsOk, TimesOk, Orphans, Add, Good, Attempt, Connected,
         SetServices,
         SwapRandom, Resolve, CollisionsOk;
    match op
    case AddOp(addr, source, timePenalty, now, roll) => AddKeeps(p, s, addr, source, timePenalty, now, roll);
    case GoodOp(service, testBeforeEvict, time) => GoodKeeps(p, s, service, testBeforeEvict, time);
    case AttemptOp(service, countFailure, time) => StatisticsKeep(p, s, service, countFailure, time, {});
    case ConnectedOp(service, time) => StatisticsKeep(p, s, service, false, time, {});
    case SetServicesOp(service, services) => StatisticsKeep(p, s, service, false, 0, services);
    case SwapOp(i, j) =>
      if InRange(s, i) && InRange(s, j) {
        SwapSound(p, s, i, j);
      }
    case ResolveOp(n, now, isValid) => ResolveKeeps(p, s, n, now, isValid);
    case ForgetOp(n) => ForgetKeeps(p, s, n);
  }

  lemma ForgetKeeps(p: Hashing, s: State, n: Id)
    requires Sound(p, s)
    ensures Sound(p, s.(collisions := s.collisions - {n}))
  {
    hide RandomOk, AddrOk, TriedOk, NewOk, RefsOk, CountsOk, TimesOk, Orphans, Hashing.TriedSlot;
    UnrelatedKeeps(p, s, s.(collisions := s.collisions - {n}));
    FewerWithout(s.collisions, n);
  }

  // t is reached from s by the calls of ops.
  ghost predicate Reaches(p: Hashing, s: State, ops: seq<Op>, t: State)
    decreases |ops|
  {
    if ops == [] then s == t
    else Inv(p, s) && ops[0].PositiveTimes() && Reaches(p, Step(p, s, ops[0]), ops[1..], t)
  }

  const EMPTY := State(0, map[], map[], [], 0, map[], 0, map[], 1, {})

  /** Every run of calls with positive times goes through and keeps the whole consistency check, and
      what was occupied in the tried table stays occupied. */
  lemma {:induction false} RunInv(p: Hashing, s: State, ops: seq<Op>) returns (t: State)
    requires Sound(p, s) && forall k :: 0 <= k < |ops| ==> ops[k].PositiveTimes()
    ensures Reaches(p, s, ops, t) && Sound(p, t) && s.vvTried.Keys <= t.vvTried.Keys
    decreases |ops|
  {
    hide Inv, CollisionsOk, Step;
    if ops == [] {
      t := s;
    } else {
      StepKeeps(p, s, ops[0]);
      t := RunInv(p, Step(p, s, ops[0]), ops[1..]);
    }
  }

  lemma EmptySound(p: Hashing)
    ensures Sound(p, EMPTY)
  {
    InitialInv(p);
  }

  // ----- Clear -----

  // Everything is reset except the collisions.
  function Reset(s: State): State {
    EMPTY.(collisions := s.collisions)
  }

  lemma ResetInv(p: Hashing, s: State)
    ensures Inv(p, Reset(s))
  {
    hide RandomOk, AddrOk, TriedOk, NewOk, RefsOk, CountsOk, TimesOk, Orphans;
    EmptySound(p);
    UnrelatedKeeps(p, EMPTY, Reset(s));
  }

  /** Clear leaves a sound state, under any new key, exactly when nothing was waiting: ids start again from
      0, so an id left in the collisions will be given to an entry that never collided. */
  lemma ClearSoundIff(p: Hashing, s: State)
    ensures Sound(p, Reset(s)) <==> s.collisions == {}
  {
    if s.collisions == {} {
      EmptySound(p);
    } else {
      var n :| n in s.collisions;
      assert !(n < Reset(s).nIdCount);
    }
  }

  // A live entry waits for a tried slot that is empty: the place where the tried entry to be tested is
  // looked up then holds the index -1.
  predicate Stale(p: Hashing, t: State, n: Id) {
    n in t.collisions && n in t.mapInfo && p.TriedSlot(t.mapInfo[n].service) !in t.vvTried
  }

  // An unknown address uses up an id, whether it is kept or not, and does not touch the tried table.
  lemma AddUnknown(p: Hashing, s: State, addr: Address, source: NetAddr, timePenalty: int, now: int, roll: nat -> nat)
    requires Inv(p, s) && addr.service.ip !in s.mapAddr
    ensures var t := Add(p, s, addr, source, timePenalty, now, roll);
            Inv(p, t) && t.nIdCount == s.nIdCount + 1 && t.collisions == s.collisions && t.vvTried == s.vvTried
  {
    hide RandomOk, AddrOk, TriedOk, NewOk, RefsOk, CountsOk, TimesOk, Orphans, Place;
    var penalty := if addr.service.ip == source then 0 else timePenalty;
    var created := addr.(nTime := Max0(addr.nTime - penalty));
    CreateKeeps(p, s, created, source);
    PlaceKeeps(p, Create(s, created, source), s.nIdCount, source, now);
  }

  // Whatever the slot, it can be had once its holder is old enough.
  function LateEnough(s: State, a: Slot): int {
    if a in s.vvNew && s.vvNew[a] in s.mapInfo then
      s.mapInfo[s.vvNew[a]].nTime + HORIZON_DAYS * DAY + 1 + Max0(s.mapInfo[s.vvNew[a]].nLastTry + 61)
    else 0
  }

  lemma LateAvailable(s: State, a: Slot)
    ensures SlotAvailable(s, a, LateEnough(s, a))
  {
  }

  lemma {:induction false} FreshAddr(known: set<NetAddr>) returns (ip: NetAddr)
    ensures forall a :: a in known ==> a < ip
    decreases known
  {
    if known == {} {
      ip := 0;
    } else {
      var a :| a in known;
      var rest := FreshAddr(known - {a});
      ip := if a < rest then rest else a + 1;
      assert known == known - {a} + {a};
    }
  }

  /** The address that is given a waiting id, in a state without tried entries. */
  lemma StaleNext(p: Hashing, s: State, addr: Address, source: NetAddr, timePenalty: int, now: int, roll: nat -> nat)
    requires Inv(p, s) && s.vvTried == map[] && s.nIdCount in s.collisions && addr.service.ip !in s.mapAddr
    ensures Stale(p, Add(p, s, addr, source, timePenalty, now, roll), s.nIdCount)
       <==> SlotAvailable(s, p.NewSlot(addr.service, source), now)
  {
    hide RandomOk, AddrOk, TriedOk, NewOk, RefsOk, CountsOk, TimesOk, Orphans, Add, Hashing.NewSlot, Hashing.TriedSlot,
         SlotAvailable;
    AddUnknown(p, s, addr, source, timePenalty, now, roll);
    AddedWhere(p, s, addr, source, timePenalty, now, roll);
  }

  /** So the first address added after Clear, if id 0 was waiting. */
  lemma StaleCollision(p: Hashing, s: State, addr: Address, source: NetAddr, timePenalty: int, now: int,
                       roll: nat -> nat)
    requires 0 in s.collisions
    ensures Inv(p, Reset(s)) && Stale(p, Add(p, Reset(s), addr, source, timePenalty, now, roll), 0)
  {
    hide Inv, Add, Stale, Hashing.NewSlot;
    ResetInv(p, s);
    StaleNext(p, Reset(s), addr, source, timePenalty, now, roll);
  }

  /** Any waiting id becomes a live entry with an empty tried slot by adding unknown addresses until the
      ids have come round to it. */
  lemma {:induction false} StaleRun(p: Hashing, s: State, n: Id) returns (ops: seq<Op>, t: State)
    requires Inv(p, s) && s.vvTried == map[] && n in s.collisions && s.nIdCount <= n
    ensures |ops| == n + 1 - s.nIdCount && forall k :: 0 <= k < |ops| ==> ops[k].AddOp?
    ensures Reaches(p, s, ops, t) && Stale(p, t, n)
    decreases n - s.nIdCount
  {
    hide RandomOk, AddrOk, TriedOk, NewOk, RefsOk, CountsOk, TimesOk, Orphans, Add, Hashing.NewSlot, Hashing.TriedSlot,
         SlotAvailable, Stale;
    var ip := FreshAddr(s.mapAddr.Keys);
    var addr := Address(Service(ip, 0), 1, {});
    var now := LateEnough(s, p.NewSlot(addr.service, ip));
    LateAvailable(s, p.NewSlot(addr.service, ip));
    var op := AddOp(addr, ip, 0, now, _ => 0);
    AddUnknown(p, s, addr, ip, 0, now, op.roll);
    var u := Step(p, s, op);
    if s.nIdCount == n {
      StaleNext(p, s, addr, ip, 0, now, op.roll);
      ops, t := [op], u;
      assert Reaches(p, u, ops[1..], t);
    } else {
      var rest;
      rest, t := StaleRun(p, u, n);
      ops := [op] + rest;
      assert ops[1..] == rest;
    }
  }

  lemma {:induction false} ReachesSound(p: Hashing, s: State, ops: seq<Op>, t: State)
    requires Sound(p, s) && Reaches(p, s, ops, t)
    ensures Sound(p, t)
    decreases |ops|
  {
    hide Inv, CollisionsOk, Step;
    if ops != [] {
      StepKeeps(p, s, ops[0]);
      ReachesSound(p, Step(p, s, ops[0]), ops[1..], t);
    }
  }

  ghost predicate CanGoStale(p: Hashing, s: State) {
    exists ops, t, n :: Reaches(p, s, ops, t) && Stale(p, t, n)
  }

  /** After Clear, whatever the key was and whatever key it draws, some run of calls leads to a waiting entry
      with an empty tried slot exactly when something was waiting before. */
  lemma ClearStaleIff(p: Hashing, s: State)
    ensures CanGoStale(p, Reset(s)) <==> s.collisions != {}
  {
    hide Inv, Hashing.TriedSlot, Reaches;
    if s.collisions == {} {
      EmptySound(p);
      forall ops, t, n | Reaches(p, Reset(s), ops, t) ensures !Stale(p, t, n) {
        ReachesSound(p, EMPTY, ops, t);
      }
    } else {
      var n :| n in s.collisions;
      ResetInv(p, s);
      var ops, t := StaleRun(p, Reset(s), n);
    }
  }
}
