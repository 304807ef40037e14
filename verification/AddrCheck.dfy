/**
 The manager's own consistency check, Check_ of src/addrman.cpp, as it runs, and what it decides: it
 returns 0 exactly on the states that satisfy Checked, and Inv, the invariant of every run, is Checked
 together with the part the check does not look at (surplus entries of mapAddr and ids out of range).
 */
module AddrCheck {
  import opened AddrModel
  import opened AddrOps
  import opened AddrMan

  // What the check asks of one entry. A missing address reads as id 0.
  predicate EntryOk(s: State, n: Id)
    requires n in s.mapInfo
  {
    var info := s.mapInfo[n];
    && (if info.fInTried then info.nLastSuccess != 0 && info.nRefCount == 0
        else 0 < info.nRefCount <= NEW_BUCKETS_PER_ADDRESS)
    && (if info.service.ip in s.mapAddr then s.mapAddr[info.service.ip] else 0) == n
    && info.nRandomPos < |s.vRandom| && s.vRandom[info.nRandomPos] == n
    && info.nLastTry >= 0 && info.nLastSuccess >= 0
  }

  ghost predicate EntriesOk(s: State) {
    forall n :: n in s.mapInfo ==> EntryOk(s, n)
  }

  ghost predicate NewCounted(s: State) {
    forall n :: n in s.mapInfo && !s.mapInfo[n].fInTried ==> s.mapInfo[n].nRefCount == |Held(s.vvNew, n)|
  }

  ghost predicate Checked(p: Hashing, s: State) {
    && |s.vRandom| == s.nTried + s.nNew && EntriesOk(s) && CountsOk(s) && TriedOk(p, s) && NewOk(p, s) && NewCounted(s)
  }

  // ----- the check and the invariant -----

  function Below(n: nat): (b: set<nat>)
    ensures |b| == n && forall i :: i in b <==> 0 <= i < n
  {
    if n == 0 then {} else Below(n - 1) + {n - 1}
  }

  function Positions(m: map<Id, Info>, ids: set<Id>): set<nat> {
    set n | n in ids && n in m :: m[n].nRandomPos
  }

  lemma {:induction false} PositionsSize(m: map<Id, Info>, ids: set<Id>, v: seq<Id>)
    requires ids <= m.Keys && forall n :: n in m ==> m[n].nRandomPos < |v| && v[m[n].nRandomPos] == n
    ensures |Positions(m, ids)| == |ids|
    decreases ids
  {
    if ids != {} {
      var n :| n in ids;
      PositionsSize(m, ids - {n}, v);
      assert m[n].nRandomPos !in Positions(m, ids - {n});
      assert Positions(m, ids) == Positions(m, ids - {n}) + {m[n].nRandomPos};
    }
  }

  lemma SubsetSameSize(a: set<nat>, b: set<nat>)
    requires a <= b && |a| == |b|
    ensures a == b
  {
    assert b == a + (b - a);
    assert |b| == |a| + |b - a|;
  }

  lemma EntriesSize(s: State)
    requires CountsOk(s)
    ensures |s.mapInfo.Keys| == s.nTried + s.nNew
  {
    assert s.mapInfo.Keys == TriedIds(s.mapInfo) + NewIds(s.mapInfo);
    assert TriedIds(s.mapInfo) !! NewIds(s.mapInfo);
  }

  // Every entry has its own place in vRandom and there are no more places than entries: so every place
  // is the place of an entry.
  lemma EveryPlaceTaken(s: State)
    requires CountsOk(s) && |s.vRandom| == s.nTried + s.nNew
    requires forall n :: n in s.mapInfo ==>
             s.mapInfo[n].nRandomPos < |s.vRandom| && s.vRandom[s.mapInfo[n].nRandomPos] == n
    ensures RandomOk(s)
  {
    var ids := s.mapInfo.Keys;
    EntriesSize(s);
    PositionsSize(s.mapInfo, ids, s.vRandom);
    assert Positions(s.mapInfo, ids) <= Below(|s.vRandom|);
    SubsetSameSize(Positions(s.mapInfo, ids), Below(|s.vRandom|));
    forall i | 0 <= i < |s.vRandom|
      ensures s.vRandom[i] in s.mapInfo && s.mapInfo[s.vRandom[i]].nRandomPos == i
    {
      assert i in Below(|s.vRandom|);
    }
  }

  // In a consistent state vRandom is as long as the two counters say.
  lemma RandomSize(s: State)
    requires RandomOk(s) && CountsOk(s)
    ensures |s.vRandom| == s.nTried + s.nNew
  {
    var ids := s.mapInfo.Keys;
    EntriesSize(s);
    PositionsSize(s.mapInfo, ids, s.vRandom);
    forall i | i in Below(|s.vRandom|)
      ensures i in Positions(s.mapInfo, ids)
    {
      assert s.vRandom[i] in ids;
    }
    assert Positions(s.mapInfo, ids) == Below(|s.vRandom|);
  }

  lemma InvEntries(p: Hashing, s: State)
    requires Inv(p, s)
    ensures EntriesOk(s) && NewCounted(s)
  {
    hide TriedOk, CountsOk;
    forall n | n in s.mapInfo
      ensures EntryOk(s, n)
    {
      IsOrphan(s, n);
      if s.mapInfo[n].fInTried {
        TriedHoldsNone(p, s, n);
      }
    }
  }

  lemma CheckedRefs(p: Hashing, s: State)
    requires EntriesOk(s) && NewOk(p, s) && NewCounted(s)
    ensures RefsOk(s) && TimesOk(s) && Orphans(s) == {}
  {
    forall n | n in s.mapInfo && s.mapInfo[n].fInTried
      ensures Held(s.vvNew, n) == {}
    {
    }
  }

  /** Inv is what the check decides, plus what it does not look at. */
  lemma CheckedIffInv(p: Hashing, s: State)
    ensures Inv(p, s) <==> Checked(p, s) && AddrOk(s)
  {
    hide RandomOk, AddrOk, TriedOk, NewOk, RefsOk, CountsOk, TimesOk, Orphans, NewCounted, EntriesOk;
    if Inv(p, s) {
      InvEntries(p, s);
      RandomSize(s);
    }
    if Checked(p, s) && AddrOk(s) {
      CheckedRefs(p, s);
      assert forall n :: n in s.mapInfo ==>
             s.mapInfo[n].nRandomPos < |s.vRandom| && s.vRandom[s.mapInfo[n].nRandomPos] == n by {
        EntryPlaces(s);
      }
      EveryPlaceTaken(s);
    }
  }

  lemma EntryPlaces(s: State)
    requires EntriesOk(s)
    ensures forall n :: n in s.mapInfo ==>
            s.mapInfo[n].nRandomPos < |s.vRandom| && s.vRandom[s.mapInfo[n].nRandomPos] == n
  {
  }

  // ----- the check as it runs -----

  // The entries of a table in the buckets before b and the positions before i of bucket b.
  ghost predicate Visited(t: Table, b: nat, i: nat, seen: Table) {
    && (forall a :: a in seen <==> a in t && (a.bucket < b || (a.bucket == b && a.pos < i)))
    && (forall a :: a in seen ==> seen[a] == t[a])
  }

  lemma VisitedSkip(t: Table, b: nat, i: nat, seen: Table)
    requires Visited(t, b, i, seen) && Slot(b, i) !in t
    ensures Visited(t, b, i + 1, seen)
  {
  }

  lemma VisitedNext(t: Table, b: nat, i: nat, seen: Table)
    requires Visited(t, b, i, seen) && Slot(b, i) in t
    ensures Visited(t, b, i + 1, seen[Slot(b, i) := t[Slot(b, i)]]) && Slot(b, i) !in seen
  {
  }

  lemma VisitedRow(t: Table, b: nat, seen: Table)
    requires Visited(t, b, BUCKET_SIZE, seen) && forall a :: a in t ==> a.pos < BUCKET_SIZE
    ensures Visited(t, b + 1, 0, seen)
  {
  }

  lemma VisitedAll(t: Table, b: nat, seen: Table)
    requires Visited(t, b, 0, seen) && forall a :: a in t ==> a.bucket < b
    ensures seen == t
  {
  }

  lemma TableBounds(t: BucketTable)
    requires t.Valid()
    ensures forall a :: a in t.Abs() ==> a.bucket < t.cells.Length0 && a.pos < BUCKET_SIZE
  {
  }

  // The first loop: the entries one by one, sorted into tried and new.
  method CheckEntries(m: AddrMan) returns (code: int, setTried: set<Id>, mapNew: map<Id, nat>)
    requires m.Valid()
    ensures code == 0 <==> EntriesOk(m.Abs())
    ensures code == 0 ==> setTried == TriedIds(m.mapInfo) && mapNew == Expected(m.mapInfo, map[])
  {
    hide BucketTable.Abs, BucketTable.Valid, EntryOk, Held;
    ghost var s := m.Abs();
    var todo := m.mapInfo.Keys;
    setTried, mapNew := {}, map[];
    while todo != {}
      invariant todo <= m.mapInfo.Keys
      invariant forall n :: n in m.mapInfo && n !in todo ==> EntryOk(s, n)
      invariant forall n :: n in setTried <==> n in m.mapInfo && n !in todo && m.mapInfo[n].fInTried
      invariant forall n :: n in mapNew <==> n in m.mapInfo && n !in todo && !m.mapInfo[n].fInTried
      invariant forall n :: n in mapNew ==> mapNew[n] == m.mapInfo[n].nRefCount
      decreases todo
    {
      var n :| n in todo;
      var info := m.mapInfo[n];
      CheckEntryMeaning(s, n);
      if info.fInTried {
        if info.nLastSuccess == 0 {
          return -1, {}, map[];
        }
        if info.nRefCount != 0 {
          return -2, {}, map[];
        }
        setTried := setTried + {n};
      } else {
        if info.nRefCount > NEW_BUCKETS_PER_ADDRESS {
          return -3, {}, map[];
        }
        if info.nRefCount == 0 {
          return -4, {}, map[];
        }
        mapNew := mapNew[n := info.nRefCount];
      }
      if (if info.service.ip in m.mapAddr then m.mapAddr[info.service.ip] else 0) != n {
        return -5, {}, map[];
      }
      if info.nRandomPos >= |m.vRandom| || m.vRandom[info.nRandomPos] != n {
        return -14, {}, map[];
      }
      if info.nLastTry < 0 {
        return -6, {}, map[];
      }
      if info.nLastSuccess < 0 {
        return -8, {}, map[];
      }
      todo := todo - {n};
    }
    code := 0;
    EntriesPositive(s);
    ExpectedNone(m.mapInfo, mapNew);
  }

  lemma CheckEntryMeaning(s: State, n: Id)
    requires n in s.mapInfo
    ensures var info := s.mapInfo[n];
            EntryOk(s, n) <==>
              && (info.fInTried ==> info.nLastSuccess != 0 && info.nRefCount == 0)
              && (!info.fInTried ==> 0 < info.nRefCount <= NEW_BUCKETS_PER_ADDRESS)
              && (if info.service.ip in s.mapAddr then s.mapAddr[info.service.ip] else 0) == n
              && info.nRandomPos < |s.vRandom| && s.vRandom[info.nRandomPos] == n
              && info.nLastTry >= 0 && info.nLastSuccess >= 0
  {
  }

  // The slots the new entries should still have after those in seen.
  ghost function Expected(m: map<Id, Info>, seen: Table): map<Id, nat> {
    map n | n in m && !m[n].fInTried && m[n].nRefCount > |Held(seen, n)| :: (m[n].nRefCount - |Held(seen, n)|) as nat
  }

  lemma EntriesPositive(s: State)
    requires forall n :: n in s.mapInfo ==> EntryOk(s, n)
    ensures forall n :: n in s.mapInfo && !s.mapInfo[n].fInTried ==> s.mapInfo[n].nRefCount > 0
  {
  }

  lemma ExpectedNone(m: map<Id, Info>, mapNew: map<Id, nat>)
    requires forall n :: n in m && !m[n].fInTried ==> m[n].nRefCount > 0
    requires forall n :: n in mapNew <==> n in m && !m[n].fInTried
    requires forall n :: n in mapNew ==> mapNew[n] == m[n].nRefCount
    ensures mapNew == Expected(m, map[])
  {
    assert forall n: Id :: Held(map[], n) == {};
  }

  // ----- the tried table -----

  ghost predicate TriedLeft(m: map<Id, Info>, seen: Table, left: set<Id>) {
    forall n :: n in left <==> n in m && m[n].fInTried && forall a :: a in seen ==> seen[a] != n
  }

  predicate TriedSlotOk(p: Hashing, m: map<Id, Info>, a: Slot, n: Id) {
    n in m && m[n].fInTried && p.TriedSlot(m[n].service) == a
  }

  ghost predicate TriedSeen(p: Hashing, m: map<Id, Info>, seen: Table) {
    forall a :: a in seen ==> TriedSlotOk(p, m, a, seen[a])
  }

  lemma TriedStep(p: Hashing, s: State, seen: Table, left: set<Id>, a: Slot)
    requires TriedLeft(s.mapInfo, seen, left) && TriedSeen(p, s.mapInfo, seen) && seen.Keys <= s.vvTried.Keys
    requires a in s.vvTried && a !in seen
    ensures s.vvTried[a] in left && TriedSlotOk(p, s.mapInfo, a, s.vvTried[a]) ==>
              var seen' := seen[a := s.vvTried[a]];
              TriedSeen(p, s.mapInfo, seen') && TriedLeft(s.mapInfo, seen', left - {s.vvTried[a]})
    ensures TriedOk(p, s) ==> s.vvTried[a] in left && TriedSlotOk(p, s.mapInfo, a, s.vvTried[a])
  {
    hide Hashing.TriedSlot;
    var v, seen' := s.vvTried[a], seen[a := s.vvTried[a]];
    assert seen'[a] == v;
    assert forall c :: c in seen ==> seen'[c] == seen[c];
  }

  lemma TriedDone(p: Hashing, s: State, left: set<Id>)
    requires TriedLeft(s.mapInfo, s.vvTried, left) && TriedSeen(p, s.mapInfo, s.vvTried)
    ensures TriedOk(p, s) <==> left == {}
  {
    hide Hashing.TriedSlot;
    if left == {} {
      forall n | n in s.mapInfo && s.mapInfo[n].fInTried
        ensures p.TriedSlot(s.mapInfo[n].service) in s.vvTried && s.vvTried[p.TriedSlot(s.mapInfo[n].service)] == n
      {
        assert n !in left;
        var a :| a in s.vvTried && s.vvTried[a] == n;
        assert TriedSlotOk(p, s.mapInfo, a, n);
      }
    } else {
      var n :| n in left;
      assert n in s.mapInfo && s.mapInfo[n].fInTried;
    }
  }

  lemma TriedSlotParts(p: Hashing, service: Service, b: nat, i: nat)
    ensures p.TriedSlot(service) == Slot(b, i) <==>
              p.triedHash(service) % TRIED_BUCKET_COUNT == b && p.Position(service, false, b) == i
  {
  }

  method CheckTried(m: AddrMan, tried: set<Id>) returns (code: int)
    requires m.Valid() && tried == TriedIds(m.mapInfo)
    ensures code == 0 <==> TriedOk(m.p, m.Abs())
  {
    hide BucketTable.Abs, BucketTable.Valid, TriedOk, TriedLeft, TriedSeen, Visited, Hashing.TriedSlot,
         Hashing.Position;
    ghost var s, seen: Table := m.Abs(), map[];
    var setTried := tried;
    TableBounds(m.vvTried);
    assert Visited(s.vvTried, 0, 0, seen) && TriedLeft(s.mapInfo, seen, setTried)
           && TriedSeen(m.p, s.mapInfo, seen) by {
      TriedStart(m.p, s);
    }
    for b := 0 to TRIED_BUCKET_COUNT
      invariant Visited(s.vvTried, b, 0, seen) && TriedLeft(s.mapInfo, seen, setTried)
                && TriedSeen(m.p, s.mapInfo, seen)
    {
      for i := 0 to BUCKET_SIZE
        invariant Visited(s.vvTried, b, i, seen) && TriedLeft(s.mapInfo, seen, setTried)
                  && TriedSeen(m.p, s.mapInfo, seen)
      {
        var a := Slot(b, i);
        var v := m.vvTried.Get(a);
        if v != -1 {
          assert seen.Keys <= s.vvTried.Keys by { VisitedPart(s.vvTried, b, i, seen); }
          VisitedNext(s.vvTried, b, i, seen);
          TriedStep(m.p, s, seen, setTried, a);
          if v !in setTried {
            return -11;
          }
          assert v in m.mapInfo by { LeftKnown(s.mapInfo, seen, setTried, v); }
          TriedSlotParts(m.p, m.mapInfo[v].service, b, i);
          if m.p.triedHash(m.mapInfo[v].service) % TRIED_BUCKET_COUNT != b {
            return -17;
          }
          if m.p.Position(m.mapInfo[v].service, false, b) != i {
            return -18;
          }
          assert TriedSlotOk(m.p, s.mapInfo, a, v) by { LeftKnown(s.mapInfo, seen, setTried, v); }
          setTried := setTried - {v};
          seen := seen[a := v];
        } else {
          VisitedSkip(s.vvTried, b, i, seen);
        }
      }
      VisitedRow(s.vvTried, b, seen);
    }
    VisitedAll(s.vvTried, TRIED_BUCKET_COUNT, seen);
    TriedDone(m.p, s, setTried);
    code := if setTried != {} then -13 else 0;
  }

  lemma LeftKnown(m: map<Id, Info>, seen: Table, left: set<Id>, n: Id)
    requires TriedLeft(m, seen, left) && n in left
    ensures n in m && m[n].fInTried
  {
  }

  lemma TriedStart(p: Hashing, s: State)
    ensures Visited(s.vvTried, 0, 0, map[]) && TriedLeft(s.mapInfo, map[], TriedIds(s.mapInfo))
            && TriedSeen(p, s.mapInfo, map[])
  {
  }

  lemma VisitedPart(t: Table, b: nat, i: nat, seen: Table)
    requires Visited(t, b, i, seen)
    ensures seen.Keys <= t.Keys
  {
  }

  // ----- the new table -----

  predicate NewSlotOk(p: Hashing, m: map<Id, Info>, a: Slot, n: Id) {
    n in m && !m[n].fInTried && p.Position(m[n].service, true, a.bucket) == a.pos
  }

  ghost predicate NewSeen(p: Hashing, m: map<Id, Info>, seen: Table) {
    && (forall a :: a in seen ==> NewSlotOk(p, m, a, seen[a]))
    && (forall n :: n in m && !m[n].fInTried ==> |Held(seen, n)| <= m[n].nRefCount)
  }

  // The count of one more slot, as the check keeps it: gone at zero.
  function Counted(mapNew: map<Id, nat>, n: Id): map<Id, nat>
    requires n in mapNew
  {
    if mapNew[n] <= 1 then mapNew - {n} else mapNew[n := mapNew[n] - 1]
  }

  lemma HeldMore(t: Table, seen: Table, n: Id)
    requires forall a :: a in seen ==> a in t && seen[a] == t[a]
    ensures |Held(seen, n)| <= |Held(t, n)|
  {
    var a, b := Held(seen, n), Held(t, n);
    assert a <= b;
    assert b == a + (b - a);
    assert |b| == |a| + |b - a|;
  }

  lemma HeldStep(seen: Table, a: Slot, m: Id, n: Id)
    requires a !in seen
    ensures |Held(seen[a := m], n)| == |Held(seen, n)| + if m == n then 1 else 0
  {
    HeldWith(seen, a, m, n);
    assert a !in Held(seen, n);
  }

  lemma ExpectedStep(m: map<Id, Info>, seen: Table, a: Slot, n: Id)
    requires a !in seen && n in Expected(m, seen)
    ensures Expected(m, seen[a := n]) == Counted(Expected(m, seen), n)
  {
    hide Held;
    forall k | k in m
      ensures |Held(seen[a := n], k)| == |Held(seen, k)| + if n == k then 1 else 0
    {
      HeldStep(seen, a, n, k);
    }
  }

  lemma NewStep(p: Hashing, s: State, seen: Table, a: Slot)
    requires NewSeen(p, s.mapInfo, seen) && a in s.vvNew && a !in seen
    requires forall c :: c in seen ==> c in s.vvNew && seen[c] == s.vvNew[c]
    ensures var n := s.vvNew[a];
            n in Expected(s.mapInfo, seen) && NewSlotOk(p, s.mapInfo, a, n) ==> NewSeen(p, s.mapInfo, seen[a := n])
    ensures NewOk(p, s) && NewCounted(s) ==>
            s.vvNew[a] in Expected(s.mapInfo, seen) && NewSlotOk(p, s.mapInfo, a, s.vvNew[a])
  {
    hide Held, Hashing.Position;
    var n := s.vvNew[a];
    forall k
      ensures |Held(seen[a := n], k)| == |Held(seen, k)| + if n == k then 1 else 0
    {
      HeldStep(seen, a, n, k);
    }
    HeldMore(s.vvNew, seen[a := n], n);
  }

  lemma NewDone(p: Hashing, s: State)
    requires NewSeen(p, s.mapInfo, s.vvNew) && forall a :: a in s.vvNew ==> a.bucket < NEW_BUCKET_COUNT
    ensures NewOk(p, s) && (NewCounted(s) <==> Expected(s.mapInfo, s.vvNew) == map[])
  {
    hide Held, Hashing.Position;
    if Expected(s.mapInfo, s.vvNew) == map[] {
      forall n | n in s.mapInfo && !s.mapInfo[n].fInTried
        ensures s.mapInfo[n].nRefCount == |Held(s.vvNew, n)|
      {
        assert n !in Expected(s.mapInfo, s.vvNew);
      }
    } else {
      var n :| n in Expected(s.mapInfo, s.vvNew);
      assert s.mapInfo[n].nRefCount > |Held(s.vvNew, n)|;
    }
  }

  method CheckNew(m: AddrMan, expected: map<Id, nat>) returns (code: int)
    requires m.Valid() && expected == Expected(m.mapInfo, map[])
    ensures code == 0 <==> NewOk(m.p, m.Abs()) && NewCounted(m.Abs())
  {
    hide BucketTable.Abs, BucketTable.Valid, NewOk, NewCounted, NewSeen, Visited, Hashing.Position, Expected;
    ghost var s, seen: Table := m.Abs(), map[];
    var mapNew := expected;
    TableBounds(m.vvNew);
    assert Visited(s.vvNew, 0, 0, seen) && NewSeen(m.p, s.mapInfo, seen) by { NewStart(m.p, s); }
    for b := 0 to NEW_BUCKET_COUNT
      invariant Visited(s.vvNew, b, 0, seen) && NewSeen(m.p, s.mapInfo, seen) && mapNew == Expected(s.mapInfo, seen)
    {
      for i := 0 to BUCKET_SIZE
        invariant Visited(s.vvNew, b, i, seen) && NewSeen(m.p, s.mapInfo, seen) && mapNew == Expected(s.mapInfo, seen)
      {
        var a := Slot(b, i);
        var v := m.vvNew.Get(a);
        if v != -1 {
          assert forall c :: c in seen ==>
                 c in s.vvNew && seen[c] == s.vvNew[c] by { VisitedSame(s.vvNew, b, i, seen); }
          VisitedNext(s.vvNew, b, i, seen);
          NewStep(m.p, s, seen, a);
          if v !in mapNew {
            return -12;
          }
          assert v in m.mapInfo && !m.mapInfo[v].fInTried by { ExpectedKnown(s.mapInfo, seen, v); }
          if m.p.Position(m.mapInfo[v].service, true, b) != i {
            return -19;
          }
          ExpectedStep(s.mapInfo, seen, a, v);
          if mapNew[v] <= 1 {
            mapNew := mapNew - {v};
          } else {
            mapNew := mapNew[v := mapNew[v] - 1];
          }
          seen := seen[a := v];
        } else {
          VisitedSkip(s.vvNew, b, i, seen);
        }
      }
      VisitedRow(s.vvNew, b, seen);
    }
    VisitedAll(s.vvNew, NEW_BUCKET_COUNT, seen);
    NewDone(m.p, s);
    code := if mapNew != map[] then -15 else 0;
  }

  lemma NewStart(p: Hashing, s: State)
    ensures Visited(s.vvNew, 0, 0, map[]) && NewSeen(p, s.mapInfo, map[])
  {
    assert forall n: Id :: Held(map[], n) == {};
  }

  lemma VisitedSame(t: Table, b: nat, i: nat, seen: Table)
    requires Visited(t, b, i, seen)
    ensures forall c :: c in seen ==> c in t && seen[c] == t[c]
  {
  }

  lemma ExpectedKnown(m: map<Id, Info>, seen: Table, n: Id)
    requires n in Expected(m, seen)
    ensures n in m && !m[n].fInTried
  {
  }

  /** The check returns 0 exactly on the states it is meant to accept, so on every state of a run. */
  method Check(m: AddrMan, keyIsNull: bool) returns (code: int)
    requires m.Valid()
    ensures code == 0 <==> Checked(m.p, m.Abs()) && !keyIsNull
    ensures Inv(m.p, m.Abs()) && !keyIsNull ==> code == 0
  {
    hide BucketTable.Abs, BucketTable.Valid, EntriesOk, TriedOk, NewOk, NewCounted, Inv, AddrOk, Expected;
    CheckedIffInv(m.p, m.Abs());
    if |m.vRandom| != m.nTried + m.nNew {
      return -7;
    }
    var setTried, mapNew;
    code, setTried, mapNew := CheckEntries(m);
    if code != 0 {
      return;
    }
    assert mapNew.Keys == NewIds(m.mapInfo) by { ExpectedKeys(m.Abs()); }
    if |setTried| != m.nTried {
      return -9;
    }
    if |mapNew.Keys| != m.nNew {
      return -10;
    }
    code := CheckTried(m, setTried);
    if code != 0 {
      return;
    }
    code := CheckNew(m, mapNew);
    if code != 0 {
      return;
    }
    code := if keyIsNull then -16 else 0;
  }

  lemma ExpectedKeys(s: State)
    requires EntriesOk(s)
    ensures Expected(s.mapInfo, map[]).Keys == NewIds(s.mapInfo)
  {
    assert forall n: Id :: Held(map[], n) == {};
    forall n | n in s.mapInfo && !s.mapInfo[n].fInTried
      ensures s.mapInfo[n].nRefCount > 0
    {
      assert EntryOk(s, n);
    }
  }
}
