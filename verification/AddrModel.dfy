/**
 The address manager of src/addrman.cpp as values: five redundant structures (the entries by id, the
 id by network address, a random permutation of the ids, the table of tried entries and the table of
 new entries) and two counters. The hash-based bucket functions are parameters.

 Each call is composed of a few small changes; Weak is the part of the consistency check that every
 such change keeps, and Inv adds that no new entry is left without a slot.
 */
module AddrModel {
  import opened Wrappers

  const NEW_BUCKET_COUNT: nat := 1024
  const TRIED_BUCKET_COUNT: nat := 256
  const BUCKET_SIZE: nat := 64
  const NEW_BUCKETS_PER_ADDRESS: nat := 8
  const TRIED_COLLISION_SIZE: nat := 10

  type Id = nat
  type NetAddr = nat

  datatype Service = Service(ip: NetAddr, port: nat)

  datatype Address = Address(service: Service, nTime: nat, nServices: set<nat>)

  datatype Info = Info(
    service: Service, nTime: nat, nServices: set<nat>, source: NetAddr,
    nLastTry: int, nLastCountAttempt: int, nLastSuccess: int, nAttempts: nat,
    nRefCount: nat, fInTried: bool, nRandomPos: nat)

  datatype Slot = Slot(bucket: nat, pos: nat)

  // The occupied slots of a table.
  type Table = map<Slot, Id>

  /** The bucket functions under the manager's secret key and AS map. */
  datatype Hashing = Hashing(position: (Service, bool, nat) -> nat, triedHash: Service -> nat,
                             newHash: (Service, NetAddr) -> nat) {
    function Position(a: Service, isNew: bool, bucket: nat): (i: nat)
      ensures i < BUCKET_SIZE
    {
      position(a, isNew, bucket) % BUCKET_SIZE
    }

    function TriedSlot(a: Service): (s: Slot)
      ensures s.bucket < TRIED_BUCKET_COUNT && s.pos < BUCKET_SIZE
    {
      var bucket := triedHash(a) % TRIED_BUCKET_COUNT;
      Slot(bucket, Position(a, false, bucket))
    }

    function NewSlotIn(a: Service, bucket: nat): (s: Slot)
      ensures s.bucket == bucket && s.pos < BUCKET_SIZE
    {
      Slot(bucket, Position(a, true, bucket))
    }

    function NewSlot(a: Service, source: NetAddr): (s: Slot)
      ensures s.bucket < NEW_BUCKET_COUNT && s == NewSlotIn(a, s.bucket)
    {
      NewSlotIn(a, newHash(a, source) % NEW_BUCKET_COUNT)
    }
  }

  datatype State = State(
    nIdCount: nat, mapInfo: map<Id, Info>, mapAddr: map<NetAddr, Id>, vRandom: seq<Id>,
    nTried: int, vvTried: Table, nNew: int, vvNew: Table, nLastGood: int, collisions: set<Id>)

  // ----- the consistency check -----

  // The slots of the new table that hold an entry.
  function Held(t: Table, n: Id): set<Slot> {
    set s | s in t && t[s] == n
  }

  function TriedIds(m: map<Id, Info>): set<Id> {
    set n | n in m && m[n].fInTried
  }

  function NewIds(m: map<Id, Info>): set<Id> {
    set n | n in m && !m[n].fInTried
  }

  // vRandom is a permutation of the ids, and each entry knows its place in it.
  ghost predicate RandomOk(s: State) {
    && (forall i :: 0 <= i < |s.vRandom| ==> s.vRandom[i] in s.mapInfo && s.mapInfo[s.vRandom[i]].nRandomPos == i)
    && (forall n :: n in s.mapInfo ==> s.mapInfo[n].nRandomPos < |s.vRandom| && s.vRandom[s.mapInfo[n].nRandomPos] == n)
  }

  // mapAddr is the inverse of the network addresses of the entries; ids are below nIdCount.
  ghost predicate AddrOk(s: State) {
    && (forall n :: n in s.mapInfo ==> n < s.nIdCount)
    && (forall n :: n in s.mapInfo ==> s.mapInfo[n].service.ip in s.mapAddr && s.mapAddr[s.mapInfo[n].service.ip] == n)
    && (forall a :: a in s.mapAddr ==> s.mapAddr[a] in s.mapInfo && s.mapInfo[s.mapAddr[a]].service.ip == a)
  }

  // The tried table holds exactly the tried entries, each in the slot its hash gives.
  ghost predicate TriedOk(p: Hashing, s: State) {
    && (forall t :: t in s.vvTried ==> s.vvTried[t] in s.mapInfo && s.mapInfo[s.vvTried[t]].fInTried
                                       && t == p.TriedSlot(s.mapInfo[s.vvTried[t]].service))
    && (forall n :: n in s.mapInfo && s.mapInfo[n].fInTried ==>
          p.TriedSlot(s.mapInfo[n].service) in s.vvTried && s.vvTried[p.TriedSlot(s.mapInfo[n].service)] == n)
  }

  // The new table holds only new entries, at the position their hash gives in the bucket.
  ghost predicate NewOk(p: Hashing, s: State) {
    forall t :: t in s.vvNew ==>
      && t.bucket < NEW_BUCKET_COUNT
      && s.vvNew[t] in s.mapInfo && !s.mapInfo[s.vvNew[t]].fInTried
      && t == p.NewSlotIn(s.mapInfo[s.vvNew[t]].service, t.bucket)
  }

  // Reference counts are the numbers of slots held, at most eight.
  ghost predicate RefsOk(s: State) {
    forall n :: n in s.mapInfo ==>
      s.mapInfo[n].nRefCount == |Held(s.vvNew, n)| && s.mapInfo[n].nRefCount <= NEW_BUCKETS_PER_ADDRESS
  }

  ghost predicate CountsOk(s: State) {
    s.nTried == |TriedIds(s.mapInfo)| && s.nNew == |NewIds(s.mapInfo)|
  }

  ghost predicate TimesOk(s: State) {
    forall n :: n in s.mapInfo ==>
      && s.mapInfo[n].nLastTry >= 0 && s.mapInfo[n].nLastSuccess >= 0
      && (s.mapInfo[n].fInTried ==> s.mapInfo[n].nLastSuccess > 0)
  }

  ghost predicate Weak(p: Hashing, s: State) {
    RandomOk(s) && AddrOk(s) && TriedOk(p, s) && NewOk(p, s) && RefsOk(s) && CountsOk(s) && TimesOk(s)
  }

  // New entries that no slot refers to.
  function Orphans(s: State): set<Id> {
    set n | n in s.mapInfo && !s.mapInfo[n].fInTried && s.mapInfo[n].nRefCount == 0
  }

  ghost predicate Inv(p: Hashing, s: State) {
    Weak(p, s) && Orphans(s) == {}
  }

  // What the tried table owes to the entries waiting to replace one of its entries.
  ghost predicate CollisionsOk(p: Hashing, s: State) {
    && |s.collisions| <= TRIED_COLLISION_SIZE
    && (forall n :: n in s.collisions ==> n < s.nIdCount)
    && (forall n :: n in s.collisions && n in s.mapInfo ==> p.TriedSlot(s.mapInfo[n].service) in s.vvTried)
  }

  lemma InitialInv(p: Hashing)
    ensures Inv(p, State(0, map[], map[], [], 0, map[], 0, map[], 1, {}))
    ensures CollisionsOk(p, State(0, map[], map[], [], 0, map[], 0, map[], 1, {}))
  {
  }

  // ----- small changes -----

  // Create: a new entry without a slot, at the end of vRandom. nNew counts it.
  function Create(s: State, addr: Address, source: NetAddr): State {
    var n := s.nIdCount;
    var info := Info(addr.service, addr.nTime, addr.nServices, source, 0, 0, 0, 0, 0, false, |s.vRandom|);
    s.(nIdCount := n + 1, mapInfo := s.mapInfo[n := info], mapAddr := s.mapAddr[addr.service.ip := n],
       vRandom := s.vRandom + [n], nNew := s.nNew + 1)
  }

  predicate InRange(s: State, i: nat) {
    i < |s.vRandom| && s.vRandom[i] in s.mapInfo
  }

  function SwapRandom(s: State, i: nat, j: nat): State
    requires InRange(s, i) && InRange(s, j)
  {
    if i == j then s else
    var n, m := s.vRandom[i], s.vRandom[j];
    var mapInfo := s.mapInfo[n := s.mapInfo[n].(nRandomPos := j)];
    s.(mapInfo := mapInfo[m := mapInfo[m].(nRandomPos := i)], vRandom := s.vRandom[i := m][j := n])
  }

  // Delete: the last id takes the entry's place in vRandom.
  function Delete(s: State, n: Id): State
    requires n in s.mapInfo && InRange(s, s.mapInfo[n].nRandomPos) && InRange(s, |s.vRandom| - 1)
  {
    var t := SwapRandom(s, s.mapInfo[n].nRandomPos, |s.vRandom| - 1);
    t.(vRandom := t.vRandom[..|t.vRandom| - 1], mapAddr := t.mapAddr - {s.mapInfo[n].service.ip},
       mapInfo := t.mapInfo - {n}, nNew := t.nNew - 1)
  }

  // Empty a slot of the new table.
  function Unref(s: State, t: Slot): State
    requires t in s.vvNew && s.vvNew[t] in s.mapInfo && s.mapInfo[s.vvNew[t]].nRefCount > 0
  {
    var n := s.vvNew[t];
    s.(vvNew := s.vvNew - {t}, mapInfo := s.mapInfo[n := s.mapInfo[n].(nRefCount := s.mapInfo[n].nRefCount - 1)])
  }

  // Fill an empty slot of the new table.
  function Ref(s: State, t: Slot, n: Id): State
    requires n in s.mapInfo
  {
    s.(vvNew := s.vvNew[t := n], mapInfo := s.mapInfo[n := s.mapInfo[n].(nRefCount := s.mapInfo[n].nRefCount + 1)])
  }

  // Move an entry without slots into its slot of the tried table.
  function Promote(p: Hashing, s: State, n: Id): State
    requires n in s.mapInfo
  {
    s.(vvTried := s.vvTried[p.TriedSlot(s.mapInfo[n].service) := n],
       mapInfo := s.mapInfo[n := s.mapInfo[n].(fInTried := true)],
       nNew := s.nNew - 1, nTried := s.nTried + 1)
  }

  // Empty a slot of the tried table, leaving its entry as a new one without slots.
  function Demote(s: State, t: Slot): State
    requires t in s.vvTried && s.vvTried[t] in s.mapInfo
  {
    var n := s.vvTried[t];
    s.(vvTried := s.vvTried - {t}, mapInfo := s.mapInfo[n := s.mapInfo[n].(fInTried := false)],
       nNew := s.nNew + 1, nTried := s.nTried - 1)
  }

  // Two versions of an entry that differ only in times, attempts and services.
  predicate SameStructure(a: Info, b: Info) {
    && a.service == b.service && a.source == b.source && a.nRefCount == b.nRefCount && a.fInTried == b.fInTried
    && a.nRandomPos == b.nRandomPos
  }

  // Update the statistics of an entry.
  function Touch(s: State, n: Id, info: Info): State {
    s.(mapInfo := s.mapInfo[n := info])
  }

  // ----- parts a change does not touch -----

  // The same ids with the same addresses and table membership.
  ghost predicate SameEntries(s: State, t: State) {
    && t.mapInfo.Keys == s.mapInfo.Keys
    && (forall n :: n in s.mapInfo ==> t.mapInfo[n].service == s.mapInfo[n].service)
    && (forall n :: n in s.mapInfo ==> t.mapInfo[n].fInTried == s.mapInfo[n].fInTried)
  }

  lemma CarryRandom(s: State, t: State)
    requires RandomOk(s) && t.vRandom == s.vRandom && t.mapInfo.Keys == s.mapInfo.Keys
    requires forall n :: n in s.mapInfo ==> t.mapInfo[n].nRandomPos == s.mapInfo[n].nRandomPos
    ensures RandomOk(t)
  {
  }

  lemma CarryAddr(s: State, t: State)
    requires AddrOk(s) && t.nIdCount == s.nIdCount && t.mapAddr == s.mapAddr && t.mapInfo.Keys == s.mapInfo.Keys
    requires forall n :: n in s.mapInfo ==> t.mapInfo[n].service == s.mapInfo[n].service
    ensures AddrOk(t)
  {
  }

  lemma CarryTables(p: Hashing, s: State, t: State)
    requires SameEntries(s, t)
    ensures TriedOk(p, s) && t.vvTried == s.vvTried ==> TriedOk(p, t)
    ensures NewOk(p, s) && t.vvNew == s.vvNew ==> NewOk(p, t)
  {
    hide Hashing.TriedSlot, Hashing.NewSlotIn;
  }

  lemma CarryRefs(s: State, t: State)
    requires RefsOk(s) && t.vvNew == s.vvNew && t.mapInfo.Keys == s.mapInfo.Keys
    requires forall n :: n in s.mapInfo ==> t.mapInfo[n].nRefCount == s.mapInfo[n].nRefCount
    ensures RefsOk(t)
  {
    hide Held;
  }

  lemma CarryCounts(s: State, t: State)
    requires SameEntries(s, t) && CountsOk(s) && t.nTried == s.nTried && t.nNew == s.nNew
    ensures CountsOk(t)
  {
    assert TriedIds(t.mapInfo) == TriedIds(s.mapInfo);
    assert NewIds(t.mapInfo) == NewIds(s.mapInfo);
  }

  lemma CarryOrphans(s: State, t: State)
    requires SameEntries(s, t) && forall n :: n in s.mapInfo ==> t.mapInfo[n].nRefCount == s.mapInfo[n].nRefCount
    ensures Orphans(t) == Orphans(s)
  {
  }

  lemma CarryTimes(s: State, t: State)
    requires SameEntries(s, t) && TimesOk(s)
    requires forall n :: n in s.mapInfo ==> t.mapInfo[n].nLastTry == s.mapInfo[n].nLastTry
    requires forall n :: n in s.mapInfo ==> t.mapInfo[n].nLastSuccess == s.mapInfo[n].nLastSuccess
    ensures TimesOk(t)
  {
  }

  // ----- Touch -----

  lemma TouchTimes(s: State, n: Id, info: Info)
    requires TimesOk(s) && info.nLastTry >= 0 && info.nLastSuccess >= 0 && (info.fInTried ==> info.nLastSuccess > 0)
    ensures TimesOk(Touch(s, n, info))
  {
  }

  lemma TouchKeeps(p: Hashing, s: State, n: Id, info: Info)
    requires Weak(p, s) && n in s.mapInfo && SameStructure(s.mapInfo[n], info)
    requires info.nLastTry >= 0 && info.nLastSuccess >= 0 && (info.fInTried ==> info.nLastSuccess > 0)
    ensures Weak(p, Touch(s, n, info)) && Orphans(Touch(s, n, info)) == Orphans(s)
  {
    hide RandomOk, AddrOk, TriedOk, NewOk, RefsOk, CountsOk, TimesOk, Orphans;
    var t := Touch(s, n, info);
    TouchTimes(s, n, info);
    CarryRandom(s, t);
    CarryAddr(s, t);
    CarryTables(p, s, t);
    CarryRefs(s, t);
    CarryCounts(s, t);
    CarryOrphans(s, t);
  }

  // ----- Create -----

  lemma CreateTables(p: Hashing, s: State, addr: Address, source: NetAddr)
    requires NewOk(p, s) && TriedOk(p, s) && RefsOk(s) && s.nIdCount !in s.mapInfo
    ensures var t := Create(s, addr, source); NewOk(p, t) && TriedOk(p, t) && RefsOk(t)
  {
    hide Hashing.TriedSlot, Hashing.NewSlotIn;
    assert Held(s.vvNew, s.nIdCount) == {};
  }

  lemma CreateIndexes(s: State, addr: Address, source: NetAddr)
    requires RandomOk(s) && AddrOk(s) && addr.service.ip !in s.mapAddr
    ensures RandomOk(Create(s, addr, source)) && AddrOk(Create(s, addr, source))
  {
  }

  lemma IdsWith(m: map<Id, Info>, n: Id, info: Info)
    requires n !in m && !info.fInTried
    ensures TriedIds(m[n := info]) == TriedIds(m) && NewIds(m[n := info]) == NewIds(m) + {n} && n !in NewIds(m)
  {
  }

  lemma CreateCounts(s: State, addr: Address, source: NetAddr)
    requires CountsOk(s) && s.nIdCount !in s.mapInfo
    ensures CountsOk(Create(s, addr, source))
  {
    hide TriedIds, NewIds;
    var m := Create(s, addr, source).mapInfo;
    IdsWith(s.mapInfo, s.nIdCount, m[s.nIdCount]);
    OneMore(NewIds(s.mapInfo), s.nIdCount, NewIds(m));
  }

  lemma OneMore(a: set<Id>, n: Id, b: set<Id>)
    requires n !in a && b == a + {n}
    ensures |b| == |a| + 1
  {
  }

  lemma CreateOrphans(s: State, addr: Address, source: NetAddr)
    requires s.nIdCount !in s.mapInfo
    ensures Orphans(Create(s, addr, source)) == Orphans(s) + {s.nIdCount}
  {
  }

  lemma FreshId(s: State)
    requires AddrOk(s)
    ensures s.nIdCount !in s.mapInfo
  {
  }

  lemma CreateTimes(s: State, addr: Address, source: NetAddr)
    requires TimesOk(s)
    ensures TimesOk(Create(s, addr, source))
  {
  }

  lemma CreateKeeps(p: Hashing, s: State, addr: Address, source: NetAddr)
    requires Weak(p, s) && addr.service.ip !in s.mapAddr
    ensures Weak(p, Create(s, addr, source)) && Orphans(Create(s, addr, source)) == Orphans(s) + {s.nIdCount}
  {
    hide RandomOk, AddrOk, TriedOk, NewOk, RefsOk, CountsOk, TimesOk, Orphans;
    FreshId(s);
    CreateTimes(s, addr, source);
    CreateTables(p, s, addr, source);
    CreateIndexes(s, addr, source);
    CreateCounts(s, addr, source);
    CreateOrphans(s, addr, source);
  }

  // ----- SwapRandom -----

  lemma SwapRandomOk(s: State, i: nat, j: nat)
    requires RandomOk(s) && InRange(s, i) && InRange(s, j)
    ensures RandomOk(SwapRandom(s, i, j))
  {
  }

  // Two states that differ only in the order of vRandom and the positions in it.
  ghost predicate Reordered(s: State, t: State) {
    && t == s.(mapInfo := t.mapInfo, vRandom := t.vRandom)
    && t.mapInfo.Keys == s.mapInfo.Keys && |t.vRandom| == |s.vRandom|
    && forall n :: n in s.mapInfo ==> t.mapInfo[n] == s.mapInfo[n].(nRandomPos := t.mapInfo[n].nRandomPos)
  }

  lemma SwapReorders(s: State, i: nat, j: nat)
    requires InRange(s, i) && InRange(s, j)
    ensures Reordered(s, SwapRandom(s, i, j))
  {
  }

  lemma ReorderedKeeps(p: Hashing, s: State, t: State)
    requires Weak(p, s) && Reordered(s, t) && RandomOk(t)
    ensures Weak(p, t) && Orphans(t) == Orphans(s)
  {
    hide RandomOk, AddrOk, TriedOk, NewOk, RefsOk, CountsOk, TimesOk, Orphans;
    CarryAddr(s, t);
    CarryTables(p, s, t);
    CarryRefs(s, t);
    CarryCounts(s, t);
    CarryOrphans(s, t);
    CarryTimes(s, t);
  }

  lemma SwapKeeps(p: Hashing, s: State, i: nat, j: nat)
    requires Weak(p, s) && InRange(s, i) && InRange(s, j)
    ensures var t := SwapRandom(s, i, j);
            Weak(p, t) && Orphans(t) == Orphans(s) && Reordered(s, t)
  {
    hide RandomOk, AddrOk, TriedOk, NewOk, RefsOk, CountsOk, TimesOk, Orphans, SwapRandom, Reordered;
    SwapRandomOk(s, i, j);
    SwapReorders(s, i, j);
    ReorderedKeeps(p, s, SwapRandom(s, i, j));
  }

  lemma SwapMoves(s: State, i: nat, j: nat)
    requires RandomOk(s) && InRange(s, i) && InRange(s, j)
    ensures s.vRandom[i] in SwapRandom(s, i, j).mapInfo && SwapRandom(s, i, j).mapInfo[s.vRandom[i]].nRandomPos == j
  {
  }

  // ----- Delete -----

  // Removing the entry that is last in vRandom.
  function DropLast(s: State, n: Id, ip: NetAddr): State
    requires |s.vRandom| > 0
  {
    s.(vRandom := s.vRandom[..|s.vRandom| - 1], mapAddr := s.mapAddr - {ip}, mapInfo := s.mapInfo - {n},
       nNew := s.nNew - 1)
  }

  ghost predicate Droppable(s: State, n: Id, ip: NetAddr) {
    && |s.vRandom| > 0 && n in s.mapInfo && s.mapInfo[n].nRandomPos == |s.vRandom| - 1 && s.mapInfo[n].service.ip == ip
    && !s.mapInfo[n].fInTried && s.mapInfo[n].nRefCount == 0
  }

  lemma DropIndexes(s: State, n: Id, ip: NetAddr)
    requires RandomOk(s) && AddrOk(s) && TimesOk(s) && Droppable(s, n, ip)
    ensures RandomOk(DropLast(s, n, ip)) && AddrOk(DropLast(s, n, ip)) && TimesOk(DropLast(s, n, ip))
  {
  }

  lemma DropTables(p: Hashing, s: State, n: Id, ip: NetAddr)
    requires TriedOk(p, s) && NewOk(p, s) && RefsOk(s) && Droppable(s, n, ip)
    ensures var t := DropLast(s, n, ip); TriedOk(p, t) && NewOk(p, t) && RefsOk(t)
  {
    hide Hashing.TriedSlot, Hashing.NewSlotIn, Held;
    OrphanHoldsNone(s, n);
  }

  lemma DropCounts(s: State, n: Id, ip: NetAddr)
    requires CountsOk(s) && Droppable(s, n, ip)
    ensures CountsOk(DropLast(s, n, ip)) && Orphans(DropLast(s, n, ip)) == Orphans(s) - {n}
  {
    var t := DropLast(s, n, ip);
    assert TriedIds(t.mapInfo) == TriedIds(s.mapInfo);
    assert NewIds(t.mapInfo) == NewIds(s.mapInfo) - {n};
  }

  lemma OrphanInRange(s: State, n: Id)
    requires RandomOk(s) && n in Orphans(s)
    ensures n in s.mapInfo && !s.mapInfo[n].fInTried && s.mapInfo[n].nRefCount == 0
    ensures |s.vRandom| > 0 && InRange(s, s.mapInfo[n].nRandomPos) && InRange(s, |s.vRandom| - 1)
    ensures s.vRandom[s.mapInfo[n].nRandomPos] == n
  {
  }

  lemma PlaceOfEntry(s: State, n: Id)
    requires RandomOk(s) && n in s.mapInfo
    ensures InRange(s, s.mapInfo[n].nRandomPos) && |s.vRandom| > 0 && InRange(s, |s.vRandom| - 1)
    ensures s.vRandom[s.mapInfo[n].nRandomPos] == n
  {
  }

  /** Delete keeps everything but the entry, which must be new and without slots. */
  lemma DeleteKeeps(p: Hashing, s: State, n: Id)
    requires Weak(p, s) && n in Orphans(s)
    ensures n in s.mapInfo && InRange(s, s.mapInfo[n].nRandomPos) && |s.vRandom| > 0 && InRange(s, |s.vRandom| - 1)
    ensures var t := Delete(s, n);
            Weak(p, t) && Orphans(t) == Orphans(s) - {n} && t.mapInfo.Keys == s.mapInfo.Keys - {n}
  {
    hide RandomOk, AddrOk, TriedOk, NewOk, RefsOk, CountsOk, TimesOk, Orphans;
    OrphanInRange(s, n);
    var i, j, ip := s.mapInfo[n].nRandomPos, |s.vRandom| - 1, s.mapInfo[n].service.ip;
    var t := SwapRandom(s, i, j);
    SwapKeeps(p, s, i, j);
    SwapMoves(s, i, j);
    assert Droppable(t, n, ip);
    DropIndexes(t, n, ip);
    DropTables(p, t, n, ip);
    DropCounts(t, n, ip);
  }

  // ----- Unref and Ref -----

  lemma HeldWithout(t: Table, a: Slot, n: Id)
    requires a in t
    ensures Held(t - {a}, n) == if t[a] == n then Held(t, n) - {a} else Held(t, n)
  {
  }

  lemma HeldWith(t: Table, a: Slot, m: Id, n: Id)
    requires a !in t
    ensures Held(t[a := m], n) == if m == n then Held(t, n) + {a} else Held(t, n)
  {
  }

  lemma UnrefNew(p: Hashing, s: State, a: Slot)
    requires NewOk(p, s) && a in s.vvNew && s.mapInfo[s.vvNew[a]].nRefCount > 0
    ensures NewOk(p, Unref(s, a))
  {
    hide Hashing.NewSlotIn;
  }

  lemma UnrefRefs(s: State, a: Slot)
    requires RefsOk(s) && a in s.vvNew && s.vvNew[a] in s.mapInfo && s.mapInfo[s.vvNew[a]].nRefCount > 0
    ensures RefsOk(Unref(s, a))
  {
    var t := Unref(s, a);
    forall n | n in t.mapInfo
      ensures t.mapInfo[n].nRefCount == |Held(t.vvNew, n)| && t.mapInfo[n].nRefCount <= NEW_BUCKETS_PER_ADDRESS
    {
      HeldWithout(s.vvNew, a, n);
      if s.vvNew[a] == n {
        assert a in Held(s.vvNew, n);
      }
    }
  }

  // A slot that is taken belongs to an entry with a positive reference count.
  lemma TakenHasRef(p: Hashing, s: State, a: Slot)
    requires NewOk(p, s) && RefsOk(s) && a in s.vvNew
    ensures s.vvNew[a] in s.mapInfo && s.mapInfo[s.vvNew[a]].nRefCount > 0 && !s.mapInfo[s.vvNew[a]].fInTried
  {
    assert a in Held(s.vvNew, s.vvNew[a]);
  }

  lemma UnrefOrphans(s: State, a: Slot)
    requires a in s.vvNew && s.vvNew[a] in s.mapInfo && s.mapInfo[s.vvNew[a]].nRefCount > 0
             && !s.mapInfo[s.vvNew[a]].fInTried
    ensures Orphans(Unref(s, a)) == Orphans(s) + if s.mapInfo[s.vvNew[a]].nRefCount == 1 then {s.vvNew[a]} else {}
  {
  }

  lemma UnrefKeeps(p: Hashing, s: State, a: Slot)
    requires Weak(p, s) && a in s.vvNew
    ensures s.vvNew[a] in s.mapInfo && s.mapInfo[s.vvNew[a]].nRefCount > 0 && !s.mapInfo[s.vvNew[a]].fInTried
    ensures Weak(p, Unref(s, a)) && SameEntries(s, Unref(s, a))
    ensures Orphans(Unref(s, a)) == Orphans(s) + if s.mapInfo[s.vvNew[a]].nRefCount == 1 then {s.vvNew[a]} else {}
  {
    hide RandomOk, AddrOk, TriedOk, NewOk, RefsOk, CountsOk, TimesOk, Orphans;
    TakenHasRef(p, s, a);
    UnrefNew(p, s, a);
    UnrefRefs(s, a);
    UnrefOrphans(s, a);
    var t := Unref(s, a);
    CarryRandom(s, t);
    CarryAddr(s, t);
    CarryTables(p, s, t);
    CarryCounts(s, t);
    CarryTimes(s, t);
  }

  lemma RefNew(p: Hashing, s: State, a: Slot, n: Id)
    requires NewOk(p, s) && n in s.mapInfo && !s.mapInfo[n].fInTried
    requires a.bucket < NEW_BUCKET_COUNT && a == p.NewSlotIn(s.mapInfo[n].service, a.bucket)
    ensures NewOk(p, Ref(s, a, n))
  {
    hide Hashing.NewSlotIn;
  }

  lemma RefRefs(s: State, a: Slot, n: Id)
    requires RefsOk(s) && a !in s.vvNew && n in s.mapInfo && s.mapInfo[n].nRefCount < NEW_BUCKETS_PER_ADDRESS
    ensures RefsOk(Ref(s, a, n))
  {
    var t := Ref(s, a, n);
    forall m | m in t.mapInfo
      ensures t.mapInfo[m].nRefCount == |Held(t.vvNew, m)| && t.mapInfo[m].nRefCount <= NEW_BUCKETS_PER_ADDRESS
    {
      HeldWith(s.vvNew, a, n, m);
    }
  }

  lemma RefOrphans(s: State, a: Slot, n: Id)
    requires n in s.mapInfo
    ensures Orphans(Ref(s, a, n)) == Orphans(s) - {n}
  {
  }

  lemma RefKeeps(p: Hashing, s: State, a: Slot, n: Id)
    requires Weak(p, s) && a !in s.vvNew && n in s.mapInfo && !s.mapInfo[n].fInTried
    requires s.mapInfo[n].nRefCount < NEW_BUCKETS_PER_ADDRESS
    requires a.bucket < NEW_BUCKET_COUNT && a == p.NewSlotIn(s.mapInfo[n].service, a.bucket)
    ensures Weak(p, Ref(s, a, n)) && SameEntries(s, Ref(s, a, n)) && Orphans(Ref(s, a, n)) == Orphans(s) - {n}
  {
    hide RandomOk, AddrOk, TriedOk, NewOk, RefsOk, CountsOk, TimesOk, Orphans;
    RefNew(p, s, a, n);
    RefRefs(s, a, n);
    RefOrphans(s, a, n);
    var t := Ref(s, a, n);
    CarryRandom(s, t);
    CarryAddr(s, t);
    CarryTables(p, s, t);
    CarryCounts(s, t);
    CarryTimes(s, t);
  }

  // ----- Promote and Demote -----

  lemma PromoteTables(p: Hashing, s: State, n: Id)
    requires TriedOk(p, s) && NewOk(p, s) && RefsOk(s) && n in Orphans(s)
             && p.TriedSlot(s.mapInfo[n].service) !in s.vvTried
    ensures TriedOk(p, Promote(p, s, n)) && NewOk(p, Promote(p, s, n))
  {
    hide Hashing.TriedSlot, Hashing.NewSlotIn;
    OrphanHoldsNone(s, n);
  }

  lemma OrphanHoldsNone(s: State, n: Id)
    requires RefsOk(s) && n in s.mapInfo && s.mapInfo[n].nRefCount == 0
    ensures forall t :: t in s.vvNew ==> s.vvNew[t] != n
  {
    forall t | t in s.vvNew
      ensures s.vvNew[t] != n
    {
      assert s.vvNew[t] == n ==> t in Held(s.vvNew, n);
    }
  }

  lemma PromoteCounts(p: Hashing, s: State, n: Id)
    requires CountsOk(s) && n in Orphans(s)
    ensures CountsOk(Promote(p, s, n)) && Orphans(Promote(p, s, n)) == Orphans(s) - {n}
  {
    var t := Promote(p, s, n);
    assert TriedIds(t.mapInfo) == TriedIds(s.mapInfo) + {n};
    assert NewIds(t.mapInfo) == NewIds(s.mapInfo) - {n};
  }

  lemma PromoteTimes(p: Hashing, s: State, n: Id)
    requires TimesOk(s) && n in s.mapInfo && s.mapInfo[n].nLastSuccess > 0
    ensures TimesOk(Promote(p, s, n))
  {
  }

  lemma PromoteKeeps(p: Hashing, s: State, n: Id)
    requires Weak(p, s) && n in Orphans(s) && n in s.mapInfo
    requires p.TriedSlot(s.mapInfo[n].service) !in s.vvTried && s.mapInfo[n].nLastSuccess > 0
    ensures Weak(p, Promote(p, s, n)) && Orphans(Promote(p, s, n)) == Orphans(s) - {n}
  {
    hide RandomOk, AddrOk, TriedOk, NewOk, RefsOk, CountsOk, TimesOk, Orphans;
    PromoteTables(p, s, n);
    PromoteCounts(p, s, n);
    PromoteTimes(p, s, n);
    var t := Promote(p, s, n);
    CarryRandom(s, t);
    CarryAddr(s, t);
    CarryRefs(s, t);
  }

  lemma DemoteTables(p: Hashing, s: State, a: Slot)
    requires TriedOk(p, s) && NewOk(p, s) && a in s.vvTried
    ensures TriedOk(p, Demote(s, a)) && NewOk(p, Demote(s, a))
  {
    hide Hashing.TriedSlot, Hashing.NewSlotIn;
  }

  lemma DemoteCounts(s: State, a: Slot)
    requires CountsOk(s) && a in s.vvTried && s.vvTried[a] in s.mapInfo && s.mapInfo[s.vvTried[a]].fInTried
    requires s.mapInfo[s.vvTried[a]].nRefCount == 0
    ensures CountsOk(Demote(s, a)) && Orphans(Demote(s, a)) == Orphans(s) + {s.vvTried[a]}
  {
    var t, n := Demote(s, a), s.vvTried[a];
    assert TriedIds(t.mapInfo) == TriedIds(s.mapInfo) - {n};
    assert NewIds(t.mapInfo) == NewIds(s.mapInfo) + {n};
  }

  // A tried entry holds no slot of the new table.
  lemma TriedHoldsNone(p: Hashing, s: State, n: Id)
    requires NewOk(p, s) && RefsOk(s) && n in s.mapInfo && s.mapInfo[n].fInTried
    ensures s.mapInfo[n].nRefCount == 0 && Held(s.vvNew, n) == {}
  {
    assert Held(s.vvNew, n) == {};
  }

  lemma TriedSlotHolds(p: Hashing, s: State, a: Slot)
    requires TriedOk(p, s) && a in s.vvTried
    ensures s.vvTried[a] in s.mapInfo && s.mapInfo[s.vvTried[a]].fInTried
            && a == p.TriedSlot(s.mapInfo[s.vvTried[a]].service)
  {
  }

  lemma DemoteTimes(s: State, a: Slot)
    requires TimesOk(s) && a in s.vvTried && s.vvTried[a] in s.mapInfo
    ensures TimesOk(Demote(s, a))
  {
  }

  lemma DemoteKeeps(p: Hashing, s: State, a: Slot)
    requires Weak(p, s) && a in s.vvTried
    ensures s.vvTried[a] in s.mapInfo
    ensures Weak(p, Demote(s, a)) && Orphans(Demote(s, a)) == Orphans(s) + {s.vvTried[a]}
  {
    hide RandomOk, AddrOk, TriedOk, NewOk, RefsOk, CountsOk, TimesOk, Orphans;
    TriedSlotHolds(p, s, a);
    TriedHoldsNone(p, s, s.vvTried[a]);
    DemoteTables(p, s, a);
    DemoteCounts(s, a);
    DemoteTimes(s, a);
    var t := Demote(s, a);
    CarryRandom(s, t);
    CarryAddr(s, t);
    CarryRefs(s, t);
  }
}
