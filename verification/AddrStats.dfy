/**
 What the calls of src/addrman.cpp do to the statistics of an entry and to the slots it holds, and which
 entries may be overwritten. Times are seconds.

 Main results: KnownAdded (what adding a known address changes, exactly), KeptIff (which entries are not
 terrible) with FailuresCountOnce and ThreeFailures (how failures lead there).
 */
module AddrStats {
  import opened AddrModel
  import opened AddrOps
  import opened Wrappers

  // ----- which entries may be overwritten -----

  /** An entry is protected for a minute after it was tried. Otherwise it is kept exactly if it was seen within
      30 days and not in the future, succeeded or failed fewer than three times, and succeeded within a week
      or failed fewer than ten times. */
  lemma KeptIff(info: Info, now: int)
    ensures !IsTerrible(info, now) <==>
            || (info.nLastTry != 0 && now - info.nLastTry <= 60)
            || (&& 0 < info.nTime <= now + 180 && now - info.nTime <= 2592000
                && (info.nLastSuccess != 0 || info.nAttempts < 3)
                && (now - info.nLastSuccess <= 604800 || info.nAttempts < 10))
  {
  }

  // ----- attempts -----

  // Only the entry for exactly this address and port is touched.
  ghost predicate OnlyEntry(s: State, n: Id, t: State) {
    n in s.mapInfo && n in t.mapInfo && t == s.(mapInfo := s.mapInfo[n := t.mapInfo[n]])
  }

  /** An attempt records its time. It counts as a failure only if some connection anywhere has succeeded since
      the last failure of this entry that was counted. */
  lemma AttemptEffect(s: State, service: Service, countFailure: bool, time: int)
    ensures var t := Attempt(s, service, countFailure, time);
            match Lookup(s, service)
            case None => t == s
            case Some(n) =>
              && OnlyEntry(s, n, t)
              && var counts := countFailure && s.mapInfo[n].nLastCountAttempt < s.nLastGood;
                 t.mapInfo[n] == s.mapInfo[n].(
                   nLastTry := time,
                   nLastCountAttempt := if counts then time else s.mapInfo[n].nLastCountAttempt,
                   nAttempts := s.mapInfo[n].nAttempts + if counts then 1 else 0)
  {
  }

  // Several attempts at one address, all of them failures to be counted.
  function Attempts(s: State, service: Service, times: seq<int>): State
    decreases |times|
  {
    if times == [] then s
    else Attempt(Attempts(s, service, times[..|times| - 1]), service, true, times[|times| - 1])
  }

  /** Without a success in between, any number of failures counts as at most one: being offline does not make
      addresses terrible. */
  lemma {:induction false} FailuresCountOnce(s: State, service: Service, n: Id, times: seq<int>)
    requires Lookup(s, service) == Some(n) && forall i :: 0 <= i < |times| ==> times[i] >= s.nLastGood
    ensures var t := Attempts(s, service, times);
            && OnlyEntry(s, n, t) && Lookup(t, service) == Some(n)
            && t.mapInfo[n].nLastTry == (if times == [] then s.mapInfo[n].nLastTry else times[|times| - 1])
            && if times == [] || s.mapInfo[n].nLastCountAttempt >= s.nLastGood then
                 && t.mapInfo[n].nAttempts == s.mapInfo[n].nAttempts
                 && t.mapInfo[n].nLastCountAttempt == s.mapInfo[n].nLastCountAttempt
               else
                 && t.mapInfo[n].nAttempts == s.mapInfo[n].nAttempts + 1
                 && t.mapInfo[n].nLastCountAttempt == times[0]
    decreases |times|
  {
    if times != [] {
      var earlier := times[..|times| - 1];
      FailuresCountOnce(s, service, n, earlier);
      AttemptEffect(Attempts(s, service, earlier), service, true, times[|times| - 1]);
    }
  }

  /** An entry that never succeeded and whose third failure is counted is terrible a minute later. */
  lemma ThreeFailures(s: State, service: Service, n: Id, time: int, now: int)
    requires Lookup(s, service) == Some(n) && s.mapInfo[n].nAttempts == 2 && s.mapInfo[n].nLastSuccess == 0
    requires s.mapInfo[n].nLastCountAttempt < s.nLastGood && now > time + 60
    ensures var t := Attempt(s, service, true, time); n in t.mapInfo && IsTerrible(t.mapInfo[n], now)
  {
  }

  lemma {:induction false} AttemptsKeep(s: State, service: Service, n: Id, times: seq<int>)
    requires Lookup(s, service) == Some(n)
    ensures var t := Attempts(s, service, times);
            && Lookup(t, service) == Some(n)
            && t.mapInfo[n].nTime == s.mapInfo[n].nTime && t.mapInfo[n].nLastSuccess == s.mapInfo[n].nLastSuccess
    decreases |times|
  {
    if times != [] {
      AttemptsKeep(s, service, n, times[..|times| - 1]);
    }
  }

  lemma GoodIsFound(p: Hashing, s: State, service: Service, n: Id, time: int)
    requires Sound(p, s) && time > 0 && Lookup(s, service) == Some(n)
    ensures var t := Good(p, s, service, false, time);
            && Lookup(t, service) == Some(n) && t.mapInfo[n].nLastSuccess == time
            && t.mapInfo[n].nTime == s.mapInfo[n].nTime
  {
    hide RandomOk, TriedOk, NewOk, RefsOk, CountsOk, TimesOk, Orphans, Good, Hashing.TriedSlot;
    GoodEffect(p, s, service, false, time);
    GoodKeeps(p, s, service, false, time);
  }

  /** An entry that succeeded is kept for a week as long as its address is being announced, however often
      connecting to it fails after that. */
  lemma GoodIsKept(p: Hashing, s: State, service: Service, n: Id, time: int, times: seq<int>, now: int)
    requires Sound(p, s) && time > 0 && Lookup(s, service) == Some(n) && now - time <= 604800
    requires 0 < s.mapInfo[n].nTime <= now + 180 && now - s.mapInfo[n].nTime <= 2592000
    ensures var t := Attempts(Good(p, s, service, false, time), service, times);
            n in t.mapInfo && !IsTerrible(t.mapInfo[n], now)
  {
    hide Inv, CollisionsOk, Good, IsTerrible;
    var t := Good(p, s, service, false, time);
    GoodIsFound(p, s, service, n, time);
    AttemptsKeep(t, service, n, times);
    KeptIff(Attempts(t, service, times).mapInfo[n], now);
  }

  /** A connection that ends renews the time of the entry unless that is at most 20 minutes old. */
  lemma ConnectedEffect(s: State, service: Service, time: nat)
    ensures var t := Connected(s, service, time);
            match Lookup(s, service)
            case None => t == s
            case Some(n) =>
              && OnlyEntry(s, n, t)
              && t.mapInfo[n] == s.mapInfo[n].(nTime := if time - s.mapInfo[n].nTime <= 1200 then s.mapInfo[n].nTime
                                                        else time)
  {
    match Lookup(s, service)
    case None =>
    case Some(n) => assert s.mapInfo[n := s.mapInfo[n]] == s.mapInfo;
  }

  lemma SetServicesEffect(s: State, service: Service, services: set<nat>)
    ensures var t := SetServices(s, service, services);
            match Lookup(s, service)
            case None => t == s
            case Some(n) => OnlyEntry(s, n, t) && t.mapInfo[n] == s.mapInfo[n].(nServices := services)
  {
  }

  // ----- adding a known address -----

  /** The time of a known entry is only ever moved forward, to the announced time less the penalty, and only
      when it is missing or more than an hour behind; more than a day, if the announced time is itself at
      least a day old. */
  lemma RefreshedIff(info: Info, addr: Address, penalty: int, now: int)
    ensures var r := Refreshed(info, addr, penalty, now);
            var behind := addr.nTime - penalty - info.nTime;
            && r == info.(nTime := r.nTime, nServices := info.nServices + addr.nServices)
            && r.nTime >= info.nTime
            && r.nTime == if && addr.nTime != 0
                             && (info.nTime == 0 || behind > if now - addr.nTime < 86400 then 3600 else 86400)
                          then (if addr.nTime >= penalty then addr.nTime - penalty else 0)
                          else info.nTime
  {
  }

  // One in how many announcements of an entry that has n slots may get it one more.
  const ODDS := [1, 2, 4, 8, 16, 32, 64, 128]

  lemma OddsDouble(n: nat)
    requires n < 8
    ensures Pow2(n) == ODDS[n]
  {
    assert Pow2(3) == 8;
    assert Pow2(5) == 32;
    assert Pow2(7) == 128;
  }

  lemma PlaceKnown(p: Hashing, s: State, n: Id, source: NetAddr, now: int)
    requires Weak(p, s) && n in s.mapInfo && !s.mapInfo[n].fInTried && s.mapInfo[n].nRefCount > 0
    ensures var t, a := Place(p, s, n, source, now), p.NewSlot(s.mapInfo[n].service, source);
            && n in t.mapInfo && SameStatistics(s.mapInfo[n], t.mapInfo[n])
            && t.vvNew == if a !in s.vvNew then s.vvNew[a := n]
                          else if s.vvNew[a] in s.mapInfo && s.vvNew[a] != n && IsTerrible(s.mapInfo[s.vvNew[a]], now)
                          then s.vvNew[a := n] else s.vvNew
  {
    hide RandomOk, AddrOk, TriedOk, RefsOk, CountsOk, TimesOk, Orphans, ClearNew, IsTerrible, Hashing.NewSlot;
    var a := p.NewSlot(s.mapInfo[n].service, source);
    ClearNewEffect(p, s, a);
    if a in s.vvNew {
      TakenHasRef(p, s, a);
    }
    assert (s.vvNew - {a})[a := n] == s.vvNew[a := n];
  }

  // Whether the announcement of a known new entry is one that may get it one more slot.
  predicate Promising(info: Info, addr: Address, roll: nat -> nat) {
    && addr.nTime > info.nTime && !info.fInTried && 0 < info.nRefCount < 8 && roll(ODDS[info.nRefCount]) == 0
  }

  /** Adding a known address renews its time and adds to its services. It gets one more slot, the one its
      source selects, exactly if it is new with fewer than eight slots, the announced time is later than the
      one now recorded, the draw succeeds whose odds halve with each slot it has, and that slot is
      free or held by another entry that is terrible. Nothing else about the entry changes, and no other
      slot. */
  lemma KnownAdded(p: Hashing, s: State, addr: Address, source: NetAddr, timePenalty: int, now: int,
                   roll: nat -> nat, n: Id)
    requires Inv(p, s) && addr.service.ip in s.mapAddr && s.mapAddr[addr.service.ip] == n
    ensures n in s.mapInfo
    ensures var t, info := Add(p, s, addr, source, timePenalty, now, roll), s.mapInfo[n];
            var a := p.NewSlot(info.service, source);
            var r := Refreshed(info, addr, if addr.service.ip == source then 0 else timePenalty, now);
            && n in t.mapInfo && SameStatistics(r, t.mapInfo[n]) && t.vvTried == s.vvTried && t.nIdCount == s.nIdCount
            && t.vvNew == if Promising(r, addr, roll) && FreeOrTerrible(s, n, a, now) then s.vvNew[a := n] else s.vvNew
  {
    hide RandomOk, AddrOk, TriedOk, NewOk, RefsOk, CountsOk, TimesOk, Orphans, Place, Refreshed, Hashing.NewSlot,
         IsTerrible;
    KnownEntry(p, s, addr.service.ip);
    var penalty := if addr.service.ip == source then 0 else timePenalty;
    var info := Refreshed(s.mapInfo[n], addr, penalty, now);
    RefreshedSame(s.mapInfo[n], addr, penalty, now);
    RefreshKeeps(p, s, n, addr, penalty, now);
    if info.nRefCount < 8 {
      OddsDouble(info.nRefCount);
    }
    RefCountBelow(p, s, n);
    NewHasSlot(s, n);
    if WantsSlot(info, addr, roll) {
      var t := Touch(s, n, info);
      PlaceKnown(p, t, n, source, now);
      PlaceKeeps(p, t, n, source, now);
      SlotHolderKnown(p, s, p.NewSlot(info.service, source));
    }
  }

  predicate FreeOrTerrible(s: State, n: Id, a: Slot, now: int) {
    a in s.vvNew ==> s.vvNew[a] != n && s.vvNew[a] in s.mapInfo && IsTerrible(s.mapInfo[s.vvNew[a]], now)
  }

  lemma NewHasSlot(s: State, n: Id)
    requires Orphans(s) == {} && n in s.mapInfo
    ensures s.mapInfo[n].fInTried || s.mapInfo[n].nRefCount > 0
  {
    assert n !in Orphans(s);
  }

  lemma SlotHolderKnown(p: Hashing, s: State, a: Slot)
    requires Weak(p, s)
    ensures a in s.vvNew ==> s.vvNew[a] in s.mapInfo
  {
  }
}
