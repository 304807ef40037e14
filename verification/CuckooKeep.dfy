/**
 How long src/cuckoocache.h keeps an element, and what looking one up changes.

 Main results: RunRetains (a kept element stays until it is erased, ages twice or is the one discarded),
 KeptForAnEpoch (so it outlives as many inserts as an epoch has elements) and QueryEffect (a query changes
 at most the flag of the slot that holds the element).
 */
module CuckooKeep {
  import opened CuckooModel
  import opened Wrappers

  // ----- queries -----

  /** Without erase nothing changes. With it, the element's own slot may be reused, and that is all. */
  lemma QueryEffect<T>(p: Params<T>, s: State<T>, e: T, i: nat)
    requires p.Valid() && Placed(p, s.slots) && e != p.default
    ensures Step(p, s, Query(e, false)) == s
    ensures Contains(p, s.slots, e, false).0 == Contains(p, s.slots, e, true).0 == (e in s.slots.table)
    ensures e !in s.slots.table ==> Step(p, s, Query(e, true)) == s
    ensures i < p.size && s.slots.table[i] == e ==>
              Step(p, s, Query(e, true)) == s.(slots := s.slots.(dead := s.slots.dead[i := true]))
  {
    FindDecides(p, s.slots, e);
  }

  /** An erased element is still found, as is every other, until its slot is needed. */
  lemma EraseStillFound<T>(p: Params<T>, s: Slots<T>, e: T, f: T)
    requires p.Valid() && Placed(p, s) && f != p.default
    ensures Sized(Contains(p, s, e, true).1, p.size)
    ensures Contains(p, Contains(p, s, e, true).1, f, false).0 <==> f in s.table
  {
    FindDecides(p, s, f);
  }

  // ----- which slot is displaced -----

  predicate Distinct(locs: seq<nat>) {
    forall i, j :: 0 <= i < j < |locs| ==> locs[i] != locs[j]
  }

  /** The slot displaced next follows the first of the eight that is the last one used, wrapping around, and
      is the second of the eight the first time. When the eight are distinct it is never the last one used, so
      the element just put in is not moved. */
  lemma NextLocIs(locs: seq<nat>, lastLoc: nat, k: nat)
    requires |locs| == 8
    ensures lastLoc !in locs ==> NextLoc(locs, lastLoc) == locs[1]
    ensures k < 7 && locs[k] == lastLoc && lastLoc !in locs[..k] ==> NextLoc(locs, lastLoc) == locs[k + 1]
    ensures locs[7] == lastLoc && lastLoc !in locs[..7] ==> NextLoc(locs, lastLoc) == locs[0]
    ensures Distinct(locs) ==> NextLoc(locs, lastLoc) != lastLoc
  {
    IndexIsFirst(locs, lastLoc);
    assert lastLoc !in locs ==> IndexOf(locs, lastLoc) == 8;
    assert k < 7 && locs[k] == lastLoc && lastLoc !in locs[..k] ==> IndexOf(locs, lastLoc) == k;
  }

  lemma {:induction false} IndexIsFirst(locs: seq<nat>, x: nat)
    ensures x !in locs[..IndexOf(locs, x)]
    ensures x in locs ==> IndexOf(locs, x) < |locs|
    decreases |locs|
  {
    if locs != [] && locs[0] != x {
      IndexIsFirst(locs[1..], x);
      assert locs[..IndexOf(locs, x)] == [locs[0]] + locs[1..][..IndexOf(locs[1..], x)];
      assert locs == [locs[0]] + locs[1..];
    }
  }

  /** Of several slots that can be had, the first in the order of the hashes is used. */
  lemma {:induction false} FirstDeadIsFirst<T>(s: Slots<T>, locs: seq<nat>, k: nat)
    requires forall j :: 0 <= j < |locs| ==> locs[j] < |s.dead|
    requires k < |locs| && s.dead[locs[k]] && forall j :: 0 <= j < k ==> !s.dead[locs[j]]
    ensures FirstDead(s, locs) == Some(locs[k])
    decreases k
  {
    if k > 0 {
      FirstDeadIsFirst(s, locs[1..], k - 1);
    }
  }

  // ----- retention -----

  /** The element is stored in a slot that may not be reused, with this epoch flag. */
  ghost predicate Kept<T>(s: Slots<T>, x: T, recent: bool) {
    exists i :: 0 <= i < |s.table| && KeptAt(s, i, x, recent)
  }

  predicate KeptAt<T(==)>(s: Slots<T>, i: nat, x: T, recent: bool) {
    i < |s.table| && i < |s.dead| && i < |s.recent| && s.table[i] == x && !s.dead[i] && s.recent[i] == recent
  }

  /** Of the kept elements and the one to be stored, all but the one discarded are kept, in the same epoch. */
  lemma {:induction false} DisplaceRetains<T>(p: Params<T>, s: Slots<T>, e: T, recent: bool, lastLoc: nat, depth: nat,
                                              x: T, epoch: bool)
    requires p.Valid() && Sized(s, p.size) && (Kept(s, x, epoch) || (x == e && epoch == recent))
    ensures var r := Displace(p, s, e, recent, lastLoc, depth); x == r.discarded || Kept(r.slots, x, epoch)
    decreases depth
  {
    hide Params.Locs, FirstDead, NextLoc, Displace, Kept;
    if depth == 0 {
      DisplaceNone(p, s, e, recent, lastLoc);
    } else {
      DisplaceOnce(p, s, e, recent, lastLoc, depth);
      match FirstDead(s, p.Locs(e))
      case Some(loc) =>
        StoreRetains(s, Put(s, loc, e, recent), loc, e, recent, x, epoch);
      case None =>
        var loc := NextLoc(p.Locs(e), lastLoc);
        StoreRetains(s, Swap(s, loc, e, recent), loc, e, recent, x, epoch);
        DisplaceRetains(p, Swap(s, loc, e, recent), s.table[loc], s.recent[loc], loc, depth - 1, x, epoch);
    }
  }

  // Storing an element in one slot keeps it, and everything but what was kept there.
  lemma StoreRetains<T>(s: Slots<T>, t: Slots<T>, loc: nat, e: T, recent: bool, x: T, epoch: bool)
    requires Sized(s, |s.table|) && Sized(t, |s.table|) && loc < |s.table|
    requires t.table == s.table[loc := e] && t.recent == s.recent[loc := recent] && t.dead == s.dead[loc := false]
    requires Kept(s, x, epoch) || (x == e && epoch == recent)
    ensures Kept(t, x, epoch) || KeptAt(s, loc, x, epoch)
  {
    if x == e && epoch == recent {
      assert KeptAt(t, loc, x, epoch);
    } else {
      var i :| 0 <= i < |s.table| && KeptAt(s, i, x, epoch);
      assert i != loc ==> KeptAt(t, i, x, epoch);
    }
  }

  // Whether this insert discards the element for good.
  ghost predicate Discards<T>(p: Params<T>, s: Slots<T>, e: T, x: T)
    requires p.Valid() && Sized(s, p.size)
  {
    Find(s.table, e, p.Locs(e)).None? && Insert(p, s, e).discarded == x
  }

  /** An insert keeps every kept element but the one discarded, in its epoch; the element inserted belongs to the
      current one. */
  lemma InsertRetains<T>(p: Params<T>, s: Slots<T>, e: T, x: T, epoch: bool)
    requires p.Valid() && Placed(p, s) && x != p.default && (Kept(s, x, epoch) || (x == e && epoch))
    ensures Discards(p, s, e, x) || Kept(Insert(p, s, e).slots, x, epoch || x == e)
  {
    hide Params.Locs, Placed, Displace;
    PlacedSized(p, s);
    match Find(s.table, e, p.Locs(e))
    case Some(loc) =>
      if x == e {
        assert KeptAt(Put(s, loc, e, true), loc, e, true);
      } else {
        StoreRetains(s, Put(s, loc, e, true), loc, e, true, x, epoch);
      }
    case None =>
      if Kept(s, x, epoch) && x == e {
        FindDecides(p, s, e);
      }
      DisplaceRetains(p, s, e, true, INVALID, p.depthLimit, x, epoch);
  }

  // ----- epochs -----

  // Whether this call starts a new epoch: an insert that scans and finds the current one full.
  predicate Ages<T(==)>(p: Params<T>, s: State<T>, op: Op<T>)
    requires p.Valid() && Sized(s.slots, p.size)
  {
    op.Add? && s.counter == 0 && Live(s.slots, true, p.size) >= p.EpochSize()
  }

  /** A new epoch keeps exactly the elements of the current one, which are then the old ones. */
  lemma AgedKeeps<T>(s: Slots<T>, x: T)
    requires Sized(s, |s.table|)
    ensures Kept(Aged(s), x, false) <==> Kept(s, x, true)
    ensures !Kept(Aged(s), x, true)
  {
    var t := Aged(s);
    if Kept(s, x, true) {
      var i :| 0 <= i < |s.table| && KeptAt(s, i, x, true);
      assert KeptAt(t, i, x, false);
    }
    if Kept(t, x, false) {
      var i :| 0 <= i < |t.table| && KeptAt(t, i, x, false);
      assert KeptAt(s, i, x, true);
    }
  }

  /** The next scan comes when the epoch could be full, but not after fewer inserts than a sixteenth of one. */
  lemma ScanSpacing<T>(p: Params<T>, s: State<T>, op: Op<T>)
    requires p.Valid() && Sized(s.slots, p.size) && s.counter == 0 && op.Add?
    ensures var t, e, live := Step(p, s, op), p.EpochSize(), Live(s.slots, true, p.size);
            if Ages(p, s, op) then t.counter == e
            else && 1 <= t.counter && e / 16 <= t.counter && e <= live + t.counter
                 && (t.counter == 1 || t.counter == e / 16 || e == live + t.counter)
  {
  }

  // The element is neither erased by the call nor the one its insert discards.
  ghost predicate Spared<T>(p: Params<T>, s: State<T>, op: Op<T>, x: T)
    requires p.Valid() && Sized(s.slots, p.size)
  {
    match op
    case Add(e) => !Discards(p, EpochCheck(p, s).slots, e, x)
    case Query(e, erase) => !(erase && e == x)
  }

  lemma EpochCheckRetains<T>(p: Params<T>, s: State<T>, e: T, x: T, epoch: bool)
    requires p.Valid() && Placed(p, s.slots) && Kept(s.slots, x, epoch) && (Ages(p, s, Add(e)) ==> epoch)
    ensures var t := EpochCheck(p, s);
            && Placed(p, t.slots)
            && Kept(t.slots, x, epoch && !Ages(p, s, Add(e)))
  {
    hide Live, Params.Locs, Kept;
    AgedKeeps(s.slots, x);
    assert Placed(p, Aged(s.slots));
  }

  /** What one call does to a kept element. */
  lemma StepRetains<T>(p: Params<T>, s: State<T>, op: Op<T>, x: T, epoch: bool)
    requires p.Valid() && Placed(p, s.slots) && Kept(s.slots, x, epoch) && x != p.default
    requires Spared(p, s, op, x) && (Ages(p, s, op) ==> epoch)
    ensures Kept(Step(p, s, op).slots, x, (epoch && !Ages(p, s, op)) || op == Add(x))
  {
    hide Params.Locs, Placed, EpochCheck, Insert;
    PlacedSized(p, s.slots);
    match op
    case Add(e) =>
      EpochCheckRetains(p, s, e, x, epoch);
      InsertRetains(p, EpochCheck(p, s).slots, e, x, epoch && !Ages(p, s, op));
    case Query(e, erase) =>
      var t := Step(p, s, op).slots;
      var i :| 0 <= i < |s.slots.table| && KeptAt(s.slots, i, x, epoch);
      assert KeptAt(t, i, x, epoch);
  }

  // ----- runs -----

  function Agings<T(==)>(p: Params<T>, s: State<T>, ops: seq<Op<T>>): nat
    requires p.Valid() && Sized(s.slots, p.size)
    decreases |ops|
  {
    if ops == [] then 0 else
    StepSized(p, s, ops[0]);
    One(Ages(p, s, ops[0])) + Agings(p, Step(p, s, ops[0]), ops[1..])
  }

  ghost predicate SparedThrough<T>(p: Params<T>, s: State<T>, ops: seq<Op<T>>, x: T)
    requires p.Valid() && Sized(s.slots, p.size)
    decreases |ops|
  {
    ops == [] ||
    (StepSized(p, s, ops[0]);
     Spared(p, s, ops[0], x) && SparedThrough(p, Step(p, s, ops[0]), ops[1..], x))
  }

  /** An element kept in the current epoch is kept, and so found, over any run that starts at most one new epoch
      and neither erases nor discards it; one of the old epoch over any run that starts none. */
  lemma {:induction false} RunRetains<T>(p: Params<T>, s: State<T>, ops: seq<Op<T>>, x: T, epoch: bool)
    requires p.Valid() && Inv(p, s) && x != p.default && Kept(s.slots, x, epoch)
    requires SparedThrough(p, s, ops, x) && Agings(p, s, ops) <= One(epoch)
    ensures var t := Run(p, s, ops);
            (Kept(t.slots, x, true) || Kept(t.slots, x, false)) && Contains(p, t.slots, x, false).0
    decreases |ops|
  {
    hide Kept, Ages, Spared, Step;
    if ops == [] {
      hide Inv, Placed;
      StoredIsFound(p, s, x, epoch);
    } else {
      StepInv(p, s, ops[0]);
      StepRetains(p, s, ops[0], x, epoch);
      var next := (epoch && !Ages(p, s, ops[0])) || ops[0] == Add(x);
      RunRetains(p, Step(p, s, ops[0]), ops[1..], x, next);
    }
  }

  lemma StoredIsFound<T>(p: Params<T>, s: State<T>, x: T, epoch: bool)
    requires p.Valid() && Inv(p, s) && x != p.default && Kept(s.slots, x, epoch)
    ensures Contains(p, s.slots, x, false).0
  {
    FindDecides(p, s.slots, x);
  }

  function Adds<T>(ops: seq<Op<T>>): nat {
    if ops == [] then 0 else One(ops[0].Add?) + Adds(ops[1..])
  }

  lemma {:induction false} NoAging<T>(p: Params<T>, s: State<T>, ops: seq<Op<T>>)
    requires p.Valid() && Sized(s.slots, p.size) && Adds(ops) <= s.counter
    ensures Agings(p, s, ops) == 0
    decreases |ops|
  {
    hide Insert, Contains, Live;
    if ops != [] {
      StepSized(p, s, ops[0]);
      NoAging(p, Step(p, s, ops[0]), ops[1..]);
    }
  }

  /** Two new epochs are more than EpochSize inserts apart. */
  lemma {:induction false} OneAging<T>(p: Params<T>, s: State<T>, ops: seq<Op<T>>)
    requires p.Valid() && Sized(s.slots, p.size) && Adds(ops) <= p.EpochSize() + 1
    ensures Agings(p, s, ops) <= 1
    decreases |ops|
  {
    hide Insert, Contains, Live, Params.EpochSize;
    if ops != [] {
      StepSized(p, s, ops[0]);
      if Ages(p, s, ops[0]) {
        NoAging(p, Step(p, s, ops[0]), ops[1..]);
      } else {
        OneAging(p, Step(p, s, ops[0]), ops[1..]);
      }
    }
  }

  /** So an element just inserted and stored is found for as many further inserts as an epoch has elements, unless
      it is erased or is the one discarded. */
  lemma KeptForAnEpoch<T>(p: Params<T>, s: State<T>, ops: seq<Op<T>>, x: T)
    requires p.Valid() && Inv(p, s) && x != p.default && Kept(s.slots, x, true)
    requires SparedThrough(p, s, ops, x) && Adds(ops) <= p.EpochSize() + 1
    ensures Contains(p, Run(p, s, ops).slots, x, false).0
  {
    hide Contains, Run, SparedThrough, Adds;
    OneAging(p, s, ops);
    RunRetains(p, s, ops, x, true);
  }
}
