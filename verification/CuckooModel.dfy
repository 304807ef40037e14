/**
 The cuckoo cache of src/cuckoocache.h as values: slots that hold an element each, a flag that the
 element may be discarded, and a flag that it belongs to the current epoch.

 Main results: InsertConserves (an insert discards exactly one element), InsertPlaces (each element
 stays unique and in one of its eight slots), and RunInv with RunBounds (live entries per epoch and in
 total stay bounded over every run).
 */
module CuckooModel {
  import opened Wrappers

  const TWO32: nat := 0x1_0000_0000

  // The special index that can never be inserted to.
  const INVALID: nat := TWO32 - 1

  // The largest table whose flags can be allocated: beyond it, the 32-bit number of flag bytes wraps.
  const MAX_SIZE: nat := TWO32 - 8

  function Max(a: nat, b: nat): nat { if a < b then b else a }

  // ----- parameters fixed by setup -----

  /** The number of slots, the displacement limit, the default element, and the eight 32-bit hashes
      of an element. */
  datatype Params<!T(==)> = Params(size: nat, depthLimit: nat, default: T, hash: (T, nat) -> nat) {
    predicate Valid() {
      2 <= size <= MAX_SIZE && depthLimit >= 1
    }

    // 45% of the slots, computed in 32-bit arithmetic.
    function EpochSize(): (n: nat)
      ensures n >= 1
    {
      Max(1, 45 * size % TWO32 / 100)
    }

    // The most live entries an epoch can have.
    function EpochBound(): nat {
      EpochSize() + Max(1, EpochSize() / 16)
    }

    // compute_hashes: the k-th slot of an element, a 32-bit hash scaled to the table size.
    function Loc(e: T, k: nat): (loc: nat)
      requires Valid() && k < 8
      ensures loc < size
    {
      ScaleInRange(hash(e, k) % TWO32, size);
      hash(e, k) % TWO32 * size / TWO32
    }

    function Locs(e: T): (locs: seq<nat>)
      requires Valid()
      ensures |locs| == 8 && forall k :: 0 <= k < 8 ==> locs[k] < size
    {
      seq(8, k requires 0 <= k < 8 => Loc(e, k))
    }
  }

  lemma ScaleInRange(h: nat, size: nat)
    requires h < TWO32 && size > 0
    ensures h * size / TWO32 < size
  {
    assert (TWO32 - h) * size > 0;
    assert h * size < size * TWO32;
  }

  // ----- slots -----

  datatype Slots<T> = Slots(table: seq<T>, dead: seq<bool>, recent: seq<bool>)

  predicate Sized<T>(s: Slots<T>, n: nat) {
    |s.table| == |s.dead| == |s.recent| == n
  }

  // Store an element in a slot, keeping it.
  function Put<T>(s: Slots<T>, loc: nat, e: T, recent: bool): Slots<T>
    requires Sized(s, |s.table|) && loc < |s.table|
  {
    Slots(s.table[loc := e], s.dead[loc := false], s.recent[loc := recent])
  }

  // The first of the given slots whose element may be discarded.
  function FirstDead<T>(s: Slots<T>, locs: seq<nat>): (r: Option<nat>)
    requires forall k :: 0 <= k < |locs| ==> locs[k] < |s.dead|
    ensures r.Some? ==> r.value in locs && r.value < |s.dead| && s.dead[r.value]
    ensures r.None? ==> forall k :: 0 <= k < |locs| ==> !s.dead[locs[k]]
  {
    if locs == [] then None else if s.dead[locs[0]] then Some(locs[0]) else FirstDead(s, locs[1..])
  }

  // The first of the given slots that holds e.
  function Find<T(==)>(table: seq<T>, e: T, locs: seq<nat>): (r: Option<nat>)
    requires forall k :: 0 <= k < |locs| ==> locs[k] < |table|
    ensures r.Some? ==> r.value in locs && r.value < |table| && table[r.value] == e
    ensures r.None? ==> forall k :: 0 <= k < |locs| ==> table[locs[k]] != e
  {
    if locs == [] then None else if table[locs[0]] == e then Some(locs[0]) else Find(table, e, locs[1..])
  }

  // std::find: the position of x, or the length.
  function IndexOf(locs: seq<nat>, x: nat): (k: nat)
    ensures k <= |locs| && (k < |locs| ==> locs[k] == x)
  {
    if locs == [] || locs[0] == x then 0 else 1 + IndexOf(locs[1..], x)
  }

  // The slot to displace next: the one after the slot last used, locs[1] the first time.
  function NextLoc(locs: seq<nat>, lastLoc: nat): (loc: nat)
    requires |locs| == 8
    ensures loc in locs
  {
    locs[(1 + IndexOf(locs, lastLoc)) % 8]
  }

  // The outcome of an insert: the slots and the element that is no longer stored.
  datatype Outcome<T> = Outcome(slots: Slots<T>, discarded: T)

  // The displacement loop with `depth` iterations left.
  function Displace<T(==)>(p: Params<T>, s: Slots<T>, e: T, recent: bool, lastLoc: nat, depth: nat): Outcome<T>
    requires p.Valid() && Sized(s, p.size)
    decreases depth
  {
    if depth == 0 then Outcome(s, e) else
    var locs := p.Locs(e);
    match FirstDead(s, locs)
    case Some(loc) => Outcome(Put(s, loc, e, recent), s.table[loc])
    case None =>
      var loc := NextLoc(locs, lastLoc);
      Displace(p, Swap(s, loc, e, recent), s.table[loc], s.recent[loc], loc, depth - 1)
  }

  // The slots after swapping an element into a slot whose element is to be kept.
  function Swap<T>(s: Slots<T>, loc: nat, e: T, recent: bool): (r: Slots<T>)
    requires Sized(s, |s.table|) && loc < |s.table|
    ensures Sized(r, |s.table|)
  {
    Slots(s.table[loc := e], s.dead, s.recent[loc := recent])
  }

  lemma DisplaceNone<T>(p: Params<T>, s: Slots<T>, e: T, recent: bool, lastLoc: nat)
    requires p.Valid() && Sized(s, p.size)
    ensures Displace(p, s, e, recent, lastLoc, 0) == Outcome(s, e)
  {
  }

  // One iteration of the loop.
  lemma DisplaceOnce<T>(p: Params<T>, s: Slots<T>, e: T, recent: bool, lastLoc: nat, depth: nat)
    requires p.Valid() && Sized(s, p.size) && depth > 0
    ensures Displace(p, s, e, recent, lastLoc, depth) ==
            match FirstDead(s, p.Locs(e))
            case Some(loc) => Outcome(Put(s, loc, e, recent), s.table[loc])
            case None =>
              var loc := NextLoc(p.Locs(e), lastLoc);
              Displace(p, Swap(s, loc, e, recent), s.table[loc], s.recent[loc], loc, depth - 1)
  {
  }

  // insert, after epoch_check.
  function Insert<T(==)>(p: Params<T>, s: Slots<T>, e: T): Outcome<T>
    requires p.Valid() && Sized(s, p.size)
  {
    match Find(s.table, e, p.Locs(e))
    case Some(loc) => Outcome(Put(s, loc, e, true), e)
    case None => Displace(p, s, e, true, INVALID, p.depthLimit)
  }

  // ----- conservation -----

  lemma {:induction false} DisplaceConserves<T>(p: Params<T>, s: Slots<T>, e: T, recent: bool, lastLoc: nat, depth: nat)
    requires p.Valid() && Sized(s, p.size)
    ensures var r := Displace(p, s, e, recent, lastLoc, depth);
            && Sized(r.slots, p.size)
            && multiset(r.slots.table) + multiset{r.discarded} == multiset(s.table) + multiset{e}
    decreases depth
  {
    hide Params.Locs, FirstDead, NextLoc;
    if depth > 0 && FirstDead(s, p.Locs(e)).None? {
      var loc := NextLoc(p.Locs(e), lastLoc);
      DisplaceConserves(p, Swap(s, loc, e, recent), s.table[loc], s.recent[loc], loc, depth - 1);
    }
  }

  /** What is stored after an insert, together with the one element discarded, is what was stored before
      together with the new element. */
  lemma InsertConserves<T>(p: Params<T>, s: Slots<T>, e: T)
    requires p.Valid() && Sized(s, p.size)
    ensures var r := Insert(p, s, e);
            && Sized(r.slots, p.size)
            && multiset(r.slots.table) + multiset{r.discarded} == multiset(s.table) + multiset{e}
  {
    match Find(s.table, e, p.Locs(e))
    case Some(loc) => assert s.table[loc := e] == s.table;
    case None => DisplaceConserves(p, s, e, true, INVALID, p.depthLimit);
  }

  // ----- placement -----

  // An element that has been inserted sits in one of its eight slots, and nowhere else.
  ghost predicate Placed<T>(p: Params<T>, s: Slots<T>)
    requires p.Valid()
  {
    && Sized(s, p.size)
    && (forall i :: 0 <= i < p.size && s.table[i] != p.default ==> i in p.Locs(s.table[i]))
    && (forall i, j :: 0 <= i < j < p.size && s.table[i] == s.table[j] ==> s.table[i] == p.default)
  }

  lemma SwapPlaces<T>(p: Params<T>, s: Slots<T>, s': Slots<T>, e: T, loc: nat)
    requires p.Valid() && Placed(p, s) && (e == p.default || e !in s.table)
    requires loc in p.Locs(e) && loc < p.size && Sized(s', p.size) && s'.table == s.table[loc := e]
    ensures Placed(p, s')
    ensures s.table[loc] == p.default || s.table[loc] !in s'.table
  {
    hide Params.Locs;
  }

  lemma {:induction false} DisplacePlaces<T>(p: Params<T>, s: Slots<T>, e: T, recent: bool, lastLoc: nat, depth: nat)
    requires p.Valid() && Placed(p, s) && (e == p.default || e !in s.table)
    ensures Placed(p, Displace(p, s, e, recent, lastLoc, depth).slots)
    decreases depth
  {
    hide Placed, Params.Locs;
    assert Sized(s, p.size) by { PlacedSized(p, s); }
    if depth > 0 {
      match FirstDead(s, p.Locs(e))
      case Some(loc) =>
        SwapPlaces(p, s, Put(s, loc, e, recent), e, loc);
      case None =>
        var loc := NextLoc(p.Locs(e), lastLoc);
        var s' := Swap(s, loc, e, recent);
        SwapPlaces(p, s, s', e, loc);
        DisplacePlaces(p, s', s.table[loc], s.recent[loc], loc, depth - 1);
    }
  }

  lemma PlacedSized<T>(p: Params<T>, s: Slots<T>)
    requires p.Valid() && Placed(p, s)
    ensures Sized(s, p.size)
  {
  }

  // Looking in the eight slots of an element decides whether it is stored at all.
  lemma FindDecides<T>(p: Params<T>, s: Slots<T>, e: T)
    requires p.Valid() && Placed(p, s) && e != p.default
    ensures Find(s.table, e, p.Locs(e)).Some? <==> e in s.table
  {
    if e in s.table {
      var i :| 0 <= i < |s.table| && s.table[i] == e;
      assert i in p.Locs(e);
    }
  }

  /** An element that is stored already, or one of whose slots can be had, is stored by the insert, kept and
      of the current epoch, and nothing else moves. */
  lemma InsertStores<T>(p: Params<T>, s: Slots<T>, e: T) returns (loc: nat)
    requires p.Valid() && Sized(s, p.size)
    requires Find(s.table, e, p.Locs(e)).Some? || FirstDead(s, p.Locs(e)).Some?
    ensures loc in p.Locs(e) && loc < p.size && Insert(p, s, e).slots == Put(s, loc, e, true)
  {
    match Find(s.table, e, p.Locs(e))
    case Some(l) =>
      loc := l;
    case None =>
      loc := FirstDead(s, p.Locs(e)).value;
      DisplaceOnce(p, s, e, true, INVALID, p.depthLimit);
  }

  lemma InsertPlaces<T>(p: Params<T>, s: Slots<T>, e: T)
    requires p.Valid() && Placed(p, s)
    ensures Placed(p, Insert(p, s, e).slots)
  {
    if e != p.default {
      FindDecides(p, s, e);
    }
    match Find(s.table, e, p.Locs(e))
    case Some(loc) => assert s.table[loc := e] == s.table;
    case None => DisplacePlaces(p, s, e, true, INVALID, p.depthLimit);
  }

  // ----- live entries -----

  // The entries among the first n slots that are kept and belong to the current, or to the old, epoch.
  function Live<T>(s: Slots<T>, recent: bool, n: nat): (c: nat)
    requires n <= |s.dead| && n <= |s.recent|
    ensures c <= n
  {
    if n == 0 then 0
    else Live(s, recent, n - 1) + if !s.dead[n - 1] && s.recent[n - 1] == recent then 1 else 0
  }

  function One(b: bool): nat { if b then 1 else 0 }

  // The effect on the counts of one slot becoming a kept entry of an epoch.
  lemma {:induction false} LiveUpdate<T>(s: Slots<T>, s': Slots<T>, loc: nat, now: bool, recent: bool, n: nat)
    requires n <= |s.dead| == |s.recent| && loc < |s.dead|
    requires s'.dead == s.dead[loc := false] && s'.recent == s.recent[loc := now]
    ensures Live(s', recent, n) == Live(s, recent, n)
            + if loc < n then One(now == recent) - One(!s.dead[loc] && s.recent[loc] == recent) else 0
    decreases n
  {
    if n > 0 {
      LiveUpdate(s, s', loc, now, recent, n - 1);
    }
  }

  lemma {:induction false} DisplaceLive<T>(p: Params<T>, s: Slots<T>, e: T, now: bool, lastLoc: nat, depth: nat,
                                           recent: bool)
    requires p.Valid() && Sized(s, p.size)
    ensures Sized(Displace(p, s, e, now, lastLoc, depth).slots, p.size)
    ensures Live(Displace(p, s, e, now, lastLoc, depth).slots, recent, p.size)
            <= Live(s, recent, p.size) + One(now == recent)
    decreases depth
  {
    hide Live, Params.Locs, FirstDead, NextLoc, Displace;
    if depth == 0 {
      DisplaceNone(p, s, e, now, lastLoc);
    } else {
      DisplaceOnce(p, s, e, now, lastLoc, depth);
      match FirstDead(s, p.Locs(e))
      case Some(loc) =>
        LiveUpdate(s, Put(s, loc, e, now), loc, now, recent, p.size);
      case None =>
        var loc := NextLoc(p.Locs(e), lastLoc);
        assert s.dead[loc := false] == s.dead;
        var s' := Swap(s, loc, e, now);
        LiveUpdate(s, s', loc, now, recent, p.size);
        DisplaceLive(p, s', s.table[loc], s.recent[loc], loc, depth - 1, recent);
    }
  }

  // An insert adds at most one live entry to the current epoch and none to the old one.
  lemma InsertLive<T>(p: Params<T>, s: Slots<T>, e: T)
    requires p.Valid() && Sized(s, p.size)
    ensures Sized(Insert(p, s, e).slots, p.size)
    ensures Live(Insert(p, s, e).slots, true, p.size) <= Live(s, true, p.size) + 1
    ensures Live(Insert(p, s, e).slots, false, p.size) <= Live(s, false, p.size)
  {
    hide Live;
    match Find(s.table, e, p.Locs(e))
    case Some(loc) =>
      LiveUpdate(s, Put(s, loc, e, true), loc, true, true, p.size);
      LiveUpdate(s, Put(s, loc, e, true), loc, true, false, p.size);
    case None =>
      DisplaceLive(p, s, e, true, INVALID, p.depthLimit, true);
      DisplaceLive(p, s, e, true, INVALID, p.depthLimit, false);
  }

  // ----- epochs -----

  // Entries of the old epoch may be discarded; those of the current epoch become the old one.
  function Aged<T>(s: Slots<T>): (r: Slots<T>)
    requires Sized(s, |s.table|)
    ensures Sized(r, |s.table|)
  {
    Slots(s.table, seq(|s.dead|, i requires 0 <= i < |s.dead| => s.dead[i] || !s.recent[i]),
          seq(|s.recent|, _ => false))
  }

  lemma {:induction false} AgedLive<T>(s: Slots<T>, n: nat)
    requires Sized(s, |s.table|) && n <= |s.table|
    ensures Live(Aged(s), true, n) == 0 && Live(Aged(s), false, n) == Live(s, true, n)
    decreases n
  {
    if n > 0 {
      AgedLive(s, n - 1);
    }
  }

  datatype State<T> = State(slots: Slots<T>, counter: nat)

  function EpochCheck<T(==)>(p: Params<T>, s: State<T>): State<T>
    requires p.Valid() && Sized(s.slots, p.size)
  {
    if s.counter != 0 then s.(counter := s.counter - 1) else
    var unused := Live(s.slots, true, p.size);
    if unused >= p.EpochSize() then State(Aged(s.slots), p.EpochSize())
    else s.(counter := Max(1, Max(p.EpochSize() / 16, p.EpochSize() - unused)))
  }

  // ----- runs -----

  datatype Op<T> = Add(e: T) | Query(e: T, erase: bool)

  // contains: whether the element is stored; the slots with it marked for discarding if asked.
  function Contains<T(==)>(p: Params<T>, s: Slots<T>, e: T, erase: bool): (bool, Slots<T>)
    requires p.Valid() && Sized(s, p.size)
  {
    match Find(s.table, e, p.Locs(e))
    case None => (false, s)
    case Some(loc) => (true, if erase then s.(dead := s.dead[loc := true]) else s)
  }

  function Step<T(==)>(p: Params<T>, s: State<T>, op: Op<T>): State<T>
    requires p.Valid() && Sized(s.slots, p.size)
  {
    match op
    case Add(e) => var t := EpochCheck(p, s); State(Insert(p, t.slots, e).slots, t.counter)
    case Query(e, erase) => s.(slots := Contains(p, s.slots, e, erase).1)
  }

  // setup: default elements everywhere, all of them discardable.
  function Setup<T(==)>(p: Params<T>): State<T>
    requires p.Valid()
  {
    State(Slots(seq(p.size, _ => p.default), seq(p.size, _ => true), seq(p.size, _ => false)), p.EpochSize())
  }

  ghost predicate Inv<T>(p: Params<T>, s: State<T>)
    requires p.Valid()
  {
    && Placed(p, s.slots)
    && Live(s.slots, true, p.size) + s.counter <= p.EpochBound()
    && Live(s.slots, false, p.size) <= p.EpochBound()
  }

  lemma {:induction false} NoneLive<T>(s: Slots<T>, recent: bool, n: nat)
    requires n <= |s.dead| && n <= |s.recent| && forall i :: 0 <= i < n ==> s.dead[i]
    ensures Live(s, recent, n) == 0
    decreases n
  {
    if n > 0 {
      NoneLive(s, recent, n - 1);
    }
  }

  lemma SetupInv<T>(p: Params<T>)
    requires p.Valid()
    ensures Inv(p, Setup(p))
  {
    NoneLive(Setup(p).slots, true, p.size);
    NoneLive(Setup(p).slots, false, p.size);
  }

  // The scan leaves room for the insert that follows it.
  lemma EpochCheckLeavesRoom<T>(p: Params<T>, s: State<T>)
    requires p.Valid() && Inv(p, s)
    ensures var t := EpochCheck(p, s);
            && Placed(p, t.slots)
            && Live(t.slots, true, p.size) + t.counter + 1 <= p.EpochBound()
            && Live(t.slots, false, p.size) <= p.EpochBound()
  {
    hide Live, Params.Locs;
    AgedLive(s.slots, p.size);
    assert Placed(p, Aged(s.slots));
  }

  lemma {:induction false} LiveErase<T>(s: Slots<T>, loc: nat, recent: bool, n: nat)
    requires n <= |s.dead| == |s.recent| && loc < |s.dead|
    ensures Live(s.(dead := s.dead[loc := true]), recent, n) <= Live(s, recent, n)
    decreases n
  {
    if n > 0 {
      LiveErase(s, loc, recent, n - 1);
    }
  }

  lemma StepInv<T>(p: Params<T>, s: State<T>, op: Op<T>)
    requires p.Valid() && Inv(p, s)
    ensures Inv(p, Step(p, s, op))
  {
    hide Live, Params.Locs, Insert, EpochCheck, Params.EpochBound;
    match op
    case Add(e) =>
      EpochCheckLeavesRoom(p, s);
      var t := EpochCheck(p, s);
      InsertPlaces(p, t.slots, e);
      InsertLive(p, t.slots, e);
    case Query(e, erase) =>
      match Find(s.slots.table, e, p.Locs(e)) {
        case None =>
        case Some(loc) =>
          LiveErase(s.slots, loc, true, p.size);
          LiveErase(s.slots, loc, false, p.size);
      }
  }

  function Run<T(==)>(p: Params<T>, s: State<T>, ops: seq<Op<T>>): (t: State<T>)
    requires p.Valid() && Sized(s.slots, p.size)
    ensures Sized(t.slots, p.size)
    decreases |ops|
  {
    if ops == [] then s else
    var t := Step(p, s, ops[0]);
    assert Sized(t.slots, p.size) by { StepSized(p, s, ops[0]); }
    Run(p, t, ops[1..])
  }

  lemma StepSized<T>(p: Params<T>, s: State<T>, op: Op<T>)
    requires p.Valid() && Sized(s.slots, p.size)
    ensures Sized(Step(p, s, op).slots, p.size)
  {
    if op.Add? {
      InsertConserves(p, EpochCheck(p, s).slots, op.e);
    }
  }

  lemma {:induction false} RunInv<T>(p: Params<T>, s: State<T>, ops: seq<Op<T>>)
    requires p.Valid() && Inv(p, s)
    ensures Inv(p, Run(p, s, ops))
    decreases |ops|
  {
    hide Inv, Step;
    assert Sized(s.slots, p.size) by { InvSized(p, s); }
    if ops != [] {
      StepInv(p, s, ops[0]);
      RunInv(p, Step(p, s, ops[0]), ops[1..]);
    }
  }

  lemma InvSized<T>(p: Params<T>, s: State<T>)
    requires p.Valid() && Inv(p, s)
    ensures Sized(s.slots, p.size)
  {
  }

  /** After setup and any calls, the current epoch has at most EpochBound live entries, both epochs
      together at most twice that, and every stored element is where contains looks for it. */
  lemma RunBounds<T>(p: Params<T>, ops: seq<Op<T>>)
    requires p.Valid()
    ensures var t := Run(p, Setup(p), ops);
            && Placed(p, t.slots)
            && Live(t.slots, true, p.size) <= p.EpochBound()
            && Live(t.slots, true, p.size) + Live(t.slots, false, p.size) <= 2 * p.EpochBound()
            && forall e :: e != p.default ==> (Contains(p, t.slots, e, false).0 <==> e in t.slots.table)
  {
    SetupInv(p);
    RunInv(p, Setup(p), ops);
    var t := Run(p, Setup(p), ops);
    forall e | e != p.default
      ensures Contains(p, t.slots, e, false).0 <==> e in t.slots.table
    {
      FindDecides(p, t.slots, e);
    }
  }
}
