/**
 How full the cuckoo cache of src/cuckoocache.h can get. Two epochs of 45% of the slots are meant to leave
 slots to discard. Counted exactly, the epochs can fill a small table.

 Main results: LoadIff and LoadStrictIff (which sizes bound the live entries of two epochs by, or below,
 the number of slots), NeverFull (over every run), FillingRun (a run that fills the table, for every size
 the bound does not cover) and NeverFullIff.
 */
module CuckooLoad {
  import opened CuckooModel

  // ----- the bound of two epochs -----

  // The sizes at which two epochs leave a slot over.
  predicate Roomy(size: nat) {
    size > 20 || (size > 10 && size % 2 == 1)
  }

  lemma EpochBoundSmall<T>(p: Params<T>)
    requires p.size < 36
    ensures p.EpochSize() == Max(1, 45 * p.size / 100) < 16 && p.EpochBound() == p.EpochSize() + 1
  {
    SmallRemainder(45 * p.size, TWO32);
  }

  lemma SmallRemainder(a: nat, m: nat)
    requires a < m
    ensures a % m == a
  {
  }

  lemma EpochBoundLarge<T>(p: Params<T>)
    requires 36 <= p.size
    ensures 2 * p.EpochBound() < p.size
  {
    var n := p.EpochSize();
    assert 45 * p.size % TWO32 <= 45 * p.size;
    assert 100 * n <= 45 * p.size;
    if n < 16 {
      assert p.EpochBound() <= n + 1;
    } else {
      assert 16 * p.EpochBound() <= 17 * n;
    }
  }

  /** The live entries of two epochs fit the table, for every 32-bit size but five. */
  lemma LoadIff<T>(p: Params<T>)
    requires 2 <= p.size < TWO32
    ensures 2 * p.EpochBound() <= p.size <==> p.size !in {2, 3, 5, 7, 9}
  {
    if p.size < 36 {
      EpochBoundSmall(p);
    } else {
      EpochBoundLarge(p);
    }
  }

  /** They leave a slot over from 21 slots on, and for the odd sizes from 11. */
  lemma LoadStrictIff<T>(p: Params<T>)
    requires 2 <= p.size < TWO32
    ensures 2 * p.EpochBound() < p.size <==> Roomy(p.size)
  {
    if p.size < 36 {
      EpochBoundSmall(p);
    } else {
      EpochBoundLarge(p);
    }
  }

  // ----- every run -----

  // The kept entries of both epochs after setup and some calls.
  function Load<T(==)>(p: Params<T>, ops: seq<Op<T>>): nat
    requires p.Valid()
  {
    var s := Run(p, Setup(p), ops).slots;
    Live(s, true, p.size) + Live(s, false, p.size)
  }

  /** After any calls the live entries are within two epochs, which fit in the table at all but five sizes,
      and below the number of slots at the sizes that leave one over. */
  lemma RunLoad<T>(p: Params<T>, ops: seq<Op<T>>)
    requires p.Valid()
    ensures Load(p, ops) <= 2 * p.EpochBound()
    ensures Roomy(p.size) ==> Load(p, ops) < p.size
    ensures p.size !in {2, 3, 5, 7, 9} ==> 2 * p.EpochBound() <= p.size
  {
    hide Params.EpochBound, Live, Run, Setup;
    RunBounds(p, ops);
    LoadStrictIff(p);
    LoadIff(p);
  }

  lemma {:induction false} LiveAll<T>(s: Slots<T>, n: nat)
    requires n <= |s.dead| && n <= |s.recent|
    requires forall i :: 0 <= i < n ==> !s.dead[i]
    ensures Live(s, true, n) + Live(s, false, n) == n
    decreases n
  {
    if n > 0 {
      LiveAll(s, n - 1);
    }
  }

  /** So at those sizes some slot can always be discarded. */
  lemma NeverFull<T>(p: Params<T>, ops: seq<Op<T>>)
    requires p.Valid() && Roomy(p.size)
    ensures exists i :: 0 <= i < p.size && Run(p, Setup(p), ops).slots.dead[i]
  {
    hide Params.EpochBound, Live, Run;
    var s := Run(p, Setup(p), ops).slots;
    RunLoad(p, ops);
    if forall i :: 0 <= i < p.size ==> !s.dead[i] {
      LiveAll(s, p.size);
      assert false;
    }
  }

  // ----- runs that fill the table -----

  // A 32-bit hash that is scaled to slot e.
  function SlotHash(size: nat, e: nat): (h: nat)
    requires size > 0
  {
    (e * TWO32 + size - 1) / size
  }

  // The displacement limit that setup computes.
  function Log2(size: nat): (d: nat)
    ensures size >= 2 ==> d >= 1
  {
    if size < 2 then 0 else 1 + Log2(size / 2)
  }

  // A table in which element e < size has slot e only.
  function Direct(size: nat): (p: Params<nat>)
    requires 2 <= size <= MAX_SIZE
    ensures p.Valid() && p.size == p.default == size
  {
    Params(size, Log2(size), size, (e: nat, k: nat) => if e < size then SlotHash(size, e) else 0)
  }

  lemma Between(size: nat, e: nat, h: nat)
    requires size > 0 && e * TWO32 <= h * size < e * TWO32 + size && size <= TWO32
    ensures h * size / TWO32 == e
  {
  }

  lemma Below(size: nat, e: nat, h: nat)
    requires e < size <= TWO32 && h * size < e * TWO32 + size
    ensures h < TWO32
  {
    assert e * TWO32 + size <= size * TWO32;
    assert (TWO32 - h) * size > 0;
  }

  lemma SlotHashScales(size: nat, e: nat)
    requires 2 <= size <= MAX_SIZE && e < size
    ensures SlotHash(size, e) < TWO32 && SlotHash(size, e) * size / TWO32 == e
  {
    var h := SlotHash(size, e);
    var a := e * TWO32 + size - 1;
    assert a == h * size + a % size;
    assert e * TWO32 <= h * size < e * TWO32 + size;
    Between(size, e, h);
    Below(size, e, h);
  }

  lemma DirectLocs(size: nat, e: nat)
    requires 2 <= size <= MAX_SIZE && e < size
    ensures Direct(size).Locs(e) == seq(8, _ => e)
  {
    hide SlotHash;
    SlotHashScales(size, e);
    var p := Direct(size);
    forall k | 0 <= k < 8 ensures p.Loc(e, k) == e {
      assert p.hash(e, k) == SlotHash(size, e);
    }
  }

  // The elements below k are kept in their slots, those from `young` on belong to the current epoch.
  function Filled(size: nat, young: nat, k: nat): (s: Slots<nat>)
    requires k <= size
    ensures Sized(s, size)
  {
    Slots(seq(size, i => if i < k then i else size), seq(size, i => i >= k), seq(size, i => young <= i < k))
  }

  lemma {:induction false} FilledLive(size: nat, young: nat, k: nat, n: nat)
    requires young <= k <= size && n <= size
    ensures Live(Filled(size, young, k), true, n) == if n <= young then 0 else if n <= k then n - young else k - young
    decreases n
  {
    if n > 0 {
      FilledLive(size, young, k, n - 1);
    }
  }

  // The next element goes to its own slot.
  lemma InsertNext(size: nat, young: nat, k: nat)
    requires 2 <= size <= MAX_SIZE && young <= k < size
    ensures Insert(Direct(size), Filled(size, young, k), k).slots == Filled(size, young, k + 1)
  {
    hide Params.Locs;
    var p, s := Direct(size), Filled(size, young, k);
    DirectLocs(size, k);
    assert Find(s.table, k, p.Locs(k)).None?;
    assert s.dead[p.Locs(k)[0]];
    var loc := InsertStores(p, s, k);
    assert loc == k;
    assert Put(s, k, k, true) == Filled(size, young, k + 1);
  }

  lemma AddNext(size: nat, young: nat, k: nat, counter: nat)
    requires 2 <= size <= MAX_SIZE && young <= k < size && (counter > 0 || young == 0)
    ensures var p, e := Direct(size), Direct(size).EpochSize();
            Step(p, State(Filled(size, young, k), counter), Add(k)) ==
            if counter > 0 then State(Filled(size, young, k + 1), counter - 1)
            else if k - young >= e then State(Filled(size, k, k + 1), e)
            else State(Filled(size, young, k + 1), Max(1, Max(e / 16, e - (k - young))))
  {
    hide Insert, Params.EpochSize, Live, Direct;
    FilledLive(size, young, k, size);
    InsertNext(size, young, k);
    InsertNext(size, k, k);
    if young == 0 {
      assert Aged(Filled(size, 0, k)) == Filled(size, k, k);
    }
  }

  lemma {:induction false} ErasedLive(size: nat, k: nat, n: nat)
    requires 0 < k <= size && n <= size
    ensures var s := Filled(size, 0, k);
            Live(s.(dead := s.dead[k - 1 := true]), true, n) == if n < k then n else k - 1
    decreases n
  {
    if n > 0 {
      ErasedLive(size, k, n - 1);
    }
  }

  // Erasing the last element of a whole epoch and adding it again buys one more insert before the scan.
  lemma EraseAndAdd(size: nat)
    requires 2 <= size < 36
    ensures var p, e := Direct(size), Direct(size).EpochSize();
            && e < size && 1 <= e < 16
            && Step(p, State(Filled(size, 0, e), 0), Query(e - 1, true)).slots
               == Filled(size, 0, e).(dead := Filled(size, 0, e).dead[e - 1 := true])
            && Step(p, Step(p, State(Filled(size, 0, e), 0), Query(e - 1, true)), Add(e - 1))
               == State(Filled(size, 0, e), 1)
  {
    hide Params.Locs, Live, Params.EpochSize;
    var p := Direct(size);
    EpochBoundSmall(p);
    var e := p.EpochSize();
    DirectLocs(size, e - 1);
    ErasedLive(size, e, size);
    var s := Filled(size, 0, e);
    var erased := s.(dead := s.dead[e - 1 := true]);
    assert s.table[p.Locs(e - 1)[0]] == e - 1;
    assert Put(erased, e - 1, e - 1, true) == s;
  }

  lemma {:induction false} RunLast<T>(p: Params<T>, s: State<T>, ops: seq<Op<T>>, op: Op<T>)
    requires p.Valid() && Sized(s.slots, p.size)
    ensures Run(p, s, ops + [op]) == Step(p, Run(p, s, ops), op)
    decreases |ops|
  {
    hide Step;
    if ops == [] {
      StepSized(p, s, op);
      assert Run(p, Step(p, s, op), []) == Step(p, s, op);
    } else {
      StepSized(p, s, ops[0]);
      RunLast(p, Step(p, s, ops[0]), ops[1..], op);
      assert (ops + [op])[1..] == ops[1..] + [op];
    }
  }

  // Add the elements below k in order, erasing and adding again the last one of the first epoch.
  function FillOps(size: nat, k: nat): seq<Op<nat>>
    requires 2 <= size <= MAX_SIZE
  {
    var e := Direct(size).EpochSize();
    if k == 0 then []
    else if k == e + 1 then FillOps(size, k - 1) + [Query(e - 1, true)] + [Add(e - 1)] + [Add(e)]
    else FillOps(size, k - 1) + [Add(k - 1)]
  }

  function FillState(size: nat, k: nat): State<nat>
    requires 2 <= size <= MAX_SIZE && k <= size && k <= 2 * Direct(size).EpochSize() + 2
  {
    var e := Direct(size).EpochSize();
    if k <= e then State(Filled(size, 0, k), e - k)
    else if k == e + 1 then State(Filled(size, 0, k), 0)
    else State(Filled(size, e + 1, k), 2 * e + 2 - k)
  }

  lemma {:induction false} FillRun(size: nat, k: nat)
    requires 2 <= size < 36 && k <= size && k <= 2 * Direct(size).EpochSize() + 2
    ensures Run(Direct(size), Setup(Direct(size)), FillOps(size, k)) == FillState(size, k)
    decreases k
  {
    hide Run, Step, Params.EpochSize, Direct;
    var p := Direct(size);
    var e := p.EpochSize();
    if k == 0 {
      RunNone(p, Setup(p));
      assert Setup(p).slots == Filled(size, 0, 0);
    } else {
      var before := FillOps(size, k - 1);
      FillRun(size, k - 1);
      EraseAndAdd(size);
      if k == e + 1 {
        RunLast(p, Setup(p), before, Query(e - 1, true));
        RunLast(p, Setup(p), before + [Query(e - 1, true)], Add(e - 1));
        RunLast(p, Setup(p), before + [Query(e - 1, true)] + [Add(e - 1)], Add(e));
        AddNext(size, 0, e, 1);
      } else {
        RunLast(p, Setup(p), before, Add(k - 1));
        var t := FillState(size, k - 1);
        AddNext(size, if k - 1 <= e + 1 then 0 else e + 1, k - 1, t.counter);
      }
    }
  }

  lemma RunNone<T>(p: Params<T>, s: State<T>)
    requires p.Valid() && Sized(s.slots, p.size)
    ensures Run(p, s, []) == s
  {
  }

  /** At every other size some run keeps an entry in every slot; at 20 slots, nine elements, the ninth
      erased and added again, and eleven more. */
  lemma FillingRun(size: nat)
    requires 2 <= size < TWO32 && !Roomy(size)
    ensures Load(Direct(size), FillOps(size, size)) == size
    ensures forall i :: 0 <= i < size ==> !Run(Direct(size), Setup(Direct(size)), FillOps(size, size)).slots.dead[i]
  {
    hide Run, FillOps, Live, Setup;
    var p := Direct(size);
    LoadStrictIff(p);
    EpochBoundSmall(p);
    FillRun(size, size);
    LiveAll(FillState(size, size).slots, size);
  }

  // Whatever the hashes, the displacement limit and the calls, some slot can be discarded.
  ghost predicate AlwaysRoom(size: nat) {
    forall p: Params<nat>, ops :: p.Valid() && p.size == size ==> Load(p, ops) < size
  }

  /** The epochs keep the table from filling up exactly at the sizes that leave a slot over. */
  lemma NeverFullIff(size: nat)
    requires 2 <= size <= MAX_SIZE
    ensures AlwaysRoom(size) <==> Roomy(size)
  {
    hide Load;
    if Roomy(size) {
      forall p: Params<nat>, ops | p.Valid() && p.size == size ensures Load(p, ops) < size {
        RunLoad(p, ops);
      }
    } else {
      FillingRun(size);
    }
  }
}
