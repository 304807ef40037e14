/**
 What the FRESH flag of src/coins.cpp saves: a coin that is created and spent between two flushes is never
 written to the view below.

 Main results: RunTight and NeverWritten (over every run, in a stack of any depth), NothingToWrite (one flush),
 CreatedAndSpent (the whole stack is as before).
 */
module CoinsFresh {
  import opened CoinsModel
  import opened Wrappers

  /** At every level, a modified entry at this outpoint is FRESH whenever the view below has no coin there. */
  ghost predicate Tight(s: Stack, o: OutPoint) {
    match s
    case Root(_) => true
    case Layer(cache, base) =>
      Tight(base, o) && (o in cache && cache[o].isDirty && base.View(o).None? ==> cache[o].isFresh)
  }

  // An add that is told the coin may overwrite another one cannot mark it FRESH.
  predicate Overwrites(op: Op, o: OutPoint) {
    op.Add? && op.o == o && op.overwrite
  }

  // ----- every call keeps it -----

  lemma {:induction false} FetchTight(s: Stack, p: OutPoint, o: OutPoint)
    requires s.Inv() && Tight(s, o)
    ensures Tight(Fetch(s, p), o)
  {
    if s.Layer? {
      FetchKeeps(s.base, p);
      FetchTight(s.base, p, o);
    }
  }

  lemma AddTight(s: Stack, p: OutPoint, coin: Coin, overwrite: bool, o: OutPoint)
    requires s.Layer? && s.Inv() && Tight(s, o) && !(overwrite && p == o)
    requires AddCoin(s, p, coin, overwrite).Success?
    ensures Tight(AddCoin(s, p, coin, overwrite).value, o)
  {
  }

  // A clean entry that is not FRESH holds the unspent coin of the view below.
  lemma CleanNotFresh(s: Stack, o: OutPoint)
    requires s.Layer? && s.Inv() && o in s.cache && !s.cache[o].isDirty && !s.cache[o].isFresh
    ensures s.base.View(o) == Some(s.cache[o].coin)
  {
  }

  lemma SpendTight(s: Stack, p: OutPoint, o: OutPoint)
    requires s.Layer? && s.Inv() && Tight(s, o)
    ensures Tight(SpendCoin(s, p), o)
  {
    FetchKeeps(s, p);
    FetchTight(s, p, o);
  }

  lemma MergeTight(ours: Cache, theirs: Cache, base: Stack, o: OutPoint)
    requires var s := Layer(theirs, Layer(ours, base)); s.Inv() && Tight(s, o)
    ensures var e := MergeAt(ours, theirs, o); e.Some? && e.value.isDirty && base.View(o).None? ==> e.value.isFresh
  {
    LayerView(Layer(ours, base), o);
  }

  lemma FlushTight(s: Stack, o: OutPoint)
    requires s.Layer? && s.Inv() && Tight(s, o)
    ensures Flush(s).Success? && Tight(Flush(s).value, o)
  {
    FlushKeeps(s);
    if s.base.Layer? {
      MergeTight(s.base.cache, s.cache, s.base.base, o);
    }
  }

  lemma {:induction false} StepTight(s: Stack, m: Coins, op: Op, o: OutPoint)
    requires s.Layer? && s.Inv() && Agrees(s, m) && Legal(m, s.Depth(), op) && Tight(s, o) && !Overwrites(op, o)
    ensures Step(s, op).Success? && Tight(Step(s, op).value, o)
  {
    StepAgrees(s, m, op);
    match op
    case Add(p, coin, overwrite) => AddTight(s, p, coin, overwrite, o);
    case Spend(p) => SpendTight(s, p, o);
    case _ => MaintenanceTight(s, op, o);
  }

  lemma {:induction false} MaintenanceTight(s: Stack, op: Op, o: OutPoint)
    requires s.Layer? && s.Inv() && op.Below(s.Depth()) && !op.Add? && !op.Spend? && Tight(s, o)
    ensures Step(s, op).Success? && Tight(Step(s, op).value, o)
    decreases s
  {
    if op.level > 0 {
      assert s.Depth() == 1 + s.base.Depth();
      MaintenanceKeepsView(s.base, LowerBy(op));
      MaintenanceTight(s.base, LowerBy(op), o);
    } else {
      match op
      case Read(_, p) => FetchTight(s, p, o);
      case Drop(_, p) =>
      case Push(_) => FlushTight(s, o);
    }
  }

  // ----- runs -----

  predicate NoOverwrite(ops: seq<Op>, o: OutPoint) {
    forall i :: 0 <= i < |ops| ==> !Overwrites(ops[i], o)
  }

  lemma {:induction false} EmptyTight(db: map<OutPoint, Coin>, depth: nat, o: OutPoint)
    ensures Tight(EmptyCaches(db, depth), o)
  {
    if depth > 0 {
      EmptyTight(db, depth - 1, o);
    }
  }

  /** Over every legal run in which no add at this outpoint is a possible overwrite. */
  lemma {:induction false} RunTight(s: Stack, m: Coins, ops: seq<Op>, t: Stack, o: OutPoint)
    requires s.Layer? && s.Inv() && Agrees(s, m) && LegalRun(m, s.Depth(), ops) && Reaches(s, ops, t)
    requires Tight(s, o) && NoOverwrite(ops, o)
    ensures t.Layer? && t.Inv() && Tight(t, o)
    decreases |ops|
  {
    if ops != [] {
      assert !Overwrites(ops[0], o);
      assert forall i :: 0 <= i < |ops[1..]| ==> ops[1..][i] == ops[i + 1];
      StepAgrees(s, m, ops[0]);
      StepTight(s, m, ops[0], o);
      RunTight(Step(s, ops[0]).value, PlainStep(m, ops[0]), ops[1..], t, o);
    }
  }

  // ----- what a flush writes -----

  // What a view itself holds at an outpoint, apart from the views below it.
  ghost predicate SameHere(s: Stack, t: Stack, o: OutPoint) {
    && s.Root? == t.Root?
    && if s.Root? then (o in s.db <==> o in t.db) && (o in s.db ==> s.db[o] == t.db[o])
       else Lookup(s.cache, o) == Lookup(t.cache, o)
  }

  /** When neither this view nor the one below has a coin at an outpoint, nothing is written there. */
  lemma NothingToWrite(s: Stack, o: OutPoint)
    requires s.Layer? && s.Inv() && Tight(s, o) && s.View(o).None? && s.base.View(o).None?
    ensures o in s.cache ==> !s.cache[o].isDirty
    ensures Flush(s).Success? && SameHere(s.base, Flush(s).value.base, o)
  {
    FlushKeeps(s);
    LayerView(s, o);
  }

  /** A coin added to an empty cache and flushed, then spent and flushed again, leaves the stack as it was. */
  lemma CreatedAndSpent(s: Stack, o: OutPoint, coin: Coin)
    requires s.Layer? && s.cache == map[] && s.base.Layer? && o !in s.base.cache
    requires !coin.IsSpent() && !coin.IsUnspendable()
    ensures AddCoin(s, o, coin, false).Success?
    ensures var added := Flush(AddCoin(s, o, coin, false).value);
            && added.Success? && added.value.Layer? && added.value.View(o) == Some(coin)
            && Flush(SpendCoin(added.value, o)) == Success(s)
  {
    var mid, base := s.base.cache, s.base.base;
    var entry := Entry(coin, true, true);
    var t := AddCoin(s, o, coin, false).value;
    assert t == Layer(map[o := entry], s.base);
    assert Merged(mid, t.cache) == mid[o := entry];
    var u := Flush(t).value;
    assert u == Layer(map[], Layer(mid[o := entry], base));
    var spent := Entry(EMPTY_COIN, true, false);
    assert u.base.GetCoin(o) == Some(coin) && Fetch(u, o) == Layer(map[o := Entry(coin, false, false)], u.base);
    assert map[o := Entry(coin, false, false)][o := spent] == map[o := spent];
    assert SpendCoin(u, o) == Layer(map[o := spent], u.base);
    assert Merged(mid[o := entry], map[o := spent]) == mid;
  }

  // ----- the database over a run -----

  function Database(s: Stack): map<OutPoint, Coin> {
    if s.Root? then s.db else Database(s.base)
  }

  // The cache directly above the database.
  function Lowest(s: Stack): (r: Stack)
    requires s.Layer?
    ensures r.Layer? && r.base.Root?
  {
    if s.base.Root? then s else Lowest(s.base)
  }

  // Whenever the lowest cache is flushed into the database, no coin can be observed at the outpoint there.
  ghost predicate UnseenAtFlush(s: Stack, ops: seq<Op>, o: OutPoint)
    decreases |ops|
  {
    || ops == []
    || (&& s.Layer? && ops[0].Below(s.Depth())
        && (ops[0] == Push(s.Depth() - 1) ==> Lowest(s).View(o).None?)
        && (Step(s, ops[0]).Success? ==> UnseenAtFlush(Step(s, ops[0]).value, ops[1..], o)))
  }

  lemma {:induction false} FetchDatabase(s: Stack, o: OutPoint)
    ensures Database(Fetch(s, o)) == Database(s)
  {
    if s.Layer? {
      FetchDatabase(s.base, o);
    }
  }

  /** Only a flush of the lowest cache touches the database. */
  lemma {:induction false} StepDatabase(s: Stack, op: Op)
    requires s.Layer? && op.Below(s.Depth()) && Step(s, op).Success? && op != Push(s.Depth() - 1)
    ensures Database(Step(s, op).value) == Database(s)
    decreases s
  {
    if op.Spend? {
      FetchDatabase(s, op.o);
    } else if !op.Add? && op.level > 0 {
      assert s.Depth() == 1 + s.base.Depth();
      StepDatabase(s.base, LowerBy(op));
    } else if op.Read? {
      FetchDatabase(s, op.o);
    }
  }

  lemma {:induction false} PushDatabase(s: Stack, o: OutPoint)
    requires s.Layer? && s.Inv() && Tight(s, o) && Lowest(s).View(o).None?
    requires Root(Database(s)).View(o).None?
    ensures var op := Push(s.Depth() - 1); op.Below(s.Depth()) && Step(s, op).Success?
    ensures SameHere(Root(Database(s)), Root(Database(Step(s, Push(s.Depth() - 1)).value)), o)
  {
    if s.base.Root? {
      NothingToWrite(s, o);
    } else {
      assert s.Depth() == 1 + s.base.Depth();
      PushDatabase(s.base, o);
    }
  }

  /** A coin that is unknown to the database and spent by the time of each flush into it never gets there:
      over a run of any length, through caches of any depth, the database is the same at that outpoint. */
  lemma {:induction false} NeverWritten(s: Stack, m: Coins, ops: seq<Op>, t: Stack, o: OutPoint)
    requires s.Layer? && s.Inv() && Agrees(s, m) && LegalRun(m, s.Depth(), ops) && Reaches(s, ops, t)
    requires Tight(s, o) && NoOverwrite(ops, o) && UnseenAtFlush(s, ops, o) && Root(Database(s)).View(o).None?
    ensures SameHere(Root(Database(s)), Root(Database(t)), o)
    decreases |ops|
  {
    if ops != [] {
      assert !Overwrites(ops[0], o);
      assert forall i :: 0 <= i < |ops[1..]| ==> ops[1..][i] == ops[i + 1];
      StepAgrees(s, m, ops[0]);
      StepTight(s, m, ops[0], o);
      var u := Step(s, ops[0]).value;
      if ops[0] == Push(s.Depth() - 1) {
        PushDatabase(s, o);
      } else {
        StepDatabase(s, ops[0]);
      }
      NeverWritten(u, PlainStep(m, ops[0]), ops[1..], t, o);
    }
  }

  // ----- what the database holds -----

  ghost predicate Unspent(db: map<OutPoint, Coin>) {
    forall o :: o in db ==> !db[o].IsSpent()
  }

  /** Spent coins are erased from the database, not written to it. */
  lemma {:induction false} StepUnspent(s: Stack, op: Op)
    requires s.Layer? && op.Below(s.Depth()) && Step(s, op).Success? && Unspent(Database(s))
    ensures Unspent(Database(Step(s, op).value))
    decreases s
  {
    if op != Push(s.Depth() - 1) {
      StepDatabase(s, op);
    } else if op.level > 0 {
      assert s.Depth() == 1 + s.base.Depth();
      StepUnspent(s.base, LowerBy(op));
    } else {
      assert s.Depth() == 1 + s.base.Depth() && s.base.Root? && Database(s.base) == s.base.db;
      WrittenUnspent(s.base.db, s.cache);
    }
  }

  lemma WrittenUnspent(db: map<OutPoint, Coin>, theirs: Cache)
    requires Unspent(db)
    ensures Unspent(WrittenToDb(db, theirs))
  {
  }

  // Flush the top cache, then the one below it, down to the database.
  function FlushAll(s: Stack): Result<Stack, Error>
    decreases s.Depth()
  {
    if s.Root? then Success(s) else
    match BatchWrite(s.base, s.cache)
    case Failure(e) => Failure(e)
    case Success(base) =>
      assert base.Depth() == s.base.Depth();
      match FlushAll(base)
      case Failure(e) => Failure(e)
      case Success(below) => Success(Layer(map[], below))
  }

  /** Flushing everything leaves a database that is exactly the plain map of unspent coins. */
  lemma {:induction false} FlushedDatabase(s: Stack, m: Coins)
    requires s.Inv() && Agrees(s, m) && Unspent(Database(s))
    ensures FlushAll(s).Success? && Database(FlushAll(s).value) == m
    decreases s.Depth()
  {
    if s.Root? {
      assert forall o :: s.View(o) == if o in m then Some(m[o]) else None;
      assert forall o :: o in s.db <==> o in m;
    } else {
      FlushKeeps(s);
      var base := BatchWrite(s.base, s.cache).value;
      BatchWriteKeeps(s.base, s.cache);
      var t := Flush(s).value;
      assert Agrees(base, m) by {
        forall o
          ensures base.View(o) == if o in m then Some(m[o]) else None
        {
          LayerView(t, o);
          assert t.View(o) == s.View(o);
        }
      }
      assert Unspent(Database(base)) by {
        if s.base.Root? {
          assert Database(s.base) == s.base.db;
          WrittenUnspent(s.base.db, s.cache);
        } else {
          assert base.base == s.base.base && Database(base) == Database(s);
        }
      }
      FlushedDatabase(base, m);
    }
  }

  // ----- dropping entries -----

  /** Uncaching drops exactly a clean entry with an unspent coin, and reading the coin again restores it. */
  lemma UncacheIff(s: Stack, o: OutPoint)
    requires s.Layer? && s.Inv()
    ensures var t := Uncache(s, o);
            && t.Layer? && t.base == s.base
            && (forall p :: p != o ==> Lookup(t.cache, p) == Lookup(s.cache, p))
            && (o in t.cache <==> o in s.cache && (s.cache[o].isDirty || s.View(o).None?))
            && (o in t.cache ==> t == s)
            && Fetch(t, o).Layer? && Fetch(t, o).cache == Fetch(s, o).cache
  {
    LayerView(s, o);
    var t := Uncache(s, o);
    if o in s.cache && o !in t.cache {
      CleanNotFresh(s, o);
      assert (s.cache - {o})[o := s.cache[o]] == s.cache;
    }
  }
}
