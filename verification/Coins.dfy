/**
 CCoinsViewCache of src/coins.cpp, updated in place: caches linked by their base pointer down to a
 database. Every method is proved to do to the whole hierarchy what the function of the same name
 in CoinsModel does, and to keep cachedCoinsUsage equal to the memory of the cached coins.
 */
module Coins {
  import opened Wrappers
  import opened CoinsModel

  // ----- memory accounting -----

  ghost function UsageOf(m: Cache): nat {
    if m == map[] then 0 else
    var o :| o in m;
    m[o].coin.DynamicMemoryUsage() + UsageOf(m - {o})
  }

  lemma {:induction false} UsageWithout(m: Cache, o: OutPoint)
    requires o in m
    ensures UsageOf(m) == m[o].coin.DynamicMemoryUsage() + UsageOf(m - {o})
    decreases |m|
  {
    var p :| p in m && UsageOf(m) == m[p].coin.DynamicMemoryUsage() + UsageOf(m - {p});
    if p != o {
      UsageWithout(m - {p}, o);
      UsageWithout(m - {o}, p);
      assert m - {p} - {o} == m - {o} - {p};
    }
  }

  // Storing e at o moves the total by the difference between the new and the old coin.
  lemma UsageStored(m: Cache, o: OutPoint, e: Entry)
    ensures UsageOf(m[o := e]) + (if o in m then m[o].coin.DynamicMemoryUsage() else 0)
            == UsageOf(m) + e.coin.DynamicMemoryUsage()
  {
    UsageWithout(m[o := e], o);
    assert m[o := e] - {o} == m - {o};
    if o in m {
      UsageWithout(m, o);
    } else {
      assert m - {o} == m;
    }
  }

  // ----- one entry at a time -----

  // after is before with outpoint o set to e, or removed.
  predicate Stored(before: Cache, o: OutPoint, e: Option<Entry>, after: Cache) {
    after == if e.Some? then before[o := e.value] else before - {o}
  }

  // Once all of theirs but todo is merged, merging the entry of one more outpoint of todo gives the
  // merge of all of theirs but the rest of todo.
  lemma MergedNext(ours: Cache, theirs: Cache, todo: set<OutPoint>, o: OutPoint, now: Cache)
    requires todo <= theirs.Keys && o in todo && now == Merged(ours, theirs - todo)
    ensures Lookup(now, o) == Lookup(ours, o)
    ensures Stored(now, o, Merge(Lookup(ours, o), theirs[o]), Merged(ours, theirs - (todo - {o})))
    ensures Misapplied(ours, theirs - (todo - {o})) <==>
            || Misapplied(ours, theirs - todo)
            || (theirs[o].isDirty && theirs[o].isFresh && o in now && !now[o].coin.IsSpent())
    ensures Misapplied(ours, theirs - (todo - {o})) ==> Misapplied(ours, theirs)
  {
    var done, done' := theirs - todo, theirs - (todo - {o});
    var next := Merged(ours, done');
    assert MergeAt(ours, done, o) == Lookup(ours, o);
    forall p
      ensures Lookup(next, p) == if p == o then Merge(Lookup(ours, o), theirs[o]) else Lookup(now, p)
    {
      assert Lookup(now, p) == MergeAt(ours, done, p);
      assert Lookup(next, p) == MergeAt(ours, done', p);
    }
    var e := Merge(Lookup(ours, o), theirs[o]);
    SameLookups(next, if e.Some? then now[o := e.value] else now - {o});
    MisappliedNext(ours, theirs, todo, o);
  }

  lemma NothingMerged(ours: Cache, none: Cache)
    requires none == map[]
    ensures Merged(ours, none) == ours && !Misapplied(ours, none)
  {
  }

  lemma MisappliedNext(ours: Cache, theirs: Cache, todo: set<OutPoint>, o: OutPoint)
    requires todo <= theirs.Keys && o in todo
    ensures Misapplied(ours, theirs - (todo - {o})) <==>
            || Misapplied(ours, theirs - todo)
            || (theirs[o].isDirty && theirs[o].isFresh && o in ours && !ours[o].coin.IsSpent())
    ensures Misapplied(ours, theirs - (todo - {o})) ==> Misapplied(ours, theirs)
  {
    var done, done' := theirs - todo, theirs - (todo - {o});
    assert done'.Keys == done.Keys + {o} && done'[o] == theirs[o];
    assert forall p :: p in done ==> p in done' && done'[p] == done[p];
  }

  lemma SameLookups(a: Cache, b: Cache)
    requires forall p :: Lookup(a, p) == Lookup(b, p)
    ensures a == b
  {
    forall p
      ensures p in a <==> p in b
      ensures p in a ==> a[p] == b[p]
    {
      assert Lookup(a, p) == Lookup(b, p);
    }
  }

  lemma WrittenNext(db: map<OutPoint, Coin>, theirs: Cache, todo: set<OutPoint>, o: OutPoint)
    requires todo <= theirs.Keys && o in todo
    ensures var now, next := WrittenToDb(db, theirs - todo), WrittenToDb(db, theirs - (todo - {o}));
            next == if !theirs[o].isDirty then now
                    else if theirs[o].coin.IsSpent() then now - {o}
                    else now[o := theirs[o].coin]
  {
    var done, done' := theirs - todo, theirs - (todo - {o});
    assert done'.Keys == done.Keys + {o} && done'[o] == theirs[o];
  }

  // ----- the objects -----

  /** The root of the hierarchy: a key-value store of coins. */
  class CoinsViewDB {
    var db: map<OutPoint, Coin>

    constructor (db: map<OutPoint, Coin>)
      ensures this.db == db
    {
      this.db := db;
    }

    method BatchWrite(mapCoins: Cache)
      modifies this
      ensures db == WrittenToDb(old(db), mapCoins)
    {
      var todo := mapCoins.Keys;
      while todo != {}
        invariant todo <= mapCoins.Keys
        invariant db == WrittenToDb(old(db), mapCoins - todo)
        decreases todo
      {
        var o :| o in todo;
        WrittenNext(old(db), mapCoins, todo, o);
        if mapCoins[o].isDirty {
          db := if mapCoins[o].coin.IsSpent() then db - {o} else db[o := mapCoins[o].coin];
        }
        todo := todo - {o};
      }
      assert mapCoins - todo == mapCoins;
    }
  }

  datatype Base = OnDb(db: CoinsViewDB) | OnCache(cache: CoinsViewCache)

  class CoinsViewCache {
    const base: Base
    var cacheCoins: Cache
    var cachedCoinsUsage: int

    ghost const depth: nat
    ghost const Repr: set<object>

    // The shape of the hierarchy, which no call changes.
    ghost predicate Valid()
      decreases depth
    {
      match base
      case OnDb(db) => Repr == {this, db}
      case OnCache(cache) =>
        && depth == cache.depth + 1
        && this !in cache.Repr && Repr == cache.Repr + {this}
        && cache.Valid()
    }

    // The hierarchy below and including this cache, as a value.
    ghost function Abs(): Stack
      requires Valid()
      reads Repr
      decreases depth
    {
      match base
      case OnDb(db) => Layer(cacheCoins, Root(db.db))
      case OnCache(cache) => Layer(cacheCoins, cache.Abs())
    }

    // cachedCoinsUsage is exact in every cache of the hierarchy.
    ghost predicate Accounted()
      requires Valid()
      reads Repr
      decreases depth
    {
      && cachedCoinsUsage == UsageOf(cacheCoins)
      && (base.OnCache? ==> base.cache.Accounted())
    }

    constructor OverDb(db: CoinsViewDB)
      ensures Valid() && base == OnDb(db) && Abs() == Layer(map[], Root(db.db)) && Accounted()
      ensures fresh(Repr - {db})
    {
      base := OnDb(db);
      cacheCoins, cachedCoinsUsage := map[], 0;
      depth := 0;
      Repr := {this, db};
    }

    constructor OverCache(cache: CoinsViewCache)
      requires cache.Valid()
      ensures Valid() && base == OnCache(cache) && Abs() == Layer(map[], cache.Abs())
      ensures cache.Accounted() ==> Accounted()
      ensures fresh(Repr - cache.Repr)
    {
      base := OnCache(cache);
      cacheCoins, cachedCoinsUsage := map[], 0;
      depth := cache.depth + 1;
      Repr := cache.Repr + {this};
    }

    method BaseGetCoin(o: OutPoint) returns (coin: Option<Coin>)
      requires Valid()
      modifies Repr - {this}
      ensures coin == old(Abs().base.GetCoin(o))
      ensures Abs().base == Fetch(old(Abs().base), o) && cacheCoins == old(cacheCoins)
      ensures old(Accounted()) ==> Accounted()
      decreases depth, 0
    {
      match base
      case OnDb(db) =>
        coin := if o in db.db then Some(db.db[o]) else None;
      case OnCache(cache) =>
        coin := cache.GetCoin(o);
    }

    method FetchCoin(o: OutPoint) returns (found: bool)
      requires Valid()
      modifies Repr
      ensures Abs() == Fetch(old(Abs()), o)
      ensures found == (o in cacheCoins)
      ensures old(Accounted()) ==> Accounted()
      decreases depth, 1
    {
      if o in cacheCoins {
        return true;
      }
      var tmp := BaseGetCoin(o);
      if tmp.None? {
        return false;
      }
      UsageStored(cacheCoins, o, Entry(tmp.value, false, tmp.value.IsSpent()));
      cacheCoins := cacheCoins[o := Entry(tmp.value, false, tmp.value.IsSpent())];
      cachedCoinsUsage := cachedCoinsUsage + tmp.value.DynamicMemoryUsage();
      return true;
    }

    method GetCoin(o: OutPoint) returns (coin: Option<Coin>)
      requires Valid()
      modifies Repr
      ensures Abs() == Fetch(old(Abs()), o)
      ensures coin == old(Abs().GetCoin(o)) == old(Abs().View(o))
      ensures old(Accounted()) ==> Accounted()
      decreases depth, 2
    {
      var found := FetchCoin(o);
      coin := if found then cacheCoins[o].coin.Observed() else None;
    }

    // The accounting is wrong after a throw: the usage of the old coin has been subtracted.
    method AddCoin(o: OutPoint, coin: Coin, overwrite: bool) returns (threw: bool)
      requires Valid() && !coin.IsSpent()
      modifies this
      ensures threw == CoinsModel.AddCoin(old(Abs()), o, coin, overwrite).Failure?
      ensures !threw ==> Abs() == CoinsModel.AddCoin(old(Abs()), o, coin, overwrite).value
      ensures !threw && old(Accounted()) ==> Accounted()
      ensures threw ==> Abs() == old(Abs())
      ensures threw ==> cachedCoinsUsage == old(cachedCoinsUsage - cacheCoins[o].coin.DynamicMemoryUsage())
    {
      if coin.IsUnspendable() {
        return false;
      }
      var inserted := o !in cacheCoins;
      var entry := if inserted then Entry(EMPTY_COIN, false, false) else cacheCoins[o];
      if !inserted {
        cachedCoinsUsage := cachedCoinsUsage - entry.coin.DynamicMemoryUsage();
      }
      var isFresh := false;
      if !overwrite {
        if !entry.coin.IsSpent() {
          return true;
        }
        isFresh := !entry.isDirty;
      }
      UsageStored(cacheCoins, o, Entry(coin, true, entry.isFresh || isFresh));
      cacheCoins := cacheCoins[o := Entry(coin, true, entry.isFresh || isFresh)];
      cachedCoinsUsage := cachedCoinsUsage + coin.DynamicMemoryUsage();
      return false;
    }

    method SpendCoin(o: OutPoint) returns (found: bool, moved: Coin)
      requires Valid()
      modifies Repr
      ensures Abs() == CoinsModel.SpendCoin(old(Abs()), o)
      ensures found == (o in old(cacheCoins) || old(Abs().base.GetCoin(o)).Some?)
      ensures moved == if found then Handed(old(Abs()), o).value else EMPTY_COIN
      ensures old(Abs().View(o)).Some? ==> found && moved == old(Abs().View(o)).value
      ensures old(Accounted()) ==> Accounted()
    {
      found := FetchCoin(o);
      moved := EMPTY_COIN;
      if !found {
        return;
      }
      moved := cacheCoins[o].coin;
      cachedCoinsUsage := cachedCoinsUsage - moved.DynamicMemoryUsage();
      if cacheCoins[o].isFresh {
        UsageWithout(cacheCoins, o);
        cacheCoins := cacheCoins - {o};
      } else {
        UsageStored(cacheCoins, o, Entry(EMPTY_COIN, true, false));
        cacheCoins := cacheCoins[o := Entry(EMPTY_COIN, true, false)];
      }
    }

    // One iteration of BatchWrite.
    method WriteEntry(o: OutPoint, theirs: Entry) returns (threw: bool)
      modifies this
      ensures threw == (theirs.isDirty && theirs.isFresh && o in old(cacheCoins) && !old(cacheCoins)[o].coin.IsSpent())
      ensures !threw ==> Stored(old(cacheCoins), o, Merge(Lookup(old(cacheCoins), o), theirs), cacheCoins)
      ensures old(cachedCoinsUsage == UsageOf(cacheCoins)) ==> cachedCoinsUsage == UsageOf(cacheCoins)
    {
      if !theirs.isDirty {
        return false;
      }
      if o !in cacheCoins {
        if !(theirs.isFresh && theirs.coin.IsSpent()) {
          UsageStored(cacheCoins, o, Entry(theirs.coin, true, theirs.isFresh));
          cacheCoins := cacheCoins[o := Entry(theirs.coin, true, theirs.isFresh)];
          cachedCoinsUsage := cachedCoinsUsage + theirs.coin.DynamicMemoryUsage();
        }
      } else {
        var us := cacheCoins[o];
        if theirs.isFresh && !us.coin.IsSpent() {
          return true;
        }
        cachedCoinsUsage := cachedCoinsUsage - us.coin.DynamicMemoryUsage();
        if us.isFresh && theirs.coin.IsSpent() {
          UsageWithout(cacheCoins, o);
          cacheCoins := cacheCoins - {o};
        } else {
          UsageStored(cacheCoins, o, Entry(theirs.coin, true, us.isFresh));
          cacheCoins := cacheCoins[o := Entry(theirs.coin, true, us.isFresh)];
          cachedCoinsUsage := cachedCoinsUsage + theirs.coin.DynamicMemoryUsage();
        }
      }
      return false;
    }

    // The loop of BatchWrite: the outcome does not depend on the order the entries are visited in.
    method WriteEntries(mapCoins: Cache) returns (threw: bool)
      modifies this
      ensures threw == Misapplied(old(cacheCoins), mapCoins)
      ensures !threw ==> cacheCoins == Merged(old(cacheCoins), mapCoins)
      ensures old(cachedCoinsUsage == UsageOf(cacheCoins)) ==> cachedCoinsUsage == UsageOf(cacheCoins)
    {
      var todo := mapCoins.Keys;
      ghost var ours := cacheCoins;
      NothingMerged(ours, mapCoins - todo);
      while todo != {}
        invariant todo <= mapCoins.Keys
        invariant cacheCoins == Merged(ours, mapCoins - todo)
        invariant !Misapplied(ours, mapCoins - todo)
        invariant old(cachedCoinsUsage == UsageOf(cacheCoins)) ==> cachedCoinsUsage == UsageOf(cacheCoins)
        decreases todo
      {
        var o :| o in todo;
        MergedNext(ours, mapCoins, todo, o, cacheCoins);
        threw := WriteEntry(o, mapCoins[o]);
        if threw {
          return;
        }
        todo := todo - {o};
      }
      assert mapCoins - todo == mapCoins;
      return false;
    }

    method BatchWrite(mapCoins: Cache) returns (threw: bool)
      requires Valid()
      modifies this
      ensures threw == CoinsModel.BatchWrite(old(Abs()), mapCoins).Failure?
      ensures !threw ==> Abs() == CoinsModel.BatchWrite(old(Abs()), mapCoins).value
      ensures old(Accounted()) ==> Accounted()
    {
      threw := WriteEntries(mapCoins);
    }

    method Flush() returns (threw: bool)
      requires Valid()
      modifies Repr
      ensures threw == CoinsModel.Flush(old(Abs())).Failure?
      ensures !threw ==> Abs() == CoinsModel.Flush(old(Abs())).value
      ensures !threw && old(Accounted()) ==> Accounted()
      ensures old(Abs().Inv()) ==> !threw
    {
      ghost var before := Abs();
      if before.Inv() {
        FlushKeeps(before);
      }
      match base {
        case OnDb(db) =>
          db.BatchWrite(cacheCoins);
        case OnCache(cache) =>
          threw := cache.BatchWrite(cacheCoins);
          if threw {
            return;
          }
      }
      cacheCoins, cachedCoinsUsage := map[], 0;
      return false;
    }

    method Uncache(o: OutPoint)
      requires Valid()
      modifies this
      ensures Abs() == CoinsModel.Uncache(old(Abs()), o)
      ensures old(Accounted()) ==> Accounted()
    {
      if o in cacheCoins && !cacheCoins[o].isDirty && !cacheCoins[o].isFresh {
        UsageWithout(cacheCoins, o);
        cachedCoinsUsage := cachedCoinsUsage - cacheCoins[o].coin.DynamicMemoryUsage();
        cacheCoins := cacheCoins - {o};
      }
    }
  }
}
