/**
 Block assembly of src/miner.cpp: addPackageTxs selects packages of transactions from the memory
 pool, keeping per-package sums up to date as ancestors enter the block. The pool is a finite set of
 transactions with their ancestors; which package scores best, fee rates and finality are
 parameters, so the results hold whatever they are.

 Main results: BlockAssembler.AddPackageTxs (selection terminates with an ancestor-closed block in a
 valid order and within its limits; every choice is the best of what is left; and unless it stops early
 everything left out is unfit) with Select, UnfitStands and UnfitIff, UpdatePackagesForAdded with
 UpdateKeepsSums (what the cached sums hold, exactly, also after a failure), FeesExactIff, and AncestorCountOrders. RefusedThoughItFits and ChainFees show where
 the sums the code holds are not the right ones.
 */
module Miner {
  const WITNESS_SCALE_FACTOR: nat := 4
  const MAX_BLOCK_WEIGHT: nat := 4000000
  const MAX_BLOCK_SIGOPS_COST: nat := 80000
  const MAX_CONSECUTIVE_FAILURES: nat := 1000
  const COINBASE_WEIGHT: nat := 4000
  const COINBASE_SIGOPS: nat := 400

  type TxId = nat

  datatype Tx = Tx(size: nat, weight: nat, sigops: nat, fee: int, modifiedFee: int, hasWitness: bool)

  // ----- sums over sets of transactions -----

  ghost function Total(f: TxId -> int, s: set<TxId>): int {
    if s == {} then 0 else
    var x :| x in s;
    f(x) + Total(f, s - {x})
  }

  lemma {:induction false} TotalWithout(f: TxId -> int, s: set<TxId>, x: TxId)
    requires x in s
    ensures Total(f, s) == f(x) + Total(f, s - {x})
    decreases |s|
  {
    var y :| y in s && Total(f, s) == f(y) + Total(f, s - {y});
    if y != x {
      TotalWithout(f, s - {y}, x);
      TotalWithout(f, s - {x}, y);
      assert s - {y} - {x} == s - {x} - {y};
    }
  }

  lemma TotalWith(f: TxId -> int, s: set<TxId>, x: TxId)
    requires x !in s
    ensures Total(f, s + {x}) == Total(f, s) + f(x)
  {
    TotalWithout(f, s + {x}, x);
    assert s + {x} - {x} == s;
  }

  lemma {:induction false} TotalSplit(f: TxId -> int, s: set<TxId>, part: set<TxId>)
    requires part <= s
    ensures Total(f, s) == Total(f, part) + Total(f, s - part)
    decreases |part|
  {
    if part == {} {
      assert s - part == s;
    } else {
      var x :| x in part;
      TotalWithout(f, s, x);
      TotalWithout(f, part, x);
      TotalSplit(f, s - {x}, part - {x});
      assert s - {x} - (part - {x}) == s - part;
    }
  }

  lemma {:induction false} TotalScaled(f: TxId -> int, g: TxId -> int, s: set<TxId>)
    requires forall x :: x in s ==> f(x) <= WITNESS_SCALE_FACTOR * g(x)
    ensures Total(f, s) <= WITNESS_SCALE_FACTOR * Total(g, s)
    decreases |s|
  {
    if s != {} {
      var x :| x in s;
      TotalWithout(f, s, x);
      TotalWithout(g, s, x);
      TotalScaled(f, g, s - {x});
    }
  }

  lemma TotalNone(f: TxId -> int)
    ensures Total(f, {}) == 0
  {
  }

  lemma {:induction false} TotalPositive(f: TxId -> int, s: set<TxId>)
    requires forall x :: x in s ==> f(x) >= 0
    ensures Total(f, s) >= 0
    decreases |s|
  {
    if s != {} {
      var x :| x in s;
      TotalWithout(f, s, x);
      TotalPositive(f, s - {x});
    }
  }

  lemma {:induction false} TotalSum(f: TxId -> int, g: TxId -> int, h: TxId -> int, s: set<TxId>)
    requires forall x :: x in s ==> f(x) == g(x) + h(x)
    ensures Total(f, s) == Total(g, s) + Total(h, s)
    decreases |s|
  {
    if s != {} {
      var x :| x in s;
      TotalWithout(f, s, x);
      TotalWithout(g, s, x);
      TotalWithout(h, s, x);
      TotalSum(f, g, h, s - {x});
    } else {
      TotalNone(f);
      TotalNone(g);
      TotalNone(h);
    }
  }

  // ----- the memory pool -----

  datatype Mempool = Mempool(txs: map<TxId, Tx>, ancestors: map<TxId, set<TxId>>) {
    // Ancestry is complete and has no cycles; a transaction weighs at most four times its size.
    ghost predicate Valid() {
      && ancestors.Keys == txs.Keys
      && (forall x :: x in txs ==> Anc(x) <= txs.Keys && x !in Anc(x))
      && (forall x, a :: a in Anc(x) ==> Anc(a) <= Anc(x))
      && (forall x :: x in txs ==> txs[x].weight <= WITNESS_SCALE_FACTOR * txs[x].size)
    }

    function Anc(x: TxId): set<TxId> {
      if x in ancestors then ancestors[x] else {}
    }

    function Sizes(): TxId -> int {
      x => if x in txs then txs[x].size else 0
    }

    function Weights(): TxId -> int {
      x => if x in txs then txs[x].weight else 0
    }

    function SigOps(): TxId -> int {
      x => if x in txs then txs[x].sigops else 0
    }

    function Fees(): TxId -> int {
      x => if x in txs then txs[x].fee else 0
    }

    // What prioritisetransaction has added to the fee.
    function Priority(): TxId -> int {
      x => if x in txs then txs[x].modifiedFee - txs[x].fee else 0
    }

    function ModifiedFees(): TxId -> int {
      x => if x in txs then txs[x].modifiedFee else 0
    }

    // By how much a transaction is lighter than its size suggests.
    function Slacks(): TxId -> int {
      x => if x in txs then WITNESS_SCALE_FACTOR * txs[x].size - txs[x].weight else 0
    }

    function Package(x: TxId): set<TxId> {
      Anc(x) + {x}
    }

    // CalculateDescendants: all transactions that have x as an ancestor, and x.
    function Descendants(x: TxId): set<TxId> {
      (set d | d in txs && x in Anc(d)) + {x}
    }

    // The transactions whose package is affected by the inclusion of some of the transactions given.
    function Affected(added: set<TxId>): set<TxId> {
      set d | d in txs && Anc(d) * added != {}
    }

    ghost predicate Closed(s: set<TxId>) {
      s <= txs.Keys && forall x :: x in s ==> Anc(x) <= s
    }
  }

  /** A transaction has more ancestors than any of its ancestors, so ordering by ancestor count puts
      parents before children. */
  lemma AncestorCountOrders(pool: Mempool, x: TxId, a: TxId)
    requires pool.Valid() && x in pool.txs && a in pool.Anc(x)
    ensures |pool.Anc(a)| < |pool.Anc(x)|
  {
    assert pool.Anc(a) + {a} <= pool.Anc(x);
    SubsetSmaller(pool.Anc(a) + {a}, pool.Anc(x));
  }

  lemma {:induction false} SubsetSmaller(s: set<TxId>, t: set<TxId>)
    requires s <= t
    ensures |s| <= |t|
    decreases |s|
  {
    if s != {} {
      var x :| x in s;
      SubsetSmaller(s - {x}, t - {x});
    }
  }

  lemma AffectedInside(pool: Mempool, added: set<TxId>)
    ensures pool.Affected(added) <= pool.txs.Keys && pool.Affected({}) == {}
  {
  }

  lemma AffectedJoin(pool: Mempool, a: set<TxId>, b: set<TxId>)
    ensures pool.Affected(a + b) == pool.Affected(a) + pool.Affected(b)
  {
    forall d
      ensures d in pool.Affected(a + b) <==> d in pool.Affected(a) || d in pool.Affected(b)
    {
      assert pool.Anc(d) * (a + b) == pool.Anc(d) * a + pool.Anc(d) * b;
    }
  }

  lemma NotAffected(pool: Mempool, added: set<TxId>, d: TxId)
    requires d in pool.txs && d !in pool.Affected(added)
    ensures pool.Anc(d) * added == {} && pool.Anc(d) !! added
  {
    assert forall x :: x in pool.Anc(d) && x in added ==> x in pool.Anc(d) * added;
  }

  lemma AffectedByOne(pool: Mempool, it: TxId, d: TxId)
    ensures d in pool.Affected({it}) <==> d in pool.txs && it in pool.Anc(d)
  {
    assert pool.Anc(d) * {it} == if it in pool.Anc(d) then {it} else {};
  }

  // ----- modified entries -----

  // CTxMemPoolModifiedEntry: the sums over a package without the ancestors already in the block.
  datatype ModEntry = ModEntry(size: int, fees: int, sigops: int)

  type Modified = map<TxId, ModEntry>

  /** The sums the pool itself caches for each package, exact by contract; the fee sum is any value. */
  ghost predicate CachedBy(pool: Mempool, cached: map<TxId, ModEntry>) {
    && cached.Keys == pool.txs.Keys
    && (forall x :: x in cached ==> cached[x].size == Total(pool.Sizes(), pool.Package(x)))
    && (forall x :: x in cached ==> cached[x].sigops == Total(pool.SigOps(), pool.Package(x)))
  }

  function Base(m: Modified, cached: map<TxId, ModEntry>, d: TxId): ModEntry {
    if d in m then m[d] else if d in cached then cached[d] else ModEntry(0, 0, 0)
  }

  // An entry after the inclusion of one ancestor. A new entry loses the ancestor's modified fee, an
  // existing one its base fee.
  function Lowered(tx: Tx, isNew: bool, b: ModEntry): ModEntry {
    ModEntry(b.size - tx.size, b.fees - if isNew then tx.modifiedFee else tx.fee, b.sigops - tx.sigops)
  }

  // The entries of m with those of done lowered by one transaction.
  predicate LoweredAt(cached: map<TxId, ModEntry>, m: Modified, tx: Tx, done: set<TxId>, r: Modified) {
    && r.Keys == m.Keys + done
    && forall d :: d in r ==> r[d] == if d in done then Lowered(tx, d !in m, Base(m, cached, d)) else m[d]
  }

  lemma LoweredNext(cached: map<TxId, ModEntry>, m: Modified, tx: Tx, done: set<TxId>, r: Modified, d: TxId)
    requires LoweredAt(cached, m, tx, done, r) && d !in done && d in cached
    ensures LoweredAt(cached, m, tx, done + {d}, r[d := Lowered(tx, d !in r, Base(r, cached, d))])
  {
    assert Base(r, cached, d) == Base(m, cached, d);
  }

  // The inner loop of UpdatePackagesForAdded: every descendant that is not itself being added.
  method UpdateDescendants(cached: map<TxId, ModEntry>, m: Modified, tx: Tx, descendants: set<TxId>, added: set<TxId>)
    returns (r: Modified)
    requires descendants <= cached.Keys
    ensures LoweredAt(cached, m, tx, descendants - added, r)
  {
    r := m;
    var todo := descendants;
    assert LoweredAt(cached, m, tx, {}, m);
    assert descendants - todo - added == {};
    hide LoweredAt;
    while todo != {}
      invariant todo <= descendants
      invariant LoweredAt(cached, m, tx, descendants - todo - added, r)
      decreases todo
    {
      var desc :| desc in todo;
      ghost var done := descendants - todo - added;
      if desc in added {
        assert descendants - (todo - {desc}) - added == done;
      } else {
        assert descendants - (todo - {desc}) - added == done + {desc};
        LoweredNext(cached, m, tx, done, r, desc);
        var e := if desc in r then r[desc] else cached[desc];
        var fee := if desc in r then tx.fee else tx.modifiedFee;
        r := r[desc := ModEntry(e.size - tx.size, e.fees - fee, e.sigops - tx.sigops)];
      }
      todo := todo - {desc};
    }
    assert descendants - todo - added == descendants - added;
  }

  lemma DescendantsAffected(pool: Mempool, it: TxId, added: set<TxId>)
    requires it in added && it in pool.txs
    ensures pool.Descendants(it) <= pool.txs.Keys
    ensures pool.Descendants(it) - added == pool.Affected({it}) - added
  {
    forall d
      ensures d in pool.Descendants(it) - added <==> d in pool.Affected({it}) - added
    {
      AffectedByOne(pool, it, d);
    }
  }

  // One more transaction included: the sum over the included ancestors grows by its share.
  lemma IncludedOneMore(f: TxId -> int, ancestors: set<TxId>, done: set<TxId>, it: TxId)
    requires it !in done
    ensures Total(f, ancestors * (done + {it})) == Total(f, ancestors * done) + if it in ancestors then f(it) else 0
  {
    if it in ancestors {
      assert ancestors * (done + {it}) == ancestors * done + {it};
      TotalWith(f, ancestors * done, it);
    } else {
      assert ancestors * (done + {it}) == ancestors * done;
    }
  }

  // The fees of an entry after its ancestors in gone have been included: base fees are taken off, and
  // for a new entry the modified fee of the ancestor that was included first.
  ghost predicate FeesAfter(pool: Mempool, fees: int, isNew: bool, gone: set<TxId>, fees': int) {
    if isNew && gone != {} then exists first :: first in gone && fees' == FeesLess(pool, fees, gone, first)
    else fees' == fees - Total(pool.Fees(), gone)
  }

  ghost function FeesLess(pool: Mempool, fees: int, gone: set<TxId>, first: TxId): int {
    fees - Total(pool.Fees(), gone) - pool.Priority()(first)
  }

  // The entry after the inclusion of the transactions of done.
  ghost predicate Reduced(pool: Mempool, b: ModEntry, isNew: bool, done: set<TxId>, d: TxId, e: ModEntry) {
    && e.size == b.size - Total(pool.Sizes(), pool.Anc(d) * done)
    && e.sigops == b.sigops - Total(pool.SigOps(), pool.Anc(d) * done)
    && FeesAfter(pool, b.fees, isNew, pool.Anc(d) * done, e.fees)
  }

  // The entries once the transactions of done, part of added, have been accounted for.
  ghost predicate Accounted(pool: Mempool, cached: map<TxId, ModEntry>, m: Modified, added: set<TxId>, done: set<TxId>,
                            r: Modified) {
    && r.Keys == m.Keys + (pool.Affected(done) - added)
    && forall d :: d in r ==> Reduced(pool, Base(m, cached, d), d !in m, done, d, r[d])
  }

  /** After transactions enter the block, every package they belong to as ancestors has an entry whose
      sums are reduced by exactly those transactions. */
  method UpdatePackagesForAdded(pool: Mempool, cached: map<TxId, ModEntry>, m: Modified, added: set<TxId>)
    returns (r: Modified)
    requires cached.Keys == pool.txs.Keys && m.Keys <= pool.txs.Keys - added && added <= pool.txs.Keys
    ensures Accounted(pool, cached, m, added, added, r)
  {
    r := m;
    var todo := added;
    ghost var done: set<TxId> := {};
    NothingReduced(pool, m, cached, added);
    hide Accounted, LoweredAt, Mempool.Affected, Mempool.Descendants;
    while todo != {}
      invariant todo == added - done && done <= added
      invariant Accounted(pool, cached, m, added, done, r)
      decreases todo
    {
      var it :| it in todo;
      ghost var before := r;
      AccountedInside(pool, cached, m, added, done, r);
      DescendantsAffected(pool, it, added);
      r := UpdateDescendants(cached, r, pool.txs[it], pool.Descendants(it), added);
      AddedOneMore(pool, m, cached, added, done, it, before, r);
      todo, done := todo - {it}, done + {it};
    }
    assert done == added;
  }

  lemma AccountedInside(pool: Mempool, cached: map<TxId, ModEntry>, m: Modified, added: set<TxId>, done: set<TxId>,
                        r: Modified)
    requires Accounted(pool, cached, m, added, done, r) && m.Keys <= pool.txs.Keys
    ensures r.Keys <= pool.txs.Keys
  {
  }

  lemma NothingReduced(pool: Mempool, m: Modified, cached: map<TxId, ModEntry>, added: set<TxId>)
    ensures Accounted(pool, cached, m, added, {}, m)
  {
    forall d | d in m
      ensures Reduced(pool, Base(m, cached, d), false, {}, d, m[d])
    {
      assert pool.Anc(d) * {} == {};
    }
  }

  // An entry that none of the included transactions is an ancestor of.
  lemma UntouchedReduced(pool: Mempool, b: ModEntry, isNew: bool, done: set<TxId>, d: TxId)
    requires pool.Anc(d) * done == {}
    ensures Reduced(pool, b, isNew, done, d, b)
  {
  }

  lemma FeesOneMore(pool: Mempool, b: ModEntry, isNew: bool, done: set<TxId>, it: TxId, d: TxId, fees: int)
    requires it in pool.txs && it !in done && it in pool.Anc(d)
    requires FeesAfter(pool, b.fees, isNew, pool.Anc(d) * done, fees)
    ensures var made := isNew && pool.Anc(d) * done == {};
            FeesAfter(pool, b.fees, isNew, pool.Anc(d) * (done + {it}),
                      fees - if made then pool.txs[it].modifiedFee else pool.txs[it].fee)
  {
    hide Total;
    var before, after := pool.Anc(d) * done, pool.Anc(d) * (done + {it});
    IncludedOneMore(pool.Fees(), pool.Anc(d), done, it);
    assert it in after;
    if isNew && before == {} {
      TotalNone(pool.Fees());
      assert fees - pool.txs[it].modifiedFee == FeesLess(pool, b.fees, after, it);
    } else if isNew {
      var first :| first in before && fees == FeesLess(pool, b.fees, before, first);
      assert first in after && fees - pool.txs[it].fee == FeesLess(pool, b.fees, after, first);
    }
  }

  lemma ReducedOneMore(pool: Mempool, b: ModEntry, isNew: bool, done: set<TxId>, it: TxId, d: TxId, e: ModEntry)
    requires it in pool.txs && it !in done && it in pool.Anc(d) && Reduced(pool, b, isNew, done, d, e)
    ensures Reduced(pool, b, isNew, done + {it}, d,
                    Lowered(pool.txs[it], isNew && pool.Anc(d) * done == {}, e))
  {
    hide Total, FeesAfter;
    IncludedOneMore(pool.Sizes(), pool.Anc(d), done, it);
    IncludedOneMore(pool.SigOps(), pool.Anc(d), done, it);
    FeesOneMore(pool, b, isNew, done, it, d, e.fees);
  }

  lemma ReducedSame(pool: Mempool, b: ModEntry, isNew: bool, done: set<TxId>, it: TxId, d: TxId, e: ModEntry)
    requires it !in pool.Anc(d) && Reduced(pool, b, isNew, done, d, e)
    ensures Reduced(pool, b, isNew, done + {it}, d, e)
  {
    assert pool.Anc(d) * (done + {it}) == pool.Anc(d) * done;
  }

  lemma AddedOneMore(pool: Mempool, m: Modified, cached: map<TxId, ModEntry>, added: set<TxId>, done: set<TxId>,
                     it: TxId, before: Modified, after: Modified)
    requires m.Keys <= pool.txs.Keys - added && done <= added <= pool.txs.Keys && it in added - done
    requires Accounted(pool, cached, m, added, done, before)
    requires LoweredAt(cached, before, pool.txs[it], pool.Affected({it}) - added, after)
    ensures Accounted(pool, cached, m, added, done + {it}, after)
  {
    hide Reduced, Lowered, Mempool.Affected;
    AffectedJoin(pool, done, {it});
    AffectedInside(pool, done);
    AffectedInside(pool, {it});
    forall d | d in after
      ensures Reduced(pool, Base(m, cached, d), d !in m, done + {it}, d, after[d])
    {
      AffectedByOne(pool, it, d);
      if d !in before {
        NotAffected(pool, done, d);
        UntouchedReduced(pool, Base(m, cached, d), true, done, d);
        ReducedOneMore(pool, Base(m, cached, d), true, done, it, d, Base(m, cached, d));
      } else if it in pool.Anc(d) {
        if d !in m {
          IsAffected(pool, done, d);
        }
        ReducedOneMore(pool, Base(m, cached, d), d !in m, done, it, d, before[d]);
      } else {
        ReducedSame(pool, Base(m, cached, d), d !in m, done, it, d, before[d]);
      }
    }
  }

  lemma IsAffected(pool: Mempool, added: set<TxId>, d: TxId)
    requires d in pool.Affected(added)
    ensures pool.Anc(d) * added != {}
  {
  }

  // ----- what the cached sums mean -----

  // The part of a package that is not in the block yet.
  function Missing(pool: Mempool, inBlock: set<TxId>, d: TxId): set<TxId> {
    pool.Package(d) - inBlock
  }

  /** What an entry holds: the sums over the missing part of the package and over those ancestors that were
      in the block already when the entry was last erased, which the code starts from again; and the
      cached fees less those of the ancestors included since. */
  ghost predicate Holds(pool: Mempool, cached: map<TxId, ModEntry>, inBlock: set<TxId>, stale: set<TxId>, d: TxId,
                        e: ModEntry) {
    && d in cached && stale <= pool.Anc(d) * inBlock
    && e.size == Total(pool.Sizes(), Missing(pool, inBlock, d) + stale)
    && e.sigops == Total(pool.SigOps(), Missing(pool, inBlock, d) + stale)
    && FeesAfter(pool, cached[d].fees, true, pool.Anc(d) * inBlock - stale, e.fees)
  }

  function Stale(stale: map<TxId, set<TxId>>, d: TxId): set<TxId> {
    if d in stale then stale[d] else {}
  }

  /** The state of mapModifiedTx against the block. Entries are outside the block. A transaction whose entry
      never failed has an entry exactly when one of its ancestors is in the block. A transaction has an
      entry only if some ancestor has been included since its entry last failed, and otherwise all its
      ancestors in the block were there then. */
  ghost predicate SumsHold(pool: Mempool, cached: map<TxId, ModEntry>, inBlock: set<TxId>,
                           stale: map<TxId, set<TxId>>, m: Modified) {
    && m.Keys <= pool.txs.Keys - inBlock
    && pool.Affected(inBlock) - inBlock - stale.Keys <= m.Keys <= pool.Affected(inBlock)
    && EntriesHold(pool, cached, inBlock, stale, m) && AllCountedAgain(pool, inBlock, stale, m.Keys)
  }

  ghost predicate EntriesHold(pool: Mempool, cached: map<TxId, ModEntry>, inBlock: set<TxId>,
                              stale: map<TxId, set<TxId>>, m: Modified) {
    forall d :: d in m ==> IsCurrent(pool, cached, inBlock, Stale(stale, d), d, m[d])
  }

  ghost predicate IsCurrent(pool: Mempool, cached: map<TxId, ModEntry>, inBlock: set<TxId>, stale: set<TxId>, d: TxId,
                            e: ModEntry) {
    Holds(pool, cached, inBlock, stale, d, e) && pool.Anc(d) * inBlock - stale != {}
  }

  predicate AllCountedAgain(pool: Mempool, inBlock: set<TxId>, stale: map<TxId, set<TxId>>, keys: set<TxId>) {
    forall d :: d in stale && d in pool.txs && d !in keys && d !in inBlock ==> stale[d] == pool.Anc(d) * inBlock
  }

  lemma PartAtMost(f: TxId -> int, all: set<TxId>, part: set<TxId>)
    requires part <= all && forall x :: x in all ==> f(x) >= 0
    ensures Total(f, part) <= Total(f, all)
  {
    TotalSplit(f, all, part);
    TotalPositive(f, all - part);
  }

  lemma MissingShrinks(pool: Mempool, f: TxId -> int, inBlock: set<TxId>, added: set<TxId>, x: TxId)
    requires x !in inBlock + added && added !! inBlock
    ensures Total(f, Missing(pool, inBlock, x)) ==
            Total(f, Missing(pool, inBlock + added, x)) + Total(f, pool.Anc(x) * added)
  {
    hide Total;
    CountedShrinks(pool, f, inBlock, added, {}, x);
    assert forall s: set<TxId> :: s + {} == s;
  }

  lemma TotalGrows(f: TxId -> int, s: set<TxId>, more: set<TxId>)
    requires s !! more
    ensures Total(f, s + more) == Total(f, s) + Total(f, more)
  {
    TotalSplit(f, s + more, s);
    assert s + more - s == more;
  }

  lemma {:induction false} SlackIs(pool: Mempool, s: set<TxId>)
    requires s <= pool.txs.Keys
    ensures WITNESS_SCALE_FACTOR * Total(pool.Sizes(), s) == Total(pool.Weights(), s) + Total(pool.Slacks(), s)
    decreases |s|
  {
    if s != {} {
      var x :| x in s;
      TotalWithout(pool.Sizes(), s, x);
      TotalWithout(pool.Weights(), s, x);
      TotalWithout(pool.Slacks(), s, x);
      SlackIs(pool, s - {x});
    }
  }

  lemma {:induction false} SlackPositive(pool: Mempool, s: set<TxId>)
    requires pool.Valid()
    ensures Total(pool.Slacks(), s) >= 0
    decreases |s|
  {
    if s != {} {
      var x :| x in s;
      TotalWithout(pool.Slacks(), s, x);
      SlackPositive(pool, s - {x});
    }
  }

  // The sums over a package are those over its missing part and over its ancestors in the block.
  lemma PackageSums(pool: Mempool, inBlock: set<TxId>, x: TxId)
    requires pool.Valid() && x in pool.txs && x !in inBlock
    ensures Total(pool.Slacks(), pool.Anc(x) * inBlock) >= 0
    ensures WITNESS_SCALE_FACTOR * Total(pool.Sizes(), Missing(pool, inBlock, x))
            + Total(pool.Slacks(), pool.Anc(x) * inBlock) <= WITNESS_SCALE_FACTOR * Total(pool.Sizes(), pool.Package(x))
    ensures Total(pool.SigOps(), Missing(pool, inBlock, x)) <= Total(pool.SigOps(), pool.Package(x))
  {
    hide Total;
    var missing, there := Missing(pool, inBlock, x), pool.Anc(x) * inBlock;
    SlackPositive(pool, there);
    assert pool.Package(x) == missing + there;
    TotalGrows(pool.Sizes(), missing, there);
    TotalGrows(pool.SigOps(), missing, there);
    SlackIs(pool, there);
    TotalPositive(pool.Weights(), there);
    TotalPositive(pool.SigOps(), there);
  }

  lemma MissingIs(pool: Mempool, inBlock: set<TxId>, iter: TxId)
    requires pool.Valid() && iter in pool.txs && iter !in inBlock
    ensures Missing(pool, inBlock, iter) == pool.Anc(iter) - inBlock + {iter} <= pool.txs.Keys
  {
  }

  lemma CountedShrinks(pool: Mempool, f: TxId -> int, inBlock: set<TxId>, added: set<TxId>, stale: set<TxId>, d: TxId)
    requires d !in inBlock + added && added !! inBlock && stale <= inBlock
    ensures Total(f, Missing(pool, inBlock + added, d) + stale) ==
            Total(f, Missing(pool, inBlock, d) + stale) - Total(f, pool.Anc(d) * added)
  {
    hide Total;
    var all, part := Missing(pool, inBlock, d) + stale, pool.Anc(d) * added;
    assert part <= all;
    TotalSplit(f, all, part);
    assert all - part == Missing(pool, inBlock + added, d) + stale;
  }

  // The pool's own sums, for a transaction whose ancestors in the block are all counted again.
  lemma CachedHolds(pool: Mempool, cached: map<TxId, ModEntry>, inBlock: set<TxId>, d: TxId)
    requires CachedBy(pool, cached) && d in cached && d !in inBlock
    ensures Holds(pool, cached, inBlock, pool.Anc(d) * inBlock, d, cached[d])
  {
    hide Total;
    var stale := pool.Anc(d) * inBlock;
    assert Missing(pool, inBlock, d) + stale == pool.Package(d);
    assert stale - stale == {};
    TotalNone(pool.Fees());
  }

  lemma FeesStayRight(pool: Mempool, fees: int, gone: set<TxId>, more: set<TxId>, isNew: bool, b: int, e: int)
    requires gone !! more && isNew == (gone == {})
    requires FeesAfter(pool, fees, true, gone, b) && FeesAfter(pool, b, isNew, more, e)
    ensures FeesAfter(pool, fees, true, gone + more, e)
  {
    hide Total;
    TotalSplit(pool.Fees(), gone + more, gone);
    assert gone + more - gone == more;
    TotalNone(pool.Fees());
    if gone != {} {
      var first :| first in gone && b == FeesLess(pool, fees, gone, first);
      assert first in gone + more && e == FeesLess(pool, fees, gone + more, first);
    } else {
      assert gone + more == more;
    }
  }

  lemma EntryStaysRight(pool: Mempool, cached: map<TxId, ModEntry>, inBlock: set<TxId>, added: set<TxId>,
                        stale: set<TxId>, d: TxId, isNew: bool, b: ModEntry, e: ModEntry)
    requires added !! inBlock && d !in inBlock + added && isNew == (pool.Anc(d) * inBlock - stale == {})
    requires Reduced(pool, b, isNew, added, d, e) && Holds(pool, cached, inBlock, stale, d, b)
    ensures Holds(pool, cached, inBlock + added, stale, d, e)
  {
    hide Total, FeesAfter;
    CountedShrinks(pool, pool.Sizes(), inBlock, added, stale, d);
    CountedShrinks(pool, pool.SigOps(), inBlock, added, stale, d);
    var gone, more := pool.Anc(d) * inBlock - stale, pool.Anc(d) * added;
    assert pool.Anc(d) * (inBlock + added) - stale == gone + more;
    FeesStayRight(pool, cached[d].fees, gone, more, isNew, b.fees, e.fees);
  }

  lemma AffectedOutside(pool: Mempool, inBlock: set<TxId>, added: set<TxId>)
    requires pool.Closed(inBlock) && added !! inBlock
    ensures pool.Affected(added) !! inBlock
  {
    forall d | d in pool.Affected(added)
      ensures d !in inBlock
    {
      var a :| a in pool.Anc(d) * added;
    }
  }

  // A transaction without an entry: nothing has been included since its entry failed, or nothing at all.
  lemma BaseIsRight(pool: Mempool, cached: map<TxId, ModEntry>, inBlock: set<TxId>, stale: map<TxId, set<TxId>>,
                    m: Modified, d: TxId)
    requires CachedBy(pool, cached) && SumsHold(pool, cached, inBlock, stale, m) && d in pool.txs && d !in inBlock
    ensures Holds(pool, cached, inBlock, Stale(stale, d), d, Base(m, cached, d))
    ensures d !in m <==> pool.Anc(d) * inBlock - Stale(stale, d) == {}
  {
    hide Holds, Total, Mempool.Affected;
    if d !in m {
      CachedHolds(pool, cached, inBlock, d);
      if d !in stale {
        NotAffected(pool, inBlock, d);
      }
      assert Stale(stale, d) == pool.Anc(d) * inBlock;
    }
  }

  /** Erasing the entries of a package that enters the block and updating those of its descendants
      keeps the meaning of the sums. */
  lemma UpdateKeepsSums(pool: Mempool, cached: map<TxId, ModEntry>, inBlock: set<TxId>, stale: map<TxId, set<TxId>>,
                        m: Modified, added: set<TxId>, r: Modified)
    requires CachedBy(pool, cached) && added !! inBlock
    requires pool.Closed(inBlock) && added <= pool.txs.Keys
    requires SumsHold(pool, cached, inBlock, stale, m)
    requires Accounted(pool, cached, m - added, added, added, r)
    ensures SumsHold(pool, cached, inBlock + added, stale, r)
  {
    hide EntriesHold, AllCountedAgain, Mempool.Affected, CachedBy, Reduced;
    UpdateKeepsKeys(pool, inBlock, stale.Keys, m.Keys, added, r.Keys);
    UpdateKeepsStale(pool, inBlock, stale, m.Keys, added, r.Keys);
    hide Accounted;
    UpdateKeepsEntries(pool, cached, inBlock, stale, m, added, r);
  }

  lemma UpdateKeepsStale(pool: Mempool, inBlock: set<TxId>, stale: map<TxId, set<TxId>>, keys: set<TxId>,
                         added: set<TxId>, keys': set<TxId>)
    requires AllCountedAgain(pool, inBlock, stale, keys)
    requires keys' == keys - added + (pool.Affected(added) - added)
    ensures AllCountedAgain(pool, inBlock + added, stale, keys')
  {
    hide Mempool.Affected;
    forall d | d in stale && d in pool.txs && d !in keys' && d !in inBlock + added
      ensures stale[d] == pool.Anc(d) * (inBlock + added)
    {
      NotAffected(pool, added, d);
      assert pool.Anc(d) * (inBlock + added) == pool.Anc(d) * inBlock;
    }
  }

  lemma UpdateKeepsEntries(pool: Mempool, cached: map<TxId, ModEntry>, inBlock: set<TxId>,
                           stale: map<TxId, set<TxId>>, m: Modified, added: set<TxId>, r: Modified)
    requires CachedBy(pool, cached) && added !! inBlock && SumsHold(pool, cached, inBlock, stale, m)
    requires Accounted(pool, cached, m - added, added, added, r) && r.Keys <= pool.txs.Keys - (inBlock + added)
    ensures EntriesHold(pool, cached, inBlock + added, stale, r)
  {
    hide IsCurrent, SumsHold, Accounted, CachedBy;
    forall d | d in r
      ensures IsCurrent(pool, cached, inBlock + added, Stale(stale, d), d, r[d])
    {
      UpdatedHolds(pool, cached, inBlock, stale, m, added, r, d);
    }
  }

  lemma UpdatedHolds(pool: Mempool, cached: map<TxId, ModEntry>, inBlock: set<TxId>, stale: map<TxId, set<TxId>>,
                     m: Modified, added: set<TxId>, r: Modified, d: TxId)
    requires CachedBy(pool, cached) && added !! inBlock && SumsHold(pool, cached, inBlock, stale, m)
    requires Accounted(pool, cached, m - added, added, added, r)
    requires d in r && d in pool.txs && d !in inBlock + added
    ensures IsCurrent(pool, cached, inBlock + added, Stale(stale, d), d, r[d])
  {
    hide Reduced, Total, Mempool.Affected, FeesAfter, Missing;
    BaseIsRight(pool, cached, inBlock, stale, m, d);
    assert Reduced(pool, Base(m, cached, d), d !in m, added, d, r[d]) by {
      assert Base(m - added, cached, d) == Base(m, cached, d);
    }
    EntryStaysRight(pool, cached, inBlock, added, Stale(stale, d), d, d !in m, Base(m, cached, d), r[d]);
    EntryHasNew(pool, inBlock, added, Stale(stale, d), d);
  }

  // Every entry has an ancestor that is counted out.
  lemma EntryHasNew(pool: Mempool, inBlock: set<TxId>, added: set<TxId>, stale: set<TxId>, d: TxId)
    requires stale <= inBlock && added !! inBlock
    requires pool.Anc(d) * inBlock - stale != {} || d in pool.Affected(added)
    ensures pool.Anc(d) * (inBlock + added) - stale != {}
  {
    if d in pool.Affected(added) {
      var a :| a in pool.Anc(d) * added;
      assert a in pool.Anc(d) * (inBlock + added) - stale;
    } else {
      var a :| a in pool.Anc(d) * inBlock - stale;
      assert a in pool.Anc(d) * (inBlock + added) - stale;
    }
  }

  lemma UpdateKeepsKeys(pool: Mempool, inBlock: set<TxId>, failed: set<TxId>, keys: set<TxId>, added: set<TxId>,
                        keys': set<TxId>)
    requires pool.Closed(inBlock) && added !! inBlock
    requires keys <= pool.txs.Keys - inBlock
             && pool.Affected(inBlock) - inBlock - failed <= keys <= pool.Affected(inBlock)
    requires keys' == keys - added + (pool.Affected(added) - added)
    ensures keys' <= pool.txs.Keys - (inBlock + added)
    ensures pool.Affected(inBlock + added) - (inBlock + added) - failed <= keys' <= pool.Affected(inBlock + added)
  {
    hide Mempool.Affected;
    AffectedOutside(pool, inBlock, added);
    AffectedJoin(pool, inBlock, added);
    AffectedInside(pool, added);
  }

  // ----- the order within a block -----

  function Elements(s: seq<TxId>): set<TxId> {
    set x | x in s
  }

  lemma ElementsNone(s: seq<TxId>)
    ensures Elements(s[..0]) == {}
  {
  }

  lemma ElementsNext(s: seq<TxId>, i: nat)
    requires i < |s|
    ensures s[..i + 1] == s[..i] + [s[i]] && Elements(s[..i + 1]) == Elements(s[..i]) + {s[i]}
  {
  }

  // No transaction twice, and each one after all its ancestors.
  ghost predicate ValidOrder(pool: Mempool, block: seq<TxId>) {
    forall i :: 0 <= i < |block| ==> Follows(pool, Elements(block[..i]), block[i])
  }

  predicate Follows(pool: Mempool, before: set<TxId>, x: TxId) {
    x in pool.txs && x !in before && pool.Anc(x) <= before
  }

  lemma OrderAppend(pool: Mempool, block: seq<TxId>, x: TxId)
    requires ValidOrder(pool, block) && Follows(pool, Elements(block), x)
    ensures ValidOrder(pool, block + [x]) && Elements(block + [x]) == Elements(block) + {x}
  {
    var longer := block + [x];
    forall i | 0 <= i < |longer|
      ensures Follows(pool, Elements(longer[..i]), longer[i])
    {
      assert longer[..i] == if i < |block| then block[..i] else block;
    }
  }

  lemma OrderIsClosed(pool: Mempool, block: seq<TxId>)
    requires ValidOrder(pool, block)
    ensures pool.Closed(Elements(block))
  {
    forall x | x in Elements(block)
      ensures x in pool.txs && pool.Anc(x) <= Elements(block)
    {
      var i :| 0 <= i < |block| && block[i] == x;
      assert Follows(pool, Elements(block[..i]), block[i]);
    }
  }

  function AncestorCount(pool: Mempool, x: TxId): nat {
    |pool.Anc(x)|
  }

  // std::sort by ancestor count; how ties are broken does not matter.
  method SortForBlock(pool: Mempool, package: set<TxId>) returns (sorted: seq<TxId>)
    ensures Elements(sorted) == package
    ensures forall i, j :: 0 <= i < j < |sorted| ==> sorted[i] != sorted[j]
    ensures forall i, j :: 0 <= i < j < |sorted| ==> AncestorCount(pool, sorted[i]) <= AncestorCount(pool, sorted[j])
  {
    sorted := [];
    var todo := package;
    hide AncestorCount;
    while todo != {}
      invariant Elements(sorted) == package - todo && todo <= package
      invariant forall i, j :: 0 <= i < j < |sorted| ==> sorted[i] != sorted[j]
      invariant forall i, j :: 0 <= i < j < |sorted| ==>
                AncestorCount(pool, sorted[i]) <= AncestorCount(pool, sorted[j])
      invariant forall i, x :: 0 <= i < |sorted| && x in todo ==>
                AncestorCount(pool, sorted[i]) <= AncestorCount(pool, x)
      decreases todo
    {
      var least := FindLeast(pool, todo);
      assert forall i :: 0 <= i < |sorted| ==> sorted[i] in Elements(sorted);
      ghost var before := sorted;
      sorted, todo := sorted + [least], todo - {least};
      assert Elements(sorted) == Elements(before) + {least};
    }
  }

  method FindLeast(pool: Mempool, s: set<TxId>) returns (least: TxId)
    requires s != {}
    ensures least in s && forall x :: x in s ==> AncestorCount(pool, least) <= AncestorCount(pool, x)
  {
    least :| least in s;
    var todo := s;
    hide AncestorCount;
    while todo != {}
      invariant least in s && todo <= s
      invariant forall x :: x in s - todo ==> AncestorCount(pool, least) <= AncestorCount(pool, x)
      decreases todo
    {
      var x :| x in todo;
      if AncestorCount(pool, x) < AncestorCount(pool, least) {
        least := x;
      }
      todo := todo - {x};
    }
  }

  /** In the order of ancestor counts, every transaction of a package follows what is in the block and
      the part of the package before it. */
  lemma SortedFollows(pool: Mempool, inBlock: set<TxId>, iter: TxId, sorted: seq<TxId>, k: nat)
    requires pool.Valid() && pool.Closed(inBlock) && iter in pool.txs && k < |sorted|
    requires Elements(sorted) == Missing(pool, inBlock, iter)
    requires forall i, j :: 0 <= i < j < |sorted| ==> sorted[i] != sorted[j]
    requires forall i, j :: 0 <= i < j < |sorted| ==> AncestorCount(pool, sorted[i]) <= AncestorCount(pool, sorted[j])
    ensures Follows(pool, inBlock + Elements(sorted[..k]), sorted[k])
  {
    var x := sorted[k];
    assert x in Elements(sorted);
    forall a | a in pool.Anc(x)
      ensures a in inBlock + Elements(sorted[..k])
    {
      if a !in inBlock {
        assert a in Missing(pool, inBlock, iter);
        assert a in Elements(sorted);
        var j :| 0 <= j < |sorted| && sorted[j] == a;
        AncestorCountOrders(pool, x, a);
        assert a in sorted[..k];
      }
    }
  }

  ghost predicate AllFollow(pool: Mempool, inBlock: set<TxId>, sorted: seq<TxId>) {
    forall i :: 0 <= i < |sorted| ==> Follows(pool, inBlock + Elements(sorted[..i]), sorted[i])
  }

  lemma SortedAllFollow(pool: Mempool, inBlock: set<TxId>, iter: TxId, sorted: seq<TxId>)
    requires pool.Valid() && pool.Closed(inBlock) && iter in pool.txs
    requires Elements(sorted) == Missing(pool, inBlock, iter)
    requires forall i, j :: 0 <= i < j < |sorted| ==> sorted[i] != sorted[j]
    requires forall i, j :: 0 <= i < j < |sorted| ==> AncestorCount(pool, sorted[i]) <= AncestorCount(pool, sorted[j])
    ensures AllFollow(pool, inBlock, sorted)
  {
    forall i | 0 <= i < |sorted|
      ensures Follows(pool, inBlock + Elements(sorted[..i]), sorted[i])
    {
      SortedFollows(pool, inBlock, iter, sorted, i);
    }
  }

  // ----- candidates -----

  // A transaction with the sums held for it, as the comparison of ancestor scores sees it.
  datatype Candidate = Candidate(x: TxId, e: ModEntry)

  type Comparator = (Candidate, Candidate) -> bool

  predicate Beats(better: Comparator, c: Modified, x: TxId, y: TxId) {
    x in c && y in c && better(Candidate(x, c[x]), Candidate(y, c[y]))
  }

  // The comparison is a strict weak order on these candidates.
  ghost predicate IsOrder(better: Comparator, c: Modified) {
    && (forall x :: x in c ==> !Beats(better, c, x, x))
    && (forall x, y, z :: Beats(better, c, x, y) && Beats(better, c, y, z) ==> Beats(better, c, x, z))
    && (forall x, y, z :: Beats(better, c, x, z) && y in c ==> Beats(better, c, x, y) || Beats(better, c, y, z))
  }

  // No candidate is better than this one.
  ghost predicate Best(better: Comparator, c: Modified, x: TxId) {
    x in c && forall y :: y in c ==> !Beats(better, c, y, x)
  }

  // The order of mapTx by ancestor score.
  ghost predicate Sorted(better: Comparator, cached: map<TxId, ModEntry>, order: seq<TxId>) {
    forall i, j :: 0 <= i < j < |order| ==> !Beats(better, cached, order[j], order[i])
  }

  /** What is left to choose from: the modified entries, and what is still to come in mapTx without one. */
  function Rest(order: seq<TxId>, mi: nat, m: Modified, cached: map<TxId, ModEntry>, skipped: set<TxId>): (r: Modified)
    requires mi <= |order|
    ensures forall x :: x in r <==> x in m || (x in order[mi..] && x !in skipped)
    ensures forall x :: x in r ==> r[x] == Base(m, cached, x)
  {
    map x | x in m.Keys + (Elements(order[mi..]) - skipped) :: Base(m, cached, x)
  }

  lemma PartIsOrder(better: Comparator, c: Modified, m: Modified)
    requires IsOrder(better, c) && forall x :: x in m ==> x in c && c[x] == m[x]
    ensures IsOrder(better, m)
  {
    assert forall x, y :: x in m && y in m ==> (Beats(better, m, x, y) <==> Beats(better, c, x, y));
  }

  // The first entry of mapModifiedTx by ancestor score.
  method FindBest(m: Modified, better: Comparator) returns (best: TxId)
    requires m != map[]
    ensures best in m && (IsOrder(better, m) ==> Best(better, m, best))
  {
    best :| best in m;
    var todo := m.Keys;
    while todo != {}
      invariant best in m && todo <= m.Keys
      invariant IsOrder(better, m) ==> forall y :: y in m.Keys - todo ==> !Beats(better, m, y, best)
      decreases todo
    {
      var x :| x in todo;
      if better(Candidate(x, m[x]), Candidate(best, m[best])) {
        assert Beats(better, m, x, best);
        best := x;
      }
      todo := todo - {x};
    }
  }

  // What is still to come in mapTx is not better than its next entry.
  lemma TailNotBetter(better: Comparator, order: seq<TxId>, mi: nat, m: Modified, cached: map<TxId, ModEntry>,
                      skipped: set<TxId>, y: TxId)
    requires mi < |order| && order[mi] in cached && order[mi] !in m && order[mi] !in skipped
    requires Elements(order) <= cached.Keys && Sorted(better, cached, order)
    requires !Beats(better, cached, order[mi], order[mi])
    requires y in Rest(order, mi, m, cached, skipped) && y !in m
    ensures !Beats(better, Rest(order, mi, m, cached, skipped), y, order[mi])
  {
    hide Rest, Elements;
    var c, j :| c == Rest(order, mi, m, cached, skipped) && mi <= j < |order| && order[j] == y;
    assert y in Elements(order) && Elements(order) <= cached.Keys by { InElements(order, j); }
    assert !Beats(better, cached, order[j], order[mi]);
  }

  lemma InElements(s: seq<TxId>, i: nat)
    requires i < |s|
    ensures s[i] in Elements(s)
  {
  }

  lemma BestOfBoth(better: Comparator, c: Modified, m: Modified, best: TxId, next: TxId, iter: TxId)
    requires IsOrder(better, c) && next in c && Best(better, m, best) && forall x :: x in m ==> x in c && c[x] == m[x]
    requires forall y :: y in c && y !in m ==> !Beats(better, c, y, next)
    requires iter == if Beats(better, c, best, next) then best else next
    ensures Best(better, c, iter)
  {
    forall y | y in c
      ensures !Beats(better, c, y, iter)
    {
      assert y in m ==> !Beats(better, m, y, best) && !Beats(better, c, y, best);
    }
  }

  // The next entry of mapTx, or the best modified one if it beats it, is the best of all.
  lemma SelectedIsBest(better: Comparator, order: seq<TxId>, mi: nat, m: Modified, cached: map<TxId, ModEntry>,
                       skipped: set<TxId>, best: TxId, iter: TxId)
    requires mi < |order| && order[mi] in cached && order[mi] !in m && order[mi] !in skipped
    requires Elements(order) <= cached.Keys
    requires IsOrder(better, Rest(order, mi, m, cached, skipped)) && Sorted(better, cached, order)
    requires m != map[] ==> Best(better, m, best)
    requires iter == if m != map[] && better(Candidate(best, m[best]), Candidate(order[mi], cached[order[mi]]))
                     then best else order[mi]
    ensures Best(better, Rest(order, mi, m, cached, skipped), iter)
  {
    hide Rest, Sorted, Elements;
    var c, next := Rest(order, mi, m, cached, skipped), order[mi];
    assert next in order[mi..] && next in c && c[next] == cached[next];
    assert !Beats(better, c, next, next);
    forall y | y in c && y !in m
      ensures !Beats(better, c, y, next)
    {
      TailNotBetter(better, order, mi, m, cached, skipped, y);
    }
    if m != map[] {
      BestOfBoth(better, c, m, best, next, iter);
    }
  }

  // ----- the assembler -----

  // The fees and sigop costs of the transactions of a block, in order.
  function FeesOf(pool: Mempool, block: seq<TxId>): seq<int>
    requires forall i :: 0 <= i < |block| ==> block[i] in pool.txs
  {
    seq(|block|, i requires 0 <= i < |block| => pool.txs[block[i]].fee)
  }

  function SigOpsOf(pool: Mempool, block: seq<TxId>): seq<nat>
    requires forall i :: 0 <= i < |block| ==> block[i] in pool.txs
  {
    seq(|block|, i requires 0 <= i < |block| => pool.txs[block[i]].sigops)
  }

  function Sum(s: seq<int>): int {
    if s == [] then 0 else Sum(s[..|s| - 1]) + s[|s| - 1]
  }

  // What the block template records: a fee and a sigop cost for each transaction, and the fees in all.
  predicate Booked(pool: Mempool, block: seq<TxId>, fees: seq<int>, sigops: seq<nat>, nFees: int) {
    && (forall i :: 0 <= i < |block| ==> block[i] in pool.txs)
    && fees == FeesOf(pool, block) && sigops == SigOpsOf(pool, block) && nFees == Sum(fees)
  }

  lemma BookedNext(pool: Mempool, block: seq<TxId>, fees: seq<int>, sigops: seq<nat>, nFees: int, x: TxId)
    requires Booked(pool, block, fees, sigops, nFees) && x in pool.txs
    ensures Booked(pool, block + [x], fees + [pool.txs[x].fee], sigops + [pool.txs[x].sigops],
                   nFees + pool.txs[x].fee)
  {
    assert (fees + [pool.txs[x].fee])[..|fees|] == fees;
  }

  class BlockAssembler {
    const pool: Mempool
    const nBlockMaxWeight: nat
    const fIncludeWitness: bool
    const isFinal: TxId -> bool  // IsFinalTx at the height and time of the block
    const minFee: int -> int     // blockMinFeeRate.GetFee

    var block: seq<TxId>
    var inBlock: set<TxId>
    var nBlockWeight: nat
    var nBlockSigOpsCost: nat
    var nBlockTx: nat
    var vTxFees: seq<int>
    var vTxSigOpsCost: seq<nat>
    var nFees: int

    predicate Includable(x: TxId) {
      x in pool.txs && isFinal(x) && (fIncludeWitness || !pool.txs[x].hasWitness)
    }

    /** The block is in a valid order, all its transactions may be included, the counters, fees and lists are
        those of its transactions (the first two with the reserved coinbase), and the limits are respected. */
    ghost predicate Valid()
      reads this
    {
      && pool.Valid() && COINBASE_WEIGHT <= nBlockMaxWeight <= MAX_BLOCK_WEIGHT - 4000
      && ValidOrder(pool, block) && inBlock == Elements(block) && pool.Closed(inBlock) && nBlockTx == |block|
      && (forall x :: x in inBlock ==> Includable(x))
      && nBlockWeight == COINBASE_WEIGHT + Total(pool.Weights(), inBlock)
      && nBlockSigOpsCost == COINBASE_SIGOPS + Total(pool.SigOps(), inBlock)
      && Booked(pool, block, vTxFees, vTxSigOpsCost, nFees)
      && nBlockWeight <= nBlockMaxWeight && nBlockSigOpsCost < MAX_BLOCK_SIGOPS_COST
    }

    // The weight limit is kept between 4000 and 4000 below the consensus limit; the block is empty.
    constructor (pool: Mempool, maxWeight: nat, fIncludeWitness: bool, isFinal: TxId -> bool, minFee: int -> int)
      requires pool.Valid()
      ensures Valid() && block == [] && this.pool == pool
    {
      this.pool, this.fIncludeWitness, this.isFinal, this.minFee := pool, fIncludeWitness, isFinal, minFee;
      var capped := if maxWeight < MAX_BLOCK_WEIGHT - 4000 then maxWeight else MAX_BLOCK_WEIGHT - 4000;
      nBlockMaxWeight := if capped < 4000 then 4000 else capped;
      block, inBlock := [], {};
      nBlockWeight, nBlockSigOpsCost, nBlockTx := COINBASE_WEIGHT, COINBASE_SIGOPS, 0;
      vTxFees, vTxSigOpsCost, nFees := [], [], 0;
    }

    predicate TestPackage(packageSize: int, packageSigOpsCost: int)
      reads this
    {
      && nBlockWeight + WITNESS_SCALE_FACTOR * packageSize < nBlockMaxWeight
      && nBlockSigOpsCost + packageSigOpsCost < MAX_BLOCK_SIGOPS_COST
    }

    method TestPackageTransactions(package: set<TxId>) returns (ok: bool)
      requires package <= pool.txs.Keys
      ensures ok <==> forall x :: x in package ==> Includable(x)
    {
      var todo := package;
      while todo != {}
        invariant todo <= package && forall x :: x in package - todo ==> Includable(x)
        decreases todo
      {
        var x :| x in todo;
        if !isFinal(x) || (!fIncludeWitness && pool.txs[x].hasWitness) {
          return false;
        }
        todo := todo - {x};
      }
      return true;
    }

    // onlyUnconfirmed.
    method OnlyUnconfirmed(testSet: set<TxId>) returns (r: set<TxId>)
      ensures r == testSet - inBlock
    {
      r := testSet;
      var todo := testSet;
      while todo != {}
        invariant todo <= testSet && r == todo + (testSet - todo - inBlock)
        decreases todo
      {
        var x :| x in todo;
        if x in inBlock {
          r := r - {x};
        }
        todo := todo - {x};
      }
    }

    method AddToBlock(x: TxId)
      requires x in pool.txs && x !in inBlock
      modifies this
      ensures block == old(block) + [x] && inBlock == old(inBlock) + {x} && nBlockTx == old(nBlockTx) + 1
      ensures nBlockWeight == old(nBlockWeight) + pool.txs[x].weight
      ensures nBlockSigOpsCost == old(nBlockSigOpsCost) + pool.txs[x].sigops
      ensures vTxFees == old(vTxFees) + [pool.txs[x].fee] && nFees == old(nFees) + pool.txs[x].fee
      ensures vTxSigOpsCost == old(vTxSigOpsCost) + [pool.txs[x].sigops]
    {
      block := block + [x];
      vTxFees := vTxFees + [pool.txs[x].fee];
      vTxSigOpsCost := vTxSigOpsCost + [pool.txs[x].sigops];
      nBlockWeight := nBlockWeight + pool.txs[x].weight;
      nBlockTx := nBlockTx + 1;
      nBlockSigOpsCost := nBlockSigOpsCost + pool.txs[x].sigops;
      nFees := nFees + pool.txs[x].fee;
      inBlock := inBlock + {x};
    }

    // The block so far, apart from the limits.
    ghost predicate Consistent()
      reads this
    {
      && ValidOrder(pool, block) && inBlock == Elements(block) && nBlockTx == |block|
      && (forall x :: x in inBlock ==> Includable(x))
      && nBlockWeight == COINBASE_WEIGHT + Total(pool.Weights(), inBlock)
      && nBlockSigOpsCost == COINBASE_SIGOPS + Total(pool.SigOps(), inBlock)
      && Booked(pool, block, vTxFees, vTxSigOpsCost, nFees)
    }

    // Add one transaction of a package, erasing its modified entry if present.
    method Include(x: TxId, m: Modified) returns (r: Modified)
      requires Consistent() && Includable(x) && Follows(pool, inBlock, x)
      modifies this
      ensures Consistent() && block == old(block) + [x] && inBlock == old(inBlock) + {x}
      ensures r == m - {x} && nBlockWeight >= old(nBlockWeight) && nBlockSigOpsCost >= old(nBlockSigOpsCost)
    {
      hide Booked, Total, ValidOrder, FeesOf, SigOpsOf;
      TotalWith(pool.Weights(), inBlock, x);
      TotalWith(pool.SigOps(), inBlock, x);
      OrderAppend(pool, block, x);
      BookedNext(pool, block, vTxFees, vTxSigOpsCost, nFees, x);
      AddToBlock(x);
      r := m - {x};
    }

    // The loop that adds a sorted package.
    method IncludePackage(sorted: seq<TxId>, m: Modified) returns (r: Modified)
      requires Consistent() && AllFollow(pool, inBlock, sorted)
      requires forall i :: 0 <= i < |sorted| ==> Includable(sorted[i])
      modifies this
      ensures Consistent() && block == old(block) + sorted && inBlock == old(inBlock) + Elements(sorted)
      ensures r == m - Elements(sorted) && nBlockWeight >= old(nBlockWeight)
              && nBlockSigOpsCost >= old(nBlockSigOpsCost)
    {
      hide Consistent, Includable, Follows, Elements;
      assert Elements(sorted[..0]) == {} by { ElementsNone(sorted); }
      r := m;
      for i := 0 to |sorted|
        invariant Consistent() && block == old(block) + sorted[..i]
        invariant inBlock == old(inBlock) + Elements(sorted[..i])
        invariant r == m - Elements(sorted[..i])
        invariant nBlockWeight >= old(nBlockWeight) && nBlockSigOpsCost >= old(nBlockSigOpsCost)
      {
        ElementsNext(sorted, i);
        r := Include(sorted[i], r);
      }
      assert sorted[..|sorted|] == sorted;
    }

    // A package whose cached sums pass the test keeps the block within its limits.
    ghost predicate Fits(package: set<TxId>)
      reads this
    {
      && nBlockWeight + Total(pool.Weights(), package) < nBlockMaxWeight
      && nBlockSigOpsCost + Total(pool.SigOps(), package) < MAX_BLOCK_SIGOPS_COST
    }

    lemma TestedFits(cached: map<TxId, ModEntry>, stale: set<TxId>, iter: TxId, e: ModEntry)
      requires pool.Valid() && Holds(pool, cached, inBlock, stale, iter, e) && TestPackage(e.size, e.sigops)
      requires iter in pool.txs
      ensures Fits(Missing(pool, inBlock, iter))
    {
      var package := Missing(pool, inBlock, iter);
      TotalScaled(pool.Weights(), pool.Sizes(), package);
      PartAtMost(pool.Sizes(), package + stale, package);
      PartAtMost(pool.SigOps(), package + stale, package);
    }

    lemma StillValid(before: set<TxId>, package: set<TxId>, weight: nat, sigops: nat)
      requires pool.Valid() && COINBASE_WEIGHT <= nBlockMaxWeight <= MAX_BLOCK_WEIGHT - 4000
      requires Consistent() && inBlock == before + package && before !! package
      requires weight == COINBASE_WEIGHT + Total(pool.Weights(), before)
               && sigops == COINBASE_SIGOPS + Total(pool.SigOps(), before)
      requires weight + Total(pool.Weights(), package) < nBlockMaxWeight
      requires sigops + Total(pool.SigOps(), package) < MAX_BLOCK_SIGOPS_COST
      ensures Valid()
    {
      hide Total;
      OrderIsClosed(pool, block);
      assert inBlock - package == before;
      TotalSplit(pool.Weights(), inBlock, package);
      TotalSplit(pool.SigOps(), inBlock, package);
    }

    // Everything done for a package that passed the tests.
    method AddPackage(iter: TxId, package: set<TxId>, cached: map<TxId, ModEntry>, m: Modified,
                      ghost stale: map<TxId, set<TxId>>)
      returns (r: Modified)
      requires Valid() && CachedBy(pool, cached) && SumsHold(pool, cached, inBlock, stale, m)
      requires iter in pool.txs && iter !in inBlock && package == Missing(pool, inBlock, iter)
      requires (forall x :: x in package ==> Includable(x)) && Fits(package)
      modifies this
      ensures Valid() && old(block) <= block && inBlock == old(inBlock) + package
      ensures SumsHold(pool, cached, inBlock, stale, r)
      ensures r.Keys == m.Keys - package + (pool.Affected(package) - package)
      ensures nBlockWeight >= old(nBlockWeight) && nBlockSigOpsCost >= old(nBlockSigOpsCost)
    {
      var sorted := SortForBlock(pool, package);
      SortedAllFollow(pool, inBlock, iter, sorted);
      assert forall i :: 0 <= i < |sorted| ==> sorted[i] in Elements(sorted);
      ghost var before := inBlock;
      assert before !! package && package <= pool.txs.Keys && m.Keys <= pool.txs.Keys && cached.Keys == pool.txs.Keys;
      assert pool.Closed(before);
      hide Total, ValidOrder, Elements, SumsHold, CachedBy, Mempool.Valid, Mempool.Closed, Missing;
      r := IncludePackage(sorted, m);
      StillValid(before, package, old(nBlockWeight), old(nBlockSigOpsCost));
      r := UpdatePackagesForAdded(pool, cached, r, package);
      UpdateKeepsSums(pool, cached, before, stale, m, package, r);
    }

    // The entries for what is already in the block.
    method StartModified(cached: map<TxId, ModEntry>) returns (m: Modified)
      requires Valid() && CachedBy(pool, cached)
      ensures SumsHold(pool, cached, inBlock, map[], m)
    {
      hide Total, Accounted, Includable, Booked, SumsHold, Mempool.Valid;
      var empty: Modified := map[];
      StartingSums(pool, cached);
      assert cached.Keys == pool.txs.Keys && inBlock <= pool.txs.Keys;
      hide CachedBy, ValidOrder;
      m := UpdatePackagesForAdded(pool, cached, empty, inBlock);
      assert empty - inBlock == empty && {} + inBlock == inBlock;
      UpdateKeepsSums(pool, cached, {}, map[], empty, inBlock, m);
    }

    /** Which transaction to evaluate: the next entry of mapTx, or the best one of mapModifiedTx if that is
        better. When the comparison is an order and mapTx sorted by it, nothing left is better. */
    method Select(order: seq<TxId>, mi: nat, m: Modified, cached: map<TxId, ModEntry>, better: Comparator,
                  ghost skipped: set<TxId>)
      returns (iter: TxId, fUsingModified: bool, mi': nat)
      requires mi <= |order| && (mi < |order| || m != map[]) && Elements(order) == cached.Keys
      requires mi < |order| ==> order[mi] !in m && order[mi] !in skipped
      ensures mi <= mi' <= |order|
      ensures if fUsingModified then iter in m && mi' == mi else mi < |order| && iter == order[mi] && mi' == mi + 1
      ensures mi < |order| ==> order[mi] in cached
      ensures fUsingModified && mi < |order| ==>
                better(Candidate(iter, m[iter]), Candidate(order[mi], cached[order[mi]]))
      ensures iter in Rest(order, mi, m, cached, skipped)
      ensures IsOrder(better, Rest(order, mi, m, cached, skipped)) && Sorted(better, cached, order) ==>
                Best(better, Rest(order, mi, m, cached, skipped), iter)
    {
      hide IsOrder, Sorted, Best;
      ghost var rest := Rest(order, mi, m, cached, skipped);
      assert mi < |order| ==> order[mi] in Elements(order);
      mi', fUsingModified := mi, false;
      var modit := 0;
      if m != map[] {
        modit := FindBest(m, better);
        iter := modit;
        fUsingModified := mi == |order| || better(Candidate(modit, m[modit]), Candidate(order[mi], cached[order[mi]]));
        if IsOrder(better, rest) {
          PartIsOrder(better, rest, m);
        }
      }
      if !fUsingModified {
        iter, mi' := order[mi], mi + 1;
      }
      if IsOrder(better, rest) && Sorted(better, cached, order) {
        if mi == |order| {
          assert rest == m;
        } else {
          SelectedIsBest(better, order, mi, m, cached, skipped, modit, iter);
        }
      }
    }

    // The transaction-level tests and, if they pass, the inclusion of the package.
    method TryPackage(iter: TxId, e: ModEntry, cached: map<TxId, ModEntry>, m: Modified,
                      ghost stale: map<TxId, set<TxId>>)
      returns (ok: bool, r: Modified)
      requires Valid() && CachedBy(pool, cached) && SumsHold(pool, cached, inBlock, stale, m)
      requires iter in pool.txs && iter !in inBlock && TestPackage(e.size, e.sigops)
      requires Holds(pool, cached, inBlock, Stale(stale, iter), iter, e)
      modifies this
      ensures Valid() && SumsHold(pool, cached, inBlock, stale, r)
      ensures nBlockWeight >= old(nBlockWeight) && nBlockSigOpsCost >= old(nBlockSigOpsCost)
      ensures var package := Missing(pool, old(inBlock), iter);
              if ok then
                && old(block) <= block && inBlock == old(inBlock) + package && iter in package
                && r.Keys == m.Keys - package + (pool.Affected(package) - package)
              else
                && block == old(block) && inBlock == old(inBlock) && r == m
                && nBlockWeight == old(nBlockWeight) && nBlockSigOpsCost == old(nBlockSigOpsCost)
      ensures ok <==> AllIncludable(Missing(pool, old(inBlock), iter))
    {
      var ancestors := OnlyUnconfirmed(pool.Anc(iter));
      ancestors := ancestors + {iter};
      MissingIs(pool, inBlock, iter);
      hide Total, Holds, SumsHold, CachedBy, Mempool.Valid, Valid, Includable;
      TestedFits(cached, Stale(stale, iter), iter, e);
      ok := TestPackageTransactions(ancestors);
      r := m;
      if ok {
        r := AddPackage(iter, ancestors, cached, m, stale);
      }
    }

    /** Why a transaction is not in the block: its missing part does not fit in, or some of it may not be
        included. For the weight its ancestors in the block count with the size the test had counted them
        with: by so much the part may have become lighter since it was refused. */
    ghost predicate Unfit(inBlock: set<TxId>, x: TxId) {
      var missing := Missing(pool, inBlock, x);
      || COINBASE_WEIGHT + Total(pool.Weights(), inBlock) + WITNESS_SCALE_FACTOR * Total(pool.Sizes(), missing)
         + Total(pool.Slacks(), pool.Anc(x) * inBlock) >= nBlockMaxWeight
      || COINBASE_SIGOPS + Total(pool.SigOps(), inBlock) + Total(pool.SigOps(), missing) >= MAX_BLOCK_SIGOPS_COST
      || exists y :: y in missing && !Includable(y)
    }

    // The weight test for the sums over a set of transactions.
    lemma WeightStands(inBlock: set<TxId>, added: set<TxId>, x: TxId)
      requires pool.Valid() && added !! inBlock && added <= pool.txs.Keys && x !in inBlock + added
      ensures var after := inBlock + added;
              Total(pool.Weights(), inBlock) + WITNESS_SCALE_FACTOR * Total(pool.Sizes(), Missing(pool, inBlock, x))
              + Total(pool.Slacks(), pool.Anc(x) * inBlock)
              <= Total(pool.Weights(), after) + WITNESS_SCALE_FACTOR * Total(pool.Sizes(), Missing(pool, after, x))
                 + Total(pool.Slacks(), pool.Anc(x) * after)
    {
      hide Total, Missing;
      var more := pool.Anc(x) * added;
      MissingShrinks(pool, pool.Sizes(), inBlock, added, x);
      TotalGrows(pool.Weights(), inBlock, added);
      PartAtMost(pool.Weights(), added, more);
      TotalGrows(pool.Slacks(), pool.Anc(x) * inBlock, more);
      assert pool.Anc(x) * (inBlock + added) == pool.Anc(x) * inBlock + more;
      SlackIs(pool, more);
    }

    lemma SigOpsStand(inBlock: set<TxId>, added: set<TxId>, x: TxId)
      requires added !! inBlock && x !in inBlock + added
      ensures var after := inBlock + added;
              Total(pool.SigOps(), inBlock) + Total(pool.SigOps(), Missing(pool, inBlock, x))
              <= Total(pool.SigOps(), after) + Total(pool.SigOps(), Missing(pool, after, x))
    {
      hide Total, Missing;
      MissingShrinks(pool, pool.SigOps(), inBlock, added, x);
      TotalGrows(pool.SigOps(), inBlock, added);
      PartAtMost(pool.SigOps(), added, pool.Anc(x) * added);
    }

    /** A reason to leave a transaction out stands whatever is included later, even its own ancestors. */
    lemma UnfitStands(inBlock: set<TxId>, added: set<TxId>, x: TxId)
      requires pool.Valid() && added !! inBlock && x !in inBlock + added && Unfit(inBlock, x)
      requires forall y :: y in added ==> Includable(y)
      ensures Unfit(inBlock + added, x)
    {
      hide Total;
      WeightStands(inBlock, added, x);
      SigOpsStand(inBlock, added, x);
      if y :| y in Missing(pool, inBlock, x) && !Includable(y) {
        assert y in Missing(pool, inBlock + added, x);
      }
    }

    // What the code would find if it held the exact sums.
    ghost predicate WouldPass(x: TxId)
      reads this
    {
      var missing := Missing(pool, inBlock, x);
      && TestPackage(Total(pool.Sizes(), missing), Total(pool.SigOps(), missing))
      && forall y :: y in missing ==> Includable(y)
    }

    /** What is unfit does not pass, exactly, when none of its ancestors in the block is lighter than its
        size; in any case its whole package would not pass, or some of it may not be included. */
    lemma UnfitIff(x: TxId)
      requires Valid() && x in pool.txs && x !in inBlock
      ensures !WouldPass(x) ==> Unfit(inBlock, x)
      ensures Total(pool.Slacks(), pool.Anc(x) * inBlock) == 0 ==> (Unfit(inBlock, x) <==> !WouldPass(x))
      ensures Unfit(inBlock, x) ==>
                || !TestPackage(Total(pool.Sizes(), pool.Package(x)), Total(pool.SigOps(), pool.Package(x)))
                || exists y :: y in Missing(pool, inBlock, x) && !Includable(y)
    {
      hide Total, Includable, ValidOrder, Booked, Mempool.Package, Missing;
      PackageSums(pool, inBlock, x);
    }

    // A refusal based on the exact sums.
    lemma Refused(cached: map<TxId, ModEntry>, x: TxId, e: ModEntry, fits: bool)
      requires Valid() && Holds(pool, cached, inBlock, {}, x, e) && fits == Passes(inBlock, e)
      requires fits ==> !AllIncludable(Missing(pool, inBlock, x))
      ensures Unfit(inBlock, x)
    {
      hide Total, Includable, ValidOrder, Booked;
      assert Missing(pool, inBlock, x) + {} == Missing(pool, inBlock, x);
      SlackPositive(pool, pool.Anc(x) * inBlock);
    }

    // Every transaction outside the block has an entry, is still to come in mapTx, or is unfit; so is
    // every one that has failed.
    ghost predicate Considered(inBlock: set<TxId>, order: seq<TxId>, mi: nat, failed: set<TxId>, m: Modified) {
      && mi <= |order|
      && (forall x :: x in pool.txs && x !in inBlock ==>
            x in m || (x in order[mi..] && x !in failed) || Unfit(inBlock, x))
      && (forall x :: x in failed && x !in inBlock ==> Unfit(inBlock, x))
    }

    lemma LaterInOrder(order: seq<TxId>, mi: nat, x: TxId)
      requires mi < |order| && x in order[mi..] && x != order[mi]
      ensures x in order[mi + 1..]
    {
      assert order[mi..] == [order[mi]] + order[mi + 1..];
    }

    lemma ConsideredSkip(inBlock: set<TxId>, order: seq<TxId>, mi: nat, failed: set<TxId>, m: Modified)
      requires Considered(inBlock, order, mi, failed, m) && mi < |order|
      requires order[mi] in m || order[mi] in inBlock || order[mi] in failed
      ensures Considered(inBlock, order, mi + 1, failed, m)
    {
      hide Unfit;
      forall x | x in order[mi..] && x != order[mi]
        ensures x in order[mi + 1..]
      {
        LaterInOrder(order, mi, x);
      }
    }

    lemma ConsideredIncluded(inBlock: set<TxId>, order: seq<TxId>, mi: nat, mi': nat, failed: set<TxId>, m: Modified,
                             package: set<TxId>, r: Modified)
      requires pool.Valid() && Considered(inBlock, order, mi, failed, m) && package !! inBlock
      requires forall y :: y in package ==> Includable(y)
      requires mi' == mi || (mi' == mi + 1 <= |order| && order[mi] in package)
      requires r.Keys == m.Keys - package + (pool.Affected(package) - package)
      ensures Considered(inBlock + package, order, mi', failed, r)
    {
      hide Unfit, Mempool.Valid, Includable;
      forall x | x !in inBlock + package && Unfit(inBlock, x)
        ensures Unfit(inBlock + package, x)
      {
        UnfitStands(inBlock, package, x);
      }
      forall x | x in pool.txs && x !in inBlock + package
        ensures x in r || (x in order[mi'..] && x !in failed) || Unfit(inBlock + package, x)
      {
        if x in m {
          assert x in r.Keys;
        } else if x in order[mi..] && x !in failed && mi' != mi {
          LaterInOrder(order, mi, x);
        }
      }
    }

    lemma ConsideredRefused(inBlock: set<TxId>, order: seq<TxId>, mi: nat, mi': nat, failed: set<TxId>, m: Modified,
                            x: TxId, fUsingModified: bool)
      requires Considered(inBlock, order, mi, failed, m) && Unfit(inBlock, x)
      requires if fUsingModified then mi' == mi else mi' == mi + 1 <= |order| && order[mi] == x
      ensures var failed', m' := if fUsingModified then failed + {x} else failed, if fUsingModified then m - {x} else m;
              Considered(inBlock, order, mi', failed', m')
    {
      hide Unfit;
      forall y | y in order[mi..] && !fUsingModified && y != x
        ensures y in order[mi + 1..]
      {
        LaterInOrder(order, mi, y);
      }
    }

    // The evaluation of one candidate with its sums e: it is included with its package, or refused; a
    // refused entry of mapModifiedTx is erased and remembered as failed.
    method Evaluate(iter: TxId, e: ModEntry, fUsingModified: bool, cached: map<TxId, ModEntry>, ghost order: seq<TxId>,
                    ghost mi: nat, ghost mi': nat, failedTx: set<TxId>, m: Modified, ghost stale: map<TxId, set<TxId>>)
      returns (fits: bool, ok: bool, failed': set<TxId>, m': Modified, ghost stale': map<TxId, set<TxId>>)
      requires Valid() && CachedBy(pool, cached) && SumsHold(pool, cached, inBlock, stale, m) && stale.Keys == failedTx
      requires iter in pool.txs && iter !in inBlock && Holds(pool, cached, inBlock, Stale(stale, iter), iter, e)
      requires Considered(inBlock, order, mi, failedTx, m)
      requires if fUsingModified then mi' == mi && iter in m else mi' == mi + 1 <= |order| && order[mi] == iter
      modifies this
      ensures Valid() && old(block) <= block && SumsHold(pool, cached, inBlock, stale', m') && stale'.Keys == failed'
      ensures Considered(inBlock, order, mi', failed', m')
      ensures fits <==> Passes(old(inBlock), e)
      ensures ok <==> fits && AllIncludable(Missing(pool, old(inBlock), iter))
      ensures if ok then iter in inBlock && inBlock == old(inBlock) + Missing(pool, old(inBlock), iter)
              else && block == old(block) && inBlock == old(inBlock) && nBlockWeight == old(nBlockWeight)
                   && m'.Keys == if fUsingModified then m.Keys - {iter} else m.Keys
    {
      hide Valid, SumsHold, CachedBy, Holds, Considered, Unfit, Missing, Mempool.Affected, Includable, Passes,
           AllIncludable, TestPackage;
      TestIsPasses(e);
      fits, ok, failed', m', stale' := TestPackage(e.size, e.sigops), false, failedTx, m, stale;
      ghost var before := inBlock;
      if fits {
        ok, m' := TryPackage(iter, e, cached, m, stale);
      }
      if ok {
        IncludedAll(before, iter);
        ConsideredIncluded(before, order, mi, mi', failedTx, m, Missing(pool, before, iter), m');
      } else {
        assert Unfit(inBlock, iter) by {
          if iter in failedTx {
            FailedUnfit(inBlock, order, mi, failedTx, m, iter);
          } else {
            Refused(cached, iter, e, fits);
          }
        }
        ConsideredRefused(inBlock, order, mi, mi', failedTx, m, iter, fUsingModified);
        if fUsingModified {
          FailedKeepsSums(pool, cached, inBlock, stale, m, iter);
          m' := m - {iter};
          failed' := failedTx + {iter};
          stale' := stale[iter := pool.Anc(iter) * inBlock];
        }
      }
    }

    lemma TestIsPasses(e: ModEntry)
      requires Valid()
      ensures TestPackage(e.size, e.sigops) <==> Passes(inBlock, e)
    {
      hide Total, ValidOrder, Booked;
    }

    lemma IncludedAll(before: set<TxId>, iter: TxId)
      requires Valid() && inBlock == before + Missing(pool, before, iter)
      ensures pool.Valid() && Missing(pool, before, iter) !! before
      ensures forall y :: y in Missing(pool, before, iter) ==> Includable(y)
    {
    }

    lemma FailedUnfit(inBlock: set<TxId>, order: seq<TxId>, mi: nat, failed: set<TxId>, m: Modified, x: TxId)
      requires Considered(inBlock, order, mi, failed, m) && x in failed && x !in inBlock
      ensures Unfit(inBlock, x)
    {
      hide Unfit;
    }

    // ----- the choices made -----

    // What an entry of a candidate holds, and that it is exact unless the candidate is unfit anyway.
    ghost predicate Known(cached: map<TxId, ModEntry>, inBlock: set<TxId>, x: TxId, e: ModEntry) {
      exists stale :: Holds(pool, cached, inBlock, stale, x, e) && (stale == {} || Unfit(inBlock, x))
    }

    // Everything outside the block is a candidate or unfit, and every candidate is known.
    ghost predicate Complete(cached: map<TxId, ModEntry>, inBlock: set<TxId>, rest: Modified) {
      && (forall x :: x in pool.txs && x !in inBlock ==> x in rest || Unfit(inBlock, x))
      && (forall x :: x in rest ==> x in pool.txs && x !in inBlock && Known(cached, inBlock, x, rest[x]))
    }

    // Whether the sums pass the test of a package, given what is in the block.
    ghost predicate Passes(inBlock: set<TxId>, e: ModEntry) {
      && COINBASE_WEIGHT + Total(pool.Weights(), inBlock) + WITNESS_SCALE_FACTOR * e.size < nBlockMaxWeight
      && COINBASE_SIGOPS + Total(pool.SigOps(), inBlock) + e.sigops < MAX_BLOCK_SIGOPS_COST
    }

    ghost predicate AllIncludable(package: set<TxId>) {
      forall y :: y in package ==> Includable(y)
    }

    /** One choice: what became of the candidate, by its sums and the block before, and what of the block. */
    ghost predicate RightPick(cached: map<TxId, ModEntry>, p: Pick, after: seq<TxId>) {
      var inBlock := Elements(p.before);
      && Complete(cached, inBlock, p.rest) && p.x in p.rest
      && var e, package := p.rest[p.x], Missing(pool, inBlock, p.x);
         match p.verdict
         case TooCheap => e.fees < minFee(e.size) && after == p.before
         case TooLarge => e.fees >= minFee(e.size) && !Passes(inBlock, e) && after == p.before
         case Barred =>
           e.fees >= minFee(e.size) && Passes(inBlock, e) && !AllIncludable(package) && after == p.before
         case Taken =>
           && e.fees >= minFee(e.size) && Passes(inBlock, e) && AllIncludable(package)
           && p.before <= after && Elements(after) == inBlock + package
    }

    // The block is within 4000 of its limit.
    ghost predicate CloseToFull(block: seq<TxId>) {
      COINBASE_WEIGHT + Total(pool.Weights(), Elements(block)) > nBlockMaxWeight - 4000
    }

    // Whether selection is over after these choices, before everything has been considered.
    ghost predicate Ends(picks: seq<Pick>, block: seq<TxId>) {
      picks != [] &&
      (Last(picks).verdict.TooCheap? || (Last(picks).verdict.TooLarge? && FailedEnough(Failures(picks), block)))
    }

    /** The choices that lead from one block to another: each is right, and none comes after the end. */
    ghost predicate Trace(cached: map<TxId, ModEntry>, picks: seq<Pick>, start: seq<TxId>, end: seq<TxId>)
      decreases |picks|
    {
      if picks == [] then start == end else
      && Trace(cached, Prior(picks), start, Last(picks).before) && !Ends(Prior(picks), Last(picks).before)
      && RightPick(cached, Last(picks), end)
    }

    lemma TraceNext(cached: map<TxId, ModEntry>, picks: seq<Pick>, start: seq<TxId>, p: Pick, end: seq<TxId>)
      requires Trace(cached, picks, start, p.before) && !Ends(picks, p.before) && RightPick(cached, p, end)
      ensures Trace(cached, picks + [p], start, end)
    {
      assert Prior(picks + [p]) == picks && Last(picks + [p]) == p;
    }

    // What is left to choose from is everything that is not unfit, with the sums it should have.
    lemma RestIsComplete(cached: map<TxId, ModEntry>, stale: map<TxId, set<TxId>>, m: Modified, order: seq<TxId>,
                         mi: nat, failed: set<TxId>)
      requires CachedBy(pool, cached) && SumsHold(pool, cached, inBlock, stale, m) && stale.Keys == failed
      requires Elements(order) == pool.txs.Keys && Considered(inBlock, order, mi, failed, m)
      ensures mi <= |order| && Complete(cached, inBlock, Rest(order, mi, m, cached, inBlock + failed))
    {
      hide Unfit, Holds, Rest, Base, Mempool.Affected, EntriesHold, AllCountedAgain, CachedBy, Known;
      var rest := Rest(order, mi, m, cached, inBlock + failed);
      forall x | x in rest
        ensures x in pool.txs && x !in inBlock && Known(cached, inBlock, x, rest[x])
      {
        assert x in order[mi..] ==> x in Elements(order);
        BaseIsKnown(cached, stale, m, order, mi, failed, x);
      }
    }

    lemma BaseIsKnown(cached: map<TxId, ModEntry>, stale: map<TxId, set<TxId>>, m: Modified, order: seq<TxId>, mi: nat,
                      failed: set<TxId>, x: TxId)
      requires CachedBy(pool, cached) && SumsHold(pool, cached, inBlock, stale, m) && stale.Keys == failed
      requires Considered(inBlock, order, mi, failed, m) && x in pool.txs && x !in inBlock
      ensures Known(cached, inBlock, x, Base(m, cached, x))
    {
      hide Unfit, Holds, SumsHold, CachedBy;
      BaseIsRight(pool, cached, inBlock, stale, m, x);
    }

    ghost predicate FailedEnough(failed: nat, block: seq<TxId>) {
      failed > 1000 && CloseToFull(block)
    }

    // The choices so far, after which selection goes on; failed is the counter of the code.
    ghost predicate Going(cached: map<TxId, ModEntry>, better: Comparator, order: seq<TxId>, start: seq<TxId>,
                          picks: seq<Pick>, block: seq<TxId>, failed: nat) {
      && Trace(cached, picks, start, block) && Greedy(better, cached, order, picks) && !Ends(picks, block)
      && start <= block && failed == Failures(picks) && !FailedEnough(failed, block)
    }

    /** Why selection ended: a candidate whose fees are too low for the sums held for it, 1001 candidates in a row
        that did not fit when the block is close to full, or nothing left but what is unfit. */
    ghost predicate Ended(cached: map<TxId, ModEntry>, picks: seq<Pick>, block: seq<TxId>, stop: Stop) {
      var inBlock := Elements(block);
      match stop
      case Exhausted => !Ends(picks, block) && forall x :: x in pool.txs && x !in inBlock ==> Unfit(inBlock, x)
      case FeeTooLow(x, e) =>
        && x in pool.txs && x !in inBlock && e.fees < minFee(e.size) && Known(cached, inBlock, x, e)
        && picks != [] && Last(picks).verdict.TooCheap? && Last(picks).x == x
        && x in Last(picks).rest && Last(picks).rest[x] == e
      case NearlyFull =>
        picks != [] && Last(picks).verdict.TooLarge? && CloseToFull(block) && Failures(picks) == 1001
    }

    // The block is close to full and nothing has succeeded in a while.
    predicate GivesUp(nConsecutiveFailed: nat)
      reads this
    {
      nConsecutiveFailed > MAX_CONSECUTIVE_FAILURES && nBlockWeight > nBlockMaxWeight - 4000
    }

    // The choice recorded, before it is known what comes of it.
    ghost predicate Chosen(cached: map<TxId, ModEntry>, better: Comparator, order: seq<TxId>, before: set<TxId>,
                           rest: Modified, x: TxId, e: ModEntry) {
      && Complete(cached, before, rest) && x in rest && rest[x] == e
      && (Sorted(better, cached, order) && IsOrder(better, rest) ==> Best(better, rest, x))
    }

    lemma PickNext(cached: map<TxId, ModEntry>, better: Comparator, order: seq<TxId>, start: seq<TxId>,
                   picks: seq<Pick>, p: Pick, e: ModEntry, failed: nat, fits: bool, ok: bool, after: seq<TxId>)
      requires Going(cached, better, order, start, picks, p.before, failed)
      requires Chosen(cached, better, order, Elements(p.before), p.rest, p.x, e)
      requires fits <==> Passes(Elements(p.before), e)
      requires ok <==> fits && AllIncludable(Missing(pool, Elements(p.before), p.x))
      requires e.fees >= minFee(e.size) && p.verdict == if ok then Taken else if fits then Barred else TooLarge
      requires if ok then
                 p.before <= after && Elements(after) == Elements(p.before) + Missing(pool, Elements(p.before), p.x)
               else after == p.before
      ensures Trace(cached, picks + [p], start, after) && Greedy(better, cached, order, picks + [p]) && start <= after
      ensures var failed' := if ok then 0 else if fits then failed else failed + 1;
              if !fits && FailedEnough(failed', after) then Ended(cached, picks + [p], after, NearlyFull)
              else Going(cached, better, order, start, picks + [p], after, failed')
    {
      hide Unfit, Passes, Complete, AllIncludable, Missing, Elements, IsOrder, Sorted, Best, CloseToFull;
      TraceNext(cached, picks, start, p, after);
      GreedyNext(better, cached, order, picks, p);
      assert Prior(picks + [p]) == picks && Last(picks + [p]) == p;
    }

    lemma PickCheap(cached: map<TxId, ModEntry>, better: Comparator, order: seq<TxId>, start: seq<TxId>,
                    picks: seq<Pick>, p: Pick, e: ModEntry, failed: nat)
      requires Going(cached, better, order, start, picks, p.before, failed)
      requires Chosen(cached, better, order, Elements(p.before), p.rest, p.x, e)
      requires e.fees < minFee(e.size) && p.verdict == TooCheap
      ensures Trace(cached, picks + [p], start, p.before) && Greedy(better, cached, order, picks + [p])
      ensures start <= p.before
      ensures Ended(cached, picks + [p], p.before, FeeTooLow(p.x, e))
    {
      hide Unfit, Known, Elements, IsOrder, Sorted, Best, CloseToFull;
      TraceNext(cached, picks, start, p, p.before);
      GreedyNext(better, cached, order, picks, p);
      assert Last(picks + [p]) == p;
    }

    // The block's list, set and weight belong together.
    lemma BlockIs(n: nat)
      requires Valid()
      ensures inBlock == Elements(block) && (GivesUp(n) <==> FailedEnough(n, block))
    {
    }

    lemma NoPicks(cached: map<TxId, ModEntry>, better: Comparator, order: seq<TxId>)
      ensures Going(cached, better, order, block, [], block, 0)
    {
    }

    // The next candidate, with the sums the code holds for it.
    method Choose(order: seq<TxId>, mi: nat, m: Modified, cached: map<TxId, ModEntry>, better: Comparator,
                  failedTx: set<TxId>, ghost stale: map<TxId, set<TxId>>)
      returns (iter: TxId, e: ModEntry, fUsingModified: bool, mi': nat, ghost rest: Modified)
      requires Valid() && CachedBy(pool, cached) && SumsHold(pool, cached, inBlock, stale, m) && stale.Keys == failedTx
      requires Considered(inBlock, order, mi, failedTx, m) && Elements(order) == pool.txs.Keys
      requires mi <= |order| && (mi < |order| || m != map[])
      requires mi < |order| ==> order[mi] !in m && order[mi] !in inBlock && order[mi] !in failedTx
      ensures Chosen(cached, better, order, inBlock, rest, iter, e)
      ensures iter in pool.txs && iter !in inBlock && Holds(pool, cached, inBlock, Stale(stale, iter), iter, e)
      ensures if fUsingModified then mi' == mi && iter in m else mi' == mi + 1 <= |order| && order[mi] == iter
    {
      hide SumsHold, Holds, Considered, Elements, Complete, IsOrder, Sorted, Best, Rest;
      BlockIs(0);
      RestIsComplete(cached, stale, m, order, mi, failedTx);
      assert cached.Keys == pool.txs.Keys;
      hide Valid, CachedBy;
      rest := Rest(order, mi, m, cached, inBlock + failedTx);
      iter, fUsingModified, mi' := Select(order, mi, m, cached, better, inBlock + failedTx);
      e := if fUsingModified then m[iter] else cached[iter];
      PickedIsOutside(pool, cached, inBlock, stale, m, order, mi, iter, fUsingModified);
    }

    /** Package selection. `order` is mapTx by ancestor score and `better` the comparison of scores. The loop
        ends, the block only grows by packages that keep it valid and within its limits, and it ends early
        only for the two reasons the code gives. The choices are right, and when the comparison is an
        order and mapTx sorted by it, each is the best of what was left. */
    method AddPackageTxs(order: seq<TxId>, cached: map<TxId, ModEntry>, better: Comparator)
      returns (stop: Stop, ghost picks: seq<Pick>)
      requires Valid() && CachedBy(pool, cached) && Elements(order) == pool.txs.Keys
      modifies this
      ensures Valid() && old(block) <= block
      ensures Trace(cached, picks, old(block), block) && Greedy(better, cached, order, picks)
      ensures Ended(cached, picks, block, stop)
    {
      hide Valid, SumsHold, Holds, Elements, TestPackage, Considered, Unfit, Missing, Mempool.Affected, Trace, Going,
           Chosen, Greedy, Passes, AllIncludable, Ended, FailedEnough, GivesUp;
      assert cached.Keys == pool.txs.Keys;
      hide CachedBy;
      var failedTx: set<TxId> := {};
      var mapModifiedTx := StartModified(cached);
      ghost var stale: map<TxId, set<TxId>> := map[];
      AllToCome(order, mapModifiedTx);
      var mi, nConsecutiveFailed := 0, 0;
      picks := [];
      NoPicks(cached, better, order);
      while mi < |order| || mapModifiedTx != map[]
        invariant 0 <= mi <= |order| && Valid() && stale.Keys == failedTx
        invariant SumsHold(pool, cached, inBlock, stale, mapModifiedTx)
        invariant Considered(inBlock, order, mi, failedTx, mapModifiedTx)
        invariant Going(cached, better, order, old(block), picks, block, nConsecutiveFailed)
        decreases pool.txs.Keys - inBlock, |order| - mi, mapModifiedTx.Keys
      {
        // SkipMapTxEntry
        if mi < |order| && (order[mi] in mapModifiedTx || order[mi] in inBlock || order[mi] in failedTx) {
          ConsideredSkip(inBlock, order, mi, failedTx, mapModifiedTx);
          mi := mi + 1;
          continue;
        }
        ghost var before, keys := block, mapModifiedTx.Keys;
        BlockIs(nConsecutiveFailed + 1);
        var iter, e, fUsingModified, mi';
        ghost var rest;
        iter, e, fUsingModified, mi', rest := Choose(order, mi, mapModifiedTx, cached, better, failedTx, stale);
        if e.fees < minFee(e.size) {
          ghost var p := Pick(before, rest, iter, TooCheap);
          PickCheap(cached, better, order, old(block), picks, p, e, nConsecutiveFailed);
          return FeeTooLow(iter, e), picks + [p];
        }
        var fits, ok;
        fits, ok, failedTx, mapModifiedTx, stale :=
          Evaluate(iter, e, fUsingModified, cached, order, mi, mi', failedTx, mapModifiedTx, stale);
        mi := mi';
        BlockIs(nConsecutiveFailed + 1);
        ghost var p := Pick(before, rest, iter, if ok then Taken else if fits then Barred else TooLarge);
        PickNext(cached, better, order, old(block), picks, p, e, nConsecutiveFailed, fits, ok, block);
        picks := picks + [p];
        if ok {
          nConsecutiveFailed := 0;
          FewerLeft(pool.txs.Keys, Elements(before), inBlock, iter);
        } else {
          if !fits {
            nConsecutiveFailed := nConsecutiveFailed + 1;
            if GivesUp(nConsecutiveFailed) {
              return NearlyFull, picks;
            }
          }
          FewerEntries(mapModifiedTx.Keys, keys, iter, fUsingModified);
        }
      }
      AllUnfit(cached, better, order, old(block), picks, nConsecutiveFailed, failedTx);
      stop := Exhausted;
    }

    lemma AllToCome(order: seq<TxId>, m: Modified)
      requires Elements(order) == pool.txs.Keys
      ensures Considered(inBlock, order, 0, {}, m)
    {
      hide Unfit;
      assert order[0..] == order && forall x :: x in Elements(order) ==> x in order;
    }

    lemma AllUnfit(cached: map<TxId, ModEntry>, better: Comparator, order: seq<TxId>, start: seq<TxId>,
                   picks: seq<Pick>, failures: nat, failed: set<TxId>)
      requires Valid() && Considered(inBlock, order, |order|, failed, map[])
      requires Going(cached, better, order, start, picks, block, failures)
      ensures Trace(cached, picks, start, block) && Greedy(better, cached, order, picks) && start <= block
      ensures Ended(cached, picks, block, Exhausted)
    {
      hide Unfit, Trace, Greedy;
    }
  }

  // What became of a candidate.
  datatype Verdict = Taken | TooLarge | Barred | TooCheap

  // One candidate that was evaluated: the block before, what was left to choose from, and the choice.
  datatype Pick = Pick(before: seq<TxId>, rest: Modified, x: TxId, verdict: Verdict)

  function Last(picks: seq<Pick>): Pick
    requires picks != []
  {
    picks[|picks| - 1]
  }

  function Prior(picks: seq<Pick>): seq<Pick>
    requires picks != []
  {
    picks[..|picks| - 1]
  }

  // How many candidates did not fit since one was last included.
  function Failures(picks: seq<Pick>): nat {
    if picks == [] then 0
    else match Last(picks).verdict
      case Taken => 0
      case TooLarge => Failures(Prior(picks)) + 1
      case _ => Failures(Prior(picks))
  }

  // Each candidate chosen was the best of those left, if the comparison is an order and mapTx sorted by it.
  ghost predicate Greedy(better: Comparator, cached: map<TxId, ModEntry>, order: seq<TxId>, picks: seq<Pick>) {
    Sorted(better, cached, order) ==>
      forall i :: 0 <= i < |picks| && IsOrder(better, picks[i].rest) ==> Best(better, picks[i].rest, picks[i].x)
  }

  lemma GreedyNext(better: Comparator, cached: map<TxId, ModEntry>, order: seq<TxId>, picks: seq<Pick>, p: Pick)
    requires Greedy(better, cached, order, picks)
    requires Sorted(better, cached, order) && IsOrder(better, p.rest) ==> Best(better, p.rest, p.x)
    ensures forall v :: Greedy(better, cached, order, picks + [p.(verdict := v)])
  {
    hide IsOrder, Sorted, Best;
  }

  // Why package selection ended.
  datatype Stop = Exhausted | FeeTooLow(x: TxId, e: ModEntry) | NearlyFull

  // The transaction to evaluate is not in the block, and its sums are what they should be.
  lemma PickedIsOutside(pool: Mempool, cached: map<TxId, ModEntry>, inBlock: set<TxId>, stale: map<TxId, set<TxId>>,
                        m: Modified, order: seq<TxId>, mi: nat, iter: TxId, fUsingModified: bool)
    requires CachedBy(pool, cached) && SumsHold(pool, cached, inBlock, stale, m) && Elements(order) == pool.txs.Keys
    requires if fUsingModified then iter in m
             else mi < |order| && iter == order[mi] && iter !in m && iter !in inBlock && iter !in stale
    ensures iter in pool.txs && iter !in inBlock
    ensures var e := Base(if fUsingModified then m else map[], cached, iter);
            Holds(pool, cached, inBlock, Stale(stale, iter), iter, e)
    ensures !fUsingModified ==> pool.Anc(iter) * inBlock == {}
  {
    hide Total, Holds;
    if !fUsingModified {
      assert order[mi] in Elements(order);
    }
    BaseIsRight(pool, cached, inBlock, stale, m, iter);
  }

  lemma FewerEntries(keys': set<TxId>, keys: set<TxId>, x: TxId, fUsingModified: bool)
    requires keys' == if fUsingModified then keys - {x} else keys
    requires fUsingModified ==> x in keys
    ensures if fUsingModified then keys' < keys else keys' == keys
  {
  }

  lemma FewerLeft(all: set<TxId>, before: set<TxId>, after: set<TxId>, x: TxId)
    requires before <= after && x in all && x in after && x !in before
    ensures all - after < all - before
  {
    assert x in all - before;
  }

  lemma StartingSums(pool: Mempool, cached: map<TxId, ModEntry>)
    ensures SumsHold(pool, cached, {}, map[], map[])
    ensures pool.Closed({})
  {
  }

  // Erasing an entry that failed and remembering the failure keeps the meaning of the sums.
  lemma FailedKeepsSums(pool: Mempool, cached: map<TxId, ModEntry>, inBlock: set<TxId>, stale: map<TxId, set<TxId>>,
                        m: Modified, iter: TxId)
    requires SumsHold(pool, cached, inBlock, stale, m)
    ensures SumsHold(pool, cached, inBlock, stale[iter := pool.Anc(iter) * inBlock], m - {iter})
  {
    hide Holds, Mempool.Affected;
  }

  // ----- where the sums are wrong -----

  lemma TotalOne(f: TxId -> int, x: TxId)
    ensures Total(f, {x}) == f(x)
  {
    TotalWithout(f, {x}, x);
    assert {x} - {x} == {};
    TotalNone(f);
  }

  lemma TotalTwo(f: TxId -> int, x: TxId, y: TxId)
    requires x != y
    ensures Total(f, {x, y}) == f(x) + f(y)
  {
    TotalOne(f, x);
    TotalWith(f, {x}, y);
    assert {x} + {y} == {x, y};
  }

  lemma TotalThree(f: TxId -> int, x: TxId, y: TxId, z: TxId)
    requires x != y && z !in {x, y}
    ensures Total(f, {x, y, z}) == f(x) + f(y) + f(z)
  {
    TotalTwo(f, x, y);
    TotalWith(f, {x, y}, z);
    assert {x, y} + {z} == {x, y, z};
  }

  // Two parents that do not depend on each other, and their child.
  function Family(): Mempool {
    Mempool(map[0 := Tx(1000, 400, 0, 0, 0, false), 1 := Tx(1000, 400, 0, 0, 0, false),
                2 := Tx(200, 800, 0, 0, 0, false)],
            map[0 := {}, 1 := {}, 2 := {0, 1}])
  }

  lemma FamilyFacts()
    ensures Family().Anc(2) == {0, 1} && Family().Package(1) == {1} && Family().Package(2) == {0, 1, 2}
    ensures Family().txs.Keys == {0, 1, 2}
    ensures Family().Sizes()(0) == Family().Sizes()(1) == 1000 && Family().Sizes()(2) == 200
  {
    assert Family().Anc(1) == {};
  }

  lemma FamilyValid()
    ensures Family().Valid()
  {
    var pool := Family();
    assert pool.txs.Keys == pool.ancestors.Keys == {0, 1, 2};
    assert pool.Anc(0) == {} && pool.Anc(1) == {} && pool.Anc(2) == {0, 1};
    assert forall x :: x in pool.txs ==> x == 0 || x == 1 || x == 2;
    assert forall x :: x !in pool.txs ==> pool.Anc(x) == {};
  }

  lemma FamilyCached(cached: map<TxId, ModEntry>)
    requires CachedBy(Family(), cached)
    ensures 1 in cached && cached[1].size == 1000 && 2 in cached && cached[2].size == 2200
  {
    hide Family, Total, Mempool.Sizes, Mempool.Valid, Mempool.Anc, Mempool.Package;
    FamilyFacts();
    var f := Family().Sizes();
    TotalOne(f, 1);
    TotalThree(f, 0, 1, 2);
  }

  lemma ReducedSize(pool: Mempool, cached: map<TxId, ModEntry>, m: Modified, parent: TxId, d: TxId, r: Modified)
    requires Accounted(pool, cached, m, {parent}, {parent}, r) && d in cached && d !in m && d != parent
    requires d in pool.txs && parent in pool.Anc(d)
    ensures d in r && r[d].size == cached[d].size - pool.Sizes()(parent)
  {
    hide Total, FeesAfter;
    assert pool.Anc(d) * {parent} == {parent};
    AffectedByOne(pool, parent, d);
    TotalOne(pool.Sizes(), parent);
  }

  /** A package that failed is refused again although it would fit, because its new entry counts the first
      parent once more. The limit is 9000; the child fails between its two parents, and after the second
      the entry the code makes for it still says 1200 where only 200 are missing. */
  lemma RefusedThoughItFits(cached: map<TxId, ModEntry>, m1: Modified, m2: Modified)
    requires CachedBy(Family(), cached)
    requires Accounted(Family(), cached, map[], {0}, {0}, m1)
    requires Accounted(Family(), cached, m1 - {2}, {1}, {1}, m2)
    ensures Family().Valid() && 1 in cached && 2 in m1 && 2 in m2
    ensures var first, second := COINBASE_WEIGHT + 400, COINBASE_WEIGHT + 400 + 400;
            && first + WITNESS_SCALE_FACTOR * m1[2].size >= 9000
            && first + WITNESS_SCALE_FACTOR * cached[1].size < 9000
            && second + WITNESS_SCALE_FACTOR * m2[2].size >= 9000
            && second + WITNESS_SCALE_FACTOR * Total(Family().Sizes(), Missing(Family(), {0, 1}, 2)) < 9000
  {
    hide Family, Accounted, Total, Mempool.Sizes, Mempool.Valid, Mempool.Anc, Mempool.Package, CachedBy;
    FamilyFacts();
    FamilyValid();
    FamilyCached(cached);
    TotalOne(Family().Sizes(), 2);
    ReducedSize(Family(), cached, map[], 0, 2, m1);
    ReducedSize(Family(), cached, m1 - {2}, 1, 2, m2);
    assert Missing(Family(), {0, 1}, 2) == {2};
  }

  /** The fees of an entry against the modified fees of what it counts: off by what was added to the fees
      of the ancestors included after the first, so right exactly when that sums to nothing. */
  lemma FeesExactIff(pool: Mempool, cached: map<TxId, ModEntry>, inBlock: set<TxId>, stale: set<TxId>, d: TxId,
                     e: ModEntry)
    requires d in cached && cached[d].fees == Total(pool.ModifiedFees(), pool.Package(d))
    requires Holds(pool, cached, inBlock, stale, d, e) && d !in inBlock
    ensures var gone, counted := pool.Anc(d) * inBlock - stale, Missing(pool, inBlock, d) + stale;
            if gone == {} then e.fees == Total(pool.ModifiedFees(), counted)
            else exists first :: first in gone && e.fees == FeesLess(pool, cached[d].fees, gone, first)
                   && e.fees == Total(pool.ModifiedFees(), counted) + Total(pool.Priority(), gone - {first})
  {
    hide Total;
    var gone, counted := pool.Anc(d) * inBlock - stale, Missing(pool, inBlock, d) + stale;
    assert pool.Package(d) == counted + gone;
    TotalGrows(pool.ModifiedFees(), counted, gone);
    TotalSum(pool.ModifiedFees(), pool.Fees(), pool.Priority(), gone);
    TotalNone(pool.Fees());
    TotalNone(pool.ModifiedFees());
    if gone != {} {
      var first :| first in gone && e.fees == FeesLess(pool, cached[d].fees, gone, first);
      TotalWithout(pool.Priority(), gone, first);
      assert e.fees == Total(pool.ModifiedFees(), counted) + Total(pool.Priority(), gone - {first});
    }
  }

  // A chain of three transactions.
  function ChainOf(t0: Tx, t1: Tx, t2: Tx): Mempool {
    Mempool(map[0 := t0, 1 := t1, 2 := t2], map[0 := {}, 1 := {0}, 2 := {0, 1}])
  }

  // The inclusion of a single ancestor.
  lemma ReducedFees(pool: Mempool, cached: map<TxId, ModEntry>, m: Modified, parent: TxId, d: TxId, r: Modified)
    requires Accounted(pool, cached, m, {parent}, {parent}, r) && d in cached && d != parent
    requires d in pool.txs && parent in pool.txs && parent in pool.Anc(d)
    ensures d in r && r[d].fees == Base(m, cached, d).fees -
                                   if d in m then pool.txs[parent].fee else pool.txs[parent].modifiedFee
  {
    hide Total;
    assert pool.Anc(d) * {parent} == {parent};
    AffectedByOne(pool, parent, d);
    TotalOne(pool.Fees(), parent);
  }

  /** In a chain whose first two transactions are included one after the other, the entry of the third is
      off by exactly what was added to the fee of the second. */
  lemma ChainFees(t0: Tx, t1: Tx, t2: Tx, cached: map<TxId, ModEntry>, m1: Modified, m2: Modified)
    requires 2 in cached && cached[2].fees == t0.modifiedFee + t1.modifiedFee + t2.modifiedFee
    requires Accounted(ChainOf(t0, t1, t2), cached, map[], {0}, {0}, m1)
    requires Accounted(ChainOf(t0, t1, t2), cached, m1 - {1}, {1}, {1}, m2)
    ensures 2 in m2 && m2[2].fees == t2.modifiedFee + (t1.modifiedFee - t1.fee)
  {
    hide Accounted;
    ReducedFees(ChainOf(t0, t1, t2), cached, map[], 0, 2, m1);
    ReducedFees(ChainOf(t0, t1, t2), cached, m1 - {1}, 1, 2, m2);
  }
}
