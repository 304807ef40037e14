/**
 The ancestor score of src/txmempool.h by which src/miner.cpp chooses packages, and what choosing by it means.
 Products are exact, not rounded to doubles.

 Main results: ScoreDecides and RestIsOrder (the comparison orders candidates by the lower of two fee rates),
 ChoicesAreBest (so every choice is the best of what is left), NothingPaysBoth with CheaperThanLeft (what may
 be left when selection stops for a low fee).
 */
module MinerScore {
  import opened Miner

  // ----- the comparison -----

  datatype Rate = Rate(fee: int, size: int)

  // GetModFeeAndSize: the fee and size of the package or of the transaction itself, whichever rate is lower.
  function ModFeeAndSize(tx: Tx, e: ModEntry): Rate {
    if tx.modifiedFee * e.size > e.fees * tx.size then Rate(e.fees, e.size) else Rate(tx.modifiedFee, tx.size)
  }

  // CompareTxMemPoolEntryByAncestorFee; a TxId stands for the hash of a transaction.
  function AncestorScore(pool: Mempool): Comparator {
    (a: Candidate, b: Candidate) =>
      && a.x in pool.txs && b.x in pool.txs
      && var r, q := ModFeeAndSize(pool.txs[a.x], a.e), ModFeeAndSize(pool.txs[b.x], b.e);
         if r.fee * q.size == r.size * q.fee then a.x < b.x else r.fee * q.size > r.size * q.fee
  }

  ghost function PerByte(fee: int, size: int): real
    requires size > 0
  {
    fee as real / size as real
  }

  ghost predicate Proper(pool: Mempool, a: Candidate) {
    a.x in pool.txs && pool.txs[a.x].size > 0 && a.e.size > 0
  }

  ghost function OwnRate(pool: Mempool, a: Candidate): real
    requires Proper(pool, a)
  {
    PerByte(pool.txs[a.x].modifiedFee, pool.txs[a.x].size)
  }

  ghost function PackageRate(pool: Mempool, a: Candidate): real
    requires Proper(pool, a)
  {
    PerByte(a.e.fees, a.e.size)
  }

  // The lower of the fee rate of the transaction and that of its package.
  ghost function Score(pool: Mempool, a: Candidate): real
    requires Proper(pool, a)
  {
    if OwnRate(pool, a) < PackageRate(pool, a) then OwnRate(pool, a) else PackageRate(pool, a)
  }

  lemma ProductSign(x: real, y: real)
    requires y > 0.0
    ensures x > 0.0 <==> x * y > 0.0
  {
  }

  // Fee rates compare like the products across.
  lemma Across(a: int, b: int, c: int, d: int)
    requires b > 0 && d > 0
    ensures PerByte(a, b) > PerByte(c, d) <==> a * d > b * c
    ensures PerByte(a, b) == PerByte(c, d) <==> a * d == b * c
  {
    AcrossOne(a, b, c, d);
    AcrossOne(c, d, a, b);
    assert a * d == d * a && b * c == c * b;
  }

  lemma AcrossOne(a: int, b: int, c: int, d: int)
    requires b > 0 && d > 0
    ensures PerByte(a, b) > PerByte(c, d) <==> a * d > b * c
  {
    var x, y, rb, rd := PerByte(a, b), PerByte(c, d), b as real, d as real;
    assert x * rb == a as real && y * rd == c as real;
    assert rb * rd > 0.0;
    ProductSign(x - y, rb * rd);
    assert (x - y) * (rb * rd) == x * rb * rd - y * rd * rb;
    assert x * rb * rd == (a * d) as real && y * rd * rb == (b * c) as real;
  }

  /** The comparison is by the lower of the two fee rates, ties by hash. */
  lemma ScoreDecides(pool: Mempool, a: Candidate, b: Candidate)
    requires Proper(pool, a) && Proper(pool, b)
    ensures AncestorScore(pool)(a, b) <==>
            Score(pool, a) > Score(pool, b) || (Score(pool, a) == Score(pool, b) && a.x < b.x)
  {
    hide PerByte;
    LowerRate(pool, a);
    LowerRate(pool, b);
    var r, q := ModFeeAndSize(pool.txs[a.x], a.e), ModFeeAndSize(pool.txs[b.x], b.e);
    Across(r.fee, r.size, q.fee, q.size);
  }

  lemma LowerRate(pool: Mempool, a: Candidate)
    requires Proper(pool, a)
    ensures var r := ModFeeAndSize(pool.txs[a.x], a.e); r.size > 0 && PerByte(r.fee, r.size) == Score(pool, a)
  {
    hide PerByte;
    var tx := pool.txs[a.x];
    Across(tx.modifiedFee, tx.size, a.e.fees, a.e.size);
    assert tx.size * a.e.fees == a.e.fees * tx.size;
  }

  // ----- every choice is the best -----

  ghost predicate Positive(pool: Mempool) {
    forall x :: x in pool.txs ==> pool.txs[x].size > 0
  }

  lemma KnownIsProper(b: BlockAssembler, cached: map<TxId, ModEntry>, inBlock: set<TxId>, x: TxId, e: ModEntry)
    requires Positive(b.pool) && x in b.pool.txs && x !in inBlock && b.Known(cached, inBlock, x, e)
    ensures Proper(b.pool, Candidate(x, e))
  {
    var stale :| Holds(b.pool, cached, inBlock, stale, x, e) && (stale == {} || b.Unfit(inBlock, x));
    hide Total, BlockAssembler.Unfit;
    var counted := Missing(b.pool, inBlock, x) + stale;
    TotalWithout(b.pool.Sizes(), counted, x);
    TotalPositive(b.pool.Sizes(), counted - {x});
  }

  /** The comparison is an order on what is left to choose from. */
  lemma RestIsOrder(b: BlockAssembler, cached: map<TxId, ModEntry>, inBlock: set<TxId>, rest: Modified)
    requires Positive(b.pool) && b.Complete(cached, inBlock, rest)
    ensures IsOrder(AncestorScore(b.pool), rest)
    ensures forall x :: x in rest ==> Proper(b.pool, Candidate(x, rest[x]))
  {
    hide BlockAssembler.Known, BlockAssembler.Unfit, Proper, AncestorScore, Score;
    forall x | x in rest
      ensures Proper(b.pool, Candidate(x, rest[x]))
    {
      KnownIsProper(b, cached, inBlock, x, rest[x]);
    }
    forall x, y | x in rest && y in rest
      ensures var s, t := Score(b.pool, Candidate(x, rest[x])), Score(b.pool, Candidate(y, rest[y]));
              Beats(AncestorScore(b.pool), rest, x, y) <==> s > t || (s == t && x < y)
    {
      ScoreDecides(b.pool, Candidate(x, rest[x]), Candidate(y, rest[y]));
    }
  }

  lemma {:induction false} PickInTrace(b: BlockAssembler, cached: map<TxId, ModEntry>, picks: seq<Pick>,
                                       start: seq<TxId>, end: seq<TxId>, i: nat)
    requires b.Trace(cached, picks, start, end) && i < |picks|
    ensures b.Complete(cached, Elements(picks[i].before), picks[i].rest) && picks[i].x in picks[i].rest
    decreases |picks|
  {
    hide BlockAssembler.Complete, BlockAssembler.Ends, BlockAssembler.Passes, BlockAssembler.AllIncludable;
    if i < |picks| - 1 {
      PickInTrace(b, cached, Prior(picks), start, Last(picks).before, i);
    }
  }

  /** In every selection over a pool sorted by ancestor score, no candidate left has a higher score than the one
      chosen. */
  lemma ChoicesAreBest(b: BlockAssembler, cached: map<TxId, ModEntry>, order: seq<TxId>, picks: seq<Pick>,
                       start: seq<TxId>, end: seq<TxId>, i: nat, y: TxId)
    requires b.Trace(cached, picks, start, end) && Greedy(AncestorScore(b.pool), cached, order, picks)
    requires Sorted(AncestorScore(b.pool), cached, order) && Positive(b.pool) && i < |picks| && y in picks[i].rest
    ensures var p := picks[i];
            && p.x in p.rest && Proper(b.pool, Candidate(p.x, p.rest[p.x])) && Proper(b.pool, Candidate(y, p.rest[y]))
            && Score(b.pool, Candidate(y, p.rest[y])) <= Score(b.pool, Candidate(p.x, p.rest[p.x]))
  {
    hide BlockAssembler.Trace, Sorted, AncestorScore, Score, BlockAssembler.Complete, Proper, IsOrder;
    PickInTrace(b, cached, picks, start, end, i);
    var p := picks[i];
    RestIsOrder(b, cached, Elements(p.before), p.rest);
    assert Best(AncestorScore(b.pool), p.rest, p.x);
    assert !Beats(AncestorScore(b.pool), p.rest, y, p.x);
    ScoreDecides(b.pool, Candidate(y, p.rest[y]), Candidate(p.x, p.rest[p.x]));
  }

  // ----- stopping for a low fee -----

  // CFeeRate::GetFee for a rate per thousand bytes.
  function GetFee(rate: nat, size: nat): nat {
    var fee := rate * size / 1000;
    if fee == 0 && size != 0 && rate > 0 then 1 else fee
  }

  /** The rate times the size, rounded down, but at least one unless nothing is due. */
  lemma GetFeeIs(rate: nat, size: nat)
    ensures var due, fee := rate * size, GetFee(rate, size);
            if due == 0 then fee == 0 else if due < 1000 then fee == 1 else 1000 * fee <= due < 1000 * fee + 1000
  {
    assert rate > 0 && size > 0 ==> rate * size > 0;
  }

  lemma BelowFee(rate: nat, size: nat, fees: int)
    requires size > 0 && fees < GetFee(rate, size)
    ensures 1000 * fees < rate * size
  {
    assert rate > 0 ==> rate * size > 0;
  }

  lemma {:induction false} LastTooCheap(b: BlockAssembler, cached: map<TxId, ModEntry>, picks: seq<Pick>,
                                        start: seq<TxId>, end: seq<TxId>)
    requires b.Trace(cached, picks, start, end) && picks != [] && Last(picks).verdict.TooCheap?
    ensures var p := Last(picks); p.x in p.rest && p.rest[p.x].fees < b.minFee(p.rest[p.x].size)
  {
    hide BlockAssembler.Complete, BlockAssembler.Ends, BlockAssembler.Passes, BlockAssembler.AllIncludable, Elements,
         Missing;
  }

  /** When selection stops for a low fee, nothing left pays the minimum rate both for itself and for its package. */
  lemma NothingPaysBoth(b: BlockAssembler, cached: map<TxId, ModEntry>, order: seq<TxId>, picks: seq<Pick>,
                        start: seq<TxId>, end: seq<TxId>, rate: nat, y: TxId)
    requires b.Trace(cached, picks, start, end) && Greedy(AncestorScore(b.pool), cached, order, picks)
    requires Sorted(AncestorScore(b.pool), cached, order) && Positive(b.pool)
    requires forall n: nat :: n > 0 ==> b.minFee(n) == GetFee(rate, n)
    requires picks != [] && Last(picks).verdict.TooCheap? && y in Last(picks).rest
    ensures var e := Last(picks).rest[y];
            y in b.pool.txs && (1000 * b.pool.txs[y].modifiedFee < rate * b.pool.txs[y].size
                                || 1000 * e.fees < rate * e.size)
  {
    hide BlockAssembler.Trace, Sorted, Greedy, AncestorScore, PerByte, GetFee;
    var p := Last(picks);
    ChoicesAreBest(b, cached, order, picks, start, end, |picks| - 1, y);
    LastTooCheap(b, cached, picks, start, end);
    var x, e := Candidate(y, p.rest[y]), p.rest[p.x];
    BelowFee(rate, e.size, e.fees);
    Across(rate, 1000, e.fees, e.size);
    Across(rate, 1000, x.e.fees, x.e.size);
    Across(rate, 1000, b.pool.txs[y].modifiedFee, b.pool.txs[y].size);
  }

  // A parent that pays nothing, two children that pay well, and a grandchild that pays nothing itself.
  function Kin(): Mempool {
    Mempool(map[0 := Tx(1000, 4000, 0, 0, 0, false), 1 := Tx(1000, 4000, 0, 10000, 10000, false),
                2 := Tx(1000, 4000, 0, 10000, 10000, false), 3 := Tx(10, 40, 0, 0, 0, false)],
            map[0 := {}, 1 := {0}, 2 := {0}, 3 := {0, 1, 2}])
  }

  // The sums over the four packages.
  function KinSums(): Modified {
    map[0 := ModEntry(1000, 0, 0), 1 := ModEntry(2000, 10000, 0), 2 := ModEntry(2000, 10000, 0),
        3 := ModEntry(3010, 20000, 0)]
  }

  lemma KinRates()
    ensures var txs, c := Kin().txs, KinSums();
            && txs.Keys == c.Keys == {0, 1, 2, 3}
            && ModFeeAndSize(txs[0], c[0]) == Rate(0, 1000) && ModFeeAndSize(txs[3], c[3]) == Rate(0, 10)
            && ModFeeAndSize(txs[1], c[1]) == ModFeeAndSize(txs[2], c[2]) == Rate(10000, 2000)
  {
    assert Kin().txs.Keys == KinSums().Keys == {0, 1, 2, 3};
  }

  lemma KinValid()
    ensures Kin().Valid()
  {
    var pool := Kin();
    assert pool.txs.Keys == pool.ancestors.Keys == {0, 1, 2, 3};
    assert pool.Anc(0) == {} && pool.Anc(1) == {0} && pool.Anc(2) == {0} && pool.Anc(3) == {0, 1, 2};
    assert forall x :: x in pool.txs ==> x == 0 || x == 1 || x == 2 || x == 3;
    assert forall x :: x !in pool.txs ==> pool.Anc(x) == {};
  }

  lemma KinValues()
    ensures var f, g := Kin().Sizes(), Kin().SigOps();
            && f(0) == f(1) == f(2) == 1000 && f(3) == 10 && g(0) == g(1) == g(2) == g(3) == 0
    ensures var c := KinSums();
            && Kin().txs.Keys == c.Keys == {0, 1, 2, 3}
            && c[0].size == 1000 && c[1].size == c[2].size == 2000 && c[3].size == 3010
            && c[0].sigops == c[1].sigops == c[2].sigops == c[3].sigops == 0
  {
    assert Kin().txs.Keys == KinSums().Keys == {0, 1, 2, 3};
  }

  // They are the sums the pool caches.
  lemma KinCached()
    ensures CachedBy(Kin(), KinSums())
  {
    hide Kin, KinSums, Total, Mempool.Sizes, Mempool.SigOps, Mempool.Package;
    KinValues();
    KinPackages(Kin().Sizes());
    KinPackages(Kin().SigOps());
    assert forall x :: x in KinSums() ==> x == 0 || x == 1 || x == 2 || x == 3;
  }

  lemma KinPackages(f: TxId -> int)
    ensures Total(f, Kin().Package(0)) == f(0) && Total(f, Kin().Package(1)) == f(0) + f(1)
    ensures Total(f, Kin().Package(2)) == f(0) + f(2) && Total(f, Kin().Package(3)) == f(0) + f(1) + f(2) + f(3)
  {
    hide Total;
    assert Kin().Package(0) == {0} && Kin().Package(1) == {0, 1} && Kin().Package(2) == {0, 2};
    assert Kin().Package(3) == {0, 1, 2} + {3};
    TotalOne(f, 0);
    TotalTwo(f, 0, 1);
    TotalTwo(f, 0, 2);
    TotalThree(f, 0, 1, 2);
    TotalWith(f, {0, 1, 2}, 3);
  }

  lemma KinBest(y: TxId)
    requires y in KinSums()
    ensures !Beats(AncestorScore(Kin()), KinSums(), y, 1)
  {
    hide Kin, KinSums, ModFeeAndSize;
    KinRates();
  }

  /** The package of what is left may still pay enough: with a minimum of 6000 per thousand bytes the best candidate
      pays 10000 for 2000 bytes and selection stops, although a package of 3010 bytes left pays 20000. */
  lemma CheaperThanLeft()
    ensures Kin().Valid() && CachedBy(Kin(), KinSums())
    ensures 1 in KinSums() && 3 in KinSums() && Best(AncestorScore(Kin()), KinSums(), 1)
    ensures KinSums()[1].fees < GetFee(6000, KinSums()[1].size) && KinSums()[3].fees >= GetFee(6000, KinSums()[3].size)
  {
    KinValid();
    KinCached();
    hide Kin, CachedBy, AncestorScore, Mempool.Valid, Beats;
    forall y | y in KinSums()
      ensures !Beats(AncestorScore(Kin()), KinSums(), y, 1)
    {
      KinBest(y);
    }
  }
}
