/**
 The hierarchy of unspent-output views of src/coins.cpp as values: a root database under any
 number of write-back caches. Each function below is what one call does to the whole hierarchy;
 the class in Coins.dfy performs the same calls in place.

 Main results: RunAgrees (a stack of any depth behaves like one plain map), AddCoinSafeIff
 (exactly when possible_overwrite = false is safe) and LostSpend (what goes wrong otherwise).
 */
module CoinsModel {
  import opened Wrappers

  const OP_RETURN: nat := 0x6a
  const MAX_SCRIPT_SIZE: nat := 10000
  const DIRECT_SCRIPT_SIZE: nat := 28

  datatype OutPoint = OutPoint(hash: nat, n: nat)

  datatype TxOut = TxOut(nValue: int, scriptPubKey: seq<nat>)

  datatype Coin = Coin(out: TxOut, fCoinBase: bool, fCoinStake: bool, nHeight: nat) {
    predicate IsSpent() {
      out.nValue == -1
    }

    predicate IsUnspendable() {
      (|out.scriptPubKey| > 0 && out.scriptPubKey[0] == OP_RETURN) || |out.scriptPubKey| > MAX_SCRIPT_SIZE
    }

    // Scripts of up to 28 bytes are stored inside the coin; longer ones are allocated.
    function DynamicMemoryUsage(): nat {
      if |out.scriptPubKey| <= DIRECT_SCRIPT_SIZE then 0 else (|out.scriptPubKey| + 31) / 16 * 16
    }

    // What a reader of this coin observes.
    function Observed(): Option<Coin> {
      if IsSpent() then None else Some(this)
    }
  }

  // A cleared coin (Coin::Clear).
  const EMPTY_COIN := Coin(TxOut(-1, []), false, false, 0)

  datatype Entry = Entry(coin: Coin, isDirty: bool, isFresh: bool) {
    // The five combinations listed as valid for a CCoinsCacheEntry.
    predicate Documented() {
      if coin.IsSpent() then isFresh != isDirty else isFresh ==> isDirty
    }

    // What an entry promises about the view below its cache.
    predicate Consistent(below: Option<Coin>) {
      && Documented()
      && (isFresh ==> below.None?)
      && (!isDirty ==> coin.Observed() == below)
    }
  }

  type Cache = map<OutPoint, Entry>

  datatype Stack =
    | Root(db: map<OutPoint, Coin>)
    | Layer(cache: Cache, base: Stack)
  {
    function Depth(): nat {
      match this
      case Root(_) => 0
      case Layer(_, base) => 1 + base.Depth()
    }

    // GetCoin: the coin handed out, if any. A root may hand out a spent coin; a cache never does.
    function GetCoin(o: OutPoint): Option<Coin> {
      match this
      case Root(db) => if o in db then Some(db[o]) else None
      case Layer(cache, base) =>
        if o in cache then cache[o].coin.Observed()
        else if base.GetCoin(o).Some? then base.GetCoin(o).value.Observed()
        else None
    }

    // The unspent coin a caller can observe at an outpoint.
    function View(o: OutPoint): Option<Coin> {
      if GetCoin(o).Some? then GetCoin(o).value.Observed() else None
    }

    ghost predicate Inv() {
      match this
      case Root(_) => true
      case Layer(cache, base) =>
        base.Inv() && forall o :: o in cache ==> cache[o].Consistent(base.View(o))
    }
  }

  datatype Error = OverwritesUnspent | FreshMisapplied

  lemma LayerView(s: Stack, o: OutPoint)
    requires s.Layer?
    ensures s.View(o) == if o in s.cache then s.cache[o].coin.Observed() else s.base.View(o)
  {
  }

  // ----- what each call does to the hierarchy -----

  // FetchCoin, which GetCoin, HaveCoin, AccessCoin and SpendCoin start with: pull the entry up
  // through every cache that lacks it.
  function Fetch(s: Stack, o: OutPoint): Stack {
    match s
    case Root(_) => s
    case Layer(cache, base) =>
      if o in cache then s else
      var base' := Fetch(base, o);
      match base.GetCoin(o)
      case None => Layer(cache, base')
      case Some(coin) => Layer(cache[o := Entry(coin, false, coin.IsSpent())], base')
  }

  function AddCoin(s: Stack, o: OutPoint, coin: Coin, overwrite: bool): Result<Stack, Error>
    requires s.Layer?
  {
    if coin.IsUnspendable() then Success(s) else
    var prior := if o in s.cache then s.cache[o] else Entry(EMPTY_COIN, false, false);
    if !overwrite && !prior.coin.IsSpent() then Failure(OverwritesUnspent) else
    Success(Layer(s.cache[o := Entry(coin, true, prior.isFresh || (!overwrite && !prior.isDirty))], s.base))
  }

  function SpendCoin(s: Stack, o: OutPoint): Stack
    requires s.Layer?
  {
    var t := Fetch(s, o);
    if o !in t.cache then t
    else if t.cache[o].isFresh then Layer(t.cache - {o}, t.base)
    else Layer(t.cache[o := Entry(EMPTY_COIN, true, false)], t.base)
  }

  // What SpendCoin hands to its caller: the coin of whatever entry FetchCoin finds, spent or not.
  function Handed(s: Stack, o: OutPoint): Option<Coin>
    requires s.Layer?
  {
    if o in s.cache then Some(s.cache[o].coin) else s.base.GetCoin(o)
  }

  // One iteration of BatchWrite: the entry a parent ends up with.
  function Merge(ours: Option<Entry>, theirs: Entry): Option<Entry> {
    if !theirs.isDirty then ours else
    match ours
    case None =>
      if theirs.isFresh && theirs.coin.IsSpent() then None else Some(Entry(theirs.coin, true, theirs.isFresh))
    case Some(e) =>
      if e.isFresh && theirs.coin.IsSpent() then None else Some(Entry(theirs.coin, true, e.isFresh))
  }

  function Lookup(m: Cache, o: OutPoint): Option<Entry> {
    if o in m then Some(m[o]) else None
  }

  function MergeAt(ours: Cache, theirs: Cache, o: OutPoint): Option<Entry> {
    if o in theirs then Merge(Lookup(ours, o), theirs[o]) else Lookup(ours, o)
  }

  // The condition under which BatchWrite throws.
  predicate Misapplied(ours: Cache, theirs: Cache) {
    exists o :: o in theirs && o in ours && theirs[o].isDirty && theirs[o].isFresh && !ours[o].coin.IsSpent()
  }

  function Merged(ours: Cache, theirs: Cache): Cache {
    map o | o in ours.Keys + theirs.Keys && MergeAt(ours, theirs, o).Some? :: MergeAt(ours, theirs, o).value
  }

  function WrittenToDb(db: map<OutPoint, Coin>, theirs: Cache): map<OutPoint, Coin> {
    map o | o in db.Keys + theirs.Keys && !(o in theirs && theirs[o].isDirty && theirs[o].coin.IsSpent())
            && (o in db || theirs[o].isDirty)
      :: if o in theirs && theirs[o].isDirty then theirs[o].coin else db[o]
  }

  function BatchWrite(s: Stack, theirs: Cache): Result<Stack, Error> {
    match s
    case Root(db) => Success(Root(WrittenToDb(db, theirs)))
    case Layer(cache, base) =>
      if Misapplied(cache, theirs) then Failure(FreshMisapplied) else Success(Layer(Merged(cache, theirs), base))
  }

  function Flush(s: Stack): Result<Stack, Error>
    requires s.Layer?
  {
    match BatchWrite(s.base, s.cache)
    case Success(base) => Success(Layer(map[], base))
    case Failure(e) => Failure(e)
  }

  function Uncache(s: Stack, o: OutPoint): Stack
    requires s.Layer?
  {
    if o in s.cache && !s.cache[o].isDirty && !s.cache[o].isFresh then Layer(s.cache - {o}, s.base) else s
  }

  // ----- one call keeps the invariant and has the intended effect on the view -----

  lemma {:induction false} FetchKeeps(s: Stack, o: OutPoint)
    requires s.Inv()
    ensures Fetch(s, o).Inv() && Fetch(s, o).Depth() == s.Depth()
    ensures Fetch(s, o).GetCoin(o) == s.GetCoin(o)
    ensures forall p :: Fetch(s, o).View(p) == s.View(p)
    ensures s.Layer? ==> Fetch(s, o).Layer? && (s.View(o).Some? ==> o in Fetch(s, o).cache)
  {
    if s.Layer? {
      FetchKeeps(s.base, o);
      var t := Fetch(s, o);
      forall p
        ensures t.View(p) == s.View(p)
      {
        LayerView(s, p);
        LayerView(t, p);
      }
    }
  }

  lemma AddCoinKeeps(s: Stack, o: OutPoint, coin: Coin, overwrite: bool)
    requires s.Layer? && s.Inv() && !coin.IsSpent()
    requires overwrite || coin.IsUnspendable() || s.View(o).None?
    ensures AddCoin(s, o, coin, overwrite).Success?
    ensures var t := AddCoin(s, o, coin, overwrite).value;
            && t.Layer? && t.Inv() && t.Depth() == s.Depth()
            && forall p :: t.View(p) == if p == o && !coin.IsUnspendable() then Some(coin) else s.View(p)
  {
  }

  /** Exactly outputs that start with OP_RETURN or are longer than 10000 bytes never enter a cache. */
  lemma UnspendableIff(s: Stack, o: OutPoint, coin: Coin)
    requires s.Layer? && s.Inv() && !coin.IsSpent() && s.View(o).None?
    ensures AddCoin(s, o, coin, false).Success?
    ensures AddCoin(s, o, coin, false).value.View(o).None? <==>
            var script := coin.out.scriptPubKey; (script != [] && script[0] == 106) || |script| > 10000
  {
    AddCoinKeeps(s, o, coin, false);
  }

  /** A script that is allocated takes the least multiple of 16 bytes with 16 bytes of overhead. */
  lemma UsageIs(coin: Coin)
    ensures var n, u := |coin.out.scriptPubKey|, coin.DynamicMemoryUsage();
            if n <= 28 then u == 0 else u % 16 == 0 && n + 16 <= u < n + 32
  {
  }

  lemma SpendCoinKeeps(s: Stack, o: OutPoint)
    requires s.Layer? && s.Inv()
    ensures var t := SpendCoin(s, o);
            && t.Layer? && t.Inv() && t.Depth() == s.Depth()
            && forall p :: t.View(p) == if p == o then None else s.View(p)
  {
    FetchKeeps(s, o);
  }

  /** A coin that can be observed is handed out. Success without such a coin happens exactly for a spent
      entry of this cache, or a spent coin held by a root directly below it. */
  lemma HandedIff(s: Stack, o: OutPoint)
    requires s.Layer?
    ensures s.View(o).Some? ==> Handed(s, o) == s.View(o)
    ensures Handed(s, o).Some? && s.View(o).None? <==>
            if o in s.cache then s.cache[o].coin.IsSpent()
            else s.base.Root? && o in s.base.db && s.base.db[o].IsSpent()
  {
    LayerView(s, o);
  }

  /** Spending a coin a second time hands out an empty coin if it was not FRESH, since the first spend kept
      an entry; otherwise it hands out whatever is below, where no unspent coin is. */
  lemma SpendTwice(s: Stack, o: OutPoint)
    requires s.Layer? && s.Inv() && s.View(o).Some?
    ensures Fetch(s, o).Layer? && o in Fetch(s, o).cache
    ensures Handed(SpendCoin(s, o), o) ==
            if Fetch(s, o).cache[o].isFresh then Fetch(s, o).base.GetCoin(o) else Some(EMPTY_COIN)
    ensures Fetch(s, o).cache[o].isFresh ==> Fetch(s, o).base.View(o).None?
  {
    FetchKeeps(s, o);
  }

  lemma MergeKeeps(ours: Cache, theirs: Cache, below: Stack, o: OutPoint)
    requires Layer(ours, below).Inv()
    requires o in theirs ==> theirs[o].Consistent(Layer(ours, below).View(o))
    ensures var e := MergeAt(ours, theirs, o);
            && (e.Some? ==> e.value.Consistent(below.View(o)))
            && (if e.Some? then e.value.coin.Observed() else below.View(o)) ==
               (if o in theirs then theirs[o].coin.Observed() else Layer(ours, below).View(o))
  {
    LayerView(Layer(ours, below), o);
  }

  lemma {:induction false} BatchWriteKeeps(s: Stack, theirs: Cache)
    requires s.Inv()
    requires forall o :: o in theirs ==> theirs[o].Consistent(s.View(o))
    ensures BatchWrite(s, theirs).Success?
    ensures var t := BatchWrite(s, theirs).value;
            && t.Inv() && t.Depth() == s.Depth()
            && forall o :: t.View(o) == if o in theirs then theirs[o].coin.Observed() else s.View(o)
  {
    match s
    case Root(db) =>
    case Layer(cache, base) =>
      forall o
        ensures MergeAt(cache, theirs, o).Some? ==> MergeAt(cache, theirs, o).value.Consistent(base.View(o))
        ensures (if MergeAt(cache, theirs, o).Some? then MergeAt(cache, theirs, o).value.coin.Observed()
                 else base.View(o)) ==
                if o in theirs then theirs[o].coin.Observed() else s.View(o)
      {
        if o in theirs { LayerView(s, o); }
        MergeKeeps(cache, theirs, base, o);
      }
      var t := Layer(Merged(cache, theirs), base);
      forall o {
        LayerView(t, o);
      }
  }

  lemma FlushKeeps(s: Stack)
    requires s.Layer? && s.Inv()
    ensures Flush(s).Success?
    ensures var t := Flush(s).value;
            t.Layer? && t.cache == map[] && t.Inv() && t.Depth() == s.Depth() && forall o :: t.View(o) == s.View(o)
  {
    BatchWriteKeeps(s.base, s.cache);
    var t := Flush(s).value;
    forall o
      ensures t.View(o) == s.View(o)
    {
      LayerView(s, o);
      LayerView(t, o);
    }
  }

  lemma UncacheKeeps(s: Stack, o: OutPoint)
    requires s.Layer? && s.Inv()
    ensures var t := Uncache(s, o);
            t.Layer? && t.Inv() && t.Depth() == s.Depth() && forall p :: t.View(p) == s.View(p)
  {
  }

  // ----- runs -----

  /** Calls in the order they are made. Adding and spending go to the top cache; reading,
      uncaching and flushing may happen in any cache, counted from the top. */
  datatype Op =
    | Add(o: OutPoint, coin: Coin, overwrite: bool)
    | Spend(o: OutPoint)
    | Read(level: nat, o: OutPoint)
    | Drop(level: nat, o: OutPoint)
    | Push(level: nat)
  {
    predicate Below(depth: nat) {
      (Read? || Drop? || Push?) ==> level < depth
    }
  }

  function LowerBy(op: Op): Op
    requires (op.Read? || op.Drop? || op.Push?) && op.level > 0
  {
    match op
    case Read(level, o) => Read(level - 1, o)
    case Drop(level, o) => Drop(level - 1, o)
    case Push(level) => Push(level - 1)
  }

  function Step(s: Stack, op: Op): Result<Stack, Error>
    requires s.Layer? && op.Below(s.Depth())
    decreases s
  {
    match op
    case Add(o, coin, overwrite) => AddCoin(s, o, coin, overwrite)
    case Spend(o) => Success(SpendCoin(s, o))
    case _ =>
      if op.level > 0 then
        assert s.Depth() == 1 + s.base.Depth();
        match Step(s.base, LowerBy(op))
        case Success(base) => Success(Layer(s.cache, base))
        case Failure(e) => Failure(e)
      else
        match op
        case Read(_, o) => Success(Fetch(s, o))
        case Drop(_, o) => Success(Uncache(s, o))
        case Push(_) => Flush(s)
  }

  type Coins = map<OutPoint, Coin>

  // The same calls on one plain map of unspent coins.
  function PlainStep(m: Coins, op: Op): Coins {
    match op
    case Add(o, coin, _) => if coin.IsUnspendable() then m else m[o := coin]
    case Spend(o) => m - {o}
    case _ => m
  }

  // What AddCoin asks of its caller, in terms of the plain map.
  predicate Legal(m: Coins, depth: nat, op: Op) {
    && op.Below(depth)
    && (op.Add? ==> !op.coin.IsSpent() && (op.overwrite || op.coin.IsUnspendable() || op.o !in m))
  }

  ghost predicate Agrees(s: Stack, m: Coins) {
    forall o :: s.View(o) == if o in m then Some(m[o]) else None
  }

  lemma {:induction false} MaintenanceKeepsView(s: Stack, op: Op)
    requires s.Layer? && s.Inv() && op.Below(s.Depth()) && !op.Add? && !op.Spend?
    ensures Step(s, op).Success?
    ensures var t := Step(s, op).value;
            t.Layer? && t.Inv() && t.Depth() == s.Depth() && forall o :: t.View(o) == s.View(o)
    decreases s
  {
    if op.level > 0 {
      assert s.Depth() == 1 + s.base.Depth();
      MaintenanceKeepsView(s.base, LowerBy(op));
      var t := Step(s, op).value;
      forall o
        ensures t.View(o) == s.View(o)
      {
        LayerView(s, o);
        LayerView(t, o);
      }
    } else {
      match op
      case Read(_, o) => FetchKeeps(s, o);
      case Drop(_, o) => UncacheKeeps(s, o);
      case Push(_) => FlushKeeps(s);
    }
  }

  lemma StepAgrees(s: Stack, m: Coins, op: Op)
    requires s.Layer? && s.Inv() && Agrees(s, m) && Legal(m, s.Depth(), op)
    ensures Step(s, op).Success?
    ensures var t := Step(s, op).value;
            t.Layer? && t.Inv() && t.Depth() == s.Depth() && Agrees(t, PlainStep(m, op))
  {
    match op
    case Add(o, coin, overwrite) =>
      assert s.View(o) == if o in m then Some(m[o]) else None;
      AddCoinKeeps(s, o, coin, overwrite);
    case Spend(o) => SpendCoinKeeps(s, o);
    case _ => MaintenanceKeepsView(s, op);
  }

  ghost predicate LegalRun(m: Coins, depth: nat, ops: seq<Op>)
    decreases |ops|
  {
    ops == [] || (Legal(m, depth, ops[0]) && LegalRun(PlainStep(m, ops[0]), depth, ops[1..]))
  }

  function PlainRun(m: Coins, ops: seq<Op>): Coins
    decreases |ops|
  {
    if ops == [] then m else PlainRun(PlainStep(m, ops[0]), ops[1..])
  }

  // t is reached from s by the calls of ops, none of which throws.
  ghost predicate Reaches(s: Stack, ops: seq<Op>, t: Stack)
    decreases |ops|
  {
    if ops == [] then s == t else
    && s.Layer? && ops[0].Below(s.Depth())
    && Step(s, ops[0]).Success?
    && Reaches(Step(s, ops[0]).value, ops[1..], t)
  }

  /** Every legal run over a stack of any depth goes through without a throw and ends in a stack
      whose observable coins are those of the plain map given the same adds and spends, with every
      entry of every cache in a documented state. */
  lemma {:induction false} RunAgrees(s: Stack, m: Coins, ops: seq<Op>) returns (t: Stack)
    requires s.Layer? && s.Inv() && Agrees(s, m) && LegalRun(m, s.Depth(), ops)
    ensures Reaches(s, ops, t)
    ensures t.Layer? && t.Inv() && t.Depth() == s.Depth() && Agrees(t, PlainRun(m, ops))
    decreases |ops|
  {
    if ops == [] {
      t := s;
    } else {
      StepAgrees(s, m, ops[0]);
      t := RunAgrees(Step(s, ops[0]).value, PlainStep(m, ops[0]), ops[1..]);
    }
  }

  function EmptyCaches(db: map<OutPoint, Coin>, depth: nat): Stack {
    if depth == 0 then Root(db) else Layer(map[], EmptyCaches(db, depth - 1))
  }

  // A freshly built stack over any database meets the requirements of RunAgrees.
  lemma {:induction false} EmptyCachesAgree(db: map<OutPoint, Coin>, depth: nat)
    ensures var s := EmptyCaches(db, depth);
            s.Inv() && s.Depth() == depth && Agrees(s, map o | o in db && !db[o].IsSpent() :: db[o])
  {
    if depth > 0 {
      EmptyCachesAgree(db, depth - 1);
      var s := EmptyCaches(db, depth);
      forall o { LayerView(s, o); }
    }
  }

  // ----- the contract of possible_overwrite = false -----

  /** Passing possible_overwrite = false for a spendable coin keeps the hierarchy consistent exactly
      when no unspent coin is observable at the outpoint. */
  lemma AddCoinSafeIff(s: Stack, o: OutPoint, coin: Coin)
    requires s.Layer? && s.Inv() && !coin.IsSpent() && !coin.IsUnspendable()
    ensures (AddCoin(s, o, coin, false).Success? && AddCoin(s, o, coin, false).value.Inv()) <==> s.View(o).None?
  {
    LayerView(s, o);
    if s.View(o).None? {
      AddCoinKeeps(s, o, coin, false);
    } else if o !in s.cache {
      var t := AddCoin(s, o, coin, false).value;
      assert t.cache[o].isFresh && s.base.View(o).Some?;
    }
  }

  /** Outside that contract AddCoin need not throw: when the unspent coin is only known below the
      top cache, a later spend is lost and the old coin is observable again. */
  lemma LostSpend(s: Stack, o: OutPoint, coin: Coin)
    requires s.Layer? && s.Inv() && !coin.IsSpent() && !coin.IsUnspendable()
    requires o !in s.cache && s.View(o).Some?
    ensures AddCoin(s, o, coin, false).Success?
    ensures SpendCoin(AddCoin(s, o, coin, false).value, o).View(o) == s.View(o)
  {
    var t := AddCoin(s, o, coin, false).value;
    assert Fetch(t, o) == t;
    LayerView(s, o);
    assert SpendCoin(t, o) == Layer(t.cache - {o}, s.base);
  }
}
