// The memory pool and the pool of orphan transactions, with the side indexes
// that must agree with them.
module Pools {
  import opened Ledger
  import opened Sets

  const ORPHAN_MAX_SIZE: nat := 5000
  const MAX_LOCK_TIME: int := 0x7fff_ffff

  // CInPoint: input n of the pooled transaction hash.
  datatype InPoint = InPoint(hash: TxId, n: nat)

  type TxMap = map<TxId, Tx>

  type NextMap = map<OutPoint, InPoint>

  // ---------------------------------------------------------------- the pool

  // An entry of mapNextTx stands for an input of a pooled transaction.
  ghost predicate EntryOk(mapTx: TxMap, o: OutPoint, p: InPoint) {
    p.hash in mapTx && p.n < |mapTx[p.hash].vin| && mapTx[p.hash].vin[p.n] == o
  }

  // Every input of the pooled transaction h has its entry.
  ghost predicate Listed(mapTx: TxMap, mapNextTx: NextMap, h: TxId)
    requires h in mapTx
  {
    forall i | 0 <= i < |mapTx[h].vin| ::
      mapTx[h].vin[i] in mapNextTx && mapNextTx[mapTx[h].vin[i]].hash == h
  }

  // mapNextTx holds exactly the inputs of the pooled transactions.
  ghost predicate PoolOk(mapTx: TxMap, mapNextTx: NextMap) {
    && (forall h | h in mapTx :: mapTx[h].hash == h && Listed(mapTx, mapNextTx, h))
    && (forall o | o in mapNextTx :: EntryOk(mapTx, o, mapNextTx[o]))
  }

  // No two pooled transactions spend one outpoint.
  lemma NoDoubleSpend(mapTx: TxMap, mapNextTx: NextMap, h: TxId, i: nat, g: TxId, j: nat)
    requires PoolOk(mapTx, mapNextTx) && h in mapTx && g in mapTx && i < |mapTx[h].vin| && j < |mapTx[g].vin|
    requires mapTx[h].vin[i] == mapTx[g].vin[j]
    ensures h == g
  {
    assert Listed(mapTx, mapNextTx, h) && Listed(mapTx, mapNextTx, g);
  }

  // The entries that addUnchecked writes for the first n inputs.
  function AddEntries(mapNextTx: NextMap, tx: Tx, n: nat): NextMap
    requires n <= |tx.vin|
  {
    if n == 0 then mapNextTx else AddEntries(mapNextTx, tx, n - 1)[tx.vin[n - 1] := InPoint(tx.hash, n - 1)]
  }

  lemma {:induction false} AddedEntries(mapNextTx: NextMap, tx: Tx, n: nat)
    requires n <= |tx.vin|
    ensures var m := AddEntries(mapNextTx, tx, n);
      && (forall o :: o in m <==> o in mapNextTx || o in tx.vin[..n])
      && (forall o | o in tx.vin[..n] :: m[o].hash == tx.hash && m[o].n < n && tx.vin[m[o].n] == o)
      && (forall o | o in mapNextTx && o !in tx.vin[..n] :: m[o] == mapNextTx[o])
  {
    if n > 0 {
      AddedEntries(mapNextTx, tx, n - 1);
      assert tx.vin[..n] == tx.vin[..n - 1] + [tx.vin[n - 1]];
    }
  }

  // Adding keeps the indexes in agreement exactly when no input of the new
  // transaction is spent by the pool already.
  lemma AddKeeps(mapTx: TxMap, mapNextTx: NextMap, tx: Tx)
    requires PoolOk(mapTx, mapNextTx) && tx.hash !in mapTx
    ensures PoolOk(mapTx[tx.hash := tx], AddEntries(mapNextTx, tx, |tx.vin|))
       <==> forall o | o in tx.vin :: o !in mapNextTx
  {
    var m, next := mapTx[tx.hash := tx], AddEntries(mapNextTx, tx, |tx.vin|);
    AddedEntries(mapNextTx, tx, |tx.vin|);
    assert tx.vin[..|tx.vin|] == tx.vin;
    hide AddEntries;
    if forall o | o in tx.vin :: o !in mapNextTx {
      AddFresh(mapTx, mapNextTx, tx, next);
    } else {
      var o :| o in tx.vin && o in mapNextTx;
      var p := mapNextTx[o];
      assert EntryOk(mapTx, o, p);
      assert m[p.hash].vin[p.n] == o && next[o].hash == tx.hash;
      assert !Listed(m, next, p.hash);
    }
  }

  lemma AddFresh(mapTx: TxMap, mapNextTx: NextMap, tx: Tx, next: NextMap)
    requires PoolOk(mapTx, mapNextTx) && tx.hash !in mapTx && forall o | o in tx.vin :: o !in mapNextTx
    requires forall o :: o in next <==> o in mapNextTx || o in tx.vin
    requires forall o | o in tx.vin :: next[o].hash == tx.hash && next[o].n < |tx.vin| && tx.vin[next[o].n] == o
    requires forall o | o in mapNextTx && o !in tx.vin :: next[o] == mapNextTx[o]
    ensures PoolOk(mapTx[tx.hash := tx], next)
  {
    var m := mapTx[tx.hash := tx];
    forall h | h in m ensures Listed(m, next, h) {
      if h == tx.hash {
        forall i | 0 <= i < |tx.vin| ensures tx.vin[i] in next && next[tx.vin[i]].hash == h {
          assert tx.vin[i] in tx.vin;
        }
      } else {
        assert Listed(mapTx, mapNextTx, h);
      }
    }
    forall o | o in next ensures EntryOk(m, o, next[o]) {
      if o !in tx.vin {
        assert EntryOk(mapTx, o, mapNextTx[o]);
      }
    }
  }

  // What is left of mapNextTx when the first n inputs are erased.
  function EraseEntries(mapNextTx: NextMap, vin: seq<OutPoint>): NextMap {
    map o | o in mapNextTx && o !in vin :: mapNextTx[o]
  }

  lemma EntrySpends(mapTx: TxMap, o: OutPoint, p: InPoint)
    requires EntryOk(mapTx, o, p)
    ensures o in mapTx[p.hash].vin
  {
  }

  lemma RemoveKeeps(mapTx: TxMap, mapNextTx: NextMap, h: TxId)
    requires PoolOk(mapTx, mapNextTx) && h in mapTx
    ensures PoolOk(mapTx - {h}, EraseEntries(mapNextTx, mapTx[h].vin))
  {
    var m, next, vin := mapTx - {h}, EraseEntries(mapNextTx, mapTx[h].vin), mapTx[h].vin;
    assert Listed(mapTx, mapNextTx, h);
    forall g | g in m ensures m[g].hash == g && Listed(m, next, g) {
      assert Listed(mapTx, mapNextTx, g);
    }
    forall o | o in next ensures EntryOk(m, o, next[o]) {
      assert EntryOk(mapTx, o, mapNextTx[o]);
      EntrySpends(mapTx, o, mapNextTx[o]);
    }
  }

  // Removing what was added gives the pool there was.
  lemma RemoveUndoesAdd(mapTx: TxMap, mapNextTx: NextMap, tx: Tx)
    requires PoolOk(mapTx, mapNextTx) && tx.hash !in mapTx && forall o | o in tx.vin :: o !in mapNextTx
    ensures mapTx[tx.hash := tx] - {tx.hash} == mapTx
    ensures EraseEntries(AddEntries(mapNextTx, tx, |tx.vin|), tx.vin) == mapNextTx
  {
    AddedEntries(mapNextTx, tx, |tx.vin|);
    assert tx.vin[..|tx.vin|] == tx.vin;
  }

  // What the checks against the chain say of a transaction.
  datatype InputsVerdict = Missing | Refused | Connected

  class TxMemPool {
    const env: Env
    const isStandard: Tx -> bool
    const fTestNet: bool
    var mapTx: TxMap
    var mapNextTx: NextMap
    var nTransactionsUpdated: nat

    ghost predicate Valid()
      reads this
    {
      PoolOk(mapTx, mapNextTx)
    }

    constructor (env: Env, isStandard: Tx -> bool, fTestNet: bool)
      ensures Valid() && mapTx == map[]
      ensures this.env == env && this.isStandard == isStandard && this.fTestNet == fTestNet
    {
      this.env, this.isStandard, this.fTestNet := env, isStandard, fTestNet;
      mapTx, mapNextTx, nTransactionsUpdated := map[], map[], 0;
    }

    method AddUnchecked(tx: Tx)
      modifies this
      ensures mapTx == old(mapTx)[tx.hash := tx] && mapNextTx == AddEntries(old(mapNextTx), tx, |tx.vin|)
      ensures nTransactionsUpdated == old(nTransactionsUpdated) + 1
    {
      mapTx := mapTx[tx.hash := tx];
      for i := 0 to |tx.vin|
        invariant mapTx == old(mapTx)[tx.hash := tx] && mapNextTx == AddEntries(old(mapNextTx), tx, i)
        invariant nTransactionsUpdated == old(nTransactionsUpdated)
      {
        mapNextTx := mapNextTx[tx.vin[i] := InPoint(tx.hash, i)];
      }
      nTransactionsUpdated := nTransactionsUpdated + 1;
    }

    // What accept asks before it looks at the inputs.
    ghost predicate Eligible(tx: Tx, fCheckInputs: bool, nLockTime: int, known: bool)
      reads this
    {
      && CheckTransaction(env, tx) && !tx.IsCoinBase() && !tx.IsCoinStake() && nLockTime <= MAX_LOCK_TIME
      && (fTestNet || isStandard(tx)) && tx.hash !in mapTx && !(fCheckInputs && known)
      && forall o | o in tx.vin :: o !in mapNextTx
    }

    // accept; nLockTime is the lock time of tx, `known` whether the chain has
    // it, `inputs` the verdict of fetching and connecting its inputs.
    method Accept(tx: Tx, fCheckInputs: bool, nLockTime: int, known: bool, inputs: InputsVerdict)
      returns (ok: bool, fMissingInputs: bool)
      requires Valid()
      modifies this
      ensures Valid()
      ensures ok <==> old(Eligible(tx, fCheckInputs, nLockTime, known)) && (fCheckInputs ==> inputs == Connected)
      ensures fMissingInputs <==> old(Eligible(tx, fCheckInputs, nLockTime, known)) && fCheckInputs && inputs == Missing
      ensures if ok then mapTx == old(mapTx)[tx.hash := tx] && mapNextTx == AddEntries(old(mapNextTx), tx, |tx.vin|)
              else mapTx == old(mapTx) && mapNextTx == old(mapNextTx)
      ensures nTransactionsUpdated == old(nTransactionsUpdated) + if ok then 1 else 0
    {
      hide CheckTransaction, PoolOk, AddEntries;
      ok, fMissingInputs := false, false;
      if !CheckTransaction(env, tx) || tx.IsCoinBase() || tx.IsCoinStake() {
        return;
      }
      if nLockTime > MAX_LOCK_TIME || (!fTestNet && !isStandard(tx)) {
        return;
      }
      if tx.hash in mapTx || (fCheckInputs && known) {
        return;
      }
      for i := 0 to |tx.vin|
        invariant mapTx == old(mapTx) && mapNextTx == old(mapNextTx) && PoolOk(mapTx, mapNextTx)
        invariant nTransactionsUpdated == old(nTransactionsUpdated)
        invariant forall j | 0 <= j < i :: tx.vin[j] !in mapNextTx
      {
        if tx.vin[i] in mapNextTx {
          assert tx.vin[i] in tx.vin;
          return;
        }
      }
      if fCheckInputs {
        if inputs == Missing {
          fMissingInputs := true;
          return;
        }
        if inputs == Refused {
          return;
        }
      }
      AddKeeps(mapTx, mapNextTx, tx);
      AddUnchecked(tx);
      ok := true;
    }

    // remove; a transaction with the id of a pooled one is that transaction.
    method Remove(tx: Tx)
      requires Valid() && (tx.hash in mapTx ==> mapTx[tx.hash] == tx)
      modifies this
      ensures Valid() && mapTx == old(mapTx) - {tx.hash}
      ensures mapNextTx == if tx.hash in old(mapTx) then EraseEntries(old(mapNextTx), tx.vin) else old(mapNextTx)
      ensures nTransactionsUpdated == old(nTransactionsUpdated) + if tx.hash in old(mapTx) then 1 else 0
    {
      if tx.hash in mapTx {
        RemoveKeeps(mapTx, mapNextTx, tx.hash);
        hide PoolOk;
        for i := 0 to |tx.vin|
          invariant mapTx == old(mapTx) && mapNextTx == EraseEntries(old(mapNextTx), tx.vin[..i])
          invariant nTransactionsUpdated == old(nTransactionsUpdated)
        {
          assert tx.vin[..i + 1] == tx.vin[..i] + [tx.vin[i]];
          mapNextTx := mapNextTx - {tx.vin[i]};
        }
        assert tx.vin[..|tx.vin|] == tx.vin;
        mapTx := mapTx - {tx.hash};
        nTransactionsUpdated := nTransactionsUpdated + 1;
      }
    }

    method Clear()
      modifies this
      ensures Valid() && mapTx == map[] && mapNextTx == map[] && nTransactionsUpdated == old(nTransactionsUpdated) + 1
    {
      mapTx, mapNextTx := map[], map[];
      nTransactionsUpdated := nTransactionsUpdated + 1;
    }
  }

  datatype PoolEvent =
    | AcceptTx(tx: Tx, fCheckInputs: bool, nLockTime: int, known: bool, inputs: InputsVerdict)
    | RemoveTx(tx: Tx)
    | ClearAll

  // An id names one transaction in all events.
  ghost predicate IdsNameTxs(events: seq<PoolEvent>, named: TxMap) {
    forall i | 0 <= i < |events| && !events[i].ClearAll? ::
      events[i].tx.hash in named && named[events[i].tx.hash] == events[i].tx
  }

  // What every pooled transaction is.
  ghost predicate FreeStanding(tx: Tx) {
    && !tx.IsCoinBase() && !tx.IsCoinStake() && |tx.vin| > 0 && |tx.vout| > 0
    && (forall o | o in tx.vin :: !o.IsNull())
    && (forall i | 0 <= i < |tx.vout| :: 0 <= tx.vout[i].nValue <= MAX_MONEY)
  }

  lemma EligibleStands(env: Env, tx: Tx)
    requires CheckTransaction(env, tx) && !tx.IsCoinBase() && !tx.IsCoinStake()
    ensures FreeStanding(tx)
  {
  }

  // Whatever is accepted, removed and cleared: the side index agrees with the
  // pool after every step.
  method RunPool(env: Env, isStandard: Tx -> bool, fTestNet: bool, events: seq<PoolEvent>, ghost named: TxMap)
    returns (pool: TxMemPool)
    requires IdsNameTxs(events, named)
    ensures pool.Valid()
    ensures forall h | h in pool.mapTx :: FreeStanding(pool.mapTx[h]) && (fTestNet || isStandard(pool.mapTx[h]))
  {
    pool := new TxMemPool(env, isStandard, fTestNet);
    for i := 0 to |events|
      invariant fresh(pool) && pool.Valid()
      invariant forall h | h in pool.mapTx :: h in named && named[h] == pool.mapTx[h]
      invariant pool.env == env && pool.isStandard == isStandard && pool.fTestNet == fTestNet
      invariant forall h | h in pool.mapTx :: FreeStanding(pool.mapTx[h]) && (fTestNet || isStandard(pool.mapTx[h]))
    {
      hide PoolOk, AddEntries, EraseEntries, CheckTransaction, FreeStanding;
      match events[i] {
        case AcceptTx(tx, fCheckInputs, nLockTime, known, inputs) =>
          var ok, missing := pool.Accept(tx, fCheckInputs, nLockTime, known, inputs);
          if ok {
            EligibleStands(env, tx);
          }
        case RemoveTx(tx) =>
          pool.Remove(tx);
        case ClearAll =>
          pool.Clear();
      }
    }
  }

  // ------------------------------------------------------------- the orphans

  type PrevMap = map<TxId, set<TxId>>

  // h is listed under p.
  predicate Under(byPrev: PrevMap, p: TxId, h: TxId) { p in byPrev && h in byPrev[p] }

  // tx spends an output of p.
  predicate Spends(tx: Tx, p: TxId) { exists i | 0 <= i < |tx.vin| :: tx.vin[i].hash == p }

  // The index lists h under p exactly when the orphan h spends p.
  ghost predicate OrphansOk(orphans: TxMap, byPrev: PrevMap) {
    && (forall h | h in orphans :: orphans[h].hash == h)
    && (forall p, h :: Under(byPrev, p, h) <==> h in orphans && Spends(orphans[h], p))
  }

  // byPrev[p].insert(h)
  function ListUnder(byPrev: PrevMap, p: TxId, h: TxId): (m: PrevMap)
    ensures forall q, g :: Under(m, q, g) <==> Under(byPrev, q, g) || (q == p && g == h)
  {
    byPrev[p := (if p in byPrev then byPrev[p] else {}) + {h}]
  }

  // byPrev[p].erase(h), and the entry goes when it is empty.
  function Unlist(byPrev: PrevMap, p: TxId, h: TxId): (m: PrevMap)
    ensures forall q, g :: Under(m, q, g) <==> Under(byPrev, q, g) && !(q == p && g == h)
  {
    var entry := (if p in byPrev then byPrev[p] else {}) - {h};
    assert forall g | Under(byPrev, p, g) :: g == h || g in entry;
    if entry == {} then byPrev - {p} else byPrev[p := entry]
  }

  class OrphanPool {
    var mapOrphanTransactions: TxMap
    var mapOrphanTransactionsByPrev: PrevMap

    ghost predicate Valid()
      reads this
    {
      OrphansOk(mapOrphanTransactions, mapOrphanTransactionsByPrev)
    }

    constructor ()
      ensures Valid() && mapOrphanTransactions == map[]
    {
      mapOrphanTransactions, mapOrphanTransactionsByPrev := map[], map[];
    }

    // AddOrphanTx
    method Add(tx: Tx) returns (ok: bool)
      requires Valid()
      modifies this
      ensures Valid() && ok == (tx.hash !in old(mapOrphanTransactions) && tx.size <= ORPHAN_MAX_SIZE)
      ensures mapOrphanTransactions ==
        if ok then old(mapOrphanTransactions)[tx.hash := tx] else old(mapOrphanTransactions)
    {
      if tx.hash in mapOrphanTransactions || tx.size > ORPHAN_MAX_SIZE {
        return false;
      }
      ghost var orphans, byPrev := mapOrphanTransactions, mapOrphanTransactionsByPrev;
      mapOrphanTransactions := mapOrphanTransactions[tx.hash := tx];
      for i := 0 to |tx.vin|
        invariant mapOrphanTransactions == orphans[tx.hash := tx]
        invariant forall p, h :: Under(mapOrphanTransactionsByPrev, p, h) <==>
          Under(byPrev, p, h) || (h == tx.hash && SpendsBefore(tx, p, i))
      {
        var p := tx.vin[i].hash;
        SpendsNext(tx, i);
        hide SpendsBefore, Under, ListUnder, Unlist;
        mapOrphanTransactionsByPrev := ListUnder(mapOrphanTransactionsByPrev, p, tx.hash);
      }
      OrphanAdded(orphans, byPrev, tx, mapOrphanTransactionsByPrev);
      ok := true;
    }

    // EraseOrphanTx
    method Erase(hash: TxId)
      requires Valid()
      modifies this
      ensures Valid() && mapOrphanTransactions == old(mapOrphanTransactions) - {hash}
    {
      if hash !in mapOrphanTransactions {
        return;
      }
      var tx := mapOrphanTransactions[hash];
      ghost var orphans, byPrev := mapOrphanTransactions, mapOrphanTransactionsByPrev;
      for i := 0 to |tx.vin|
        invariant mapOrphanTransactions == orphans
        invariant forall p, h :: Under(mapOrphanTransactionsByPrev, p, h) <==>
          Under(byPrev, p, h) && !(h == hash && SpendsBefore(tx, p, i))
      {
        var p := tx.vin[i].hash;
        SpendsNext(tx, i);
        hide SpendsBefore, Under, ListUnder, Unlist;
        mapOrphanTransactionsByPrev := Unlist(mapOrphanTransactionsByPrev, p, hash);
      }
      OrphanErased(orphans, byPrev, hash, mapOrphanTransactionsByPrev);
      mapOrphanTransactions := mapOrphanTransactions - {hash};
    }

    // LimitOrphanTxSize: random orphans go until the cap is met.
    method Limit(nMaxOrphans: nat) returns (nEvicted: nat)
      requires Valid()
      modifies this
      ensures Valid() && |mapOrphanTransactions| <= nMaxOrphans
      ensures mapOrphanTransactions.Keys <= old(mapOrphanTransactions.Keys)
      ensures |mapOrphanTransactions| + nEvicted == |old(mapOrphanTransactions)|
      ensures nEvicted > 0 ==> |mapOrphanTransactions| == nMaxOrphans
    {
      nEvicted := 0;
      while |mapOrphanTransactions| > nMaxOrphans
        invariant Valid() && mapOrphanTransactions.Keys <= old(mapOrphanTransactions.Keys)
        invariant |mapOrphanTransactions| + nEvicted == |old(mapOrphanTransactions)|
        invariant nEvicted > 0 ==> |mapOrphanTransactions| >= nMaxOrphans
        decreases |mapOrphanTransactions|
      {
        hide OrphansOk;
        var randomhash: int := *;
        var victim := LowerBound(mapOrphanTransactions.Keys, randomhash);
        SizeWithout(mapOrphanTransactions, victim);
        Erase(victim);
        nEvicted := nEvicted + 1;
      }
    }
  }

  datatype OrphanEvent = AddOrphan(tx: Tx) | EraseOrphan(hash: TxId) | LimitOrphans(nMaxOrphans: nat)

  // How many orphans there can be after an event.
  function After(e: OrphanEvent, size: nat): nat {
    match e
    case AddOrphan(_) => size + 1
    case EraseOrphan(_) => size
    case LimitOrphans(cap) => if cap < size then cap else size
  }

  function Bound(events: seq<OrphanEvent>, n: nat): nat
    requires n <= |events|
  {
    if n == 0 then 0 else After(events[n - 1], Bound(events, n - 1))
  }

  method HandleOrphan(pool: OrphanPool, e: OrphanEvent)
    requires pool.Valid()
    modifies pool
    ensures pool.Valid() && |pool.mapOrphanTransactions| <= After(e, old(|pool.mapOrphanTransactions|))
  {
    hide OrphansOk, Under, Spends;
    ghost var before := pool.mapOrphanTransactions;
    match e {
      case AddOrphan(tx) =>
        SizeWith(before, tx.hash, tx);
        var ok := pool.Add(tx);
      case EraseOrphan(hash) =>
        SizeWithin(before, hash);
        pool.Erase(hash);
      case LimitOrphans(nMaxOrphans) =>
        var nEvicted := pool.Limit(nMaxOrphans);
    }
  }

  // The index agrees with the orphans after any sequence of calls, and every
  // cap holds until orphans are added again.
  method RunOrphans(events: seq<OrphanEvent>) returns (pool: OrphanPool)
    ensures pool.Valid() && |pool.mapOrphanTransactions| <= Bound(events, |events|)
  {
    hide OrphansOk;
    pool := new OrphanPool();
    for n := 0 to |events|
      invariant fresh(pool) && pool.Valid() && |pool.mapOrphanTransactions| <= Bound(events, n)
    {
      HandleOrphan(pool, events[n]);
    }
  }

  lemma SizeWith(m: TxMap, h: TxId, tx: Tx)
    ensures |m[h := tx]| <= |m| + 1
  {
    assert m[h := tx].Keys == m.Keys + {h};
    assert |m| == |m.Keys| && |m[h := tx]| == |m[h := tx].Keys|;
  }

  lemma SizeWithin(m: TxMap, h: TxId)
    ensures |m - {h}| <= |m|
  {
    if h in m.Keys {
      SizeWithout(m, h);
    } else {
      assert m - {h} == m;
    }
  }

  // lower_bound, or begin() when it is at the end.
  method LowerBound(keys: set<TxId>, bound: TxId) returns (k: TxId)
    requires keys != {}
    ensures k in keys
    ensures if exists x :: x in keys && x >= bound then k >= bound && forall x | x in keys && x >= bound :: k <= x
            else forall x | x in keys :: k <= x
  {
    var order := InOrder(keys);
    ghost var some: TxId := AnyOf(keys);
    assert some in order;
    for i := 0 to |order|
      invariant forall j | 0 <= j < i :: order[j] < bound
    {
      if order[i] >= bound {
        k := order[i];
        assert k in order && k in keys;
        forall x | x in keys && x >= bound ensures k <= x {
          assert x in order;
        }
        return;
      }
    }
    k := order[0];
    assert k in order;
    forall x | x in keys ensures k <= x && x < bound {
      assert x in order;
    }
  }

  lemma SizeWithout(m: TxMap, h: TxId)
    requires h in m.Keys
    ensures |m - {h}| == |m| - 1
  {
    assert (m - {h}).Keys == m.Keys - {h};
    assert |m| == |m.Keys| && |m - {h}| == |(m - {h}).Keys|;
  }

  predicate SpendsBefore(tx: Tx, p: TxId, n: nat) { exists i | 0 <= i < n && i < |tx.vin| :: tx.vin[i].hash == p }

  lemma SpendsNext(tx: Tx, n: nat)
    requires n < |tx.vin|
    ensures forall p :: SpendsBefore(tx, p, n + 1) <==> SpendsBefore(tx, p, n) || tx.vin[n].hash == p
  {
    forall p ensures SpendsBefore(tx, p, n + 1) <==> SpendsBefore(tx, p, n) || tx.vin[n].hash == p {
    }
  }

  lemma OrphanAdded(orphans: TxMap, byPrev: PrevMap, tx: Tx, byPrev': PrevMap)
    requires OrphansOk(orphans, byPrev) && tx.hash !in orphans
    requires forall p, h ::
      Under(byPrev', p, h) <==> Under(byPrev, p, h) || (h == tx.hash && SpendsBefore(tx, p, |tx.vin|))
    ensures OrphansOk(orphans[tx.hash := tx], byPrev')
  {
    forall p ensures SpendsBefore(tx, p, |tx.vin|) <==> Spends(tx, p) {
    }
  }

  lemma OrphanErased(orphans: TxMap, byPrev: PrevMap, hash: TxId, byPrev': PrevMap)
    requires OrphansOk(orphans, byPrev) && hash in orphans
    requires var tx := orphans[hash];
      forall p, h :: Under(byPrev', p, h) <==> Under(byPrev, p, h) && !(h == hash && SpendsBefore(tx, p, |tx.vin|))
    ensures OrphansOk(orphans - {hash}, byPrev')
  {
    forall p ensures SpendsBefore(orphans[hash], p, |orphans[hash].vin|) <==> Spends(orphans[hash], p) {
    }
  }
}
