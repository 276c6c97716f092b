// The chain state of src/main.cpp: the block index, the database transaction
// around the transaction index, the pnext links and the money supply, changed
// in place by ConnectBlock, DisconnectBlock, Reorganize and SetBestChain.
module ChainState {
  import opened BlockTree
  import opened Ledger
  import opened Sets
  import opened Replay
  import opened ChainSpec

  // What the database holds: the transaction index and hashBestChain.
  datatype DbState = DbState(index: Index, hashBestChain: Option<BlockHash>)

  // CTxDB with its one active transaction.
  class TxDb {
    var committed: DbState
    var pending: Option<DbState>

    constructor ()
      ensures committed == DbState(map[], None) && pending == None
    {
      committed, pending := DbState(map[], None), None;
    }

    method TxnBegin() returns (ok: bool)
      modifies this
      ensures committed == old(committed) && ok == old(pending).None?
      ensures pending == if ok then Some(committed) else old(pending)
    {
      ok := pending.None?;
      if ok {
        pending := Some(committed);
      }
    }

    method TxnCommit() returns (ok: bool)
      modifies this
      ensures ok == old(pending).Some? && pending == None
      ensures committed == if ok then old(pending).value else old(committed)
    {
      ok := pending.Some?;
      if ok {
        committed, pending := pending.value, None;
      }
    }

    method TxnAbort()
      modifies this
      ensures committed == old(committed) && pending == None
    {
      pending := None;
    }

    method WriteHashBestChain(h: BlockHash)
      requires pending.Some?
      modifies this
      ensures committed == old(committed) && pending == Some(old(pending).value.(hashBestChain := Some(h)))
    {
      pending := Some(pending.value.(hashBestChain := Some(h)));
    }

    method UpdateTxIndex(h: TxId, e: TxIndex)
      requires pending.Some?
      modifies this
      ensures committed == old(committed)
      ensures pending == Some(old(pending).value.(index := old(pending).value.index[h := e]))
    {
      pending := Some(pending.value.(index := pending.value.index[h := e]));
    }

    method EraseTxIndex(h: TxId)
      requires pending.Some?
      modifies this
      ensures committed == old(committed)
      ensures pending == Some(old(pending).value.(index := old(pending).value.index - {h}))
    {
      pending := Some(pending.value.(index := pending.value.index - {h}));
    }
  }

  lemma InputNotBefore(tx: Tx, i: nat)
    requires DistinctInputs(tx) && i < |tx.vin|
    ensures tx.vin[i] !in tx.vin[..i]
  {
  }

  type Inputs = map<TxId, (TxIndex, Tx)>  // MapPrevTx

  // After the first i inputs: the queue holds exactly their spends, and the
  // working copies of the inputs follow the view.
  ghost predicate SpentUpTo(ix: Index, queued: Index, inputs: Inputs, view: Index, txs: TxFile, vin: seq<OutPoint>,
                            i: nat, p: DiskTxPos)
    requires i <= |vin|
  {
    && ix + queued == MarkInputs(view, vin[..i], p)
    && inputs.Keys == PrevHashes(vin)
    && forall g | g in inputs ::
         g in view && g in ix + queued && view[g].pos in txs && inputs[g] == ((ix + queued)[g], txs[view[g].pos])
  }

  lemma SpentNone(ix: Index, queued: Index, txs: TxFile, vin: seq<OutPoint>, p: DiskTxPos)
    requires AllResolve(ix + queued, txs, vin)
    ensures SpentUpTo(ix, queued, Fetched(ix + queued, txs, vin), ix + queued, txs, vin, 0, p)
  {
  }

  lemma SpentAll(ix: Index, queued: Index, inputs: Inputs, view: Index, txs: TxFile, vin: seq<OutPoint>, p: DiskTxPos)
    requires SpentUpTo(ix, queued, inputs, view, txs, vin, |vin|, p)
    ensures ix + queued == MarkInputs(view, vin, p)
  {
    assert vin[..|vin|] == vin;
  }

  lemma SpentLookup(ix: Index, queued: Index, inputs: Inputs, view: Index, txs: TxFile, vin: seq<OutPoint>,
                    i: nat, p: DiskTxPos)
    requires i < |vin| && AllResolve(view, txs, vin) && vin[i] !in vin[..i]
    requires SpentUpTo(ix, queued, inputs, view, txs, vin, i, p)
    ensures var o := vin[i];
      && o.hash in inputs && inputs[o.hash].1 == txs[view[o.hash].pos]
      && o.n < |inputs[o.hash].0.vSpent| && inputs[o.hash].0.vSpent[o.n] == view[o.hash].vSpent[o.n]
  {
    assert Resolves(view, txs, vin[i]);
    assert vin[i].hash in PrevHashes(vin);
    MarkNext(view, vin, i, p);
  }

  lemma SpentNext(ix: Index, queued: Index, inputs: Inputs, view: Index, txs: TxFile, vin: seq<OutPoint>,
                  i: nat, p: DiskTxPos, e: TxIndex)
    requires i < |vin| && AllResolve(view, txs, vin) && vin[i] !in vin[..i]
    requires SpentUpTo(ix, queued, inputs, view, txs, vin, i, p)
    requires vin[i].hash in inputs && vin[i].n < |inputs[vin[i].hash].0.vSpent|
    requires e == inputs[vin[i].hash].0.(vSpent := inputs[vin[i].hash].0.vSpent[vin[i].n := p])
    ensures var h := vin[i].hash;
      SpentUpTo(ix, queued[h := e], inputs[h := (e, inputs[h].1)], view, txs, vin, i + 1, p)
  {
    assert Resolves(view, txs, vin[i]);
    MarkNext(view, vin, i, p);
    QueueWrite(ix, queued, vin[i].hash, e);
  }

  // Everything ConnectBlock has accumulated after k transactions.
  ghost predicate QueuedUpTo(env: Env, t: Tree, txs: TxFile, ix: Index, check: bool, h: BlockHash, b: Block, k: nat,
                             queued: Index, nTxPos: nat, nSigOps: nat, nValueIn: int, nValueOut: int, nFees: int)
    requires WellFormed(t) && h in t && k <= |b.vtx|
  {
    && nTxPos == FirstTxPos(env, t[h], b) + SizeOfTxs(b.vtx[..k])
    && ix + queued == ApplyTxs(env, ix, t[h], b, k)
    && (forall j | 0 <= j < k :: TxAccepted(env, t, txs, ix, check, h, b, j))
    && Resolvable(env, ix, txs, t[h], b, k)
    && nSigOps == SigOps(env, ix, txs, t[h], b, k) <= MAX_BLOCK_SIGOPS
    && nValueIn == BlockIn(env, ix, txs, t[h], b, k) && nValueOut == BlockOut(b, k)
    && nFees == Fees(env, ix, txs, t[h], b, k)
  }

  // What the transaction loop of ConnectBlock decides.
  ghost predicate TxsAccepted(env: Env, t: Tree, txs: TxFile, ix: Index, check: bool, h: BlockHash, b: Block)
    requires WellFormed(t) && h in t
  {
    && (forall k | 0 <= k < |b.vtx| :: TxAccepted(env, t, txs, ix, check, h, b, k))
    && Resolvable(env, ix, txs, t[h], b, |b.vtx|)
    && SigOps(env, ix, txs, t[h], b, |b.vtx|) <= MAX_BLOCK_SIGOPS
  }

  lemma SupplySet(t: Tree, supply: map<BlockHash, int>, h: BlockHash)
    requires WellFormed(t) && SuppliesKept(t, supply) && h in t && t[h].pprev.Some?
    ensures t[h].pprev.value in supply && forall n: int :: SuppliesKept(t, SetSupply(supply, h, n))
  {
  }

  function SetSupply(supply: map<BlockHash, int>, h: BlockHash, n: int): map<BlockHash, int> { supply[h := n] }

  lemma SelfUpdate(m: map<BlockHash, int>, h: BlockHash)
    requires h in m
    ensures m == m[h := m[h]]
  {
  }

  lemma QueuedFacts(env: Env, t: Tree, txs: TxFile, ix: Index, check: bool, h: BlockHash, b: Block, k: nat,
                    queued: Index, nTxPos: nat, nSigOps: nat, nValueIn: int, nValueOut: int, nFees: int)
    requires WellFormed(t) && h in t && k <= |b.vtx|
    requires QueuedUpTo(env, t, txs, ix, check, h, b, k, queued, nTxPos, nSigOps, nValueIn, nValueOut, nFees)
    ensures ix + queued == ApplyTxs(env, ix, t[h], b, k)
    ensures TxPos(env, t[h], b, k) == DiskTxPos(t[h].nFile, t[h].nBlockPos, nTxPos)
    ensures k < |b.vtx| && TxsAccepted(env, t, txs, ix, check, h, b) ==>
      && TxAccepted(env, t, txs, ix, check, h, b, k) && ResolvesAt(env, ix, txs, t[h], b, k)
      && nSigOps + TxSigOps(env, ix, txs, t[h], b, k) <= MAX_BLOCK_SIGOPS
    ensures k == |b.vtx| ==>
      && TxsAccepted(env, t, txs, ix, check, h, b) && Resolvable(env, ix, txs, t[h], b, k)
      && ix + queued == ApplyBlock(env, ix, t[h], b)
      && nValueIn == BlockIn(env, ix, txs, t[h], b, k) && nValueOut == BlockOut(b, k)
      && nFees == Fees(env, ix, txs, t[h], b, k)
  {
    hide TxAccepted, ResolvesAt, TxSigOps, BlockIn, BlockOut, Fees, ApplyTxs, SizeOfTxs, WellFormed;
    assert ApplyBlock(env, ix, t[h], b) == ApplyTxs(env, ix, t[h], b, |b.vtx|);
    if k < |b.vtx| && TxsAccepted(env, t, txs, ix, check, h, b) {
      assert ResolvesAt(env, ix, txs, t[h], b, k);
      SigOpsGrow(env, ix, txs, t[h], b, k + 1, |b.vtx|);
    }
  }

  lemma QueuedNone(env: Env, t: Tree, txs: TxFile, ix: Index, check: bool, h: BlockHash, b: Block)
    requires WellFormed(t) && h in t
    ensures QueuedUpTo(env, t, txs, ix, check, h, b, 0, map[], FirstTxPos(env, t[h], b), 0, 0, 0, 0)
  {
    assert ix + map[] == ix;
  }

  lemma SizeNext(vtx: seq<Tx>, k: nat)
    requires k < |vtx|
    ensures SizeOfTxs(vtx[..k + 1]) == SizeOfTxs(vtx[..k]) + vtx[k].size
  {
    assert vtx[..k + 1][..k] == vtx[..k];
  }

  lemma QueuedNext(env: Env, t: Tree, txs: TxFile, ix: Index, check: bool, h: BlockHash, b: Block, k: nat,
                   queued: Index, nTxPos: nat, nSigOps: nat, nValueIn: int, nValueOut: int, nFees: int,
                   queued': Index, nSigOps': nat, nTxValueIn: int)
    requires WellFormed(t) && h in t && k < |b.vtx|
    requires QueuedUpTo(env, t, txs, ix, check, h, b, k, queued, nTxPos, nSigOps, nValueIn, nValueOut, nFees)
    requires TxAccepted(env, t, txs, ix, check, h, b, k) && ResolvesAt(env, ix, txs, t[h], b, k)
    requires nSigOps' == nSigOps + TxSigOps(env, ix, txs, t[h], b, k) <= MAX_BLOCK_SIGOPS
    requires nTxValueIn == TxIn(env, ix, txs, t[h], b, k)
    requires ix + queued' == ApplyTxs(env, ix, t[h], b, k + 1)
    ensures var tx := b.vtx[k];
      QueuedUpTo(env, t, txs, ix, check, h, b, k + 1, queued', nTxPos + tx.size, nSigOps', nValueIn + nTxValueIn,
                 nValueOut + ValueOut(tx),
                 if tx.IsCoinBase() || tx.IsCoinStake() then nFees else nFees + nTxValueIn - ValueOut(tx))
  {
    hide TxAccepted, ResolvesAt, TxSigOps, TxIn, ApplyTxs, WellFormed, ValueOut, SizeOfTxs;
    SizeNext(b.vtx, k);
  }

  lemma CheckedTx(env: Env, b: Block, k: nat)
    requires CheckBlock(env, b) && k < |b.vtx|
    ensures CheckTransaction(env, b.vtx[k])
  {
  }

  ghost predicate IsRootOf(t: Tree, root: BlockHash, h: BlockHash)
    requires WellFormed(t)
  {
    IsAncestor(t, root, h) && t[root].nHeight == 0
  }

  class Chain {
    const env: Env
    const db: TxDb
    var tree: Tree                            // mapBlockIndex
    var blocks: Blocks                        // block contents on disk
    var txFile: TxFile                        // transactions in the block files
    var pnext: map<BlockHash, BlockHash>
    var nMint: map<BlockHash, int>
    var nMoneySupply: map<BlockHash, int>
    var pindexGenesisBlock: Option<BlockHash>
    var pindexBest: Option<BlockHash>
    var nBestHeight: int
    var pblockindexFBBHLast: Option<BlockHash>

    // ---------------------------------------------------------- invariants

    ghost predicate TreeOk()
      reads this
    {
      && WellFormed(tree) && blocks.Keys == tree.Keys
      && StoreOk(env, tree, blocks, txFile) && SuppliesKept(tree, nMoneySupply)
    }

    // Memory agrees with the accepted chain that ends in tip.
    ghost predicate OnChain(tip: BlockHash)
      requires TreeOk()
      reads this
    {
      && tip in tree
      && ChainSound(env, tree, blocks, txFile, tip)
      && SupplyOk(env, tree, blocks, txFile, nMoneySupply, tip)
      && PnextOk(tree, pnext, tip)
    }

    // The index and hashBestChain are those of the chain that ends in tip.
    ghost function DbAt(tip: BlockHash): DbState
      requires TreeOk() && tip in tree
      reads this
    {
      DbState(ReplayTo(env, tree, blocks, tip), Some(tip))
    }

    ghost predicate Valid()
      reads this, db
    {
      && TreeOk() && db.pending == None
      && (pindexGenesisBlock.None? <==> pindexBest.None?)
      && match pindexBest
         case None =>
           && db.committed == DbState(map[], None) && pnext == map[]
           && nBestHeight == -1 && pblockindexFBBHLast == None
         case Some(b) =>
           && OnChain(b) && db.committed == DbAt(b) && nBestHeight == tree[b].nHeight
           && IsRootOf(tree, pindexGenesisBlock.value, b)
           && (pblockindexFBBHLast.Some? ==> IsAncestor(tree, pblockindexFBBHLast.value, b))
    }

    // What a run is specified by.
    function Now(): NodeState
      reads this
    {
      NodeState(tree, blocks, txFile, pindexBest)
    }

    // ConnectBlock would accept h on top of its predecessors.
    ghost predicate Accepts(h: BlockHash)
      requires TreeOk()
      reads this
    {
      Acceptable(env, tree, blocks, txFile, nBestHeight, h)
    }

    constructor (env: Env)
      ensures Valid() && fresh(db) && this.env == env
      ensures Now() == EMPTY
    {
      this.env := env;
      db := new TxDb();
      tree, blocks, txFile, pnext, nMint, nMoneySupply := map[], map[], map[], map[], map[], map[];
      pindexGenesisBlock, pindexBest, nBestHeight, pblockindexFBBHLast := None, None, -1, None;
    }

    // ------------------------------------------------------ one transaction

    // The index that FetchInputs sees: queued changes over the database.
    ghost function View(queued: Index): Index
      requires db.pending.Some?
      reads db
    {
      db.pending.value.index + queued
    }

    // Called for a block (fBlock), so never for memory pool transactions.
    method FetchInputs(tx: Tx, queued: Index) returns (ok: bool, inputs: Inputs)
      requires db.pending.Some?
      ensures ok <==> tx.IsCoinBase() || AllResolve(View(queued), txFile, tx.vin)
      ensures ok && !tx.IsCoinBase() ==> inputs == Fetched(View(queued), txFile, tx.vin)
    {
      inputs := map[];
      if tx.IsCoinBase() {
        return true, inputs;
      }
      ghost var view := View(queued);
      for i := 0 to |tx.vin|
        invariant inputs.Keys == PrevHashes(tx.vin[..i])
        invariant forall h | h in inputs ::
          h in view && view[h].pos in txFile && inputs[h] == (view[h], txFile[view[h].pos])
      {
        var h := tx.vin[i].hash;
        assert tx.vin[..i + 1] == tx.vin[..i] + [tx.vin[i]];
        assert PrevHashes(tx.vin[..i + 1]) == PrevHashes(tx.vin[..i]) + {h};
        if h !in inputs {
          var e;
          if h in queued {
            e := queued[h];
          } else if h in db.pending.value.index {
            e := db.pending.value.index[h];
          } else {
            assert !Resolves(view, txFile, tx.vin[i]);
            return false, inputs;
          }
          assert e == view[h];
          if e.pos !in txFile {
            assert !Resolves(view, txFile, tx.vin[i]);
            return false, inputs;
          }
          inputs := inputs[h := (e, txFile[e.pos])];
        }
      }
      assert tx.vin[..|tx.vin|] == tx.vin;
      for i := 0 to |tx.vin|
        invariant forall j | 0 <= j < i :: Resolves(view, txFile, tx.vin[j])
      {
        var o := tx.vin[i];
        assert o.hash in PrevHashes(tx.vin);
        if o.n >= |inputs[o.hash].1.vout| || o.n >= |inputs[o.hash].0.vSpent| {
          assert !Resolves(view, txFile, tx.vin[i]);
          return false, inputs;
        }
      }
      ok := true;
    }

    // The maturity loop of ConnectInputs.
    method IsRecent(from: BlockHash, p: DiskTxPos) returns (recent: bool)
      requires WellFormed(tree) && from in tree
      ensures recent == MinedRecently(tree, from, from, p)
    {
      var h := Some(from);
      while h.Some? && tree[from].nHeight - tree[h.value].nHeight < COINBASE_MATURITY
        invariant h.Some? ==> h.value in tree
        invariant MinedRecently(tree, from, from, p) <==> h.Some? && MinedRecently(tree, from, h.value, p)
        decreases if h.Some? then tree[h.value].nHeight + 1 else 0
      {
        if p.DiskTxPos? && tree[h.value].nBlockPos == p.nBlockPos && tree[h.value].nFile == p.nFile {
          return true;
        }
        h := tree[h.value].pprev;
      }
      recent := false;
    }

    // ConnectInputs, first loop: the inexpensive checks.
    method CheckInputs(tx: Tx, inputs: Inputs, ghost view: Index, h: BlockHash)
      returns (ok: bool, nValueIn: int)
      requires WellFormed(tree) && h in tree
      requires AllResolve(view, txFile, tx.vin) && inputs == Fetched(view, txFile, tx.vin)
      ensures ok <==> forall i | 0 <= i < |tx.vin| :: InputPlausible(tree, txFile, view, h, tx, i)
      ensures ok ==> nValueIn == ValueIn(view, txFile, tx.vin)
    {
      hide MinedRecently, AncestorAt, WellFormed, MoneyRange;
      nValueIn := 0;
      for i := 0 to |tx.vin|
        invariant nValueIn == ValueIn(view, txFile, tx.vin[..i])
        invariant forall j | 0 <= j < i :: InputPlausible(tree, txFile, view, h, tx, j)
      {
        var o := tx.vin[i];
        assert Resolves(view, txFile, o);
        assert o.hash in PrevHashes(tx.vin);
        assert tx.vin[..i + 1][..i] == tx.vin[..i];
        var (e, txPrev) := inputs[o.hash];
        if txPrev.IsCoinBase() || txPrev.IsCoinStake() {
          var recent := IsRecent(h, e.pos);
          if recent {
            assert !InputPlausible(tree, txFile, view, h, tx, i);
            return false, nValueIn;
          }
        }
        if txPrev.nTime > tx.nTime {
          assert !InputPlausible(tree, txFile, view, h, tx, i);
          return false, nValueIn;
        }
        nValueIn := nValueIn + txPrev.vout[o.n].nValue;
        if !MoneyRange(txPrev.vout[o.n].nValue) || !MoneyRange(nValueIn) {
          assert !InputPlausible(tree, txFile, view, h, tx, i);
          return false, nValueIn;
        }
      }
      assert tx.vin[..|tx.vin|] == tx.vin;
      ok := true;
    }

    // ConnectInputs, second loop: double spends, signatures, and the spends.
    method SpendInputs(tx: Tx, inputs0: Inputs, ghost ix: Index, queued: Index, posThisTx: DiskTxPos)
      returns (ok: bool, queued': Index)
      requires DistinctInputs(tx)
      requires AllResolve(ix + queued, txFile, tx.vin) && inputs0 == Fetched(ix + queued, txFile, tx.vin)
      ensures ok <==> forall i | 0 <= i < |tx.vin| ::
        InputSpendable(env, txFile, ix + queued, CheckSigs(env, nBestHeight), tx, i)
      ensures ok ==> ix + queued' == MarkInputs(ix + queued, tx.vin, posThisTx)
    {
      hide MarkInputs, SpentUpTo;
      ghost var view := ix + queued;
      var check := CheckSigs(env, nBestHeight);
      var inputs := inputs0;
      queued' := queued;
      SpentNone(ix, queued, txFile, tx.vin, posThisTx);
      for i := 0 to |tx.vin|
        invariant SpentUpTo(ix, queued', inputs, view, txFile, tx.vin, i, posThisTx)
        invariant forall j | 0 <= j < i :: InputSpendable(env, txFile, view, check, tx, j)
      {
        var o := tx.vin[i];
        InputNotBefore(tx, i);
        SpentLookup(ix, queued', inputs, view, txFile, tx.vin, i, posThisTx);
        var (e, txPrev) := inputs[o.hash];
        if e.vSpent[o.n] != NullPos || (check && !env.verifySignature(txPrev, tx, i)) {
          assert !InputSpendable(env, txFile, view, check, tx, i);
          return false, queued;
        }
        assert InputSpendable(env, txFile, view, check, tx, i);
        var e' := e.(vSpent := e.vSpent[o.n := posThisTx]);
        SpentNext(ix, queued', inputs, view, txFile, tx.vin, i, posThisTx, e');
        inputs := inputs[o.hash := (e', txPrev)];
        queued' := queued'[o.hash := e'];
      }
      SpentAll(ix, queued', inputs, view, txFile, tx.vin, posThisTx);
      ok := true;
    }

    method ConnectInputs(tx: Tx, inputs: Inputs, queued: Index, posThisTx: DiskTxPos,
                         h: BlockHash) returns (ok: bool, queued': Index)
      requires db.pending.Some? && WellFormed(tree) && h in tree && !tx.IsCoinBase() && DistinctInputs(tx)
      requires AllResolve(View(queued), txFile, tx.vin) && inputs == Fetched(View(queued), txFile, tx.vin)
      ensures ok <==> InputsAccepted(env, tree, txFile, db.pending.value.index, View(queued),
                                     CheckSigs(env, nBestHeight), h, tx)
      ensures ok ==> View(queued') == MarkInputs(View(queued), tx.vin, posThisTx)
      // with good inputs the amounts decide: an ordinary transaction pays its
      // fee out of them, a coinstake gains no more than its limit
      ensures ok ==> forall i | 0 <= i < |tx.vin| ::
        && InputPlausible(tree, txFile, View(queued), h, tx, i)
        && InputSpendable(env, txFile, View(queued), CheckSigs(env, nBestHeight), tx, i)
      ensures
        (forall i | 0 <= i < |tx.vin| ::
          && InputPlausible(tree, txFile, View(queued), h, tx, i)
          && InputSpendable(env, txFile, View(queued), CheckSigs(env, nBestHeight), tx, i)) ==>
        (ok <==> var spent, made := ValueIn(View(queued), txFile, tx.vin), ValueOut(tx);
                 if tx.IsCoinStake() then
                   var limit := env.stakeLimit(db.pending.value.index, tx, tree[h]);
                   limit.Some? && made <= spent + limit.value
                 else made + env.minFee(tx) <= spent && made <= spent <= made + MAX_MONEY)
    {
      hide MarkInputs, AllResolve, Fetched, InputPlausible, InputSpendable, ValueIn, WellFormed;
      var plausible, nValueIn := CheckInputs(tx, inputs, View(queued), h);
      if !plausible {
        return false, queued;
      }
      ok, queued' := SpendInputs(tx, inputs, db.pending.value.index, queued, posThisTx);
      if !ok {
        return;
      }
      if tx.IsCoinStake() {
        var limit := env.stakeLimit(db.pending.value.index, tx, tree[h]);
        if limit.None? || ValueOut(tx) - nValueIn > limit.value {
          ok := false;
        }
      } else {
        var nTxFee := nValueIn - ValueOut(tx);
        if nTxFee < 0 || nTxFee < env.minFee(tx) || !MoneyRange(nTxFee) {
          ok := false;
        }
      }
    }

    // -------------------------------------------------------- one block

    method DisconnectInputs(tx: Tx) returns (ok: bool)
      requires db.pending.Some?
      modifies db
      ensures db.committed == old(db.committed) && db.pending.Some?
      ensures ok == UndoTx(old(db.pending.value.index), tx).Some?
      ensures ok ==> db.pending == Some(old(db.pending.value).(index := UndoTx(old(db.pending.value.index), tx).value))
    {
      ghost var ix := db.pending.value.index;
      if !tx.IsCoinBase() {
        for i := 0 to |tx.vin|
          invariant db.committed == old(db.committed) && db.pending.Some?
          invariant forall o | o in tx.vin[..i] :: InRange(ix, o)
          invariant db.pending == Some(old(db.pending.value).(index := MarkInputs(ix, tx.vin[..i], NullPos)))
        {
          var o := tx.vin[i];
          MarkAt(ix, tx.vin[..i], NullPos);
          assert tx.vin[..i + 1] == tx.vin[..i] + [o];
          assert tx.vin[..i + 1][..i] == tx.vin[..i];
          if o.hash !in db.pending.value.index {
            assert !InRange(ix, o);
            return false;
          }
          var e := db.pending.value.index[o.hash];
          if o.n >= |e.vSpent| {
            assert !InRange(ix, o);
            return false;
          }
          db.UpdateTxIndex(o.hash, e.(vSpent := e.vSpent[o.n := NullPos]));
        }
        assert tx.vin[..|tx.vin|] == tx.vin;
      }
      db.EraseTxIndex(tx.hash);
      ok := true;
    }

    method DisconnectBlock(b: Block) returns (ok: bool)
      requires db.pending.Some?
      modifies db
      ensures db.committed == old(db.committed) && db.pending.Some?
      ensures ok == UndoBlock(old(db.pending.value.index), b).Some?
      ensures ok ==>
        db.pending == Some(old(db.pending.value).(index := UndoBlock(old(db.pending.value.index), b).value))
    {
      var i := |b.vtx|;
      while i > 0
        invariant 0 <= i <= |b.vtx|
        invariant db.committed == old(db.committed) && db.pending.Some?
        invariant db.pending.value == old(db.pending.value).(index := db.pending.value.index)
        invariant UndoTxs(db.pending.value.index, b, i) == UndoBlock(old(db.pending.value.index), b)
      {
        i := i - 1;
        ok := DisconnectInputs(b.vtx[i]);
        if !ok {
          return;
        }
      }
      ok := true;
    }

    // One transaction of ConnectBlock.
    method QueueTx(h: BlockHash, b: Block, k: nat, ghost ix: Index, queued: Index, nSigOps: nat, posThisTx: DiskTxPos)
      returns (ok: bool, queued': Index, nTxValueIn: int, nSigOps': nat)
      requires db.pending.Some? && ix == db.pending.value.index && WellFormed(tree) && h in tree
      requires k < |b.vtx| && CheckTransaction(env, b.vtx[k])
      requires ix + queued == ApplyTxs(env, ix, tree[h], b, k)
      requires posThisTx == TxPos(env, tree[h], b, k)
      ensures ok <==>
        && TxAccepted(env, tree, txFile, ix, CheckSigs(env, nBestHeight), h, b, k)
        && ResolvesAt(env, ix, txFile, tree[h], b, k)
        && nSigOps + TxSigOps(env, ix, txFile, tree[h], b, k) <= MAX_BLOCK_SIGOPS
      ensures ok ==>
        && ix + queued' == ApplyTxs(env, ix, tree[h], b, k + 1)
        && nTxValueIn == TxIn(env, ix, txFile, tree[h], b, k)
        && nSigOps' == nSigOps + TxSigOps(env, ix, txFile, tree[h], b, k)
    {
      var tx := b.vtx[k];
      queued', nTxValueIn, nSigOps' := queued, 0, nSigOps;
      ok := true;
      if tx.hash in db.pending.value.index && NullPos in db.pending.value.index[tx.hash].vSpent {
        return false, queued', 0, 0;
      }
      nSigOps' := nSigOps' + tx.sigOps;
      if nSigOps' > MAX_BLOCK_SIGOPS {
        return false, queued', 0, 0;
      }
      if !tx.IsCoinBase() {
        var inputs;
        ok, inputs := FetchInputs(tx, queued);
        if !ok {
          return;
        }
        nSigOps' := nSigOps' + env.p2shSigOps(tx, PrevTxs(inputs));
        if nSigOps' > MAX_BLOCK_SIGOPS {
          return false, queued', 0, 0;
        }
        nTxValueIn := GetValueIn(tx, inputs, ix + queued);
        ok, queued' := ConnectInputs(tx, inputs, queued, posThisTx, h);
        if !ok {
          return;
        }
      }
      QueueWrite(ix, queued', tx.hash, TxIndex(posThisTx, Nulls(|tx.vout|)));
      queued' := queued'[tx.hash := TxIndex(posThisTx, Nulls(|tx.vout|))];
    }

    method GetValueIn(tx: Tx, inputs: Inputs, ghost view: Index) returns (nResult: int)
      requires AllResolve(view, txFile, tx.vin) && inputs == Fetched(view, txFile, tx.vin)
      ensures nResult == ValueIn(view, txFile, tx.vin)
    {
      nResult := 0;
      for i := 0 to |tx.vin|
        invariant nResult == ValueIn(view, txFile, tx.vin[..i])
      {
        assert Resolves(view, txFile, tx.vin[i]);
        assert tx.vin[i].hash in PrevHashes(tx.vin);
        assert tx.vin[..i + 1][..i] == tx.vin[..i];
        nResult := nResult + inputs[tx.vin[i].hash].1.vout[tx.vin[i].n].nValue;
      }
      assert tx.vin[..|tx.vin|] == tx.vin;
    }

    // The transaction loop of ConnectBlock on block h, up to the write-back.
    method QueueBlock(h: BlockHash, b: Block)
      returns (ok: bool, queued: Index, nValueIn: int, nValueOut: int, nFees: int)
      requires db.pending.Some? && WellFormed(tree) && h in tree && CheckBlock(env, b)
      ensures ok <==> TxsAccepted(env, tree, txFile, db.pending.value.index, CheckSigs(env, nBestHeight), h, b)
      ensures ok ==> var ix, n := db.pending.value.index, |b.vtx|;
        && Resolvable(env, ix, txFile, tree[h], b, n)
        && ix + queued == ApplyBlock(env, ix, tree[h], b)
        && nValueIn == BlockIn(env, ix, txFile, tree[h], b, n) && nValueOut == BlockOut(b, n)
        && nFees == Fees(env, ix, txFile, tree[h], b, n)
    {
      hide *;
      ghost var ix := db.pending.value.index;
      ghost var check := CheckSigs(env, nBestHeight);
      queued, nValueIn, nValueOut, nFees := map[], 0, 0, 0;
      var nSigOps: nat := 0;
      var nTxPos: nat := FirstTxPos(env, tree[h], b);
      QueuedNone(env, tree, txFile, ix, check, h, b);
      for k := 0 to |b.vtx|
        invariant QueuedUpTo(env, tree, txFile, ix, check, h, b, k, queued, nTxPos, nSigOps, nValueIn, nValueOut, nFees)
      {
        QueuedFacts(env, tree, txFile, ix, check, h, b, k, queued, nTxPos, nSigOps, nValueIn, nValueOut, nFees);
        CheckedTx(env, b, k);
        var tx := b.vtx[k];
        var posThisTx := DiskTxPos(tree[h].nFile, tree[h].nBlockPos, nTxPos);
        var queued', nTxValueIn, nSigOps';
        ok, queued', nTxValueIn, nSigOps' := QueueTx(h, b, k, ix, queued, nSigOps, posThisTx);
        if !ok {
          return;
        }
        QueuedNext(env, tree, txFile, ix, check, h, b, k, queued, nTxPos, nSigOps, nValueIn, nValueOut, nFees,
                   queued', nSigOps', nTxValueIn);
        queued, nTxPos, nSigOps := queued', nTxPos + tx.size, nSigOps';
        nValueIn, nValueOut := nValueIn + nTxValueIn, nValueOut + ValueOut(tx);
        if !tx.IsCoinBase() && !tx.IsCoinStake() {
          nFees := nFees + nTxValueIn - ValueOut(tx);
        }
      }
      QueuedFacts(env, tree, txFile, ix, check, h, b, |b.vtx|, queued, nTxPos, nSigOps, nValueIn, nValueOut, nFees);
      ok := true;
    }

    // Connects block h to the pending index; on failure the pending index is
    // left as it was or half done, and the caller aborts.
    method ConnectBlock(h: BlockHash, b: Block) returns (ok: bool, ghost own: int)
      requires db.pending.Some? && TreeOk() && h in tree && tree[h].pprev.Some? && blocks[h] == b
      modifies this`nMint, this`nMoneySupply, db
      ensures TreeOk() && db.committed == old(db.committed) && db.pending.Some?
      ensures db.pending.value.hashBestChain == old(db.pending.value.hashBestChain)
      ensures ok == BlockAccepted(env, tree, txFile, old(db.pending.value.index), nBestHeight, h, b)
      ensures ok ==> db.pending.value.index == ApplyBlock(env, old(db.pending.value.index), tree[h], b)
      ensures nMoneySupply == old(nMoneySupply)[h := own]
      ensures ok ==> var ix, n := old(db.pending.value.index), |b.vtx|;
        && Resolvable(env, ix, txFile, tree[h], b, n)
        && own == old(nMoneySupply)[tree[h].pprev.value]
                  + BlockOut(b, n) - BlockIn(env, ix, txFile, tree[h], b, n)
        && nMint == old(nMint)[h := BlockOut(b, n) - BlockIn(env, ix, txFile, tree[h], b, n)
                                    + Fees(env, ix, txFile, tree[h], b, n)]
      // it mints no more than the reward and the gain of its coinstake, and
      // adds no more than that, less the fees, to the supply
      ensures ok ==> var ix, n := old(db.pending.value.index), |b.vtx|;
        var allowed := env.powReward(tree[h].nHeight, Fees(env, ix, txFile, tree[h], b, n), tree[h].pprev)
                       + StakeGain(env, ix, tree[h], b);
        && nMint[h] <= allowed
        && own <= old(nMoneySupply)[tree[h].pprev.value] + allowed - MinFees(env, b, n)
    {
      hide BlockIn, BlockOut, Fees, ApplyBlock, TxAccepted, SigOps, Resolvable, ValueOut, CheckTransaction;
      hide LegacySigOps, MoneyRange, SumOutputs;
      ghost var ix := db.pending.value.index;
      SelfUpdate(nMoneySupply, h);
      own := nMoneySupply[h];
      if !CheckBlock(env, b) {
        ok := false;
        return;
      }
      var queued, nValueIn, nValueOut, nFees;
      ok, queued, nValueIn, nValueOut, nFees := QueueBlock(h, b);
      if !ok {
        return;
      }
      own := nMoneySupply[tree[h].pprev.value] + nValueOut - nValueIn;
      Record(h, queued, nValueIn, nValueOut, nFees);
      if ValueOut(b.vtx[0]) > PowReward(env, tree[h].nHeight, nFees, tree[h].pprev) {
        ok := false;
        return;
      }
      ok := true;
      MintBounded(env, tree, txFile, ix, nBestHeight, h, b);
    }

    // What an accepted block leaves behind.
    method Record(h: BlockHash, queued: Index, nValueIn: int, nValueOut: int, nFees: int)
      requires db.pending.Some? && TreeOk() && h in tree && tree[h].pprev.Some?
      modifies this`nMint, this`nMoneySupply, db
      ensures TreeOk() && db.committed == old(db.committed)
      ensures nMint == old(nMint)[h := nValueOut - nValueIn + nFees]
      ensures tree[h].pprev.value in old(nMoneySupply)
      ensures nMoneySupply
           == old(nMoneySupply)[h := old(nMoneySupply)[tree[h].pprev.value] + nValueOut - nValueIn]
      ensures db.pending == Some(old(db.pending.value).(index := old(db.pending.value.index) + queued))
    {
      SupplySet(tree, nMoneySupply, h);
      hide StoreOk, WellFormed, SuppliesKept;
      nMint := nMint[h := nValueOut - nValueIn + nFees];
      nMoneySupply := SetSupply(nMoneySupply, h, nMoneySupply[tree[h].pprev.value] + nValueOut - nValueIn);
      WriteQueued(queued);
    }

    // The queued entries go into the database.
    method WriteQueued(queued: Index)
      requires db.pending.Some?
      modifies db
      ensures db.committed == old(db.committed)
      ensures db.pending == Some(old(db.pending.value).(index := old(db.pending.value.index) + queued))
    {
      var rest := queued.Keys;
      ghost var ix := db.pending.value.index;
      assert queued - queued.Keys == map[] && ix + map[] == ix;
      while rest != {}
        invariant rest <= queued.Keys && db.committed == old(db.committed)
        invariant db.pending == Some(old(db.pending.value).(index := ix + (queued - rest)))
        decreases rest
      {
        ghost var some: TxId := AnyOf(rest);
        assert some in rest;
        var h :| h in rest;
        db.UpdateTxIndex(h, queued[h]);
        assert queued - (rest - {h}) == (queued - rest)[h := queued[h]];
        QueueWrite(ix, queued - rest, h, queued[h]);
        rest := rest - {h};
      }
      assert queued - {} == queued;
    }

    // ---------------------------------------------------------- best chain

    // Appends block h to the chain that ends at its parent.
    method SetBestChainInner(h: BlockHash) returns (ok: bool)
      requires TreeOk() && h in tree && tree[h].pprev.Some? && OnChain(tree[h].pprev.value)
      requires db.committed == DbAt(tree[h].pprev.value) && db.pending == Some(db.committed)
      modifies this`nMint, this`nMoneySupply, this`pnext, db
      ensures TreeOk() && db.pending == None
      ensures ok == old(Accepts(h))
      ensures ok ==> OnChain(h) && db.committed == DbAt(h)
      ensures !ok ==> OnChain(tree[h].pprev.value) && db.committed == old(db.committed) && pnext == old(pnext)
    {
      hide ReplayTo, BlockAccepted, ApplyBlock, BlockIn, BlockOut, Resolvable, UnspentSum, StoreOk, ChainSound;
      hide AncestorAt, SupplyOk, PnextOk, WellFormed;
      ghost var p := tree[h].pprev.value;
      ghost var supply := nMoneySupply;
      NotAncestorOfParent(tree, h);
      assert Accepts(h) == BlockAccepted(env, tree, txFile, db.committed.index, nBestHeight, h, blocks[h]);
      ghost var own;
      ok, own := ConnectBlock(h, blocks[h]);
      SupplyElsewhere(env, tree, blocks, txFile, supply, h, own, p);
      if !ok {
        db.TxnAbort();
        return;
      }
      db.WriteHashBestChain(h);
      ok := db.TxnCommit();
      SoundUp(env, tree, blocks, txFile, nBestHeight, h);
      StepReplay(h);
      SupplyUp(env, tree, blocks, txFile, nMoneySupply, h);
      PnextUp(tree, pnext, h);
      pnext := pnext[tree[h].pprev.value := h];
    }

    lemma StepReplay(h: BlockHash)
      requires TreeOk() && h in tree && tree[h].pprev.Some?
      ensures ReplayTo(env, tree, blocks, h) ==
        ApplyBlock(env, ReplayTo(env, tree, blocks, tree[h].pprev.value), tree[h], blocks[h])
    {
    }

    // Switches the database and the links to the chain that ends in pindexNew,
    // inside the transaction that SetBestChain began.
    method Reorganize(pindexNew: BlockHash, readable: set<BlockHash>) returns (ok: bool)
      requires TreeOk() && pindexBest.Some? && OnChain(pindexBest.value) && pindexNew in tree
      requires db.committed == DbAt(pindexBest.value) && db.pending == Some(db.committed)
      modifies this`nMint, this`nMoneySupply, this`pnext, db
      ensures TreeOk()
      ensures ok == CanSwitch(env, tree, blocks, txFile, nBestHeight, readable, pindexBest.value, pindexNew)
      ensures ok ==> OnChain(pindexNew) && db.committed == DbAt(pindexNew) && db.pending == None
      ensures !ok ==> OnChain(pindexBest.value) && db.committed == old(db.committed) && pnext == old(pnext)
    {
      hide ReplayTo, ChainSound, SupplyOk, PnextOk, WellFormed, StoreOk, SuppliesKept, AncestorAt, CanSwitch;
      hide BlockAccepted;
      var best := pindexBest.value;
      var fork := FindFork(tree, best, pindexNew);
      if fork.None? {
        NoForkNoSwitch(env, tree, blocks, txFile, nBestHeight, readable, best, pindexNew);
        return false;
      }
      var pfork := fork.value;
      var vDisconnect := Descend(tree, best, pfork);
      var down := Descend(tree, pindexNew, pfork);
      SwitchDecided(env, tree, blocks, txFile, nBestHeight, readable, best, pindexNew, pfork, vDisconnect, down);
      ok := DisconnectBranch(best, pfork, vDisconnect, readable);
      if !ok {
        return;
      }
      ok := ConnectBranch(best, pfork, pindexNew, down, readable);
      if !ok {
        return;
      }
      db.WriteHashBestChain(pindexNew);
      ok := db.TxnCommit();
      Relink(best, pfork, pindexNew, vDisconnect, down);
    }

    // Disconnects the shorter branch in the database.
    method DisconnectBranch(best: BlockHash, pfork: BlockHash, vDisconnect: seq<BlockHash>, readable: set<BlockHash>)
      returns (ok: bool)
      requires TreeOk() && best in tree && IsDescent(tree, vDisconnect, best, pfork)
      requires ChainSound(env, tree, blocks, txFile, best)
      requires db.committed == DbAt(best) && db.pending == Some(db.committed)
      modifies db
      ensures db.committed == old(db.committed) && db.pending.Some?
      ensures ok <==> forall x | x in vDisconnect :: x in readable
      ensures ok ==> ChainSound(env, tree, blocks, txFile, pfork)
      ensures ok ==> db.pending.value == DbState(ReplayTo(env, tree, blocks, pfork), Some(best))
    {
      hide ReplayTo, ChainSound, UndoBlock, StoreOk, SuppliesKept, AncestorAt, WellFormed;
      ghost var top := tree[best].nHeight;
      ghost var cur := best;
      AncestorReflexive(tree, best);
      for i := 0 to |vDisconnect|
        invariant cur == AncestorAt(tree, best, top - i)
        invariant db.committed == old(db.committed)
        invariant db.pending == Some(DbState(ReplayTo(env, tree, blocks, cur), Some(best)))
        invariant ChainSound(env, tree, blocks, txFile, cur)
        invariant forall x | x in vDisconnect[..i] :: x in readable
      {
        var x := vDisconnect[i];
        if x !in readable {
          return false;
        }
        ParentOnPath(tree, best, top - i - 1);
        DisconnectTip(env, tree, blocks, txFile, x);
        SoundDown(env, tree, blocks, txFile, x);
        var done := DisconnectBlock(blocks[x]);
        assert done;  // the error exit for a failed DisconnectBlock is never taken
        cur := tree[x].pprev.value;
      }
      ok := true;
    }

    // Connects the longer branch in the database, lowest block first.
    method ConnectBranch(best: BlockHash, pfork: BlockHash, pindexNew: BlockHash, down: seq<BlockHash>,
                         readable: set<BlockHash>) returns (ok: bool)
      requires TreeOk() && IsLastCommonAncestor(tree, pfork, best, pindexNew) && IsDescent(tree, down, pindexNew, pfork)
      requires ChainSound(env, tree, blocks, txFile, pfork)
      requires SupplyOk(env, tree, blocks, txFile, nMoneySupply, best)
      requires db.pending == Some(DbState(ReplayTo(env, tree, blocks, pfork), Some(best)))
      modifies this`nMint, this`nMoneySupply, db
      ensures TreeOk() && db.committed == old(db.committed) && db.pending.Some?
      ensures SupplyOk(env, tree, blocks, txFile, nMoneySupply, best)
      ensures ok <==> forall x | x in down :: x in readable && Accepts(x)
      ensures ok ==> ChainSound(env, tree, blocks, txFile, pindexNew)
      ensures ok ==> SupplyOk(env, tree, blocks, txFile, nMoneySupply, pindexNew)
      ensures ok ==> db.pending.value == DbState(ReplayTo(env, tree, blocks, pindexNew), Some(best))
    {
      hide ReplayTo, BlockAccepted, ApplyBlock, BlockIn, BlockOut, Resolvable, UnspentSum, StoreOk, ChainSound;
      hide AncestorAt, SupplyOk, WellFormed;
      ghost var top := tree[pindexNew].nHeight;
      ghost var cur := pfork;
      var i := |down|;
      AncestorReflexive(tree, pindexNew);
      SupplyDown(env, tree, blocks, txFile, nMoneySupply, pfork, best);
      while i > 0
        invariant 0 <= i <= |down| && TreeOk()
        invariant cur == AncestorAt(tree, pindexNew, top - i)
        invariant db.committed == old(db.committed)
        invariant db.pending == Some(DbState(ReplayTo(env, tree, blocks, cur), Some(best)))
        invariant ChainSound(env, tree, blocks, txFile, cur)
        invariant SupplyOk(env, tree, blocks, txFile, nMoneySupply, cur)
        invariant SupplyOk(env, tree, blocks, txFile, nMoneySupply, best)
        invariant forall x | x in down[i..] :: x in readable && Accepts(x)
      {
        i := i - 1;
        var x := down[i];
        assert down[i..] == [x] + down[i + 1..];
        if x !in readable {
          return false;
        }
        ParentOnPath(tree, pindexNew, top - i - 1);
        DescentCovers(tree, down, pindexNew, pfork, x);
        NotAncestorOfParent(tree, x);
        assert !IsAncestor(tree, x, best);
        assert Accepts(x) == BlockAccepted(env, tree, txFile, db.pending.value.index, nBestHeight, x, blocks[x]);
        ghost var supply := nMoneySupply;
        ghost var own;
        ok, own := ConnectBlock(x, blocks[x]);
        SupplyElsewhere(env, tree, blocks, txFile, supply, x, own, best);
        if !ok {
          return;
        }
        SupplyElsewhere(env, tree, blocks, txFile, supply, x, own, cur);
        SoundUp(env, tree, blocks, txFile, nBestHeight, x);
        StepReplay(x);
        SupplyUp(env, tree, blocks, txFile, nMoneySupply, x);
        cur := x;
      }
      ok := true;
    }

    // After the commit: the pnext links of both branches.
    method Relink(best: BlockHash, pfork: BlockHash, pindexNew: BlockHash, vDisconnect: seq<BlockHash>,
                  down: seq<BlockHash>)
      requires WellFormed(tree) && PnextOk(tree, pnext, best)
      requires IsDescent(tree, vDisconnect, best, pfork) && IsDescent(tree, down, pindexNew, pfork)
      modifies this`pnext
      ensures PnextOk(tree, pnext, pindexNew)
    {
      hide AncestorAt, PnextOk, WellFormed;
      ghost var cur := best;
      AncestorReflexive(tree, best);
      AncestorReflexive(tree, pindexNew);
      for i := 0 to |vDisconnect|
        invariant cur == AncestorAt(tree, best, tree[best].nHeight - i)
        invariant PnextOk(tree, pnext, cur)
      {
        ParentOnPath(tree, best, tree[best].nHeight - i - 1);
        PnextDown(tree, pnext, cur);
        pnext := pnext - {tree[vDisconnect[i]].pprev.value};
        cur := tree[cur].pprev.value;
      }
      var i := |down|;
      while i > 0
        invariant 0 <= i <= |down|
        invariant cur == AncestorAt(tree, pindexNew, tree[pindexNew].nHeight - i)
        invariant PnextOk(tree, pnext, cur)
      {
        i := i - 1;
        ParentOnPath(tree, pindexNew, tree[pindexNew].nHeight - i - 1);
        PnextUp(tree, pnext, down[i]);
        pnext := pnext[tree[down[i]].pprev.value := down[i]];
        cur := down[i];
      }
    }

    // Connects the postponed blocks, lowest first, and stops at the first
    // failure.
    method ConnectPostponed(mid: BlockHash, h: BlockHash, secondary: seq<BlockHash>, readable: set<BlockHash>)
      returns (complete: bool, ghost reached: BlockHash)
      requires TreeOk() && mid in tree && OnChain(mid) && db.committed == DbAt(mid) && db.pending == None
      requires Sane(Now()) && h in tree && mid == FirstGoal(Now(), h) && nBestHeight == BestHeight(Now())
      requires IsDescent(tree, secondary, h, mid)
      modifies this`nMint, this`nMoneySupply, this`pnext, db
      ensures TreeOk() && db.pending == None
      ensures complete <==> forall x | x in secondary :: x in readable && Accepts(x)
      ensures HaltsAt(env, Now(), readable, h, reached) && (complete <==> reached == h)
      ensures OnChain(reached) && db.committed == DbAt(reached)
    {
      hide ReplayTo, Acceptable, ChainSound, SupplyOk, PnextOk, WellFormed, StoreOk, SuppliesKept, AncestorAt;
      ghost var top := tree[h].nHeight;
      reached := mid;
      AncestorReflexive(tree, h);
      var i := |secondary|;
      while i > 0
        invariant 0 <= i <= |secondary| && TreeOk() && db.pending == None
        invariant IsAncestor(tree, reached, h) && reached == AncestorAt(tree, h, top - i)
        invariant tree[reached].nHeight == top - i
        invariant OnChain(reached) && db.committed == DbAt(reached)
        invariant forall x | x in secondary[i..] :: x in readable && Accepts(x)
      {
        i := i - 1;
        var x := secondary[i];
        assert secondary[i..] == [x] + secondary[i + 1..];
        if x !in readable {
          HaltsThere(env, Now(), readable, h, secondary, i + 1);
          return false, reached;
        }
        ParentOnPath(tree, h, top - i - 1);
        DescentCovers(tree, secondary, h, mid, x);
        var begun := db.TxnBegin();
        var connected := SetBestChainInner(x);
        if !connected {
          HaltsThere(env, Now(), readable, h, secondary, i + 1);
          return false, reached;
        }
        reached := x;
      }
      HaltsThere(env, Now(), readable, h, secondary, 0);
      complete := true;
    }

    // Makes h the tip.  On failure nothing that counts has changed.  On
    // success memory points at h, and the transaction index is the replay of
    // the chain up to `reached`, which is h exactly when every postponed block
    // connected.
    method SetBestChain(h: BlockHash, readable: set<BlockHash>)
      returns (ok: bool, complete: bool, ghost reached: BlockHash)
      requires Valid() && h in tree && (pindexBest.Some? || h == env.hashGenesisBlock)
      modifies this`nMint, this`nMoneySupply, this`pnext, this`pindexGenesisBlock, this`pindexBest
      modifies this`nBestHeight, this`pblockindexFBBHLast, db
      ensures TreeOk()
      ensures ok == Starts(env, old(Now()), readable, h)
      ensures !ok ==> Valid() && pindexBest == old(pindexBest) && pnext == old(pnext)
      ensures !ok ==> db.committed == old(db.committed)
      ensures ok ==> pindexBest == Some(h)
      ensures ok ==> (Valid() <==> Finishes(env, old(Now()), readable, h))
      ensures ok ==> (db.committed == DbAt(h) <==> Valid())
      ensures ok ==> HaltsAt(env, old(Now()), readable, h, reached) && reached in tree && db.committed == DbAt(reached)
      ensures complete == Valid()
    {
      ghost var s := Now();
      reached := h;
      hide Starts, Finishes, HaltsAt, FirstGoal;
      hide ReplayTo, Acceptable, ChainSound, SupplyOk, PnextOk, WellFormed, StoreOk, SuppliesKept, AncestorAt;
      hide CanSwitch, Intermediate;
      if pindexBest.None? || tree[h].pprev == pindexBest {
        StraightAhead(env, s, readable, h);
      }
      var begun := db.TxnBegin();
      complete := true;
      if pindexGenesisBlock.None? && h == env.hashGenesisBlock {
        db.WriteHashBestChain(h);
        var committed := db.TxnCommit();
        pindexGenesisBlock := Some(h);
        GenesisOnChain(h);
      } else if tree[h].pprev == pindexBest {
        ok := SetBestChainInner(h);
        if !ok {
          return;
        }
        ProperAncestorOfParent(tree, pindexGenesisBlock.value, h);
      } else {
        AncestorReflexive(tree, pindexBest.value);
        ok, complete, reached := SwitchBranch(h, readable);
        if !ok {
          return;
        }
      }
      if reached != h {
        ReplayDiffersStore(env, tree, blocks, txFile, reached, h);
      }
      pindexBest := Some(h);
      pblockindexFBBHLast := None;
      nBestHeight := tree[h].nHeight;
      ok := true;
    }

    // The chain state has been brought up to `reached`, on the way to h.
    ghost predicate Reached(h: BlockHash, reached: BlockHash)
      reads this
    {
      && TreeOk() && pindexGenesisBlock.Some? && IsRootOf(tree, pindexGenesisBlock.value, h)
      && IsAncestor(tree, reached, h) && OnChain(reached)
    }

    // The part of SetBestChain that goes over to another branch.
    method SwitchBranch(h: BlockHash, readable: set<BlockHash>)
      returns (ok: bool, complete: bool, ghost reached: BlockHash)
      requires pindexBest.Some? && Reached(pindexBest.value, pindexBest.value)
      requires h in tree && tree[h].pprev != pindexBest
      requires db.committed == DbAt(pindexBest.value) && db.pending == Some(db.committed)
      requires nBestHeight == tree[pindexBest.value].nHeight
      modifies this`nMint, this`nMoneySupply, this`pnext, db
      ensures TreeOk() && db.pending == None && Sane(Now()) && ok == Starts(env, Now(), readable, h)
      ensures !ok ==> OnChain(pindexBest.value) && db.committed == old(db.committed) && pnext == old(pnext) && complete
      ensures ok ==> Reached(h, reached) && db.committed == DbAt(reached)
      ensures ok ==> HaltsAt(env, Now(), readable, h, reached)
      ensures ok ==> (complete <==> reached == h) && complete == Finishes(env, Now(), readable, h)
    {
      hide ReplayTo, Acceptable, ChainSound, SupplyOk, PnextOk, WellFormed, StoreOk, SuppliesKept, AncestorAt;
      hide CanSwitch, Intermediate, PathConnects;
      complete, reached := true, h;
      var best := pindexBest.value;
      var mid, secondary := CollectPostponed(tree, h, tree[best].bnChainTrust);
      ok := Reorganize(mid, readable);
      if !ok {
        db.TxnAbort();
        return;
      }
      SwitchKeepsRoot(env, tree, blocks, txFile, nBestHeight, readable, pindexGenesisBlock.value, best, mid, h);
      PathDecided(env, tree, blocks, txFile, nBestHeight, readable, mid, h, secondary);
      complete, reached := ConnectPostponed(mid, h, secondary, readable);
    }

    // A root block with an empty index and no links is a chain of its own.
    lemma GenesisOnChain(h: BlockHash)
      requires TreeOk() && h in tree && h == env.hashGenesisBlock && pnext == map[]
      ensures OnChain(h) && DbAt(h).index == map[] && IsRootOf(tree, h, h)
    {
    }

    // Indexes block h, found at (nFile, nBlockPos) with the given own trust,
    // and makes it the tip if its chain has more trust than the best one.
    // `fields` carries the parts of the index entry that the chain state does
    // not compute.
    method AddToBlockIndex(h: BlockHash, b: Block, fields: BlockIndex, nBlockTrust: nat, readable: set<BlockHash>)
      returns (ok: bool, complete: bool, ghost reached: BlockHash)
      requires Valid() && (pindexBest.Some? || h == env.hashGenesisBlock)
      requires h !in tree ==> Admissible(env, tree, blocks, txFile, h, b, fields)
      modifies this, db
      ensures TreeOk() && complete == Valid()
      ensures h in old(tree) ==> !ok && complete
      ensures h !in old(tree) ==> tree.Keys == old(tree).Keys + {h} && Grows(old(tree), tree)
      ensures h !in old(tree) ==> blocks == old(blocks)[h := b] && Grows(old(txFile), txFile)
      ensures !ok ==> complete && pindexBest == old(pindexBest) && db.committed == old(db.committed)
      ensures pindexBest == old(pindexBest) || pindexBest == Some(h)
      ensures pindexBest != old(pindexBest) ==> h in tree && tree[h].bnChainTrust > 0
      ensures pindexBest != old(pindexBest) && old(pindexBest).Some? ==>
        old(pindexBest).value in tree && tree[h].bnChainTrust > tree[old(pindexBest).value].bnChainTrust
      ensures Steps(env, old(Now()), NewBlock(h, b, fields, nBlockTrust, readable), Now(), complete, reached)
      ensures !complete ==> reached in tree && db.committed == DbAt(reached)
    {
      ghost var s, e := Now(), NewBlock(h, b, fields, nBlockTrust, readable);
      hide Valid, TreeOk, Admissible, WellFormed, Indexed, Wanted, Inserted, Steps, IsNodeFor, Grows, DbAt, BestTrust;
      ValidTree();
      NewEvent(env, s, h, b, fields, nBlockTrust, readable);
      reached := h;
      if h in tree {
        StepsWithoutSwitch(env, s, e, h);
        return false, true, h;
      }
      var nBestTrust := BestTrust(Now());
      BestTrustIs(s);
      InsertBlock(h, b, fields, nBlockTrust);
      ok, complete, reached := SwitchIfBetter(h, nBestTrust, readable, s, e);
    }

    // New best: the part of AddToBlockIndex that may change the tip.
    method SwitchIfBetter(h: BlockHash, nBestTrust: nat, readable: set<BlockHash>, ghost s: NodeState, ghost e: Event)
      returns (ok: bool, complete: bool, ghost reached: BlockHash)
      requires Valid() && h in tree && (pindexBest.Some? || h == env.hashGenesisBlock)
      requires Sane(s) && Now() == Indexed(env, s, e) && e.NewBlock? && e.readable == readable
      requires Wanted(env, s, e) == if tree[h].bnChainTrust > nBestTrust then Some(h) else None
      modifies this, db
      ensures tree == old(tree) && blocks == old(blocks) && txFile == old(txFile)
      ensures TreeOk() && complete == Valid()
      ensures !ok ==> complete && pindexBest == old(pindexBest) && db.committed == old(db.committed)
      ensures pindexBest == old(pindexBest) || (pindexBest == Some(h) && tree[h].bnChainTrust > nBestTrust)
      ensures Steps(env, s, e, Now(), complete, reached)
      ensures !complete ==> reached in tree && db.committed == DbAt(reached)
    {
      hide Steps, Wanted, Indexed, Starts, Finishes, HaltsAt, Valid, TreeOk, DbAt, WellFormed;
      ok, complete, reached := true, true, h;
      if tree[h].bnChainTrust > nBestTrust {
        ok, complete, reached := SetBestChain(h, readable);
        StepsBySwitch(env, s, e, Indexed(env, s, e), ok, complete, reached);
      } else {
        StepsWithoutSwitch(env, s, e, h);
        ValidTree();
      }
    }

    method InsertBlock(h: BlockHash, b: Block, fields: BlockIndex, nBlockTrust: nat)
      requires Valid() && h !in tree && Admissible(env, tree, blocks, txFile, h, b, fields)
      modifies this`tree, this`blocks, this`txFile, this`nMoneySupply
      ensures TreeOk() && Valid() && h in tree && tree == old(tree)[h := tree[h]] && Grows(old(tree), tree)
      ensures blocks == old(blocks)[h := b]
      ensures Grows(old(txFile), txFile)
      ensures IsNodeFor(old(tree), tree[h], b)
      ensures tree[h].bnChainTrust == nBlockTrust +
        if b.hashPrevBlock in old(tree) then old(tree)[b.hashPrevBlock].bnChainTrust else 0
      ensures Now() == Inserted(env, old(Now()), h, b, fields, nBlockTrust)
    {
      hide ReplayTo, ChainSound, SupplyOk, PnextOk, StoreOk, AncestorAt, Admissible, OnDisk, TxPos, SuppliesKept;
      hide WellFormed;
      var node := fields.(pprev := None, nHeight := 0, bnChainTrust := nBlockTrust);
      if b.hashPrevBlock in tree {
        var prev := tree[b.hashPrevBlock];
        node := node.(pprev := Some(b.hashPrevBlock), nHeight := prev.nHeight + 1,
                      bnChainTrust := prev.bnChainTrust + nBlockTrust);
      }
      assert node == NodeOf(tree, b, fields, nBlockTrust);
      hide IsNodeFor, NodeOf, AppendTxs, Grows;
      SamePositions(env, tree, blocks, txFile, h, b, fields, node);
      var txs := AppendToFile(env, txFile, node, b);
      GrowsValid(h, b, node, txs);
      tree, blocks, txFile := tree[h := node], blocks[h := b], txs;
      nMoneySupply := nMoneySupply[h := 0];
    }

    // A new block leaves the accepted chain, its replay and its supply alone.
    lemma GrowsValid(h: BlockHash, b: Block, node: BlockIndex, txs: TxFile)
      requires Valid() && h !in tree && Admissible(env, tree, blocks, txFile, h, b, node)
      requires Grows(txFile, txs) && OnDisk(env, txs, node, b) && IsNodeFor(tree, node, b)
      ensures var t, bs, supply := tree[h := node], blocks[h := b], nMoneySupply[h := 0];
        && WellFormed(t) && bs.Keys == t.Keys && StoreOk(env, t, bs, txs) && SuppliesKept(t, supply)
        && Grows(tree, t)
        && (pindexBest.Some? ==>
              && ChainSound(env, t, bs, txs, pindexBest.value)
              && SupplyOk(env, t, bs, txs, supply, pindexBest.value)
              && PnextOk(t, pnext, pindexBest.value)
              && ReplayTo(env, t, bs, pindexBest.value) == ReplayTo(env, tree, blocks, pindexBest.value)
              && IsRootOf(t, pindexGenesisBlock.value, pindexBest.value)
              && (pblockindexFBBHLast.Some? ==> IsAncestor(t, pblockindexFBBHLast.value, pindexBest.value)))
    {
      hide ReplayTo, ChainSound, SupplyOk, PnextOk, AncestorAt, Admissible, OnDisk, WellFormed, StoreOk, SuppliesKept;
      hide IsNodeFor;
      var t, bs, supply := tree[h := node], blocks[h := b], nMoneySupply[h := 0];
      TreeGrows(tree, h, node, b, nMoneySupply);
      StoreOkGrows(env, tree, blocks, txFile, txs, h, b, node);
      StoreOkStored(env, tree, blocks, txFile);
      if pindexBest.Some? {
        var tip := pindexBest.value;
        ChainSoundGrows(env, tree, t, blocks, bs, txFile, txs, tip);
        SupplyGrows(env, tree, t, blocks, bs, txFile, txs, nMoneySupply, supply, tip);
        PnextGrows(tree, t, pnext, tip);
        ReplayGrows(env, tree, t, blocks, bs, tip);
        AncestorExtends(tree, t, pindexGenesisBlock.value, tip);
        if pblockindexFBBHLast.Some? {
          AncestorExtends(tree, t, pblockindexFBBHLast.value, tip);
        }
      }
    }

    lemma StoredIndex(h: BlockHash)
      requires TreeOk() && h in tree
      ensures DbAt(h).index == ReplayTo(env, tree, blocks, h)
    {
    }

    lemma NowParts()
      ensures Now().tree == tree && Now().blocks == blocks && Now().pindexBest == pindexBest
    {
    }

    lemma BehindTip(reached: BlockHash)
      requires TreeOk() && Now().pindexBest.Some? && IsProperAncestor(Now().tree, reached, Now().pindexBest.value)
      ensures pindexBest.Some? && IsProperAncestor(tree, reached, pindexBest.value)
      ensures ReplayTo(env, tree, blocks, reached) != ReplayTo(env, tree, blocks, pindexBest.value)
    {
      ReplayDiffersStore(env, tree, blocks, txFile, reached, pindexBest.value);
    }

    // The invariant, spelled out for the tip.
    lemma TipIsReplay()
      requires Valid() && pindexBest.Some?
      ensures var tip := pindexBest.value;
        && db.committed.index == ReplayTo(env, tree, blocks, tip)
        && tip in nMoneySupply && nMoneySupply[tip] == UnspentSum(db.committed.index, txFile)
        && forall h :: h in pnext || h == tip <==> IsAncestor(tree, h, tip)
    {
      hide ReplayTo, ChainSound, StoreOk, AncestorAt, UnspentSum;
      AncestorReflexive(tree, pindexBest.value);
    }

    // The active block at a height, searched from genesis, the tip or the last
    // answer, whichever is promising.
    method FindBlockByHeight(nHeight: nat) returns (pblockindex: BlockHash)
      requires Valid() && pindexBest.Some? && nHeight <= nBestHeight
      modifies this`pblockindexFBBHLast
      ensures Valid()
      ensures IsAncestor(tree, pblockindex, pindexBest.value) && tree[pblockindex].nHeight == nHeight
      ensures forall x | IsAncestor(tree, x, pindexBest.value) && tree[x].nHeight == nHeight :: x == pblockindex
    {
      hide ReplayTo, ChainSound, SupplyOk, StoreOk, SuppliesKept, AncestorAt, PnextOk, WellFormed;
      ghost var best := pindexBest.value;
      AncestorReflexive(tree, best);
      pblockindex := if nHeight < nBestHeight / 2 then pindexGenesisBlock.value else pindexBest.value;
      if pblockindexFBBHLast.Some? &&
         Abs(nHeight - tree[pblockindex].nHeight) > Abs(nHeight - tree[pblockindexFBBHLast.value].nHeight) {
        pblockindex := pblockindexFBBHLast.value;
      }
      pblockindex := WalkTo(tree, pnext, best, pblockindex, nHeight);
      pblockindexFBBHLast := Some(pblockindex);
    }

    lemma ValidTree()
      requires Valid()
      ensures Sane(Now()) && TreeOk()
    {
    }

    // One event: the specified step, and a break exactly where it is specified.
    method Handle(e: Event) returns (complete: bool, ghost reached: BlockHash)
      requires Valid()
      modifies this, db
      ensures complete == Valid() && TreeOk()
      ensures Steps(env, old(Now()), e, Now(), complete, reached)
      ensures !complete ==> reached in tree && db.committed == DbAt(reached)
    {
      ghost var s := Now();
      hide Steps, Wanted, Indexed, Inserted, NodeOf, AppendTxs, Starts, Finishes, HaltsAt, TreeOk, Valid, DbAt;
      hide WellFormed, Admissible, BestTrust, BestHeight;
      ValidTree();
      if e.NewBlock? {
        NewEvent(env, s, e.h, e.b, e.fields, e.nBlockTrust, e.readable);
      } else {
        OtherParts(env, s, e);
      }
      complete, reached := true, 0;
      var ok;
      match e
      case NewBlock(h, b, fields, nBlockTrust, readable) =>
        if (pindexBest.Some? || h == env.hashGenesisBlock) &&
           (h in tree || Admissible(env, tree, blocks, txFile, h, b, fields)) {
          ok, complete, reached := AddToBlockIndex(h, b, fields, nBlockTrust, readable);
        } else {
          StepsWithoutSwitch(env, s, e, reached);
          ValidTree();
        }
      case SwitchTo(h, readable) =>
        if h in tree && (pindexBest.Some? || h == env.hashGenesisBlock) {
          ok, complete, reached := SetBestChain(h, readable);
          StepsBySwitch(env, s, e, s, ok, complete, reached);
        } else {
          StepsWithoutSwitch(env, s, e, reached);
          ValidTree();
        }
      case Find(nHeight) =>
        if pindexBest.Some? && nHeight <= nBestHeight {
          var _ := FindBlockByHeight(nHeight);
        }
        StepsWithoutSwitch(env, s, e, reached);
        ValidTree();
    }
  }

  function Abs(n: int): nat { if n < 0 then -n else n }

  // Any run from the empty node: new blocks with or without a reorganisation,
  // forced switches (as for a checkpoint) and lookups, in any order and with
  // any failures.  What is indexed and which block is the tip are those of the
  // specification; the run ends early exactly at the first event that leaves a
  // postponed block unconnected, with the index the replay of the last block
  // that did connect.
  method Run(env: Env, events: seq<Event>)
    returns (chain: Chain, handled: nat, complete: bool, ghost reached: BlockHash)
    ensures handled <= |events| && chain.env == env && chain.Now() == After(env, events, handled)
    ensures complete ==> handled == |events|
    ensures complete ==> forall i | 0 <= i < handled :: !Breaks(env, After(env, events, i), events[i])
    ensures complete ==> chain.Valid()
    ensures complete && chain.pindexBest.Some? ==> var tip := chain.pindexBest.value;
      && chain.db.committed.index == ReplayTo(env, chain.tree, chain.blocks, tip)
      && tip in chain.nMoneySupply
      && chain.nMoneySupply[tip] == UnspentSum(chain.db.committed.index, chain.txFile)
      && forall h :: h in chain.pnext || h == tip <==> IsAncestor(chain.tree, h, tip)
    ensures !complete ==> handled > 0 && Breaks(env, After(env, events, handled - 1), events[handled - 1])
    ensures !complete ==> forall i | 0 <= i < handled - 1 :: !Breaks(env, After(env, events, i), events[i])
    ensures !complete ==> HaltsShort(env, After(env, events, handled - 1), events[handled - 1], reached)
    ensures !complete ==> chain.TreeOk() && reached in chain.tree
    ensures !complete ==> chain.db.committed.index == ReplayTo(env, chain.tree, chain.blocks, reached)
    ensures !complete ==> chain.pindexBest.Some? && IsProperAncestor(chain.tree, reached, chain.pindexBest.value)
    ensures !complete ==> chain.db.committed.index != ReplayTo(env, chain.tree, chain.blocks, chain.pindexBest.value)
  {
    hide *;
    chain := new Chain(env);
    complete, handled, reached := true, 0, 0;
    AfterNone(env, events);
    while handled < |events| && complete
      invariant fresh(chain) && fresh(chain.db) && chain.env == env
      invariant 0 <= handled <= |events| && chain.Now() == After(env, events, handled)
      invariant complete == chain.Valid() && chain.TreeOk()
      invariant forall i | 0 <= i < handled - 1 :: !Breaks(env, After(env, events, i), events[i])
      invariant handled > 0 ==> (complete <==> !Breaks(env, After(env, events, handled - 1), events[handled - 1]))
      invariant !complete ==> reached in chain.tree && chain.db.committed == chain.DbAt(reached)
      invariant !complete ==> handled > 0
      invariant !complete ==> HaltsShort(env, After(env, events, handled - 1), events[handled - 1], reached)
      decreases |events| - handled
    {
      AfterNext(env, events, handled);
      ghost var s := chain.Now();
      complete, reached := chain.Handle(events[handled]);
      StepsParts(env, s, events[handled], chain.Now(), complete, reached);
      handled := handled + 1;
    }
    if complete && chain.pindexBest.Some? {
      chain.TipIsReplay();
    }
    if !complete {
      chain.StoredIndex(reached);
      BrokenTip(env, After(env, events, handled - 1), events[handled - 1], reached);
      AfterNext(env, events, handled - 1);
      chain.BehindTip(reached);
    }
  }
}
