// Transactions, the transaction index and the money supply: what connecting
// and disconnecting one block means, as functions on the index.
module Ledger {
  import opened BlockTree
  import opened Sets
  import VarInt

  const COIN: int := 1_000_000
  const MAX_MONEY: int := 4_000_000 * COIN
  const MAX_BLOCK_SIZE := 1_000_000
  const MAX_BLOCK_SIGOPS := MAX_BLOCK_SIZE / 50
  const COINBASE_MATURITY := 30
  const NULL_N := 0xffff_ffff

  // A uint256; only equality of ids matters.
  type TxId = int

  datatype OutPoint = OutPoint(hash: TxId, n: nat) {
    predicate IsNull() { hash == 0 && n == NULL_N }
  }

  datatype TxOut = TxOut(nValue: int, scriptPubKey: string) {
    predicate IsEmpty() { nValue == 0 && scriptPubKey == "" }
  }

  // hash stands for GetHash(); size and sigOps for the serialized size and the
  // legacy signature operation count.  Nothing assumes that hash is injective.
  datatype Tx = Tx(hash: TxId, nTime: nat, vin: seq<OutPoint>, vout: seq<TxOut>, size: nat, sigOps: nat) {
    predicate IsCoinBase() { |vin| == 1 && vin[0].IsNull() && |vout| >= 1 }

    predicate IsCoinStake() { |vin| > 0 && !vin[0].IsNull() && |vout| >= 2 && vout[0].IsEmpty() }
  }

  datatype Block = Block(hashPrevBlock: BlockHash, vtx: seq<Tx>, nTime: nat, size: nat) {
    predicate IsProofOfStake() { |vtx| > 1 && vtx[1].IsCoinStake() }
  }

  // A position in the block files; NullPos is the value SetNull() gives, which
  // no stored transaction has.
  datatype DiskTxPos = NullPos | DiskTxPos(nFile: nat, nBlockPos: nat, nTxPos: nat)

  datatype TxIndex = TxIndex(pos: DiskTxPos, vSpent: seq<DiskTxPos>)

  type Index = map<TxId, TxIndex>

  // The transactions in the block files, by position.
  type TxFile = map<DiskTxPos, Tx>

  // What the model does not look into: scripts, rewards, fees and the context
  // of coin age.
  datatype Env = Env(
    hashGenesisBlock: BlockHash,
    nBlocksEstimate: nat,
    headerSize: nat,
    // proof of work, clocks, coinstake timestamp, merkle root and signature of the block
    checkHeader: Block -> bool,
    coinBaseScriptOk: Tx -> bool,
    verifySignature: (Tx, Tx, nat) -> bool,
    p2shSigOps: (Tx, map<TxId, Tx>) -> nat,
    minFee: Tx -> int,
    // None when the coin age cannot be computed
    stakeLimit: (Index, Tx, BlockIndex) -> Option<int>,
    powReward: (nat, int, Option<BlockHash>) -> int)

  function PowReward(env: Env, nHeight: nat, nFees: int, prevHash: Option<BlockHash>): int {
    env.powReward(nHeight, nFees, prevHash)
  }

  predicate MoneyRange(n: int) { 0 <= n <= MAX_MONEY }

  // ------------------------------------------------------------------ values

  function SumOutputs(vout: seq<TxOut>): int {
    if |vout| == 0 then 0 else SumOutputs(vout[..|vout| - 1]) + vout[|vout| - 1].nValue
  }

  function ValueOut(tx: Tx): int { SumOutputs(tx.vout) }

  ghost predicate Resolves(ix: Index, txs: TxFile, o: OutPoint) {
    && o.hash in ix && ix[o.hash].pos in txs
    && o.n < |txs[ix[o.hash].pos].vout| && o.n < |ix[o.hash].vSpent|
  }

  ghost function OutValue(ix: Index, txs: TxFile, o: OutPoint): int
    requires Resolves(ix, txs, o)
  {
    txs[ix[o.hash].pos].vout[o.n].nValue
  }

  ghost predicate AllResolve(ix: Index, txs: TxFile, vin: seq<OutPoint>) {
    forall i | 0 <= i < |vin| :: Resolves(ix, txs, vin[i])
  }

  ghost function ValueIn(ix: Index, txs: TxFile, vin: seq<OutPoint>): int
    requires AllResolve(ix, txs, vin)
  {
    if |vin| == 0 then 0
    else ValueIn(ix, txs, vin[..|vin| - 1]) + OutValue(ix, txs, vin[|vin| - 1])
  }

  // ----------------------------------------------------- editing the index

  function Nulls(n: nat): seq<DiskTxPos> { seq(n, _ => NullPos) }

  predicate InRange(ix: Index, o: OutPoint) { o.hash in ix && o.n < |ix[o.hash].vSpent| }

  predicate Unspent(ix: Index, o: OutPoint) { InRange(ix, o) && ix[o.hash].vSpent[o.n] == NullPos }

  function SetSpent(ix: Index, o: OutPoint, p: DiskTxPos): Index {
    if InRange(ix, o) then ix[o.hash := ix[o.hash].(vSpent := ix[o.hash].vSpent[o.n := p])] else ix
  }

  // Writes p into the vSpent entry of every outpoint: a position to spend
  // them, NullPos to give them back.
  function MarkInputs(ix: Index, vin: seq<OutPoint>, p: DiskTxPos): Index {
    if |vin| == 0 then ix
    else SetSpent(MarkInputs(ix, vin[..|vin| - 1], p), vin[|vin| - 1], p)
  }

  function ApplyTx(ix: Index, tx: Tx, p: DiskTxPos): Index {
    (if tx.IsCoinBase() then ix else MarkInputs(ix, tx.vin, p))[tx.hash := TxIndex(p, Nulls(|tx.vout|))]
  }

  function UndoTx(ix: Index, tx: Tx): Option<Index> {
    if tx.IsCoinBase() then Some(ix - {tx.hash})
    else if forall o | o in tx.vin :: InRange(ix, o) then Some(MarkInputs(ix, tx.vin, NullPos) - {tx.hash})
    else None
  }

  function SizeOfTxs(vtx: seq<Tx>): nat {
    if |vtx| == 0 then 0 else SizeOfTxs(vtx[..|vtx| - 1]) + vtx[|vtx| - 1].size
  }

  function FirstTxPos(env: Env, node: BlockIndex, b: Block): nat {
    node.nBlockPos + env.headerSize + VarInt.GetSizeOfCompactSize(|b.vtx|)
  }

  function TxPos(env: Env, node: BlockIndex, b: Block, k: nat): DiskTxPos
    requires k <= |b.vtx|
  {
    DiskTxPos(node.nFile, node.nBlockPos, FirstTxPos(env, node, b) + SizeOfTxs(b.vtx[..k]))
  }

  // The index after the first k transactions of block b.
  function ApplyTxs(env: Env, ix: Index, node: BlockIndex, b: Block, k: nat): Index
    requires k <= |b.vtx|
  {
    if k == 0 then ix
    else ApplyTx(ApplyTxs(env, ix, node, b, k - 1), b.vtx[k - 1], TxPos(env, node, b, k - 1))
  }

  function ApplyBlock(env: Env, ix: Index, node: BlockIndex, b: Block): Index {
    ApplyTxs(env, ix, node, b, |b.vtx|)
  }

  // Takes back the first k transactions, last one first.
  function UndoTxs(ix: Index, b: Block, k: nat): Option<Index>
    requires k <= |b.vtx|
    decreases k
  {
    if k == 0 then Some(ix)
    else match UndoTx(ix, b.vtx[k - 1])
      case None => None
      case Some(ix') => UndoTxs(ix', b, k - 1)
  }

  function UndoBlock(ix: Index, b: Block): Option<Index> { UndoTxs(ix, b, |b.vtx|) }

  function TxIds(b: Block): set<TxId> { set k | 0 <= k < |b.vtx| :: b.vtx[k].hash }

  // The part of block acceptance that the index depends on.
  ghost predicate DistinctTxs(b: Block) {
    forall i, j | 0 <= i < j < |b.vtx| :: b.vtx[i].hash != b.vtx[j].hash
  }

  ghost predicate DistinctInputs(tx: Tx) {
    forall i, j | 0 <= i < j < |tx.vin| :: tx.vin[i] != tx.vin[j]
  }

  ghost predicate SpendsUnspent(ix: Index, tx: Tx) {
    !tx.IsCoinBase() ==> DistinctInputs(tx) && forall o | o in tx.vin :: Unspent(ix, o)
  }

  ghost predicate SpendsAt(env: Env, ix: Index, node: BlockIndex, b: Block, k: nat)
    requires k < |b.vtx|
  {
    SpendsUnspent(ApplyTxs(env, ix, node, b, k), b.vtx[k])
  }

  ghost predicate Connectable(env: Env, ix: Index, node: BlockIndex, b: Block) {
    DistinctTxs(b) && forall k | 0 <= k < |b.vtx| :: SpendsAt(env, ix, node, b, k)
  }

  ghost predicate Fresh(ix: Index, b: Block) { TxIds(b) !! ix.Keys }

  // -------------------------------------------------- connect, then disconnect

  lemma {:induction false} MarkAt(ix: Index, vin: seq<OutPoint>, p: DiskTxPos)
    ensures var m := MarkInputs(ix, vin, p);
      && m.Keys == ix.Keys
      && (forall h | h in ix :: m[h].pos == ix[h].pos && |m[h].vSpent| == |ix[h].vSpent|)
      && (forall h, n | h in ix && 0 <= n < |ix[h].vSpent| ::
            m[h].vSpent[n] == if OutPoint(h, n) in vin then p else ix[h].vSpent[n])
  {
    if |vin| != 0 {
      var rest, o := vin[..|vin| - 1], vin[|vin| - 1];
      MarkAt(ix, rest, p);
      assert vin == rest + [o];
    }
  }

  // Queued changes over a database: a queued write is a write to the view.
  lemma QueueWrite(ix: Index, queued: Index, h: TxId, e: TxIndex)
    ensures ix + queued[h := e] == (ix + queued)[h := e]
  {
  }

  // One more input: the entry of an outpoint not met before is still as it was.
  lemma MarkNext(ix: Index, vin: seq<OutPoint>, i: nat, p: DiskTxPos)
    requires i < |vin| && InRange(ix, vin[i]) && vin[i] !in vin[..i]
    ensures var m, o := MarkInputs(ix, vin[..i], p), vin[i];
      && m.Keys == ix.Keys && InRange(m, o)
      && m[o.hash].vSpent[o.n] == ix[o.hash].vSpent[o.n]
      && MarkInputs(ix, vin[..i + 1], p) == m[o.hash := m[o.hash].(vSpent := m[o.hash].vSpent[o.n := p])]
  {
    MarkAt(ix, vin[..i], p);
    assert vin[..i + 1][..i] == vin[..i];
    assert OutPoint(vin[i].hash, vin[i].n) == vin[i];
  }

  lemma SameEntries(a: Index, b: Index)
    requires a.Keys == b.Keys
    requires forall h | h in a :: a[h].pos == b[h].pos && |a[h].vSpent| == |b[h].vSpent|
    requires forall h, n | h in a && 0 <= n < |a[h].vSpent| :: a[h].vSpent[n] == b[h].vSpent[n]
    ensures a == b
  {
    forall h | h in a ensures a[h] == b[h] {
      assert a[h].vSpent == b[h].vSpent;
    }
  }

  // Taking a transaction back right after it was connected.
  lemma UndoTxInverse(ix: Index, tx: Tx, p: DiskTxPos)
    requires SpendsUnspent(ix, tx)
    requires tx.hash !in ix
    ensures UndoTx(ApplyTx(ix, tx, p), tx) == Some(ix)
  {
    var m := ApplyTx(ix, tx, p);
    if tx.IsCoinBase() {
      assert m - {tx.hash} == ix;
    } else {
      MarkAt(ix, tx.vin, p);
      MarkAt(m, tx.vin, NullPos);
      SameEntries(MarkInputs(m, tx.vin, NullPos) - {tx.hash}, ix);
    }
  }

  lemma {:induction false} ApplyTxsKeys(env: Env, ix: Index, node: BlockIndex, b: Block, k: nat)
    requires k <= |b.vtx|
    ensures ApplyTxs(env, ix, node, b, k).Keys == ix.Keys + set i | 0 <= i < k :: b.vtx[i].hash
  {
    if k != 0 {
      ApplyTxsKeys(env, ix, node, b, k - 1);
      MarkAt(ApplyTxs(env, ix, node, b, k - 1), b.vtx[k - 1].vin, TxPos(env, node, b, k - 1));
    }
  }

  lemma ApplyBlockKeys(env: Env, ix: Index, node: BlockIndex, b: Block)
    ensures ApplyBlock(env, ix, node, b).Keys == ix.Keys + TxIds(b)
  {
    ApplyTxsKeys(env, ix, node, b, |b.vtx|);
  }

  lemma {:induction false} UndoTxsInverse(env: Env, ix: Index, node: BlockIndex, b: Block, k: nat)
    requires k <= |b.vtx| && Connectable(env, ix, node, b) && Fresh(ix, b)
    ensures UndoTxs(ApplyTxs(env, ix, node, b, k), b, k) == Some(ix)
  {
    if k != 0 {
      var before := ApplyTxs(env, ix, node, b, k - 1);
      ApplyTxsKeys(env, ix, node, b, k - 1);
      assert b.vtx[k - 1].hash in TxIds(b);
      assert b.vtx[k - 1].hash !in before;
      assert SpendsAt(env, ix, node, b, k - 1);
      UndoTxInverse(before, b.vtx[k - 1], TxPos(env, node, b, k - 1));
      UndoTxsInverse(env, ix, node, b, k - 1);
    }
  }

  lemma {:induction false} UndoTxsKeys(ix: Index, b: Block, k: nat)
    requires k <= |b.vtx|
    ensures UndoTxs(ix, b, k).Some? ==>
      UndoTxs(ix, b, k).value.Keys == ix.Keys - set i | 0 <= i < k :: b.vtx[i].hash
  {
    if k != 0 && UndoTx(ix, b.vtx[k - 1]).Some? {
      MarkAt(ix, b.vtx[k - 1].vin, NullPos);
      UndoTxsKeys(UndoTx(ix, b.vtx[k - 1]).value, b, k - 1);
    }
  }

  // Disconnecting undoes connecting exactly when none of the block's
  // transaction ids was indexed before.  (The BIP 30 check lets a block reuse
  // the id of a fully spent transaction, whose entry is then lost.)
  lemma ConnectThenDisconnect(env: Env, ix: Index, node: BlockIndex, b: Block)
    requires Connectable(env, ix, node, b)
    ensures UndoBlock(ApplyBlock(env, ix, node, b), b) == Some(ix) <==> Fresh(ix, b)
  {
    if Fresh(ix, b) {
      UndoTxsInverse(env, ix, node, b, |b.vtx|);
    } else {
      UndoTxsKeys(ApplyBlock(env, ix, node, b), b, |b.vtx|);
    }
  }

  // The smallest such input: one coinbase that reuses the id of a spent one.
  // Such a block is accepted.
  lemma ReusedIdIsLost(env: Env, t: Tree, txs: TxFile, nBestHeight: int, h: BlockHash)
    requires WellFormed(t) && h in t
    ensures var ix: Index := map[7 := TxIndex(DiskTxPos(1, 0, 81), [DiskTxPos(1, 0, 90)])];
      var b := CoinbaseOnly(0, 7, 1);
      && Connectable(env, ix, t[h], b) && ReuseAllowed(ix, b)
      && UndoBlock(ApplyBlock(env, ix, t[h], b), b) == Some(map[])
      && BlockAccepted(LENIENT, t, txs, ix, nBestHeight, h, b)
  {
    var ix: Index := map[7 := TxIndex(DiskTxPos(1, 0, 81), [DiskTxPos(1, 0, 90)])];
    var coinbase, b := Coinbase(7, 1), CoinbaseOnly(0, 7, 1);
    CoinbaseOnlyChecked(0, 7, 1);
    CoinbaseBlock(LENIENT, t, txs, ix, nBestHeight, h, b);
    assert coinbase.IsCoinBase();
    assert SpendsAt(env, ix, t[h], b, 0);
    var p := TxPos(env, t[h], b, 0);
    assert ApplyTxs(env, ix, t[h], b, 1) == ApplyTx(ix, coinbase, p) by {
      assert ApplyTxs(env, ix, t[h], b, 0) == ix;
    }
    var m := ApplyTx(ix, coinbase, p);
    assert m - {7} == map[];
    assert UndoTx(m, coinbase) == Some(map[]);
    assert UndoTxs(map[], b, 0) == Some(map[]);
    assert UndoTxs(m, b, 1) == Some(map[]);
  }

  // ------------------------------------------------------- conservation

  // The value of the unspent outputs among the first n of one entry.
  ghost function UnspentOf(vout: seq<TxOut>, vSpent: seq<DiskTxPos>, n: nat): int
    requires n <= |vSpent|
  {
    if n == 0 then 0
    else UnspentOf(vout, vSpent, n - 1) +
         if n <= |vout| && vSpent[n - 1] == NullPos then vout[n - 1].nValue else 0
  }

  ghost function EntryValue(txs: TxFile, e: TxIndex): int {
    if e.pos in txs then UnspentOf(txs[e.pos].vout, e.vSpent, |e.vSpent|) else 0
  }

  // The sum of all outputs whose vSpent entry is null in the index.
  ghost function UnspentSum(ix: Index, txs: TxFile): int
    decreases |ix|
  {
    if ix.Keys == {} then 0
    else EntryValue(txs, ix[AnyOf(ix.Keys)]) + UnspentSum(ix - {AnyOf(ix.Keys)}, txs)
  }

  lemma {:induction false} UnspentSumSplit(ix: Index, txs: TxFile, h: TxId)
    requires h in ix
    ensures UnspentSum(ix, txs) == EntryValue(txs, ix[h]) + UnspentSum(ix - {h}, txs)
    decreases |ix|
  {
    var g := AnyOf(ix.Keys);
    if g != h {
      UnspentSumSplit(ix - {g}, txs, h);
      UnspentSumSplit(ix - {h}, txs, g);
      assert ix - {g} - {h} == ix - {h} - {g};
    }
  }

  lemma UnspentSumUpdate(ix: Index, txs: TxFile, h: TxId, e: TxIndex)
    ensures UnspentSum(ix[h := e], txs) ==
      UnspentSum(ix, txs) + EntryValue(txs, e) - if h in ix then EntryValue(txs, ix[h]) else 0
  {
    UnspentSumSplit(ix[h := e], txs, h);
    if h in ix {
      UnspentSumSplit(ix, txs, h);
      assert ix[h := e] - {h} == ix - {h};
    } else {
      assert ix[h := e] - {h} == ix;
    }
  }

  lemma {:induction false} UnspentOfMark(vout: seq<TxOut>, vSpent: seq<DiskTxPos>, i: nat, p: DiskTxPos, n: nat)
    requires i < |vSpent| && i < |vout| && n <= |vSpent| && vSpent[i] == NullPos && p != NullPos
    ensures UnspentOf(vout, vSpent[i := p], n) == UnspentOf(vout, vSpent, n) - if i < n then vout[i].nValue else 0
  {
    if n != 0 {
      UnspentOfMark(vout, vSpent, i, p, n - 1);
    }
  }

  lemma {:induction false} UnspentOfNulls(vout: seq<TxOut>, n: nat)
    requires n <= |vout|
    ensures UnspentOf(vout, Nulls(|vout|), n) == SumOutputs(vout[..n])
  {
    if n != 0 {
      UnspentOfNulls(vout, n - 1);
      assert vout[..n][..n - 1] == vout[..n - 1];
    }
  }

  lemma {:induction false} UnspentOfSpent(vout: seq<TxOut>, vSpent: seq<DiskTxPos>, n: nat)
    requires n <= |vSpent| && NullPos !in vSpent
    ensures UnspentOf(vout, vSpent, n) == 0
  {
    if n != 0 {
      UnspentOfSpent(vout, vSpent, n - 1);
    }
  }

  // Spending distinct unspent outputs takes exactly their value out.
  lemma {:induction false} MarkSpends(ix: Index, txs: TxFile, vin: seq<OutPoint>, p: DiskTxPos)
    requires p != NullPos && AllResolve(ix, txs, vin)
    requires forall i, j | 0 <= i < j < |vin| :: vin[i] != vin[j]
    requires forall i | 0 <= i < |vin| :: Unspent(ix, vin[i])
    ensures UnspentSum(MarkInputs(ix, vin, p), txs) == UnspentSum(ix, txs) - ValueIn(ix, txs, vin)
  {
    if |vin| != 0 {
      var rest, o := vin[..|vin| - 1], vin[|vin| - 1];
      MarkSpends(ix, txs, rest, p);
      MarkAt(ix, rest, p);
      var m := MarkInputs(ix, rest, p);
      assert o !in rest;
      assert OutPoint(o.hash, o.n) == o;
      assert Unspent(m, o);
      UnspentSumUpdate(m, txs, o.hash, m[o.hash].(vSpent := m[o.hash].vSpent[o.n := p]));
      UnspentOfMark(txs[m[o.hash].pos].vout, m[o.hash].vSpent, o.n, p, |m[o.hash].vSpent|);
    }
  }

  // Every transaction of block b is stored at its position.
  ghost predicate OnDisk(env: Env, txs: TxFile, node: BlockIndex, b: Block) {
    forall k | 0 <= k < |b.vtx| :: StoredAt(env, txs, node, b, k)
  }

  ghost predicate StoredAt(env: Env, txs: TxFile, node: BlockIndex, b: Block, k: nat)
    requires k < |b.vtx|
  {
    TxPos(env, node, b, k) in txs && txs[TxPos(env, node, b, k)] == b.vtx[k]
  }

  predicate FullySpent(ix: Index, h: TxId) {
    h in ix ==> NullPos !in ix[h].vSpent
  }

  // The BIP 30 rule: an id that is already indexed must be fully spent.
  ghost predicate ReuseAllowed(ix: Index, b: Block) {
    forall k | 0 <= k < |b.vtx| :: FullySpent(ix, b.vtx[k].hash)
  }

  ghost predicate ResolvesAt(env: Env, ix: Index, txs: TxFile, node: BlockIndex, b: Block, k: nat)
    requires k < |b.vtx|
  {
    !b.vtx[k].IsCoinBase() ==> AllResolve(ApplyTxs(env, ix, node, b, k), txs, b.vtx[k].vin)
  }

  // The inputs of the first n transactions can be fetched.
  ghost predicate Resolvable(env: Env, ix: Index, txs: TxFile, node: BlockIndex, b: Block, n: nat)
    requires n <= |b.vtx|
  {
    forall k | 0 <= k < n :: ResolvesAt(env, ix, txs, node, b, k)
  }

  // nValueOut and nValueIn after the first k transactions.
  ghost function BlockOut(b: Block, k: nat): int
    requires k <= |b.vtx|
  {
    if k == 0 then 0 else BlockOut(b, k - 1) + ValueOut(b.vtx[k - 1])
  }

  ghost function TxIn(env: Env, ix: Index, txs: TxFile, node: BlockIndex, b: Block, k: nat): int
    requires k < |b.vtx| && ResolvesAt(env, ix, txs, node, b, k)
  {
    if b.vtx[k].IsCoinBase() then 0 else ValueIn(ApplyTxs(env, ix, node, b, k), txs, b.vtx[k].vin)
  }

  ghost function BlockIn(env: Env, ix: Index, txs: TxFile, node: BlockIndex, b: Block, k: nat): int
    requires k <= |b.vtx| && Resolvable(env, ix, txs, node, b, k)
  {
    if k == 0 then 0 else BlockIn(env, ix, txs, node, b, k - 1) + TxIn(env, ix, txs, node, b, k - 1)
  }

  // An entry that BIP 30 lets a later transaction of the block overwrite stays
  // fully spent until then, even though the rule looked at the old index only.
  lemma {:induction false} StillFullySpent(env: Env, ix: Index, node: BlockIndex, b: Block, k: nat, j: nat)
    requires k <= j < |b.vtx| && DistinctTxs(b) && ReuseAllowed(ix, b)
    ensures FullySpent(ApplyTxs(env, ix, node, b, k), b.vtx[j].hash)
  {
    if k != 0 {
      StillFullySpent(env, ix, node, b, k - 1, j);
      MarkAt(ApplyTxs(env, ix, node, b, k - 1), b.vtx[k - 1].vin, TxPos(env, node, b, k - 1));
    }
  }

  lemma TxConserves(m: Index, txs: TxFile, tx: Tx, p: DiskTxPos)
    requires SpendsUnspent(m, tx) && (!tx.IsCoinBase() ==> AllResolve(m, txs, tx.vin))
    requires FullySpent(m, tx.hash)
    requires p in txs && txs[p] == tx && p != NullPos
    ensures UnspentSum(ApplyTx(m, tx, p), txs) ==
      UnspentSum(m, txs) + ValueOut(tx) - if tx.IsCoinBase() then 0 else ValueIn(m, txs, tx.vin)
  {
    var spent := if tx.IsCoinBase() then m else MarkInputs(m, tx.vin, p);
    if !tx.IsCoinBase() {
      MarkSpends(m, txs, tx.vin, p);
      MarkAt(m, tx.vin, p);
    }
    if tx.hash in spent {
      assert NullPos !in spent[tx.hash].vSpent;
      if spent[tx.hash].pos in txs {
        UnspentOfSpent(txs[spent[tx.hash].pos].vout, spent[tx.hash].vSpent, |spent[tx.hash].vSpent|);
      }
    }
    UnspentSumUpdate(spent, txs, tx.hash, TxIndex(p, Nulls(|tx.vout|)));
    UnspentOfNulls(tx.vout, |tx.vout|);
    assert tx.vout[..|tx.vout|] == tx.vout;
  }

  lemma {:induction false} TxsConserve(env: Env, ix: Index, txs: TxFile, node: BlockIndex, b: Block, k: nat)
    requires k <= |b.vtx| && Connectable(env, ix, node, b) && Resolvable(env, ix, txs, node, b, |b.vtx|)
    requires ReuseAllowed(ix, b) && OnDisk(env, txs, node, b)
    ensures UnspentSum(ApplyTxs(env, ix, node, b, k), txs) ==
      UnspentSum(ix, txs) + BlockOut(b, k) - BlockIn(env, ix, txs, node, b, k)
  {
    if k != 0 {
      var m, tx, p := ApplyTxs(env, ix, node, b, k - 1), b.vtx[k - 1], TxPos(env, node, b, k - 1);
      assert SpendsAt(env, ix, node, b, k - 1) && ResolvesAt(env, ix, txs, node, b, k - 1);
      assert StoredAt(env, txs, node, b, k - 1);
      StillFullySpent(env, ix, node, b, k - 1, k - 1);
      TxConserves(m, txs, tx, p);
      TxsConserve(env, ix, txs, node, b, k - 1);
    }
  }

  // Connecting a block changes the value of all unspent outputs by exactly
  // what ConnectBlock adds to nMoneySupply, whether or not the block reuses
  // ids or spends its own outputs.
  lemma BlockConserves(env: Env, ix: Index, txs: TxFile, node: BlockIndex, b: Block)
    requires Connectable(env, ix, node, b) && Resolvable(env, ix, txs, node, b, |b.vtx|)
    requires ReuseAllowed(ix, b) && OnDisk(env, txs, node, b)
    ensures UnspentSum(ApplyBlock(env, ix, node, b), txs) ==
      UnspentSum(ix, txs) + BlockOut(b, |b.vtx|) - BlockIn(env, ix, txs, node, b, |b.vtx|)
  {
    TxsConserve(env, ix, txs, node, b, |b.vtx|);
  }

  // -------------------------------------------------------- block acceptance

  predicate CheckTransaction(env: Env, tx: Tx) {
    && |tx.vin| > 0 && |tx.vout| > 0 && tx.size <= MAX_BLOCK_SIZE
    && (forall i | 0 <= i < |tx.vout| ::
          && (tx.vout[i].IsEmpty() ==> tx.IsCoinBase() || tx.IsCoinStake())
          && MoneyRange(tx.vout[i].nValue) && MoneyRange(SumOutputs(tx.vout[..i + 1])))
    && (forall i, j | 0 <= i < j < |tx.vin| :: tx.vin[i] != tx.vin[j])
    && if tx.IsCoinBase() then env.coinBaseScriptOk(tx) else forall o | o in tx.vin :: !o.IsNull()
  }

  function LegacySigOps(vtx: seq<Tx>): nat {
    if |vtx| == 0 then 0 else LegacySigOps(vtx[..|vtx| - 1]) + vtx[|vtx| - 1].sigOps
  }

  predicate CheckBlock(env: Env, b: Block) {
    && 0 < |b.vtx| <= MAX_BLOCK_SIZE && b.size <= MAX_BLOCK_SIZE
    && env.checkHeader(b)
    && (forall i | 0 <= i < |b.vtx| :: b.vtx[i].IsCoinBase() <==> i == 0)
    && (forall i | 2 <= i < |b.vtx| :: !b.vtx[i].IsCoinStake())
    && (b.IsProofOfStake() ==> |b.vtx[0].vout| == 1 && b.vtx[0].vout[0].IsEmpty())
    && (forall i | 0 <= i < |b.vtx| :: CheckTransaction(env, b.vtx[i]) && b.vtx[i].nTime <= b.nTime)
    && (forall i, j | 0 <= i < j < |b.vtx| :: b.vtx[i].hash != b.vtx[j].hash)
    && LegacySigOps(b.vtx) <= MAX_BLOCK_SIGOPS
  }

  // p lies in one of the last COINBASE_MATURITY blocks up to `from`, searched
  // from h downwards.
  predicate MinedRecently(t: Tree, from: BlockHash, h: BlockHash, p: DiskTxPos)
    requires WellFormed(t) && from in t && h in t
    decreases t[h].nHeight
  {
    && t[from].nHeight - t[h].nHeight < COINBASE_MATURITY
    && ( || (p.DiskTxPos? && t[h].nBlockPos == p.nBlockPos && t[h].nFile == p.nFile)
         || (t[h].pprev.Some? && MinedRecently(t, from, t[h].pprev.value, p)))
  }

  function PrevHashes(vin: seq<OutPoint>): set<TxId> { set o | o in vin :: o.hash }

  // mapInputs as FetchInputs fills it.
  ghost function Fetched(view: Index, txs: TxFile, vin: seq<OutPoint>): map<TxId, (TxIndex, Tx)>
    requires AllResolve(view, txs, vin)
  {
    map h | h in PrevHashes(vin) :: (view[h], txs[view[h].pos])
  }

  function PrevTxs(inputs: map<TxId, (TxIndex, Tx)>): map<TxId, Tx> { map h | h in inputs :: inputs[h].1 }

  // The first loop of ConnectInputs, on input i.
  ghost predicate InputPlausible(t: Tree, txs: TxFile, view: Index, h: BlockHash, tx: Tx, i: nat)
    requires WellFormed(t) && h in t && i < |tx.vin| && AllResolve(view, txs, tx.vin)
  {
    var e := view[tx.vin[i].hash];
    var prev := txs[e.pos];
    && ((prev.IsCoinBase() || prev.IsCoinStake()) ==> !MinedRecently(t, h, h, e.pos))
    && prev.nTime <= tx.nTime
    && MoneyRange(OutValue(view, txs, tx.vin[i]))
    && MoneyRange(ValueIn(view, txs, tx.vin[..i + 1]))
  }

  // The second loop, on input i.
  ghost predicate InputSpendable(env: Env, txs: TxFile, view: Index, checkSigs: bool, tx: Tx, i: nat)
    requires i < |tx.vin| && AllResolve(view, txs, tx.vin)
  {
    Unspent(view, tx.vin[i]) && (checkSigs ==> env.verifySignature(txs[view[tx.vin[i].hash].pos], tx, i))
  }

  // The amounts a transaction may move; db is the index before the block.
  predicate AmountsOk(env: Env, db: Index, node: BlockIndex, tx: Tx, valueIn: int) {
    if tx.IsCoinStake() then
      var limit := env.stakeLimit(db, tx, node);
      limit.Some? && ValueOut(tx) - valueIn <= limit.value
    else
      ValueOut(tx) <= valueIn && env.minFee(tx) <= valueIn - ValueOut(tx) && MoneyRange(valueIn - ValueOut(tx))
  }

  // ConnectInputs returns true.
  ghost predicate InputsAccepted(env: Env, t: Tree, txs: TxFile, db: Index, view: Index, checkSigs: bool,
                                 h: BlockHash, tx: Tx)
    requires WellFormed(t) && h in t && AllResolve(view, txs, tx.vin)
  {
    && (forall i | 0 <= i < |tx.vin| :: InputPlausible(t, txs, view, h, tx, i))
    && (forall i | 0 <= i < |tx.vin| :: InputSpendable(env, txs, view, checkSigs, tx, i))
    && AmountsOk(env, db, t[h], tx, ValueIn(view, txs, tx.vin))
  }

  ghost function TxSigOps(env: Env, ix: Index, txs: TxFile, node: BlockIndex, b: Block, k: nat): nat
    requires k < |b.vtx| && ResolvesAt(env, ix, txs, node, b, k)
  {
    var tx := b.vtx[k];
    tx.sigOps + if tx.IsCoinBase() then 0
                else env.p2shSigOps(tx, PrevTxs(Fetched(ApplyTxs(env, ix, node, b, k), txs, tx.vin)))
  }

  ghost function SigOps(env: Env, ix: Index, txs: TxFile, node: BlockIndex, b: Block, k: nat): nat
    requires k <= |b.vtx| && Resolvable(env, ix, txs, node, b, k)
  {
    if k == 0 then 0
    else SigOps(env, ix, txs, node, b, k - 1) + TxSigOps(env, ix, txs, node, b, k - 1)
  }

  ghost function TxFee(env: Env, ix: Index, txs: TxFile, node: BlockIndex, b: Block, k: nat): int
    requires k < |b.vtx| && ResolvesAt(env, ix, txs, node, b, k)
  {
    var tx := b.vtx[k];
    if tx.IsCoinBase() || tx.IsCoinStake() then 0 else TxIn(env, ix, txs, node, b, k) - ValueOut(tx)
  }

  ghost function Fees(env: Env, ix: Index, txs: TxFile, node: BlockIndex, b: Block, k: nat): int
    requires k <= |b.vtx| && Resolvable(env, ix, txs, node, b, k)
  {
    if k == 0 then 0
    else Fees(env, ix, txs, node, b, k - 1) + TxFee(env, ix, txs, node, b, k - 1)
  }

  predicate CheckSigs(env: Env, nBestHeight: int) { nBestHeight >= env.nBlocksEstimate }

  ghost predicate TxAccepted(env: Env, t: Tree, txs: TxFile, ix: Index, checkSigs: bool,
                             h: BlockHash, b: Block, k: nat)
    requires WellFormed(t) && h in t && k < |b.vtx|
  {
    var view, tx := ApplyTxs(env, ix, t[h], b, k), b.vtx[k];
    && FullySpent(ix, tx.hash)
    && (!tx.IsCoinBase() ==>
          AllResolve(view, txs, tx.vin) && InputsAccepted(env, t, txs, ix, view, checkSigs, h, tx))
  }

  // ConnectBlock returns true for block b = h on top of index ix.
  ghost predicate BlockAccepted(env: Env, t: Tree, txs: TxFile, ix: Index, nBestHeight: int, h: BlockHash, b: Block)
    requires WellFormed(t) && h in t
  {
    && CheckBlock(env, b)
    && (forall k | 0 <= k < |b.vtx| :: TxAccepted(env, t, txs, ix, CheckSigs(env, nBestHeight), h, b, k))
    && Resolvable(env, ix, txs, t[h], b, |b.vtx|)
    && SigOps(env, ix, txs, t[h], b, |b.vtx|) <= MAX_BLOCK_SIGOPS
    && ValueOut(b.vtx[0]) <= PowReward(env, t[h].nHeight, Fees(env, ix, txs, t[h], b, |b.vtx|), t[h].pprev)
  }

  lemma SigOpsGrow(env: Env, ix: Index, txs: TxFile, node: BlockIndex, b: Block, k: nat, n: nat)
    requires k <= n <= |b.vtx| && Resolvable(env, ix, txs, node, b, n)
    ensures SigOps(env, ix, txs, node, b, k) <= SigOps(env, ix, txs, node, b, n)
  {
  }

  // What acceptance leaves behind for undo and conservation.
  ghost predicate Sound(env: Env, txs: TxFile, ix: Index, node: BlockIndex, b: Block) {
    Connectable(env, ix, node, b) && Resolvable(env, ix, txs, node, b, |b.vtx|) && ReuseAllowed(ix, b) && |b.vtx| > 0
  }

  lemma AcceptedIsSound(env: Env, t: Tree, txs: TxFile, ix: Index, nBestHeight: int, h: BlockHash, b: Block)
    requires WellFormed(t) && h in t && BlockAccepted(env, t, txs, ix, nBestHeight, h, b)
    ensures Sound(env, txs, ix, t[h], b)
  {
    forall k | 0 <= k < |b.vtx| ensures SpendsAt(env, ix, t[h], b, k) {
      var view, tx := ApplyTxs(env, ix, t[h], b, k), b.vtx[k];
      assert CheckTransaction(env, tx);
      assert TxAccepted(env, t, txs, ix, CheckSigs(env, nBestHeight), h, b, k);
      if !tx.IsCoinBase() {
        forall o | o in tx.vin ensures Unspent(view, o) {
          var i :| 0 <= i < |tx.vin| && tx.vin[i] == o;
          assert InputSpendable(env, txs, view, CheckSigs(env, nBestHeight), tx, i);
        }
      }
    }
    forall k | 0 <= k < |b.vtx| ensures FullySpent(ix, b.vtx[k].hash) {
      assert TxAccepted(env, t, txs, ix, CheckSigs(env, nBestHeight), h, b, k);
    }
  }

  // ----------------------------------------------- what acceptance guarantees

  // The amounts of an accepted transaction: an ordinary one pays its fee out
  // of its inputs, a coinstake gains no more than its reward.
  lemma AcceptedAmounts(env: Env, t: Tree, txs: TxFile, db: Index, view: Index, checkSigs: bool, h: BlockHash, tx: Tx)
    requires WellFormed(t) && h in t && AllResolve(view, txs, tx.vin)
    requires forall i | 0 <= i < |tx.vin| ::
      InputPlausible(t, txs, view, h, tx, i) && InputSpendable(env, txs, view, checkSigs, tx, i)
    ensures InputsAccepted(env, t, txs, db, view, checkSigs, h, tx) <==>
      var spent, made := ValueIn(view, txs, tx.vin), ValueOut(tx);
      if tx.IsCoinStake() then
        env.stakeLimit(db, tx, t[h]).Some? && made <= spent + env.stakeLimit(db, tx, t[h]).value
      else
        made + env.minFee(tx) <= spent && made <= spent <= made + MAX_MONEY
  {
    hide InputPlausible, InputSpendable, ValueIn, ValueOut;
  }

  // p lies in one of the last 30 blocks of the chain up to h.
  lemma {:induction false} RecentMeans(t: Tree, from: BlockHash, h: BlockHash, p: DiskTxPos)
    requires WellFormed(t) && IsAncestor(t, h, from)
    ensures MinedRecently(t, from, h, p) <==>
      p.DiskTxPos? && exists a :: IsAncestor(t, a, h) && t[from].nHeight - t[a].nHeight < 30
                                  && t[a].nFile == p.nFile && t[a].nBlockPos == p.nBlockPos
    decreases t[h].nHeight
  {
    AncestorReflexive(t, h);
    if t[h].pprev.Some? {
      var q := t[h].pprev.value;
      StepUp(t, h, from);
      RecentMeans(t, from, q, p);
      hide AncestorAt, WellFormed;
      forall a ensures IsAncestor(t, a, h) <==> a == h || IsAncestor(t, a, q) {
        AncestorReflexive(t, h);
        if IsProperAncestor(t, a, h) || IsAncestor(t, a, q) {
          ProperAncestorOfParent(t, a, h);
        }
      }
      forall a | IsAncestor(t, a, q) && t[from].nHeight - t[a].nHeight < 30
        ensures t[from].nHeight - t[h].nHeight < 30
      {
      }
    }
  }

  // What the inputs of an accepted transaction are: unspent, old enough, not
  // younger than the spending transaction, and signed for.
  lemma AcceptedInput(env: Env, t: Tree, txs: TxFile, db: Index, view: Index, nBestHeight: int, h: BlockHash, tx: Tx,
                      i: nat)
    requires WellFormed(t) && h in t && AllResolve(view, txs, tx.vin) && i < |tx.vin|
    requires InputsAccepted(env, t, txs, db, view, CheckSigs(env, nBestHeight), h, tx)
    ensures Resolves(view, txs, tx.vin[i])
    ensures var o := tx.vin[i]; var prev, p := txs[view[o.hash].pos], view[o.hash].pos;
      && view[o.hash].vSpent[o.n] == NullPos
      && prev.nTime <= tx.nTime
      && 0 <= prev.vout[o.n].nValue <= MAX_MONEY
      && (nBestHeight >= env.nBlocksEstimate ==> env.verifySignature(prev, tx, i))
      && (prev.IsCoinBase() || prev.IsCoinStake() ==> forall a | IsAncestor(t, a, h) && p.DiskTxPos?
            && t[a].nFile == p.nFile && t[a].nBlockPos == p.nBlockPos :: t[h].nHeight - t[a].nHeight >= 30)
  {
    assert Resolves(view, txs, tx.vin[i]);
    assert InputPlausible(t, txs, view, h, tx, i);
    assert InputSpendable(env, txs, view, CheckSigs(env, nBestHeight), tx, i);
    AncestorReflexive(t, h);
    RecentMeans(t, h, h, view[tx.vin[i].hash].pos);
  }

  // What the transactions but coinbase and coinstake pay at least.
  ghost function MinFees(env: Env, b: Block, k: nat): int
    requires k <= |b.vtx|
  {
    if k == 0 then 0
    else
      var tx := b.vtx[k - 1];
      MinFees(env, b, k - 1) + if tx.IsCoinBase() || tx.IsCoinStake() then 0 else env.minFee(tx)
  }

  // What the coinstake of a block may gain.
  ghost function StakeGain(env: Env, ix: Index, node: BlockIndex, b: Block): int {
    if |b.vtx| > 1 && b.vtx[1].IsCoinStake() then
      match env.stakeLimit(ix, b.vtx[1], node)
      case Some(limit) => limit
      case None => 0
    else 0
  }

  lemma {:induction false} MintUpTo(env: Env, t: Tree, txs: TxFile, ix: Index, nBestHeight: int, h: BlockHash, b: Block,
                                    k: nat)
    requires WellFormed(t) && h in t && BlockAccepted(env, t, txs, ix, nBestHeight, h, b) && 0 < k <= |b.vtx|
    ensures Resolvable(env, ix, txs, t[h], b, k)
    ensures BlockOut(b, k) - BlockIn(env, ix, txs, t[h], b, k) + Fees(env, ix, txs, t[h], b, k)
         <= ValueOut(b.vtx[0]) + if k > 1 then StakeGain(env, ix, t[h], b) else 0
    ensures Fees(env, ix, txs, t[h], b, k) >= MinFees(env, b, k)
  {
    hide WellFormed, BlockAccepted, TxAccepted, InputsAccepted, ValueOut, ApplyTxs, ResolvesAt, TxIn, StakeGain;
    var tx := b.vtx[k - 1];
    AcceptedTx(env, t, txs, ix, nBestHeight, h, b, k - 1);
    BlockShape(env, t, txs, ix, nBestHeight, h, b);
    if k == 1 {
      assert BlockOut(b, 0) == 0 && BlockIn(env, ix, txs, t[h], b, 0) == 0 && Fees(env, ix, txs, t[h], b, 0) == 0;
      assert MinFees(env, b, 0) == 0;
      CoinbaseSpendsNothing(env, ix, txs, t[h], b);
    } else {
      MintUpTo(env, t, txs, ix, nBestHeight, h, b, k - 1);
      AmountsAt(env, t, txs, ix, nBestHeight, h, b, k - 1);
      StakeGainIs(env, ix, t[h], b);
    }
  }

  lemma AcceptedTx(env: Env, t: Tree, txs: TxFile, ix: Index, nBestHeight: int, h: BlockHash, b: Block, k: nat)
    requires WellFormed(t) && h in t && BlockAccepted(env, t, txs, ix, nBestHeight, h, b) && k < |b.vtx|
    ensures TxAccepted(env, t, txs, ix, CheckSigs(env, nBestHeight), h, b, k)
    ensures Resolvable(env, ix, txs, t[h], b, k + 1) && ResolvesAt(env, ix, txs, t[h], b, k)
  {
    hide WellFormed, CheckBlock, TxAccepted, ResolvesAt;
  }

  lemma CoinbaseSpendsNothing(env: Env, ix: Index, txs: TxFile, node: BlockIndex, b: Block)
    requires |b.vtx| > 0 && b.vtx[0].IsCoinBase()
    ensures ResolvesAt(env, ix, txs, node, b, 0) && TxIn(env, ix, txs, node, b, 0) == 0
  {
  }

  lemma StakeGainIs(env: Env, ix: Index, node: BlockIndex, b: Block)
    requires |b.vtx| > 1
    ensures !b.vtx[1].IsCoinStake() ==> StakeGain(env, ix, node, b) == 0
    ensures b.vtx[1].IsCoinStake() && env.stakeLimit(ix, b.vtx[1], node).Some? ==>
      StakeGain(env, ix, node, b) == env.stakeLimit(ix, b.vtx[1], node).value
  {
  }

  lemma AmountsAt(env: Env, t: Tree, txs: TxFile, ix: Index, nBestHeight: int, h: BlockHash, b: Block, k: nat)
    requires WellFormed(t) && h in t && k < |b.vtx| && !b.vtx[k].IsCoinBase()
    requires TxAccepted(env, t, txs, ix, CheckSigs(env, nBestHeight), h, b, k)
    requires ResolvesAt(env, ix, txs, t[h], b, k)
    ensures var tx, spent := b.vtx[k], TxIn(env, ix, txs, t[h], b, k);
      if tx.IsCoinStake() then
        var limit := env.stakeLimit(ix, tx, t[h]); limit.Some? && ValueOut(tx) - spent <= limit.value
      else env.minFee(tx) <= spent - ValueOut(tx)
  {
    var view, tx := ApplyTxs(env, ix, t[h], b, k), b.vtx[k];
    hide WellFormed, ValueOut, ValueIn, ApplyTxs, InputPlausible, InputSpendable;
    AcceptedAmounts(env, t, txs, ix, view, CheckSigs(env, nBestHeight), h, tx);
  }

  // An accepted block mints no more than the reward for its height and the
  // gain of its coinstake; a block of proof of stake has no other reward.
  lemma MintBounded(env: Env, t: Tree, txs: TxFile, ix: Index, nBestHeight: int, h: BlockHash, b: Block)
    requires WellFormed(t) && h in t && BlockAccepted(env, t, txs, ix, nBestHeight, h, b)
    ensures Resolvable(env, ix, txs, t[h], b, |b.vtx|) && |b.vtx| > 0
    ensures var n := |b.vtx|; var fees := Fees(env, ix, txs, t[h], b, n);
      var minted := BlockOut(b, n) - BlockIn(env, ix, txs, t[h], b, n) + fees;
      && minted <= env.powReward(t[h].nHeight, fees, t[h].pprev) + StakeGain(env, ix, t[h], b)
      && (b.IsProofOfStake() ==> minted <= StakeGain(env, ix, t[h], b))
      && fees >= MinFees(env, b, n)
  {
    hide WellFormed, CheckTransaction, LegacySigOps, SigOps, StakeGain;
    MintUpTo(env, t, txs, ix, nBestHeight, h, b, |b.vtx|);
    if b.IsProofOfStake() {
      var vout := b.vtx[0].vout;
      assert vout[..0] == [] && SumOutputs(vout[..0]) == 0;
    }
    NoStakeGain(env, ix, t[h], b);
  }

  lemma NoStakeGain(env: Env, ix: Index, node: BlockIndex, b: Block)
    ensures |b.vtx| == 1 ==> StakeGain(env, ix, node, b) == 0
  {
  }

  // So the unspent value grows by no more than that, less the fees.
  lemma UnspentGrowthBounded(env: Env, t: Tree, txs: TxFile, ix: Index, nBestHeight: int, h: BlockHash, b: Block)
    requires WellFormed(t) && h in t && BlockAccepted(env, t, txs, ix, nBestHeight, h, b) && OnDisk(env, txs, t[h], b)
    ensures Resolvable(env, ix, txs, t[h], b, |b.vtx|)
    ensures UnspentSum(ApplyBlock(env, ix, t[h], b), txs) - UnspentSum(ix, txs)
         <= env.powReward(t[h].nHeight, Fees(env, ix, txs, t[h], b, |b.vtx|), t[h].pprev)
            + StakeGain(env, ix, t[h], b) - MinFees(env, b, |b.vtx|)
  {
    hide WellFormed, BlockAccepted, StakeGain, MinFees, Fees, BlockOut, BlockIn, UnspentSum, OnDisk, ApplyBlock;
    AcceptedIsSound(env, t, txs, ix, nBestHeight, h, b);
    BlockConserves(env, ix, txs, t[h], b);
    MintBounded(env, t, txs, ix, nBestHeight, h, b);
  }

  // The shape of an accepted block: one coinbase, which comes first, at most
  // one coinstake, which comes second, and no transaction younger than it.
  lemma BlockShape(env: Env, t: Tree, txs: TxFile, ix: Index, nBestHeight: int, h: BlockHash, b: Block)
    requires WellFormed(t) && h in t && BlockAccepted(env, t, txs, ix, nBestHeight, h, b)
    ensures 0 < |b.vtx| && env.checkHeader(b) && b.size <= 1_000_000
    ensures forall k | 0 <= k < |b.vtx| :: var tx := b.vtx[k];
      && (tx.IsCoinBase() <==> k == 0) && (tx.IsCoinStake() ==> k == 1)
      && tx.nTime <= b.nTime && |tx.vin| > 0 && |tx.vout| > 0
      && (forall o | o in tx.vin :: o.hash == 0 && o.n == NULL_N ==> k == 0)
      && (forall i | 0 <= i < |tx.vout| :: 0 <= tx.vout[i].nValue <= MAX_MONEY)
  {
    hide WellFormed, LegacySigOps, SigOps, Fees, ValueOut, SumOutputs, TxAccepted, Resolvable;
    forall k | 0 <= k < |b.vtx| ensures CheckTransaction(env, b.vtx[k]) && (b.vtx[k].IsCoinBase() <==> k == 0) {
    }
  }

  // The signature operations of an accepted block, those of the scripts behind
  // its inputs included, are counted and limited.
  lemma SigOpsLimited(env: Env, t: Tree, txs: TxFile, ix: Index, nBestHeight: int, h: BlockHash, b: Block, k: nat)
    requires WellFormed(t) && h in t && BlockAccepted(env, t, txs, ix, nBestHeight, h, b) && k < |b.vtx|
    ensures Resolvable(env, ix, txs, t[h], b, |b.vtx|) && SigOps(env, ix, txs, t[h], b, |b.vtx|) <= 20_000
    ensures ResolvesAt(env, ix, txs, t[h], b, k) && Resolvable(env, ix, txs, t[h], b, k + 1)
    ensures var tx, view := b.vtx[k], ApplyTxs(env, ix, t[h], b, k);
      SigOps(env, ix, txs, t[h], b, k + 1) - SigOps(env, ix, txs, t[h], b, k) ==
        if tx.IsCoinBase() then tx.sigOps
        else tx.sigOps + env.p2shSigOps(tx, map g | g in PrevHashes(tx.vin) :: txs[view[g].pos])
  {
    hide WellFormed, CheckBlock, TxAccepted, ApplyTxs;
    assert ResolvesAt(env, ix, txs, t[h], b, k);
    var tx, view := b.vtx[k], ApplyTxs(env, ix, t[h], b, k);
    if !tx.IsCoinBase() {
      assert PrevTxs(Fetched(view, txs, tx.vin)) == map g | g in PrevHashes(tx.vin) :: txs[view[g].pos];
    }
  }

  // Transactions lie one behind the other in the block files.
  lemma PositionsFollow(env: Env, node: BlockIndex, b: Block, k: nat)
    requires k < |b.vtx|
    ensures var p, q := TxPos(env, node, b, k), TxPos(env, node, b, k + 1);
      && p.nFile == q.nFile == node.nFile && p.nBlockPos == q.nBlockPos == node.nBlockPos
      && q.nTxPos == p.nTxPos + b.vtx[k].size
      && (k == 0 ==> p.nTxPos == node.nBlockPos + env.headerSize + VarInt.GetSizeOfCompactSize(|b.vtx|))
  {
    assert b.vtx[..k + 1][..k] == b.vtx[..k];
  }

  // When a block of one coinbase is accepted.
  lemma CoinbaseBlock(env: Env, t: Tree, txs: TxFile, ix: Index, nBestHeight: int, h: BlockHash, b: Block)
    requires WellFormed(t) && h in t && |b.vtx| == 1 && b.vtx[0].IsCoinBase()
    ensures BlockAccepted(env, t, txs, ix, nBestHeight, h, b) <==>
      && CheckBlock(env, b) && FullySpent(ix, b.vtx[0].hash)
      && ValueOut(b.vtx[0]) <= PowReward(env, t[h].nHeight, 0, t[h].pprev)
  {
    hide CheckTransaction, WellFormed, FullySpent;
    var tx := b.vtx[0];
    assert ResolvesAt(env, ix, txs, t[h], b, 0);
    assert Resolvable(env, ix, txs, t[h], b, 1);
    assert SigOps(env, ix, txs, t[h], b, 1) == tx.sigOps by {
      assert SigOps(env, ix, txs, t[h], b, 0) == 0;
    }
    assert Fees(env, ix, txs, t[h], b, 1) == 0 by {
      assert Fees(env, ix, txs, t[h], b, 0) == 0;
    }
    assert LegacySigOps(b.vtx) == tx.sigOps by {
      assert b.vtx[..0] == [];
    }
    assert TxAccepted(env, t, txs, ix, CheckSigs(env, nBestHeight), h, b, 0) <==> FullySpent(ix, tx.hash);
  }

  // An environment that objects to nothing and rewards every block with 1.
  const LENIENT: Env := Env(0, 0, 80, _ => true, _ => true, (_, _, _) => true, (_, _) => 0, _ => 0,
                            (_, _, _) => Some(0), (_, _, _) => 1)

  function Coinbase(id: TxId, n: int): Tx { Tx(id, 0, [OutPoint(0, NULL_N)], [TxOut(n, "s")], 60, 0) }

  function CoinbaseOnly(prev: BlockHash, id: TxId, n: int): Block { Block(prev, [Coinbase(id, n)], 0, 200) }

  lemma CoinbaseOnlyChecked(prev: BlockHash, id: TxId, n: int)
    requires MoneyRange(n)
    ensures CheckBlock(LENIENT, CoinbaseOnly(prev, id, n)) && ValueOut(Coinbase(id, n)) == n
  {
    var b, tx := CoinbaseOnly(prev, id, n), Coinbase(id, n);
    assert tx.vout[..0] == [] && tx.vout[..1] == tx.vout;
    assert SumOutputs(tx.vout) == n;
    assert b.vtx[..0] == [];
    assert LegacySigOps(b.vtx) == 0;
    assert CheckTransaction(LENIENT, tx);
  }
}
