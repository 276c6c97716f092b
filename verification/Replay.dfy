// The index as a function of the active chain alone.
module Replay {
  import opened BlockTree
  import opened Ledger
  import opened Sets

  type Blocks = map<BlockHash, Block>

  // Every indexed block can be read and its transactions are in the block
  // files.
  ghost predicate Stored(env: Env, t: Tree, blocks: Blocks, txs: TxFile) {
    t.Keys <= blocks.Keys && forall h | h in t :: OnDisk(env, txs, t[h], blocks[h])
  }

  // The block tree and the block files agree, no chain repeats a transaction
  // id, and no block is empty.
  ghost predicate StoreOk(env: Env, t: Tree, blocks: Blocks, txs: TxFile)
    requires WellFormed(t) && t.Keys <= blocks.Keys
  {
    && Stored(env, t, blocks, txs) && NoRepeats(t, blocks)
    && (forall h | h in t :: |blocks[h].vtx| > 0)
    && (env.hashGenesisBlock in t ==> t[env.hashGenesisBlock].pprev.None?)
  }

  // Every block has a money supply, and a root block, which is never
  // connected, keeps the initial 0.
  ghost predicate SuppliesKept(t: Tree, supply: map<BlockHash, int>) {
    supply.Keys == t.Keys && forall h | h in t && t[h].pprev.None? :: supply[h] == 0
  }

  // The index built by connecting the chain up to h block by block.  The root
  // is never passed to ConnectBlock.
  ghost function ReplayTo(env: Env, t: Tree, blocks: Blocks, h: BlockHash): Index
    requires WellFormed(t) && t.Keys <= blocks.Keys && h in t
    decreases t[h].nHeight
  {
    match t[h].pprev
    case None => map[]
    case Some(p) => ApplyBlock(env, ReplayTo(env, t, blocks, p), t[h], blocks[h])
  }

  // The ids of the transactions connected on the chain up to h.
  function ChainTxIds(t: Tree, blocks: Blocks, h: BlockHash): set<TxId>
    requires WellFormed(t) && t.Keys <= blocks.Keys && h in t
    decreases t[h].nHeight
  {
    match t[h].pprev
    case None => {}
    case Some(p) => ChainTxIds(t, blocks, p) + TxIds(blocks[h])
  }

  // No transaction id repeats along any chain of the tree.
  ghost predicate NoRepeats(t: Tree, blocks: Blocks)
    requires WellFormed(t) && t.Keys <= blocks.Keys
  {
    forall h | h in t && t[h].pprev.Some? :: ChainTxIds(t, blocks, t[h].pprev.value) !! TxIds(blocks[h])
  }

  // Every block of the chain up to h was accepted on top of its predecessors.
  ghost predicate ChainSound(env: Env, t: Tree, blocks: Blocks, txs: TxFile, h: BlockHash)
    requires WellFormed(t) && t.Keys <= blocks.Keys && h in t
    decreases t[h].nHeight
  {
    match t[h].pprev
    case None => true
    case Some(p) =>
      && ChainSound(env, t, blocks, txs, p)
      && Sound(env, txs, ReplayTo(env, t, blocks, p), t[h], blocks[h])
  }

  lemma {:induction false} ReplayKeys(env: Env, t: Tree, blocks: Blocks, h: BlockHash)
    requires WellFormed(t) && t.Keys <= blocks.Keys && h in t
    ensures ReplayTo(env, t, blocks, h).Keys == ChainTxIds(t, blocks, h)
    decreases t[h].nHeight
  {
    if t[h].pprev.Some? {
      ReplayKeys(env, t, blocks, t[h].pprev.value);
      ApplyBlockKeys(env, ReplayTo(env, t, blocks, t[h].pprev.value), t[h], blocks[h]);
    }
  }

  // Disconnecting the tip of a chain leads to the replay of its parent.
  lemma DisconnectTip(env: Env, t: Tree, blocks: Blocks, txs: TxFile, h: BlockHash)
    requires WellFormed(t) && t.Keys <= blocks.Keys && h in t && t[h].pprev.Some?
    requires StoreOk(env, t, blocks, txs) && ChainSound(env, t, blocks, txs, h)
    ensures UndoBlock(ReplayTo(env, t, blocks, h), blocks[h]) == Some(ReplayTo(env, t, blocks, t[h].pprev.value))
  {
    var ix := ReplayTo(env, t, blocks, t[h].pprev.value);
    ReplayKeys(env, t, blocks, t[h].pprev.value);
    ConnectThenDisconnect(env, ix, t[h], blocks[h]);
  }

  lemma {:induction false} ChainTxIdsGrow(t: Tree, blocks: Blocks, a: BlockHash, h: BlockHash)
    requires WellFormed(t) && t.Keys <= blocks.Keys && IsAncestor(t, a, h)
    ensures ChainTxIds(t, blocks, a) <= ChainTxIds(t, blocks, h)
    decreases t[h].nHeight
  {
    if a != h {
      ChainTxIdsGrow(t, blocks, a, t[h].pprev.value);
    }
  }

  // Two different blocks of one accepted chain have different indexes.
  lemma ReplayDiffers(env: Env, t: Tree, blocks: Blocks, a: BlockHash, h: BlockHash)
    requires WellFormed(t) && t.Keys <= blocks.Keys && NoRepeats(t, blocks) && IsProperAncestor(t, a, h)
    requires |blocks[h].vtx| > 0
    ensures ReplayTo(env, t, blocks, a) != ReplayTo(env, t, blocks, h)
  {
    var p := t[h].pprev.value;
    ChainTxIdsGrow(t, blocks, a, p);
    ReplayKeys(env, t, blocks, a);
    ReplayKeys(env, t, blocks, h);
    assert blocks[h].vtx[0].hash in TxIds(blocks[h]);
  }

  lemma ReplayDiffersStore(env: Env, t: Tree, blocks: Blocks, txs: TxFile, a: BlockHash, h: BlockHash)
    requires WellFormed(t) && t.Keys <= blocks.Keys && StoreOk(env, t, blocks, txs) && IsProperAncestor(t, a, h)
    ensures ReplayTo(env, t, blocks, a) != ReplayTo(env, t, blocks, h)
  {
    ReplayDiffers(env, t, blocks, a, h);
  }

  // ------------------------------------------------------------- money supply

  // Every active block's nMoneySupply is the value of the outputs unspent at
  // that block.
  ghost predicate SupplyOk(env: Env, t: Tree, blocks: Blocks, txs: TxFile, supply: map<BlockHash, int>, tip: BlockHash)
    requires WellFormed(t) && t.Keys <= blocks.Keys
  {
    forall a | IsAncestor(t, a, tip) ::
      a in supply && supply[a] == UnspentSum(ReplayTo(env, t, blocks, a), txs)
  }

  lemma SupplyUp(env: Env, t: Tree, blocks: Blocks, txs: TxFile, supply: map<BlockHash, int>, h: BlockHash)
    requires WellFormed(t) && t.Keys <= blocks.Keys && StoreOk(env, t, blocks, txs) && h in t && t[h].pprev.Some?
    requires ChainSound(env, t, blocks, txs, h)
    requires SupplyOk(env, t, blocks, txs, supply, t[h].pprev.value)
    requires h in supply
    requires var ix := ReplayTo(env, t, blocks, t[h].pprev.value); var b := blocks[h];
      supply[h] == supply[t[h].pprev.value] + BlockOut(b, |b.vtx|) - BlockIn(env, ix, txs, t[h], b, |b.vtx|)
    ensures SupplyOk(env, t, blocks, txs, supply, h)
  {
    var p := t[h].pprev.value;
    assert IsAncestor(t, p, p);
    BlockConserves(env, ReplayTo(env, t, blocks, p), txs, t[h], blocks[h]);
    forall a | IsAncestor(t, a, h) ensures a in supply && supply[a] == UnspentSum(ReplayTo(env, t, blocks, a), txs) {
      ProperAncestorOfParent(t, a, h);
    }
  }

  lemma SupplyDown(env: Env, t: Tree, blocks: Blocks, txs: TxFile, supply: map<BlockHash, int>, a: BlockHash,
                   h: BlockHash)
    requires WellFormed(t) && t.Keys <= blocks.Keys && IsAncestor(t, a, h)
    requires SupplyOk(env, t, blocks, txs, supply, h)
    ensures SupplyOk(env, t, blocks, txs, supply, a)
  {
    forall c | IsAncestor(t, c, a) ensures IsAncestor(t, c, h) {
      AncestorTransitive(t, c, a, h);
    }
  }

  // ------------------------------------------------------------- pnext links

  // pnext is non-null exactly on the proper ancestors of the tip, where it
  // points to the next block on the way to the tip.
  ghost predicate PnextOk(t: Tree, pnext: map<BlockHash, BlockHash>, tip: BlockHash)
    requires WellFormed(t)
  {
    && tip in t
    && (forall a :: a in pnext <==> IsProperAncestor(t, a, tip))
    && (forall a | a in pnext :: IsAncestor(t, pnext[a], tip) && t[pnext[a]].pprev == Some(a))
  }

  lemma PnextUp(t: Tree, pnext: map<BlockHash, BlockHash>, h: BlockHash)
    requires WellFormed(t) && h in t && t[h].pprev.Some? && PnextOk(t, pnext, t[h].pprev.value)
    ensures PnextOk(t, pnext[t[h].pprev.value := h], h)
  {
    var p := t[h].pprev.value;
    forall a ensures a in pnext[p := h] <==> IsProperAncestor(t, a, h) {
      ProperAncestorOfParent(t, a, h);
    }
    forall a | a in pnext ensures IsAncestor(t, pnext[a], h) {
      ProperAncestorOfParent(t, pnext[a], h);
    }
  }

  // The two walking loops of FindBlockByHeight.
  method WalkTo(t: Tree, pnext: map<BlockHash, BlockHash>, ghost tip: BlockHash, start: BlockHash, nHeight: nat)
    returns (pblockindex: BlockHash)
    requires WellFormed(t) && PnextOk(t, pnext, tip) && IsAncestor(t, start, tip) && nHeight <= t[tip].nHeight
    ensures pblockindex == AncestorAt(t, tip, nHeight)
  {
    hide AncestorAt;
    pblockindex := start;
    while t[pblockindex].nHeight > nHeight
      invariant IsAncestor(t, pblockindex, tip)
      decreases t[pblockindex].nHeight
    {
      StepUp(t, pblockindex, tip);
      pblockindex := t[pblockindex].pprev.value;
    }
    AncestorReflexive(t, tip);
    while t[pblockindex].nHeight < nHeight
      invariant IsAncestor(t, pblockindex, tip) && t[pblockindex].nHeight <= nHeight
      decreases nHeight - t[pblockindex].nHeight
    {
      assert IsProperAncestor(t, pblockindex, tip);
      pblockindex := pnext[pblockindex];
    }
  }

  // A root that is below one chain is below every chain that shares a block
  // with it.
  lemma RootShared(t: Tree, root: BlockHash, f: BlockHash, best: BlockHash, h: BlockHash)
    requires WellFormed(t) && IsAncestor(t, root, best) && t[root].nHeight == 0
    requires IsAncestor(t, f, best) && IsAncestor(t, f, h)
    ensures IsAncestor(t, root, h)
  {
    AncestorsLinear(t, root, f, best);
    AncestorTransitive(t, root, f, h);
  }

  lemma PnextDown(t: Tree, pnext: map<BlockHash, BlockHash>, h: BlockHash)
    requires WellFormed(t) && h in t && t[h].pprev.Some? && PnextOk(t, pnext, h)
    ensures PnextOk(t, pnext - {t[h].pprev.value}, t[h].pprev.value)
  {
    var p := t[h].pprev.value;
    forall a ensures a in pnext - {p} <==> IsProperAncestor(t, a, p) {
      ProperAncestorOfParent(t, a, h);
    }
    forall a | a in pnext && a != p ensures IsAncestor(t, pnext[a], p) {
      ProperAncestorOfParent(t, pnext[a], h);
      ProperAncestorOfParent(t, a, h);
    }
  }

  // ------------------------------------------------------- growing the tree

  lemma {:induction false} ReplayGrows(env: Env, t: Tree, t': Tree, blocks: Blocks, blocks': Blocks, h: BlockHash)
    requires WellFormed(t) && WellFormed(t') && Grows(t, t') && Grows(blocks, blocks')
    requires t.Keys <= blocks.Keys && t'.Keys <= blocks'.Keys && h in t
    ensures ReplayTo(env, t', blocks', h) == ReplayTo(env, t, blocks, h)
    ensures ChainTxIds(t', blocks', h) == ChainTxIds(t, blocks, h)
    decreases t[h].nHeight
  {
    if t[h].pprev.Some? {
      ReplayGrows(env, t, t', blocks, blocks', t[h].pprev.value);
    }
  }

  lemma SoundGrows(env: Env, txs: TxFile, txs': TxFile, ix: Index, node: BlockIndex, b: Block)
    requires Sound(env, txs, ix, node, b) && Grows(txs, txs')
    ensures Sound(env, txs', ix, node, b)
  {
    forall k | 0 <= k < |b.vtx| ensures ResolvesAt(env, ix, txs', node, b, k) {
      assert ResolvesAt(env, ix, txs, node, b, k);
    }
  }

  lemma {:induction false} ChainSoundGrows(env: Env, t: Tree, t': Tree, blocks: Blocks, blocks': Blocks,
                                           txs: TxFile, txs': TxFile, h: BlockHash)
    requires WellFormed(t) && WellFormed(t') && Grows(t, t') && Grows(blocks, blocks') && Grows(txs, txs')
    requires t.Keys <= blocks.Keys && t'.Keys <= blocks'.Keys && h in t
    requires ChainSound(env, t, blocks, txs, h)
    ensures ChainSound(env, t', blocks', txs', h)
    decreases t[h].nHeight
  {
    if t[h].pprev.Some? {
      var p := t[h].pprev.value;
      ChainSoundGrows(env, t, t', blocks, blocks', txs, txs', p);
      ReplayGrows(env, t, t', blocks, blocks', p);
      SoundGrows(env, txs, txs', ReplayTo(env, t, blocks, p), t[h], blocks[h]);
    }
  }

  // Every entry of the index points into the block files.
  ghost predicate Positioned(ix: Index, txs: TxFile) { forall h | h in ix :: ix[h].pos in txs }

  lemma {:induction false} ApplyTxsPositioned(env: Env, ix: Index, txs: TxFile, node: BlockIndex, b: Block, k: nat)
    requires k <= |b.vtx| && Positioned(ix, txs) && OnDisk(env, txs, node, b)
    ensures Positioned(ApplyTxs(env, ix, node, b, k), txs)
  {
    if k != 0 {
      ApplyTxsPositioned(env, ix, txs, node, b, k - 1);
      assert StoredAt(env, txs, node, b, k - 1);
      MarkAt(ApplyTxs(env, ix, node, b, k - 1), b.vtx[k - 1].vin, TxPos(env, node, b, k - 1));
    }
  }

  lemma {:induction false} ReplayPositioned(env: Env, t: Tree, blocks: Blocks, txs: TxFile, h: BlockHash)
    requires WellFormed(t) && Stored(env, t, blocks, txs) && h in t
    ensures Positioned(ReplayTo(env, t, blocks, h), txs)
    decreases t[h].nHeight
  {
    if t[h].pprev.Some? {
      ReplayPositioned(env, t, blocks, txs, t[h].pprev.value);
      ApplyTxsPositioned(env, ReplayTo(env, t, blocks, t[h].pprev.value), txs, t[h], blocks[h], |blocks[h].vtx|);
    }
  }

  lemma {:induction false} UnspentSumGrows(ix: Index, txs: TxFile, txs': TxFile)
    requires Positioned(ix, txs) && Grows(txs, txs')
    ensures UnspentSum(ix, txs') == UnspentSum(ix, txs)
    decreases |ix|
  {
    if ix.Keys != {} {
      var h := AnyOf(ix.Keys);
      assert ix[h].pos in txs;
      UnspentSumGrows(ix - {AnyOf(ix.Keys)}, txs, txs');
    }
  }

  lemma SupplyGrows(env: Env, t: Tree, t': Tree, blocks: Blocks, blocks': Blocks, txs: TxFile, txs': TxFile,
                    supply: map<BlockHash, int>, supply': map<BlockHash, int>, tip: BlockHash)
    requires WellFormed(t) && WellFormed(t') && Grows(t, t') && Grows(blocks, blocks') && Grows(txs, txs')
    requires Stored(env, t, blocks, txs) && t'.Keys <= blocks'.Keys && Grows(supply, supply') && tip in t
    requires SupplyOk(env, t, blocks, txs, supply, tip)
    ensures SupplyOk(env, t', blocks', txs', supply', tip)
  {
    forall a | IsAncestor(t', a, tip)
      ensures a in supply' && supply'[a] == UnspentSum(ReplayTo(env, t', blocks', a), txs')
    {
      AncestorExtends(t, t', a, tip);
      ReplayGrows(env, t, t', blocks, blocks', a);
      ReplayPositioned(env, t, blocks, txs, a);
      UnspentSumGrows(ReplayTo(env, t, blocks, a), txs, txs');
    }
  }

  // ------------------------------------------------------- switching chains

  // Block h is acceptable on top of its predecessors: a function of the chain
  // below h and of the best height, not of the current index.
  ghost predicate Acceptable(env: Env, t: Tree, blocks: Blocks, txs: TxFile, nBestHeight: int, h: BlockHash)
    requires WellFormed(t) && t.Keys <= blocks.Keys
  {
    && h in t && t[h].pprev.Some?
    && BlockAccepted(env, t, txs, ReplayTo(env, t, blocks, t[h].pprev.value), nBestHeight, h, blocks[h])
  }

  // Every block of the path from bottom up to h can be read and connected.
  ghost predicate PathConnects(env: Env, t: Tree, blocks: Blocks, txs: TxFile, nBestHeight: int,
                               readable: set<BlockHash>, bottom: BlockHash, h: BlockHash)
    requires WellFormed(t) && t.Keys <= blocks.Keys && bottom in t
  {
    forall x | OnPath(t, bottom, x, h) :: x in readable && Acceptable(env, t, blocks, txs, nBestHeight, x)
  }

  // Reorganize from best to h succeeds.
  ghost predicate CanSwitch(env: Env, t: Tree, blocks: Blocks, txs: TxFile, nBestHeight: int,
                            readable: set<BlockHash>, best: BlockHash, h: BlockHash)
    requires WellFormed(t) && t.Keys <= blocks.Keys
  {
    exists f ::
      && IsLastCommonAncestor(t, f, best, h)
      && (forall x | OnPath(t, f, x, best) :: x in readable)
      && PathConnects(env, t, blocks, txs, nBestHeight, readable, f, h)
  }

  // The money supply of a block outside the active chain may change freely.
  lemma SupplyElsewhere(env: Env, t: Tree, blocks: Blocks, txs: TxFile, supply: map<BlockHash, int>,
                        h: BlockHash, n: int, tip: BlockHash)
    requires WellFormed(t) && t.Keys <= blocks.Keys && tip in t && !IsAncestor(t, h, tip)
    requires SupplyOk(env, t, blocks, txs, supply, tip)
    ensures SupplyOk(env, t, blocks, txs, supply[h := n], tip)
  {
  }

  lemma SoundUp(env: Env, t: Tree, blocks: Blocks, txs: TxFile, nBestHeight: int, h: BlockHash)
    requires WellFormed(t) && t.Keys <= blocks.Keys && Acceptable(env, t, blocks, txs, nBestHeight, h)
    requires ChainSound(env, t, blocks, txs, t[h].pprev.value)
    ensures ChainSound(env, t, blocks, txs, h)
  {
    AcceptedIsSound(env, t, txs, ReplayTo(env, t, blocks, t[h].pprev.value), nBestHeight, h, blocks[h]);
  }

  lemma SoundDown(env: Env, t: Tree, blocks: Blocks, txs: TxFile, h: BlockHash)
    requires WellFormed(t) && t.Keys <= blocks.Keys && h in t && t[h].pprev.Some?
    requires ChainSound(env, t, blocks, txs, h)
    ensures ChainSound(env, t, blocks, txs, t[h].pprev.value)
  {
  }

  lemma NoForkNoSwitch(env: Env, t: Tree, blocks: Blocks, txs: TxFile, nBestHeight: int,
                       readable: set<BlockHash>, best: BlockHash, h: BlockHash)
    requires WellFormed(t) && t.Keys <= blocks.Keys
    requires forall c :: !(IsAncestor(t, c, best) && IsAncestor(t, c, h))
    ensures !CanSwitch(env, t, blocks, txs, nBestHeight, readable, best, h)
  {
  }

  // The two paths that Reorganize walks decide whether it succeeds.
  lemma SwitchDecided(env: Env, t: Tree, blocks: Blocks, txs: TxFile, nBestHeight: int, readable: set<BlockHash>,
                      best: BlockHash, h: BlockHash, f: BlockHash, v: seq<BlockHash>, w: seq<BlockHash>)
    requires WellFormed(t) && t.Keys <= blocks.Keys && IsLastCommonAncestor(t, f, best, h)
    requires IsDescent(t, v, best, f) && IsDescent(t, w, h, f)
    ensures CanSwitch(env, t, blocks, txs, nBestHeight, readable, best, h) <==>
      && (forall x | x in v :: x in readable)
      && (forall x | x in w :: x in readable && Acceptable(env, t, blocks, txs, nBestHeight, x))
  {
    hide AncestorAt, WellFormed, Acceptable;
    forall x ensures x in v <==> OnPath(t, f, x, best) {
      DescentCovers(t, v, best, f, x);
    }
    forall x ensures x in w <==> OnPath(t, f, x, h) {
      DescentCovers(t, w, h, f, x);
    }
    forall g | IsLastCommonAncestor(t, g, best, h) ensures g == f {
      LastCommonAncestorUnique(t, f, g, best, h);
    }
    hide IsLastCommonAncestor, IsDescent;
  }

  lemma PathDecided(env: Env, t: Tree, blocks: Blocks, txs: TxFile, nBestHeight: int, readable: set<BlockHash>,
                    bottom: BlockHash, h: BlockHash, w: seq<BlockHash>)
    requires WellFormed(t) && t.Keys <= blocks.Keys && IsDescent(t, w, h, bottom)
    ensures PathConnects(env, t, blocks, txs, nBestHeight, readable, bottom, h) <==>
      forall x | x in w :: x in readable && Acceptable(env, t, blocks, txs, nBestHeight, x)
  {
    hide AncestorAt, WellFormed, Acceptable;
    forall x ensures x in w <==> OnPath(t, bottom, x, h) {
      DescentCovers(t, w, h, bottom, x);
    }
    hide IsDescent;
  }

  lemma PnextGrows(t: Tree, t': Tree, pnext: map<BlockHash, BlockHash>, tip: BlockHash)
    requires WellFormed(t) && WellFormed(t') && Grows(t, t') && PnextOk(t, pnext, tip)
    ensures PnextOk(t', pnext, tip)
  {
    hide AncestorAt;
    forall a ensures IsAncestor(t', a, tip) <==> IsAncestor(t, a, tip) {
      AncestorExtends(t, t', a, tip);
    }
  }

  // What a block must bring to be added: a new hash, positions at the end of
  // the block files, and transaction ids new to its chain.
  predicate Admissible(env: Env, t: Tree, blocks: Blocks, txs: TxFile, h: BlockHash, b: Block, node: BlockIndex)
    requires WellFormed(t) && t.Keys <= blocks.Keys
  {
    && |b.vtx| > 0 && (forall k | 0 <= k < |b.vtx| :: b.vtx[k].size > 0)
    && (forall k | 0 <= k < |b.vtx| :: TxPos(env, node, b, k) !in txs)
    && (b.hashPrevBlock in t ==> h != env.hashGenesisBlock && ChainTxIds(t, blocks, b.hashPrevBlock) !! TxIds(b))
  }

  lemma SamePositions(env: Env, t: Tree, blocks: Blocks, txs: TxFile, h: BlockHash, b: Block,
                      node: BlockIndex, node': BlockIndex)
    requires WellFormed(t) && t.Keys <= blocks.Keys && Admissible(env, t, blocks, txs, h, b, node)
    requires node'.nFile == node.nFile && node'.nBlockPos == node.nBlockPos
    ensures Admissible(env, t, blocks, txs, h, b, node')
    ensures forall k | 0 <= k < |b.vtx| :: b.vtx[k].size > 0 && TxPos(env, node', b, k) !in txs
  {
    hide ChainTxIds, SizeOfTxs, TxIds;
    forall k | 0 <= k < |b.vtx| ensures TxPos(env, node', b, k) == TxPos(env, node, b, k) {
    }
  }

  // The node that AddToBlockIndex builds for block b.
  predicate IsNodeFor(t: Tree, node: BlockIndex, b: Block) {
    && node.pprev == (if b.hashPrevBlock in t then Some(b.hashPrevBlock) else None)
    && node.nHeight == if b.hashPrevBlock in t then t[b.hashPrevBlock].nHeight + 1 else 0
  }

  lemma TreeGrows(t: Tree, h: BlockHash, node: BlockIndex, b: Block, supply: map<BlockHash, int>)
    requires WellFormed(t) && h !in t && IsNodeFor(t, node, b) && SuppliesKept(t, supply)
    ensures WellFormed(t[h := node]) && Grows(t, t[h := node])
    ensures SuppliesKept(t[h := node], supply[h := 0]) && Grows(supply, supply[h := 0])
  {
  }

  lemma StoreOkStored(env: Env, t: Tree, blocks: Blocks, txs: TxFile)
    requires WellFormed(t) && t.Keys <= blocks.Keys && StoreOk(env, t, blocks, txs)
    ensures Stored(env, t, blocks, txs)
  {
  }

  lemma StoreOkGrows(env: Env, t: Tree, blocks: Blocks, txs: TxFile, txs': TxFile, h: BlockHash, b: Block,
                     node: BlockIndex)
    requires WellFormed(t) && t.Keys == blocks.Keys && StoreOk(env, t, blocks, txs) && h !in t
    requires WellFormed(t[h := node]) && Grows(txs, txs') && OnDisk(env, txs', node, b)
    requires Admissible(env, t, blocks, txs, h, b, node)
    requires IsNodeFor(t, node, b)
    ensures StoreOk(env, t[h := node], blocks[h := b], txs')
  {
    var t', blocks' := t[h := node], blocks[h := b];
    forall g | g in t' ensures OnDisk(env, txs', t'[g], blocks'[g]) {
      if g != h {
        assert OnDisk(env, txs, t[g], blocks[g]);
        forall k | 0 <= k < |blocks[g].vtx| ensures StoredAt(env, txs', t[g], blocks[g], k) {
          assert StoredAt(env, txs, t[g], blocks[g], k);
        }
      }
    }
    forall g | g in t' && t'[g].pprev.Some?
      ensures ChainTxIds(t', blocks', t'[g].pprev.value) !! TxIds(blocks'[g])
    {
      assert t'[g].pprev.value in t;
      ReplayGrows(env, t, t', blocks, blocks', t'[g].pprev.value);
    }
  }

  // The block files with the first k transactions of a block appended.
  function AppendTxs(env: Env, txs: TxFile, node: BlockIndex, b: Block, k: nat): TxFile
    requires k <= |b.vtx|
  {
    if k == 0 then txs else AppendTxs(env, txs, node, b, k - 1)[TxPos(env, node, b, k - 1) := b.vtx[k - 1]]
  }

  // Appends a block's transactions to the block files.
  method AppendToFile(env: Env, txs: TxFile, node: BlockIndex, b: Block) returns (txs': TxFile)
    requires forall k | 0 <= k < |b.vtx| :: b.vtx[k].size > 0
    requires forall k | 0 <= k < |b.vtx| :: TxPos(env, node, b, k) !in txs
    ensures Grows(txs, txs') && OnDisk(env, txs', node, b) && txs' == AppendTxs(env, txs, node, b, |b.vtx|)
  {
    hide SizeOfTxs;
    txs' := txs;
    for k := 0 to |b.vtx|
      invariant Grows(txs, txs') && txs' == AppendTxs(env, txs, node, b, k)
      invariant forall j | 0 <= j < k :: StoredAt(env, txs', node, b, j)
    {
      ghost var was := txs';
      txs' := txs'[TxPos(env, node, b, k) := b.vtx[k]];
      forall j | 0 <= j < k + 1 ensures StoredAt(env, txs', node, b, j) {
        if j < k {
          SizesIncrease(b.vtx, j, k);
          assert StoredAt(env, was, node, b, j);
        }
      }
    }
  }

  lemma {:induction false} SizesIncrease(vtx: seq<Tx>, j: nat, k: nat)
    requires j < k <= |vtx| && forall i | 0 <= i < |vtx| :: vtx[i].size > 0
    ensures SizeOfTxs(vtx[..j]) < SizeOfTxs(vtx[..k])
  {
    assert vtx[..k][..k - 1] == vtx[..k - 1];
    if j < k - 1 {
      SizesIncrease(vtx, j, k - 1);
    }
  }

  lemma SwitchKeepsRoot(env: Env, t: Tree, blocks: Blocks, txs: TxFile, nBestHeight: int, readable: set<BlockHash>,
                        root: BlockHash, best: BlockHash, mid: BlockHash, h: BlockHash)
    requires WellFormed(t) && t.Keys <= blocks.Keys
    requires CanSwitch(env, t, blocks, txs, nBestHeight, readable, best, mid) && IsAncestor(t, mid, h)
    requires IsAncestor(t, root, best) && t[root].nHeight == 0
    ensures IsAncestor(t, root, h)
  {
    hide AncestorAt;
    var f :| IsLastCommonAncestor(t, f, best, mid);
    RootShared(t, root, f, best, mid);
    AncestorTransitive(t, root, mid, h);
  }
}
