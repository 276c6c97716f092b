// A run in which a postponed block fails: blocks 1 and 2 compete on top of
// genesis, block 2 cannot be read at first, and block 3 on top of block 2
// pays itself more than the reward.
module PostponedFailure {
  import opened BlockTree
  import opened Ledger
  import opened Replay
  import opened ChainSpec
  import opened ChainState

  function Fields(nBlockPos: nat): BlockIndex {
    BlockIndex(None, 0, 1, nBlockPos, 0, 0, 0, false, 0, false, 0, 0)
  }

  // Block k, its entry in the index and its place in the block files.
  function BlockAt(k: nat): Block {
    CoinbaseOnly(if k == 0 then -1 else if k == 3 then 2 else 0, 100 + k, if k == 3 then 2 else 1)
  }

  function NodeAt(k: nat): BlockIndex {
    if k == 0 then Fields(0).(bnChainTrust := 1)
    else if k == 1 then Fields(1000).(pprev := Some(0), nHeight := 1, bnChainTrust := 2)
    else if k == 2 then Fields(2000).(pprev := Some(0), nHeight := 1, bnChainTrust := 3)
    else Fields(1000 * k).(pprev := Some(2), nHeight := 2, bnChainTrust := 4)
  }

  function File(k: nat): DiskTxPos { DiskTxPos(1, 1000 * k, 1000 * k + 81) }

  function EventAt(k: nat): Event {
    NewBlock(k, BlockAt(k), Fields(1000 * k), if k == 2 then 2 else 1, if k == 3 then {0, 1, 2, 3} else {})
  }

  const EVENTS: seq<Event> := [EventAt(0), EventAt(1), EventAt(2), EventAt(3)]

  // The first n blocks, the last of them not necessarily the tip.
  function State(n: nat, best: Option<BlockHash>): NodeState {
    if n == 0 then NodeState(map[], map[], map[], best) else With(State(n - 1, best), n - 1)
  }

  // Exactly the first n blocks are there.
  ghost predicate Holds(s: NodeState, n: nat) {
    && (forall k :: k in s.tree <==> 0 <= k < n)
    && s.blocks.Keys == s.tree.Keys
    && (forall k: nat | k < n :: s.tree[k] == NodeAt(k) && s.blocks[k] == BlockAt(k))
    && (forall k: nat | k >= n :: File(k) !in s.txFile)
  }

  lemma {:induction false} StateHolds(n: nat, best: Option<BlockHash>)
    ensures Holds(State(n, best), n) && State(n, best).pindexBest == best
  {
    hide State, Holds, NodeAt, BlockAt, File;
    if n == 0 {
      NoneHolds(best);
    } else {
      StateHolds(n - 1, best);
      StateNext(n - 1, best);
      HoldsNext(State(n - 1, best), n - 1);
    }
  }

  lemma NoneHolds(best: Option<BlockHash>)
    ensures Holds(State(0, best), 0) && State(0, best).pindexBest == best
  {
  }

  function With(s: NodeState, n: nat): NodeState {
    s.(tree := s.tree[n := NodeAt(n)], blocks := s.blocks[n := BlockAt(n)],
       txFile := s.txFile[File(n) := BlockAt(n).vtx[0]])
  }

  lemma HoldsNext(s: NodeState, n: nat)
    requires Holds(s, n)
    ensures Holds(With(s, n), n + 1)
  {
    hide NodeAt, BlockAt;
  }

  lemma StateSane(n: nat, best: Option<BlockHash>)
    requires n <= 4 && (best.Some? ==> 0 <= best.value < n)
    ensures Sane(State(n, best)) && Holds(State(n, best), n) && State(n, best).pindexBest == best
  {
    hide State;
    StateHolds(n, best);
  }

  lemma StateNext(n: nat, best: Option<BlockHash>)
    ensures State(n + 1, best) == With(State(n, best), n)
  {
  }

  lemma {:induction false} SameButTip(n: nat, best: Option<BlockHash>, best': Option<BlockHash>)
    ensures State(n, best') == State(n, best).(pindexBest := best')
  {
    if n != 0 {
      SameButTip(n - 1, best, best');
    }
  }

  lemma OneTx(txs: TxFile, node: BlockIndex, k: nat)
    requires node.nFile == 1 && node.nBlockPos == 1000 * k
    ensures TxPos(LENIENT, node, BlockAt(k), 0) == File(k)
    ensures AppendTxs(LENIENT, txs, node, BlockAt(k), 1) == txs[File(k) := BlockAt(k).vtx[0]]
    ensures TxIds(BlockAt(k)) == {100 + k}
  {
    var b := BlockAt(k);
    assert b.vtx[..0] == [];
    assert AppendTxs(LENIENT, txs, node, b, 0) == txs;
    assert b.vtx[0].hash in TxIds(b);
  }

  // ------------------------------------------------------------- the steps

  // The ids below a new block do not include its own.
  lemma IdsBelow(s: NodeState, k: nat)
    requires Sane(s) && 0 < k < 4 && Holds(s, k)
    ensures BlockAt(k).hashPrevBlock in s.tree
    ensures ChainTxIds(s.tree, s.blocks, BlockAt(k).hashPrevBlock) !! {100 + k}
  {
    assert s.tree[0].pprev == None && ChainTxIds(s.tree, s.blocks, 0) == {};
    if k == 3 {
      OneTx(map[], NodeAt(2), 2);
      assert s.tree[2].pprev == Some(0);
    }
  }

  lemma NodeIs(s: NodeState, k: nat)
    requires Sane(s) && k < 4 && Holds(s, k)
    ensures NodeOf(s.tree, BlockAt(k), EventAt(k).fields, EventAt(k).nBlockTrust) == NodeAt(k)
  {
  }

  lemma IsAdmissible(s: NodeState, k: nat)
    requires Sane(s) && k < 4 && Holds(s, k)
    ensures Admissible(LENIENT, s.tree, s.blocks, s.txFile, k, BlockAt(k), EventAt(k).fields)
  {
    if k > 0 {
      IdsBelow(s, k);
    }
    hide ChainTxIds, TxPos;
    OneTx(s.txFile, EventAt(k).fields, k);
  }

  lemma Arrives(k: nat, best: Option<BlockHash>)
    requires k < 4 && (best.Some? ==> 0 <= best.value < k) && (best.None? ==> k == 0)
    ensures var s := State(k, best); Sane(s) && Indexed(LENIENT, s, EventAt(k)) == State(k + 1, best)
    ensures var s := State(k, best);
      Wanted(LENIENT, s, EventAt(k)) == if NodeAt(k).bnChainTrust > BestTrust(s) then Some(k) else None
  {
    var s, e := State(k, best), EventAt(k);
    StateSane(k, best);
    StateNext(k, best);
    hide State, Admissible, BestTrust, Indexed, Wanted, TxPos, AppendTxs, WellFormed;
    NodeIs(s, k);
    IsAdmissible(s, k);
    OneTx(s.txFile, NodeAt(k), k);
    hide NodeOf, BlockAt, NodeAt;
    NewEvent(LENIENT, s, k, BlockAt(k), e.fields, e.nBlockTrust, e.readable);
  }

  // Each block has more trust than the tip before it.
  lemma Step(k: nat, best: Option<BlockHash>)
    requires k < 4 && (best.Some? ==> 0 <= best.value < k) && (best.None? ==> k == 0)
    requires best.Some? ==> NodeAt(k).bnChainTrust > NodeAt(best.value).bnChainTrust
    requires After(LENIENT, EVENTS, k) == State(k, best)
    ensures var s, readable := State(k + 1, best), EventAt(k).readable;
      && Sane(s) && k in s.tree
      && After(LENIENT, EVENTS, k + 1) == (if Starts(LENIENT, s, readable, k) then State(k + 1, Some(k)) else s)
      && (Breaks(LENIENT, After(LENIENT, EVENTS, k), EVENTS[k]) <==>
            Starts(LENIENT, s, readable, k) && !Finishes(LENIENT, s, readable, k))
  {
    hide *;
    EventIs(k);
    StateSane(k + 1, best);
    SameButTip(k + 1, best, Some(k));
    Wants(k, best);
    AfterNext(LENIENT, EVENTS, k);
    SwitchParts(LENIENT, State(k, best), EventAt(k), k);
    KnownIn(State(k + 1, best), k + 1, k);
  }

  lemma KnownIn(s: NodeState, n: nat, k: nat)
    requires Holds(s, n) && k < n
    ensures k in s.tree && s.tree[k] == NodeAt(k) && s.blocks.Keys == s.tree.Keys && s.blocks[k] == BlockAt(k)
  {
  }

  lemma EventIs(k: nat)
    requires k < 4
    ensures |EVENTS| == 4 && EVENTS[k] == EventAt(k) && EventAt(k).NewBlock?
    ensures EventAt(k).readable == if k == 3 then {0, 1, 2, 3} else {}
  {
  }

  lemma Wants(k: nat, best: Option<BlockHash>)
    requires k < 4 && (best.Some? ==> 0 <= best.value < k) && (best.None? ==> k == 0)
    requires best.Some? ==> NodeAt(k).bnChainTrust > NodeAt(best.value).bnChainTrust
    ensures var s := State(k, best);
      Sane(s) && Indexed(LENIENT, s, EventAt(k)) == State(k + 1, best) && Wanted(LENIENT, s, EventAt(k)) == Some(k)
  {
    hide State, Indexed, Wanted;
    StateSane(k, best);
    Arrives(k, best);
    if best.Some? {
      KnownIn(State(k, best), k, best.value);
    }
  }

  // Blocks 1 and 2 are good on top of genesis, whose replay is empty.
  lemma GoodOnGenesis(s: NodeState, n: nat, k: nat)
    requires Sane(s) && Holds(s, n) && 1 <= k < 3 && k < n
    ensures Acceptable(LENIENT, s.tree, s.blocks, s.txFile, BestHeight(s), k)
  {
    hide BestHeight;
    assert s.tree[k] == NodeAt(k) && s.blocks[k] == BlockAt(k) && s.tree[0] == NodeAt(0);
    CoinbaseOnlyChecked(0, 100 + k, 1);
    CoinbaseBlock(LENIENT, s.tree, s.txFile, map[], BestHeight(s), k, s.blocks[k]);
  }

  // Block 3 claims 2.
  lemma BadOnTwo(s: NodeState)
    requires Sane(s) && Holds(s, 4)
    ensures !Acceptable(LENIENT, s.tree, s.blocks, s.txFile, BestHeight(s), 3)
  {
    hide BestHeight, ReplayTo;
    assert s.tree[3] == NodeAt(3) && s.blocks[3] == BlockAt(3) && 2 in s.tree;
    CoinbaseOnlyChecked(2, 103, 2);
    CoinbaseBlock(LENIENT, s.tree, s.txFile, ReplayTo(LENIENT, s.tree, s.blocks, 2), BestHeight(s), 3, s.blocks[3]);
  }

  // The fork of blocks 1 and 2.
  lemma Fork(t: Tree)
    requires WellFormed(t) && 0 in t && 1 in t && 2 in t
    requires t[0].pprev == None && t[1].pprev == Some(0) && t[2].pprev == Some(0)
    ensures IsLastCommonAncestor(t, 0, 1, 2)
    ensures forall f | IsLastCommonAncestor(t, f, 1, 2) :: f == 0
    ensures OnPath(t, 0, 1, 1)
    ensures forall x | OnPath(t, 0, x, 1) :: x == 1
    ensures forall x | OnPath(t, 0, x, 2) :: x == 2
  {
  }

  lemma TwoUnreadable(s: NodeState)
    requires Sane(s) && Holds(s, 3) && s.pindexBest == Some(1)
    ensures !Starts(LENIENT, s, {}, 2)
  {
    assert s.tree[0] == NodeAt(0) && s.tree[1] == NodeAt(1) && s.tree[2] == NodeAt(2);
    Fork(s.tree);
  }

  // The switch from block 1 to block 3 goes to block 2 first.
  lemma ThreeHalts(s: NodeState)
    requires Sane(s) && Holds(s, 4) && s.pindexBest == Some(1)
    ensures FirstGoal(s, 3) == 2
    ensures CanSwitch(LENIENT, s.tree, s.blocks, s.txFile, BestHeight(s), {0, 1, 2, 3}, 1, 2)
    ensures Starts(LENIENT, s, {0, 1, 2, 3}, 3) && !Finishes(LENIENT, s, {0, 1, 2, 3}, 3)
  {
    var t := s.tree;
    assert t[0] == NodeAt(0) && t[1] == NodeAt(1) && t[2] == NodeAt(2) && t[3] == NodeAt(3);
    Fork(t);
    IntermediateStep(t, 3, 2);
    IntermediateStep(t, 2, 2);
    assert FirstGoal(s, 3) == 2;
    GoodOnGenesis(s, 4, 2);
    BadOnTwo(s);
    assert OnPath(t, 2, 3, 3);
    hide Acceptable, FirstGoal, AncestorAt, BestHeight;
  }

  // On the way to the last event no switch breaks.
  lemma FirstSteps()
    ensures After(LENIENT, EVENTS, 3) == State(3, Some(1))
    ensures forall i | 0 <= i < 3 :: !Breaks(LENIENT, After(LENIENT, EVENTS, i), EVENTS[i])
  {
    hide *;
    AfterNone(LENIENT, EVENTS);
    NoState();
    StateSane(1, None);
    StateSane(2, Some(0));
    StateSane(3, Some(1));
    EventIs(0);
    EventIs(1);
    EventIs(2);
    Trusts();
    OnTop(State(1, None), 1, 0);
    Step(0, None);
    OnTop(State(2, Some(0)), 2, 1);
    Step(1, Some(0));
    TwoUnreadable(State(3, Some(1)));
    Step(2, Some(1));
  }

  lemma NoState()
    ensures EMPTY == State(0, None)
  {
  }

  lemma Trusts()
    ensures NodeAt(0).bnChainTrust == 1 && NodeAt(1).bnChainTrust == 2
    ensures NodeAt(2).bnChainTrust == 3 && NodeAt(3).bnChainTrust == 4
  {
  }

  // Blocks 0 and 1 extend the tip.
  lemma OnTop(s: NodeState, n: nat, k: nat)
    requires Sane(s) && Holds(s, n) && k < 2 && k < n && s.pindexBest == (if k == 0 then None else Some(0))
    ensures Starts(LENIENT, s, {}, k) && Finishes(LENIENT, s, {}, k)
  {
    hide Acceptable, BestHeight;
    KnownIn(s, n, k);
    if k == 1 {
      GoodOnGenesis(s, n, 1);
    }
  }

  // The last event makes the switch to block 2 commit and block 3 fail, which
  // could be read but claims too much.
  lemma PostponedCanFail()
    ensures After(LENIENT, EVENTS, 3) == State(3, Some(1)) && After(LENIENT, EVENTS, 4) == State(4, Some(3))
    ensures Breaks(LENIENT, After(LENIENT, EVENTS, 3), EVENTS[3])
    ensures var s := State(4, Some(1));
      && Sane(s) && FirstGoal(s, 3) == 2
      && CanSwitch(LENIENT, s.tree, s.blocks, s.txFile, BestHeight(s), EVENTS[3].readable, 1, 2)
      && 3 in EVENTS[3].readable && !Acceptable(LENIENT, s.tree, s.blocks, s.txFile, BestHeight(s), 3)
  {
    hide *;
    FirstSteps();
    StateSane(4, Some(1));
    EventIs(3);
    Trusts();
    ThreeHalts(State(4, Some(1)));
    BadOnTwo(State(4, Some(1)));
    Step(3, Some(1));
  }

  // The program on that run: block 3 is the tip, the index that of block 2.
  method IndexBehindTip() returns (chain: Chain)
    ensures chain.TreeOk() && chain.Now() == State(4, Some(3)) && 2 in chain.tree && 3 in chain.tree
    ensures chain.db.committed.index == ReplayTo(LENIENT, chain.tree, chain.blocks, 2)
    ensures chain.db.committed.index != ReplayTo(LENIENT, chain.tree, chain.blocks, 3)
  {
    var handled, complete;
    ghost var reached;
    hide *;
    chain, handled, complete, reached := Run(LENIENT, EVENTS);
    EventIs(3);
    FirstSteps();
    PostponedCanFail();
    assert !complete && handled == 4;
    SameButTip(4, Some(1), Some(3));
    StateSane(4, Some(3));
    KnownIn(State(4, Some(3)), 4, 2);
    KnownIn(State(4, Some(3)), 4, 3);
    ReachedTwo(reached);
    chain.NowParts();
  }

  lemma ReachedTwo(reached: BlockHash)
    requires HaltsShort(LENIENT, After(LENIENT, EVENTS, 3), EVENTS[3], reached)
    ensures reached == 2
  {
    PostponedCanFail();
    Trusts();
    Wants(3, Some(1));
    var s := State(4, Some(1));
    StateSane(4, Some(1));
    KnownIn(s, 4, 2);
    KnownIn(s, 4, 3);
    hide State, Indexed, Wanted, FirstGoal, PathConnects, CanSwitch, Acceptable, Breaks, BestHeight, Obstructs;
    assert HaltsAt(LENIENT, s, {0, 1, 2, 3}, 3, reached);
  }
}
