// What the chain state has to be after any sequence of events, as a function
// of the events: which blocks are indexed, and which of them is the tip.
module ChainSpec {
  import opened BlockTree
  import opened Ledger
  import opened Replay

  datatype NodeState = NodeState(tree: Tree, blocks: Blocks, txFile: TxFile, pindexBest: Option<BlockHash>)

  // What may happen to the chain state.  `readable` holds the blocks that can
  // be read from disk at that time; `fields` are the parts of the new index
  // entry that the chain state does not compute.
  datatype Event =
    | NewBlock(h: BlockHash, b: Block, fields: BlockIndex, nBlockTrust: nat, readable: set<BlockHash>)
    | SwitchTo(h: BlockHash, readable: set<BlockHash>)
    | Find(nHeight: nat)

  const EMPTY := NodeState(map[], map[], map[], None)

  ghost predicate Sane(s: NodeState) {
    WellFormed(s.tree) && s.blocks.Keys == s.tree.Keys && (s.pindexBest.Some? ==> s.pindexBest.value in s.tree)
  }

  function BestHeight(s: NodeState): int
    requires s.pindexBest.Some? ==> s.pindexBest.value in s.tree
  {
    if s.pindexBest.Some? then s.tree[s.pindexBest.value].nHeight else -1
  }

  // bnBestChainTrust
  function BestTrust(s: NodeState): nat
    requires s.pindexBest.Some? ==> s.pindexBest.value in s.tree
  {
    if s.pindexBest.Some? then s.tree[s.pindexBest.value].bnChainTrust else 0
  }

  lemma BestTrustIs(s: NodeState)
    requires Sane(s)
    ensures BestTrust(s) == if s.pindexBest.Some? then s.tree[s.pindexBest.value].bnChainTrust else 0
  {
  }

  // ------------------------------------------------------------ one switch

  // The block that the first database transaction of a switch to h goes to.
  ghost function FirstGoal(s: NodeState, h: BlockHash): (m: BlockHash)
    requires Sane(s) && h in s.tree
    ensures IsAncestor(s.tree, m, h)
  {
    if s.pindexBest.None? || s.tree[h].pprev == s.pindexBest then
      AncestorReflexive(s.tree, h);
      h
    else
      Intermediate(s.tree, h, BestTrust(s))
  }

  // That transaction commits.
  ghost predicate Starts(env: Env, s: NodeState, readable: set<BlockHash>, h: BlockHash)
    requires Sane(s) && h in s.tree
  {
    || s.pindexBest.None?
    || if s.tree[h].pprev == s.pindexBest then Acceptable(env, s.tree, s.blocks, s.txFile, BestHeight(s), h)
       else CanSwitch(env, s.tree, s.blocks, s.txFile, BestHeight(s), readable, s.pindexBest.value, FirstGoal(s, h))
  }

  // Every postponed block connects.
  ghost predicate Finishes(env: Env, s: NodeState, readable: set<BlockHash>, h: BlockHash)
    requires Sane(s) && h in s.tree
  {
    PathConnects(env, s.tree, s.blocks, s.txFile, BestHeight(s), readable, FirstGoal(s, h), h)
  }

  // x can be read and connected.
  ghost predicate Passes(env: Env, s: NodeState, readable: set<BlockHash>, x: BlockHash)
    requires Sane(s)
  {
    x in readable && Acceptable(env, s.tree, s.blocks, s.txFile, BestHeight(s), x)
  }

  // x is the next block from `reached` to h, and cannot be read or connected.
  ghost predicate Obstructs(env: Env, s: NodeState, readable: set<BlockHash>, h: BlockHash, reached: BlockHash,
                            x: BlockHash)
    requires Sane(s) && h in s.tree
  {
    IsAncestor(s.tree, x, h) && s.tree[x].pprev == Some(reached) && !Passes(env, s, readable, x)
  }

  // Everything up to `reached` connects, and the block above it does not.
  ghost predicate HaltsAt(env: Env, s: NodeState, readable: set<BlockHash>, h: BlockHash, reached: BlockHash)
    requires Sane(s) && h in s.tree
  {
    && IsAncestor(s.tree, FirstGoal(s, h), reached) && IsAncestor(s.tree, reached, h)
    && PathConnects(env, s.tree, s.blocks, s.txFile, BestHeight(s), readable, FirstGoal(s, h), reached)
    && (reached != h ==> exists x :: Obstructs(env, s, readable, h, reached, x))
  }

  // ------------------------------------------------------------- one event

  // The index entry of a new block.
  function NodeOf(t: Tree, b: Block, fields: BlockIndex, nBlockTrust: nat): (node: BlockIndex)
    ensures IsNodeFor(t, node, b)
  {
    if b.hashPrevBlock in t then
      var prev := t[b.hashPrevBlock];
      fields.(pprev := Some(b.hashPrevBlock), nHeight := prev.nHeight + 1,
              bnChainTrust := prev.bnChainTrust + nBlockTrust)
    else
      fields.(pprev := None, nHeight := 0, bnChainTrust := nBlockTrust)
  }

  // The genesis block comes first, and a new block is new.
  ghost predicate Admits(env: Env, s: NodeState, h: BlockHash, b: Block, fields: BlockIndex)
    requires Sane(s)
  {
    && (s.pindexBest.Some? || h == env.hashGenesisBlock)
    && h !in s.tree && Admissible(env, s.tree, s.blocks, s.txFile, h, b, fields)
  }

  // The state with the new block of an event in the index.
  ghost function Indexed(env: Env, s: NodeState, e: Event): (s': NodeState)
    requires Sane(s)
    ensures Sane(s') && Grows(s.tree, s'.tree) && s'.pindexBest == s.pindexBest
  {
    if e.NewBlock? && Admits(env, s, e.h, e.b, e.fields) then Inserted(env, s, e.h, e.b, e.fields, e.nBlockTrust)
    else s
  }

  // A new block in the index, in the order of arrival in the block files.
  function Inserted(env: Env, s: NodeState, h: BlockHash, b: Block, fields: BlockIndex, nBlockTrust: nat): NodeState {
    var node := NodeOf(s.tree, b, fields, nBlockTrust);
    s.(tree := s.tree[h := node], blocks := s.blocks[h := b], txFile := AppendTxs(env, s.txFile, node, b, |b.vtx|))
  }

  // The block that the event makes the node switch to: a new one if its chain
  // has more trust than the best one, any known one if that is forced.
  ghost function Wanted(env: Env, s: NodeState, e: Event): (h: Option<BlockHash>)
    requires Sane(s)
    ensures h.Some? ==> (e.NewBlock? || e.SwitchTo?) && h.value in Indexed(env, s, e).tree
  {
    match e
    case NewBlock(h, b, fields, nBlockTrust, _) =>
      if Admits(env, s, h, b, fields) && Indexed(env, s, e).tree[h].bnChainTrust > BestTrust(s) then Some(h) else None
    case SwitchTo(h, _) =>
      if h in s.tree && (s.pindexBest.Some? || h == env.hashGenesisBlock) then Some(h) else None
    case Find(_) => None
  }

  ghost function Next(env: Env, s: NodeState, e: Event): (s': NodeState)
    requires Sane(s)
    ensures Sane(s')
  {
    var h, s' := Wanted(env, s, e), Indexed(env, s, e);
    if h.Some? && Starts(env, s', e.readable, h.value) then s'.(pindexBest := h) else s'
  }

  // The event leads to a switch that starts and does not finish.
  ghost predicate Breaks(env: Env, s: NodeState, e: Event)
    requires Sane(s)
  {
    var h, s' := Wanted(env, s, e), Indexed(env, s, e);
    h.Some? && Starts(env, s', e.readable, h.value) && !Finishes(env, s', e.readable, h.value)
  }

  // The switch that the event leads to goes as far as `reached`, a proper
  // ancestor of its goal.
  ghost predicate HaltsShort(env: Env, s: NodeState, e: Event, reached: BlockHash)
    requires Sane(s)
  {
    var h, s' := Wanted(env, s, e), Indexed(env, s, e);
    h.Some? && reached != h.value && HaltsAt(env, s', e.readable, h.value, reached)
  }

  // The event has taken s to s', and if a postponed block then failed, the
  // index up to `reached`.
  ghost predicate Steps(env: Env, s: NodeState, e: Event, s': NodeState, complete: bool, reached: BlockHash)
    requires Sane(s)
  {
    && s' == Next(env, s, e) && (complete <==> !Breaks(env, s, e))
    && (!complete ==> HaltsShort(env, s, e, reached))
  }

  lemma StepsParts(env: Env, s: NodeState, e: Event, s': NodeState, complete: bool, reached: BlockHash)
    requires Sane(s) && Steps(env, s, e, s', complete, reached)
    ensures s' == Next(env, s, e) && (complete <==> !Breaks(env, s, e))
    ensures !complete ==> HaltsShort(env, s, e, reached)
  {
  }

  // A step that wants h, by its parts.
  lemma SwitchParts(env: Env, s: NodeState, e: Event, h: BlockHash)
    requires Sane(s) && Wanted(env, s, e) == Some(h)
    ensures var s' := Indexed(env, s, e);
      && Next(env, s, e) == (if Starts(env, s', e.readable, h) then s'.(pindexBest := Some(h)) else s')
      && (Breaks(env, s, e) <==> Starts(env, s', e.readable, h) && !Finishes(env, s', e.readable, h))
  {
    hide Wanted, Indexed, Starts, Finishes;
  }

  lemma StepsWithoutSwitch(env: Env, s: NodeState, e: Event, reached: BlockHash)
    requires Sane(s) && Wanted(env, s, e) == None
    ensures Steps(env, s, e, Indexed(env, s, e), true, reached)
  {
    hide Wanted, Indexed;
  }

  lemma StepsBySwitch(env: Env, s: NodeState, e: Event, s': NodeState, ok: bool, complete: bool, reached: BlockHash)
    requires Sane(s) && Wanted(env, s, e).Some? && Sane(s') && s' == Indexed(env, s, e)
    requires var h := Wanted(env, s, e).value;
      && ok == Starts(env, s', e.readable, h)
      && (complete <==> ok ==> Finishes(env, s', e.readable, h))
      && (ok ==> HaltsAt(env, s', e.readable, h, reached))
    ensures Steps(env, s, e, if ok then s'.(pindexBest := Wanted(env, s, e)) else s', complete, reached)
  {
    hide Wanted, Indexed, Starts, Finishes, HaltsAt;
    if ok {
      HaltsAtGoal(env, s', e.readable, Wanted(env, s, e).value, reached);
    }
  }

  // What the event of a new block indexes and wants.
  lemma NewEvent(env: Env, s: NodeState, h: BlockHash, b: Block, fields: BlockIndex, nBlockTrust: nat,
                 readable: set<BlockHash>)
    requires Sane(s)
    ensures var e, s' := NewBlock(h, b, fields, nBlockTrust, readable), Inserted(env, s, h, b, fields, nBlockTrust);
      if (s.pindexBest.Some? || h == env.hashGenesisBlock) && h !in s.tree
         && Admissible(env, s.tree, s.blocks, s.txFile, h, b, fields) then
        && Indexed(env, s, e) == s'
        && h in s'.tree && Wanted(env, s, e) == if s'.tree[h].bnChainTrust > BestTrust(s) then Some(h) else None
      else Indexed(env, s, e) == s && Wanted(env, s, e) == None
  {
    hide Admissible, AppendTxs, NodeOf;
  }

  // The other events.
  lemma OtherParts(env: Env, s: NodeState, e: Event)
    requires Sane(s) && !e.NewBlock?
    ensures Indexed(env, s, e) == s
    ensures Wanted(env, s, e) ==
      if e.SwitchTo? && e.h in s.tree && (s.pindexBest.Some? || e.h == env.hashGenesisBlock) then Some(e.h) else None
  {
  }

  // The state after the first n events.
  ghost function After(env: Env, events: seq<Event>, n: nat): (s: NodeState)
    requires n <= |events|
    ensures Sane(s)
  {
    if n == 0 then EMPTY else Next(env, After(env, events, n - 1), events[n - 1])
  }

  // ---------------------------------------------------------- consequences

  // Without a branch to leave nothing is postponed.
  lemma StraightAhead(env: Env, s: NodeState, readable: set<BlockHash>, h: BlockHash)
    requires Sane(s) && h in s.tree && (s.pindexBest.None? || s.tree[h].pprev == s.pindexBest)
    ensures Finishes(env, s, readable, h) && HaltsAt(env, s, readable, h, h)
    ensures Starts(env, s, readable, h) <==>
      s.pindexBest.None? || Acceptable(env, s.tree, s.blocks, s.txFile, BestHeight(s), h)
  {
    hide Acceptable, BestHeight;
    AncestorReflexive(s.tree, h);
  }

  // A switch halts at its goal exactly when it finishes.
  lemma HaltsAtGoal(env: Env, s: NodeState, readable: set<BlockHash>, h: BlockHash, reached: BlockHash)
    requires Sane(s) && h in s.tree && HaltsAt(env, s, readable, h, reached)
    ensures reached == h <==> Finishes(env, s, readable, h)
  {
    hide AncestorAt, Acceptable;
    var m := FirstGoal(s, h);
    if reached != h {
      var x :| Obstructs(env, s, readable, h, reached, x);
      assert OnPath(s.tree, m, x, h);
    }
  }

  // The lower part of a descent is a descent.
  lemma DescentPart(t: Tree, w: seq<BlockHash>, h: BlockHash, m: BlockHash, i: nat)
    requires WellFormed(t) && IsDescent(t, w, h, m) && i <= |w|
    ensures var r := AncestorAt(t, h, t[h].nHeight - i); IsAncestor(t, r, h) && IsDescent(t, w[i..], r, m)
  {
    hide AncestorAt, WellFormed;
    var top := t[h].nHeight;
    var r := AncestorAt(t, h, top - i);
    AncestorsLinear(t, m, r, h);
    forall j | 0 <= j < |w[i..]| ensures w[i..][j] == AncestorAt(t, r, t[r].nHeight - j) {
      AncestorOfAncestor(t, h, top - i, top - i - j);
    }
  }

  // A walk up the postponed blocks, highest first in w, that got down to index i.
  lemma HaltsThere(env: Env, s: NodeState, readable: set<BlockHash>, h: BlockHash, w: seq<BlockHash>, i: nat)
    requires Sane(s) && h in s.tree && IsDescent(s.tree, w, h, FirstGoal(s, h)) && i <= |w|
    requires forall x | x in w[i..] :: Passes(env, s, readable, x)
    requires i > 0 ==> !Passes(env, s, readable, w[i - 1])
    ensures HaltsAt(env, s, readable, h, AncestorAt(s.tree, h, s.tree[h].nHeight - i))
  {
    hide AncestorAt, Acceptable, FirstGoal, PathConnects, BestHeight, WellFormed, Passes;
    var t, m := s.tree, FirstGoal(s, h);
    var reached := AncestorAt(t, h, t[h].nHeight - i);
    assert PathConnects(env, t, s.blocks, s.txFile, BestHeight(s), readable, m, reached) by {
      DescentPart(t, w, h, m, i);
      PathPasses(env, s, readable, m, reached, w[i..]);
    }
    assert reached == h || Obstructs(env, s, readable, h, reached, w[i - 1]) by {
      AncestorReflexive(t, h);
      if i > 0 {
        DescentNext(t, w, h, m, i);
      }
    }
    DescentPart(t, w, h, m, i);
  }

  lemma PathPasses(env: Env, s: NodeState, readable: set<BlockHash>, m: BlockHash, h: BlockHash, w: seq<BlockHash>)
    requires Sane(s) && IsDescent(s.tree, w, h, m)
    ensures PathConnects(env, s.tree, s.blocks, s.txFile, BestHeight(s), readable, m, h) <==>
      forall x | x in w :: Passes(env, s, readable, x)
  {
    hide AncestorAt, Acceptable, BestHeight, WellFormed, IsDescent, PathConnects;
    PathDecided(env, s.tree, s.blocks, s.txFile, BestHeight(s), readable, m, h, w);
  }

  lemma DescentNext(t: Tree, w: seq<BlockHash>, h: BlockHash, m: BlockHash, i: nat)
    requires WellFormed(t) && IsDescent(t, w, h, m) && 0 < i <= |w|
    ensures IsAncestor(t, w[i - 1], h) && t[w[i - 1]].pprev == Some(AncestorAt(t, h, t[h].nHeight - i))
  {
    hide AncestorAt, WellFormed;
    ParentOnPath(t, h, t[h].nHeight - i);
  }

  // After a break the tip is the goal of the switch, above what was reached.
  lemma BrokenTip(env: Env, s: NodeState, e: Event, reached: BlockHash)
    requires Sane(s) && Breaks(env, s, e) && HaltsShort(env, s, e, reached)
    ensures var s' := Next(env, s, e); s'.pindexBest.Some? && IsProperAncestor(s'.tree, reached, s'.pindexBest.value)
  {
    hide Starts, Finishes, Indexed, Wanted, Obstructs, PathConnects, AncestorAt, FirstGoal;
  }

  // The halting point is unique.
  lemma HaltsOnce(env: Env, s: NodeState, readable: set<BlockHash>, h: BlockHash, r: BlockHash, r': BlockHash)
    requires Sane(s) && h in s.tree && HaltsAt(env, s, readable, h, r) && HaltsAt(env, s, readable, h, r')
    ensures r == r'
  {
    if s.tree[r].nHeight < s.tree[r'].nHeight {
      HaltsNotBelow(env, s, readable, h, r, r');
    } else if s.tree[r'].nHeight < s.tree[r].nHeight {
      HaltsNotBelow(env, s, readable, h, r', r);
    }
  }

  lemma HaltsNotBelow(env: Env, s: NodeState, readable: set<BlockHash>, h: BlockHash, r: BlockHash, r': BlockHash)
    requires Sane(s) && h in s.tree && HaltsAt(env, s, readable, h, r) && HaltsAt(env, s, readable, h, r')
    ensures s.tree[r].nHeight >= s.tree[r'].nHeight
  {
    hide AncestorAt, Acceptable;
    if s.tree[r].nHeight < s.tree[r'].nHeight {
      var x :| Obstructs(env, s, readable, h, r, x);
      AncestorsLinear(s.tree, x, r', h);
      assert false;
    }
  }

  // A new block moves an existing tip exactly if its chain has strictly more
  // trust than the tip and the switch to it starts; the tip is then that block.
  lemma TipMoves(env: Env, s: NodeState, e: Event)
    requires Sane(s) && e.NewBlock? && s.pindexBest.Some?
    ensures var s', trust, h := Indexed(env, s, e), s.tree[s.pindexBest.value].bnChainTrust, e.h;
      if h !in s.tree && h in s'.tree && s'.tree[h].bnChainTrust > trust && Starts(env, s', e.readable, h) then
        Next(env, s, e) == s'.(pindexBest := Some(h))
      else Next(env, s, e) == s'
  {
    hide Admissible, Starts, Indexed, Wanted, Inserted, BestTrust, WellFormed;
    BestTrustIs(s);
    NewEvent(env, s, e.h, e.b, e.fields, e.nBlockTrust, e.readable);
  }

  // The first block of a node with positive trust becomes its tip.
  lemma FirstTip(env: Env, s: NodeState, e: Event)
    requires Sane(s) && e.NewBlock? && s.pindexBest.None?
    ensures var s', h := Indexed(env, s, e), e.h;
      Next(env, s, e) ==
        if h !in s.tree && h in s'.tree && s'.tree[h].bnChainTrust > 0 then s'.(pindexBest := Some(h)) else s'
  {
    hide Admissible, Indexed, Wanted, Inserted, BestTrust, WellFormed;
    BestTrustIs(s);
    NewEvent(env, s, e.h, e.b, e.fields, e.nBlockTrust, e.readable);
  }

  // Trust adds up along every chain.
  ghost predicate TrustAddsUp(t: Tree)
    requires WellFormed(t)
  {
    forall h | h in t && t[h].pprev.Some? :: t[t[h].pprev.value].bnChainTrust <= t[h].bnChainTrust
  }

  lemma {:induction false} TrustOfAncestor(t: Tree, a: BlockHash, h: BlockHash)
    requires WellFormed(t) && TrustAddsUp(t) && IsAncestor(t, a, h)
    ensures t[a].bnChainTrust <= t[h].bnChainTrust
    decreases t[h].nHeight
  {
    if a != h {
      ProperAncestorOfParent(t, a, h);
      TrustOfAncestor(t, a, t[h].pprev.value);
    }
  }

  // On the way to h, the first goal is the lowest block with more trust than
  // the old tip; it is h itself if no block below h has more.
  lemma {:induction false} GoalIsLowest(s: NodeState, h: BlockHash)
    requires Sane(s) && TrustAddsUp(s.tree) && h in s.tree && s.pindexBest.Some? && s.tree[h].pprev != s.pindexBest
    ensures var t, trust := s.tree, s.tree[s.pindexBest.value].bnChainTrust;
      && IsAncestor(t, FirstGoal(s, h), h)
      && forall a | IsProperAncestor(t, a, h) :: IsAncestor(t, FirstGoal(s, h), a) <==> t[a].bnChainTrust > trust
  {
    IntermediateIsLowest(s.tree, h, s.tree[s.pindexBest.value].bnChainTrust);
  }

  lemma {:induction false} IntermediateIsLowest(t: Tree, h: BlockHash, trust: nat)
    requires WellFormed(t) && TrustAddsUp(t) && h in t
    ensures forall a | IsProperAncestor(t, a, h) ::
      IsAncestor(t, Intermediate(t, h, trust), a) <==> t[a].bnChainTrust > trust
    decreases t[h].nHeight
  {
    var m := Intermediate(t, h, trust);
    if t[h].pprev.Some? {
      IntermediateIsLowest(t, t[h].pprev.value, trust);
    }
    hide AncestorAt, TrustAddsUp;
    forall a | IsProperAncestor(t, a, h) ensures IsAncestor(t, m, a) <==> t[a].bnChainTrust > trust {
      var p := t[h].pprev.value;
      ProperAncestorOfParent(t, a, h);
      TrustOfAncestor(t, a, p);
    }
  }

  // Over any run trust adds up, so the above holds in every state.
  lemma {:induction false} TrustAlwaysAddsUp(env: Env, events: seq<Event>, n: nat)
    requires n <= |events|
    ensures TrustAddsUp(After(env, events, n).tree)
  {
    hide *;
    if n == 0 {
      AfterNone(env, events);
      NoTrust();
    } else {
      TrustAlwaysAddsUp(env, events, n - 1);
      AfterNext(env, events, n - 1);
      TrustStillAddsUp(env, After(env, events, n - 1), events[n - 1]);
    }
  }

  lemma NoTrust()
    ensures TrustAddsUp(EMPTY.tree)
  {
  }

  lemma TrustStillAddsUp(env: Env, s: NodeState, e: Event)
    requires Sane(s) && TrustAddsUp(s.tree)
    ensures TrustAddsUp(Indexed(env, s, e).tree) && Next(env, s, e).tree == Indexed(env, s, e).tree
  {
    hide Starts, Indexed, Wanted, Admits;
    if Indexed(env, s, e) != s {
      IndexedIs(env, s, e);
      TrustOnTop(s.tree, e.h, e.b, e.fields, e.nBlockTrust);
    }
  }

  lemma IndexedIs(env: Env, s: NodeState, e: Event)
    requires Sane(s) && Indexed(env, s, e) != s
    ensures e.NewBlock? && e.h !in s.tree
    ensures Indexed(env, s, e).tree == s.tree[e.h := NodeOf(s.tree, e.b, e.fields, e.nBlockTrust)]
  {
    hide Admissible, AppendTxs, NodeOf;
  }

  lemma TrustOnTop(t: Tree, h: BlockHash, b: Block, fields: BlockIndex, nBlockTrust: nat)
    requires WellFormed(t) && TrustAddsUp(t) && h !in t && WellFormed(t[h := NodeOf(t, b, fields, nBlockTrust)])
    ensures TrustAddsUp(t[h := NodeOf(t, b, fields, nBlockTrust)])
  {
  }

  lemma NextTrust(env: Env, s: NodeState, e: Event)
    requires Sane(s) && !e.SwitchTo? && s.pindexBest.Some?
    ensures var s' := Next(env, s, e);
      s'.pindexBest.Some? && s.tree[s.pindexBest.value].bnChainTrust <= s'.tree[s'.pindexBest.value].bnChainTrust
  {
    hide Admits, Starts;
    var s' := Indexed(env, s, e);
    assert s'.tree[s.pindexBest.value] == s.tree[s.pindexBest.value];
  }

  lemma AfterNone(env: Env, events: seq<Event>)
    ensures After(env, events, 0) == EMPTY
  {
  }

  lemma AfterNext(env: Env, events: seq<Event>, n: nat)
    requires n < |events|
    ensures After(env, events, n + 1) == Next(env, After(env, events, n), events[n])
  {
    hide Next;
  }

  // Without forced switches the trust of the tip never falls.
  lemma {:induction false} TrustNeverFalls(env: Env, events: seq<Event>, m: nat, n: nat)
    requires m <= n <= |events| && forall i | m <= i < n :: !events[i].SwitchTo?
    requires After(env, events, m).pindexBest.Some?
    ensures var s, s' := After(env, events, m), After(env, events, n);
      && Sane(s) && s'.pindexBest.Some?
      && s.tree[s.pindexBest.value].bnChainTrust <= s'.tree[s'.pindexBest.value].bnChainTrust
    decreases n
  {
    hide After, Next;
    if m < n {
      TrustNeverFalls(env, events, m, n - 1);
      AfterNext(env, events, n - 1);
      NextTrust(env, After(env, events, n - 1), events[n - 1]);
    }
  }
}
