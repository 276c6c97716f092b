// The block index: a forest of CBlockIndex nodes linked by pprev.  A node is
// named by its block hash, so a pointer to a node is a hash in the map.
module BlockTree {

  datatype Option<+T> = None | Some(value: T)

  // A uint256; only equality of hashes matters.
  type BlockHash = int

  // The part of a CBlockIndex that never changes after AddToBlockIndex.
  datatype BlockIndex = BlockIndex(
    pprev: Option<BlockHash>,
    nHeight: nat,
    nFile: nat,
    nBlockPos: nat,
    bnChainTrust: nat,
    nTime: nat,
    nBits: nat,
    fProofOfStake: bool,
    nStakeEntropyBit: nat,
    fGeneratedStakeModifier: bool,
    nStakeModifier: nat,
    hashProofOfStake: nat)

  type Tree = map<BlockHash, BlockIndex>

  // AddToBlockIndex sets nHeight to the parent's height plus one, or leaves it
  // 0 when the parent is not indexed.
  ghost predicate WellFormed(t: Tree) {
    forall h | h in t :: match t[h].pprev
      case None => t[h].nHeight == 0
      case Some(p) => p in t && t[h].nHeight == t[p].nHeight + 1
  }

  // Every old entry is still there, unchanged.
  ghost predicate Grows<K(!new), V>(m: map<K, V>, m': map<K, V>) {
    forall k | k in m :: k in m' && m'[k] == m[k]
  }

  // The block at height k on the path from h back to its root.
  ghost function AncestorAt(t: Tree, h: BlockHash, k: nat): (a: BlockHash)
    requires WellFormed(t) && h in t && k <= t[h].nHeight
    ensures a in t && t[a].nHeight == k
    decreases t[h].nHeight
  {
    if t[h].nHeight == k then h else AncestorAt(t, t[h].pprev.value, k)
  }

  // a is h or an ancestor of h.
  ghost predicate IsAncestor(t: Tree, a: BlockHash, h: BlockHash)
    requires WellFormed(t)
  {
    a in t && h in t && t[a].nHeight <= t[h].nHeight && AncestorAt(t, h, t[a].nHeight) == a
  }

  ghost predicate IsProperAncestor(t: Tree, a: BlockHash, h: BlockHash)
    requires WellFormed(t)
  {
    IsAncestor(t, a, h) && a != h
  }

  lemma {:induction false} AncestorOfAncestor(t: Tree, h: BlockHash, k: nat, j: nat)
    requires WellFormed(t) && h in t && j <= k <= t[h].nHeight
    ensures AncestorAt(t, AncestorAt(t, h, k), j) == AncestorAt(t, h, j)
    decreases t[h].nHeight
  {
    if t[h].nHeight != k {
      AncestorOfAncestor(t, t[h].pprev.value, k, j);
    }
  }

  lemma AncestorReflexive(t: Tree, h: BlockHash)
    requires WellFormed(t) && h in t
    ensures IsAncestor(t, h, h)
  {
  }

  lemma NotAncestorOfParent(t: Tree, h: BlockHash)
    requires WellFormed(t) && h in t && t[h].pprev.Some?
    ensures !IsAncestor(t, h, t[h].pprev.value) && t[h].pprev.value != h
  {
  }

  lemma AncestorTransitive(t: Tree, a: BlockHash, b: BlockHash, c: BlockHash)
    requires WellFormed(t) && IsAncestor(t, a, b) && IsAncestor(t, b, c)
    ensures IsAncestor(t, a, c)
  {
    AncestorOfAncestor(t, c, t[b].nHeight, t[a].nHeight);
  }

  // Two ancestors of one block are comparable.
  lemma AncestorsLinear(t: Tree, a: BlockHash, b: BlockHash, h: BlockHash)
    requires WellFormed(t) && IsAncestor(t, a, h) && IsAncestor(t, b, h)
    requires t[a].nHeight <= t[b].nHeight
    ensures IsAncestor(t, a, b)
  {
    AncestorOfAncestor(t, h, t[b].nHeight, t[a].nHeight);
  }

  lemma ProperAncestorOfParent(t: Tree, a: BlockHash, h: BlockHash)
    requires WellFormed(t) && h in t
    ensures IsProperAncestor(t, a, h) <==> t[h].pprev.Some? && IsAncestor(t, a, t[h].pprev.value)
  {
  }

  lemma {:induction false} AncestorAtExtends(t: Tree, t': Tree, h: BlockHash, k: nat)
    requires WellFormed(t) && WellFormed(t') && Grows(t, t')
    requires h in t && k <= t[h].nHeight
    ensures AncestorAt(t', h, k) == AncestorAt(t, h, k)
    decreases t[h].nHeight
  {
    if t[h].nHeight != k {
      AncestorAtExtends(t, t', t[h].pprev.value, k);
    }
  }

  // Ancestry between old nodes is not affected by new nodes, and an old node
  // has no new ancestors.
  lemma AncestorExtends(t: Tree, t': Tree, a: BlockHash, h: BlockHash)
    requires WellFormed(t) && WellFormed(t') && Grows(t, t') && h in t
    ensures IsAncestor(t', a, h) <==> IsAncestor(t, a, h)
  {
    if a in t' && t'[a].nHeight <= t[h].nHeight {
      AncestorAtExtends(t, t', h, t'[a].nHeight);
    }
  }

  // f is the last block that both chains share.
  ghost predicate IsLastCommonAncestor(t: Tree, f: BlockHash, a: BlockHash, b: BlockHash)
    requires WellFormed(t)
  {
    && IsAncestor(t, f, a) && IsAncestor(t, f, b)
    && forall c :: IsAncestor(t, c, a) && IsAncestor(t, c, b) ==> IsAncestor(t, c, f)
  }

  // The fork loop at the start of Reorganize.  It gives None exactly when it
  // runs into a null pprev.
  method FindFork(t: Tree, pindexBest: BlockHash, pindexNew: BlockHash) returns (fork: Option<BlockHash>)
    requires WellFormed(t) && pindexBest in t && pindexNew in t
    ensures fork.Some? ==> IsLastCommonAncestor(t, fork.value, pindexBest, pindexNew)
    ensures fork.None? <==> forall c :: !(IsAncestor(t, c, pindexBest) && IsAncestor(t, c, pindexNew))
  {
    var pfork, plonger := pindexBest, pindexNew;
    while pfork != plonger
      invariant IsAncestor(t, pfork, pindexBest) && IsAncestor(t, plonger, pindexNew)
      invariant forall c :: IsAncestor(t, c, pindexBest) && IsAncestor(t, c, pindexNew) ==>
                            IsAncestor(t, c, pfork) && IsAncestor(t, c, plonger)
      decreases t[pfork].nHeight + t[plonger].nHeight
    {
      ghost var top := t[plonger].nHeight;
      while t[plonger].nHeight > t[pfork].nHeight
        invariant IsAncestor(t, plonger, pindexNew)
        invariant t[plonger].nHeight <= top
        invariant forall c :: IsAncestor(t, c, pindexBest) && IsAncestor(t, c, pindexNew) ==>
                              IsAncestor(t, c, pfork) && IsAncestor(t, c, plonger)
        decreases t[plonger].nHeight
      {
        StepUp(t, plonger, pindexNew);
        plonger := t[plonger].pprev.value;
      }
      if pfork == plonger {
        break;
      }
      if t[pfork].pprev.None? {
        return None;
      }
      StepUp(t, pfork, pindexBest);
      pfork := t[pfork].pprev.value;
    }
    return Some(pfork);
  }

  lemma StepUp(t: Tree, a: BlockHash, h: BlockHash)
    requires WellFormed(t) && IsAncestor(t, a, h) && t[a].pprev.Some?
    ensures IsAncestor(t, t[a].pprev.value, h)
  {
    var p := t[a].pprev.value;
    assert IsAncestor(t, p, a) by { assert AncestorAt(t, p, t[p].nHeight) == p; }
    AncestorTransitive(t, p, a, h);
  }

  lemma {:induction false} ParentOnPath(t: Tree, h: BlockHash, k: nat)
    requires WellFormed(t) && h in t && k < t[h].nHeight
    ensures t[AncestorAt(t, h, k + 1)].pprev == Some(AncestorAt(t, h, k))
    decreases t[h].nHeight
  {
    if k + 1 < t[h].nHeight {
      ParentOnPath(t, t[h].pprev.value, k);
    }
  }

  // x lies on the path to h, above the height of bottom.
  ghost predicate OnPath(t: Tree, bottom: BlockHash, x: BlockHash, h: BlockHash)
    requires WellFormed(t) && bottom in t
  {
    IsAncestor(t, x, h) && t[x].nHeight > t[bottom].nHeight
  }

  // The blocks from h down to, but not including, bottom.
  ghost predicate IsDescent(t: Tree, v: seq<BlockHash>, h: BlockHash, bottom: BlockHash)
    requires WellFormed(t)
  {
    && IsAncestor(t, bottom, h)
    && |v| == t[h].nHeight - t[bottom].nHeight
    && forall i | 0 <= i < |v| :: v[i] == AncestorAt(t, h, t[h].nHeight - i)
  }

  lemma DescentCovers(t: Tree, v: seq<BlockHash>, h: BlockHash, bottom: BlockHash, x: BlockHash)
    requires WellFormed(t) && IsDescent(t, v, h, bottom)
    ensures x in v <==> OnPath(t, bottom, x, h)
  {
    hide AncestorAt, WellFormed;
    if OnPath(t, bottom, x, h) {
      assert v[t[h].nHeight - t[x].nHeight] == x;
    }
    if x in v {
      var i :| 0 <= i < |v| && v[i] == x;
    }
  }

  // Collects the path of Reorganize from h down to bottom.
  method Descend(t: Tree, h: BlockHash, bottom: BlockHash) returns (v: seq<BlockHash>)
    requires WellFormed(t) && IsAncestor(t, bottom, h)
    ensures IsDescent(t, v, h, bottom)
  {
    hide AncestorAt;
    v := [];
    var pindex := h;
    AncestorReflexive(t, h);
    while pindex != bottom
      invariant IsAncestor(t, pindex, h) && IsAncestor(t, bottom, pindex)
      invariant |v| == t[h].nHeight - t[pindex].nHeight
      invariant forall i | 0 <= i < |v| :: v[i] == AncestorAt(t, h, t[h].nHeight - i)
      decreases t[pindex].nHeight
    {
      ProperAncestorOfParent(t, bottom, pindex);
      StepUp(t, pindex, h);
      v := v + [pindex];
      pindex := t[pindex].pprev.value;
    }
  }

  // The first block of the new chain that makes it the best one.
  ghost function Intermediate(t: Tree, h: BlockHash, trust: nat): (m: BlockHash)
    requires WellFormed(t) && h in t
    ensures IsAncestor(t, m, h)
    decreases t[h].nHeight
  {
    match t[h].pprev
    case None => h
    case Some(p) =>
      if t[p].bnChainTrust > trust then
        var m := Intermediate(t, p, trust);
        AncestorTransitive(t, m, p, h);
        m
      else h
  }

  lemma IntermediateStep(t: Tree, h: BlockHash, trust: nat)
    requires WellFormed(t) && h in t
    ensures Intermediate(t, h, trust) ==
      if t[h].pprev.Some? && t[t[h].pprev.value].bnChainTrust > trust
      then Intermediate(t, t[h].pprev.value, trust) else h
  {
  }

  // The blocks above the first one that makes the new chain the best; they
  // are connected after the reorganisation, each in its own transaction.
  method CollectPostponed(t: Tree, h: BlockHash, trust: nat) returns (mid: BlockHash, secondary: seq<BlockHash>)
    requires WellFormed(t) && h in t
    ensures mid == Intermediate(t, h, trust) && IsDescent(t, secondary, h, mid)
  {
    hide AncestorAt, Intermediate;
    mid, secondary := h, [];
    AncestorReflexive(t, h);
    IntermediateStep(t, h, trust);
    while t[mid].pprev.Some? && t[t[mid].pprev.value].bnChainTrust > trust
      invariant IsAncestor(t, mid, h) && Intermediate(t, mid, trust) == Intermediate(t, h, trust)
      invariant |secondary| == t[h].nHeight - t[mid].nHeight
      invariant forall i | 0 <= i < |secondary| :: secondary[i] == AncestorAt(t, h, t[h].nHeight - i)
      decreases t[mid].nHeight
    {
      IntermediateStep(t, mid, trust);
      StepUp(t, mid, h);
      secondary := secondary + [mid];
      mid := t[mid].pprev.value;
    }
    IntermediateStep(t, mid, trust);
  }

  lemma LastCommonAncestorUnique(t: Tree, f: BlockHash, g: BlockHash, a: BlockHash, b: BlockHash)
    requires WellFormed(t) && IsLastCommonAncestor(t, f, a, b) && IsLastCommonAncestor(t, g, a, b)
    ensures f == g
  {
    assert IsAncestor(t, f, g) && IsAncestor(t, g, f);
  }
}