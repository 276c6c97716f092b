// The synchronized checkpoint: it only ever moves down to a descendant.
module SyncCheckpoint {
  import opened BlockTree

  // How the attempt to switch to a checkpoint's chain and to store the
  // checkpoint goes; it is not made for a block in the main chain.
  datatype Attempt = Attempt(inMainChain: bool, readable: bool, connects: bool, stored: bool) {
    predicate Succeeds() { (inMainChain || (readable && connects)) && stored }
  }

  // One of a and b is an ancestor of the other.
  ghost predicate Comparable(t: Tree, a: BlockHash, b: BlockHash)
    requires WellFormed(t)
  {
    IsAncestor(t, a, b) || IsAncestor(t, b, a)
  }

  // A known block is an invalid checkpoint if it is on another branch than the
  // sync checkpoint, or if it could not become the tip.
  ghost predicate Spoiled(t: Tree, sync: BlockHash, h: BlockHash, attempt: Attempt)
    requires WellFormed(t)
  {
    sync in t && h in t
    && (!Comparable(t, sync, h)
        || (IsProperAncestor(t, sync, h) && !attempt.inMainChain && attempt.readable && !attempt.connects))
  }

  // May a block with this hash follow prev, the checkpoint being sync?
  ghost predicate PassesSync(t: Tree, sync: BlockHash, hashBlock: BlockHash, prev: BlockHash)
    requires WellFormed(t) && sync in t && prev in t
  {
    var nHeight := t[prev].nHeight + 1;
    if nHeight > t[sync].nHeight then IsAncestor(t, sync, prev)
    else if nHeight == t[sync].nHeight then hashBlock == sync
    else hashBlock in t
  }

  class SyncCheckpoint {
    const fTestNet: bool
    var hashSyncCheckpoint: BlockHash
    var hashPendingCheckpoint: BlockHash
    var hashInvalidCheckpoint: BlockHash

    // The sync checkpoint is an accepted block.
    ghost predicate Valid(t: Tree)
      reads this
    {
      WellFormed(t) && hashSyncCheckpoint in t
    }

    constructor (fTestNet: bool, hashGenesisBlock: BlockHash)
      ensures hashSyncCheckpoint == hashGenesisBlock && hashPendingCheckpoint == 0 && this.fTestNet == fTestNet
    {
      this.fTestNet := fTestNet;
      hashSyncCheckpoint, hashPendingCheckpoint, hashInvalidCheckpoint := hashGenesisBlock, 0, 0;
    }

    method ValidateSyncCheckpoint(t: Tree, hashCheckpoint: BlockHash) returns (ok: bool)
      requires WellFormed(t)
      modifies this`hashInvalidCheckpoint
      ensures ok <==> IsProperAncestor(t, hashSyncCheckpoint, hashCheckpoint)
      ensures var conflict := hashSyncCheckpoint in t && hashCheckpoint in t
                              && !Comparable(t, hashSyncCheckpoint, hashCheckpoint);
        hashInvalidCheckpoint == if conflict then hashCheckpoint else old(hashInvalidCheckpoint)
    {
      if hashSyncCheckpoint !in t || hashCheckpoint !in t {
        return false;
      }
      if t[hashCheckpoint].nHeight <= t[hashSyncCheckpoint].nHeight {
        var pindex := TraceBack(t, hashSyncCheckpoint, t[hashCheckpoint].nHeight);
        if pindex != hashCheckpoint {
          hashInvalidCheckpoint := hashCheckpoint;
        }
        return false;
      }
      var pindex := TraceBack(t, hashCheckpoint, t[hashSyncCheckpoint].nHeight);
      if pindex != hashSyncCheckpoint {
        hashInvalidCheckpoint := hashCheckpoint;
        return false;
      }
      ok := true;
    }

    // ProcessSyncCheckpoint, for a message with a good signature or not.
    method ProcessSyncCheckpoint(t: Tree, hashCheckpoint: BlockHash, signed: bool, attempt: Attempt) returns (ok: bool)
      requires Valid(t)
      modifies this
      ensures Valid(t)
      ensures ok <==> signed && IsProperAncestor(t, old(hashSyncCheckpoint), hashCheckpoint) && attempt.Succeeds()
      ensures hashSyncCheckpoint == if ok then hashCheckpoint else old(hashSyncCheckpoint)
      ensures hashPendingCheckpoint == if ok then 0
                                       else if signed && hashCheckpoint !in t then hashCheckpoint
                                       else old(hashPendingCheckpoint)
      ensures hashInvalidCheckpoint ==
        if signed && Spoiled(t, old(hashSyncCheckpoint), hashCheckpoint, attempt) then hashCheckpoint
        else old(hashInvalidCheckpoint)
    {
      if !signed {
        return false;
      }
      if hashCheckpoint !in t {
        hashPendingCheckpoint := hashCheckpoint;
        return false;
      }
      ok := ValidateSyncCheckpoint(t, hashCheckpoint);
      if !ok {
        return;
      }
      if !attempt.inMainChain {
        if !attempt.readable {
          return false;
        }
        if !attempt.connects {
          hashInvalidCheckpoint := hashCheckpoint;
          return false;
        }
      }
      ok := WriteSyncCheckpoint(hashCheckpoint, attempt.stored);
      if !ok {
        return;
      }
      hashPendingCheckpoint := 0;
    }

    method WriteSyncCheckpoint(hashCheckpoint: BlockHash, stored: bool) returns (ok: bool)
      modifies this`hashSyncCheckpoint
      ensures ok == stored && hashSyncCheckpoint == if ok then hashCheckpoint else old(hashSyncCheckpoint)
    {
      if !stored {
        return false;
      }
      hashSyncCheckpoint := hashCheckpoint;
      ok := true;
    }

    method AcceptPendingSyncCheckpoint(t: Tree, attempt: Attempt) returns (ok: bool)
      requires Valid(t)
      modifies this
      ensures Valid(t)
      ensures ok <==> old(hashPendingCheckpoint) != 0 && attempt.Succeeds()
                      && IsProperAncestor(t, old(hashSyncCheckpoint), old(hashPendingCheckpoint))
      ensures hashSyncCheckpoint == if ok then old(hashPendingCheckpoint) else old(hashSyncCheckpoint)
      ensures hashPendingCheckpoint ==
        if ok || (old(hashPendingCheckpoint) in t
                  && !IsProperAncestor(t, old(hashSyncCheckpoint), old(hashPendingCheckpoint)))
        then 0 else old(hashPendingCheckpoint)
      ensures hashInvalidCheckpoint ==
        if old(hashPendingCheckpoint) != 0
           && Spoiled(t, old(hashSyncCheckpoint), old(hashPendingCheckpoint), attempt) then old(hashPendingCheckpoint)
        else old(hashInvalidCheckpoint)
    {
      if hashPendingCheckpoint != 0 && hashPendingCheckpoint in t {
        ok := ValidateSyncCheckpoint(t, hashPendingCheckpoint);
        if !ok {
          hashPendingCheckpoint := 0;
          return false;
        }
        if !attempt.inMainChain {
          if !attempt.readable {
            return false;
          }
          if !attempt.connects {
            hashInvalidCheckpoint := hashPendingCheckpoint;
            return false;
          }
        }
        ok := WriteSyncCheckpoint(hashPendingCheckpoint, attempt.stored);
        if !ok {
          return;
        }
        hashPendingCheckpoint := 0;
        return true;
      }
      ok := false;
    }

    // CheckSync: may a block with this hash follow pindexPrev?
    method CheckSync(t: Tree, hashBlock: BlockHash, pindexPrev: BlockHash) returns (ok: bool)
      requires Valid(t) && pindexPrev in t
      ensures ok <==> fTestNet || PassesSync(t, hashSyncCheckpoint, hashBlock, pindexPrev)
    {
      if fTestNet {
        return true;
      }
      var nHeight := t[pindexPrev].nHeight + 1;
      if nHeight > t[hashSyncCheckpoint].nHeight {
        var pindex := TraceBack(t, pindexPrev, t[hashSyncCheckpoint].nHeight);
        if t[pindex].nHeight < t[hashSyncCheckpoint].nHeight || pindex != hashSyncCheckpoint {
          return false;
        }
      }
      if nHeight == t[hashSyncCheckpoint].nHeight && hashBlock != hashSyncCheckpoint {
        return false;
      }
      if nHeight < t[hashSyncCheckpoint].nHeight && hashBlock !in t {
        return false;
      }
      ok := true;
    }
  }

  // The loops that walk back to a height.
  method TraceBack(t: Tree, h: BlockHash, nHeight: nat) returns (r: BlockHash)
    requires WellFormed(t) && h in t && nHeight <= t[h].nHeight
    ensures r == AncestorAt(t, h, nHeight)
  {
    r := h;
    while t[r].nHeight > nHeight
      invariant r in t && nHeight <= t[r].nHeight && AncestorAt(t, r, nHeight) == AncestorAt(t, h, nHeight)
      decreases t[r].nHeight
    {
      r := t[r].pprev.value;
    }
  }

  // A block h that is indexed after CheckSync has passed it on the main net, at
  // a height above the checkpoint's, descends from the checkpoint and from all
  // checkpoints before it.
  lemma PassedDescends(t: Tree, sync: BlockHash, prev: BlockHash, t': Tree, h: BlockHash, earlier: BlockHash)
    requires WellFormed(t) && WellFormed(t') && Grows(t, t') && sync in t && prev in t && PassesSync(t, sync, h, prev)
    requires h in t' && t'[h].pprev == Some(prev) && t'[h].nHeight > t[sync].nHeight && IsAncestor(t, earlier, sync)
    ensures IsProperAncestor(t', sync, h) && IsProperAncestor(t', earlier, h)
  {
    AncestorTransitive(t, earlier, sync, prev);
    AncestorExtends(t, t', sync, prev);
    AncestorExtends(t, t', earlier, prev);
    ProperAncestorOfParent(t', sync, h);
    ProperAncestorOfParent(t', earlier, h);
  }

  // A block that is not indexed yet passes exactly if it builds on the
  // checkpoint; of the others, those at its height or above are the checkpoint
  // itself or build on it.
  lemma PassingBuildsOnIt(t: Tree, sync: BlockHash, prev: BlockHash, h: BlockHash)
    requires WellFormed(t) && sync in t && prev in t
    ensures h !in t ==> (PassesSync(t, sync, h, prev) <==> IsAncestor(t, sync, prev))
    ensures h in t && t[h].pprev == Some(prev) && t[h].nHeight >= t[sync].nHeight ==>
      (PassesSync(t, sync, h, prev) <==> IsAncestor(t, sync, h))
    ensures h in t && t[h].pprev == Some(prev) && t[h].nHeight < t[sync].nHeight ==> PassesSync(t, sync, h, prev)
  {
    if h in t && t[h].pprev == Some(prev) {
      ProperAncestorOfParent(t, sync, h);
      AncestorReflexive(t, h);
    }
  }

  // ------------------------------------------------------------------- runs

  // What may happen: the block index grows, a checkpoint message arrives, or
  // the pending checkpoint is tried.
  datatype Event =
    | Grow(t: Tree)
    | Process(hashCheckpoint: BlockHash, signed: bool, attempt: Attempt)
    | AcceptPending(attempt: Attempt)

  // The block index after the first n events.
  function TreeAt(t: Tree, events: seq<Event>, n: nat): Tree
    requires n <= |events|
  {
    if n == 0 then t else if events[n - 1].Grow? then events[n - 1].t else TreeAt(t, events, n - 1)
  }

  ghost predicate GrowsOnly(t: Tree, events: seq<Event>) {
    WellFormed(t) && forall n | 0 <= n < |events| && events[n].Grow? ::
        WellFormed(events[n].t) && Grows(TreeAt(t, events, n), events[n].t)
  }

  // The checkpoints after each event: every one is the same as any earlier one
  // or a proper descendant of it, so none is ever returned to.
  ghost predicate Descending(t: Tree, checkpoints: seq<BlockHash>)
    requires WellFormed(t)
  {
    forall i, j | 0 <= i <= j < |checkpoints| :: IsAncestor(t, checkpoints[i], checkpoints[j])
  }

  lemma DescendingNext(t: Tree, checkpoints: seq<BlockHash>, h: BlockHash)
    requires WellFormed(t) && h in t && Descending(t, checkpoints) && checkpoints != []
    requires IsAncestor(t, checkpoints[|checkpoints| - 1], h)
    ensures Descending(t, checkpoints + [h])
  {
    hide AncestorAt;
    var last := |checkpoints| - 1;
    var longer := checkpoints + [h];
    forall i, j | 0 <= i <= j < |longer| ensures IsAncestor(t, longer[i], longer[j]) {
      if i <= last && j == |checkpoints| {
        AncestorTransitive(t, checkpoints[i], checkpoints[last], h);
      } else if j < |checkpoints| {
        assert longer[i] == checkpoints[i] && longer[j] == checkpoints[j];
      } else {
        AncestorReflexive(t, h);
      }
    }
  }

  lemma DescendingGrows(t: Tree, t': Tree, checkpoints: seq<BlockHash>)
    requires WellFormed(t) && WellFormed(t') && Grows(t, t') && Descending(t, checkpoints)
    ensures Descending(t', checkpoints)
  {
    hide AncestorAt;
    forall i, j | 0 <= i <= j < |checkpoints| ensures IsAncestor(t', checkpoints[i], checkpoints[j]) {
      assert IsAncestor(t, checkpoints[i], checkpoints[j]);
      AncestorExtends(t, t', checkpoints[i], checkpoints[j]);
    }
  }

  lemma GrownAt(t: Tree, events: seq<Event>, n: nat)
    requires GrowsOnly(t, events) && n < |events|
    ensures TreeAt(t, events, n + 1) == if events[n].Grow? then events[n].t else TreeAt(t, events, n)
    ensures events[n].Grow? ==> WellFormed(events[n].t) && Grows(TreeAt(t, events, n), events[n].t)
  {
  }

  // The checkpoints after each step of any run, none of which ever goes back.
  method Run(t0: Tree, fTestNet: bool, hashGenesisBlock: BlockHash, events: seq<Event>)
    returns (c: SyncCheckpoint, checkpoints: seq<BlockHash>)
    requires GrowsOnly(t0, events) && hashGenesisBlock in t0
    ensures |checkpoints| == |events| + 1 && checkpoints[0] == hashGenesisBlock
    ensures checkpoints[|events|] == c.hashSyncCheckpoint
    ensures var t := TreeAt(t0, events, |events|); c.Valid(t) && Descending(t, checkpoints)
  {
    c := new SyncCheckpoint(fTestNet, hashGenesisBlock);
    checkpoints := [hashGenesisBlock];
    var t := t0;
    for n := 0 to |events|
      invariant fresh(c) && t == TreeAt(t0, events, n) && c.Valid(t) && Descending(t, checkpoints)
      invariant |checkpoints| == n + 1 && checkpoints[0] == hashGenesisBlock
      invariant checkpoints[n] == c.hashSyncCheckpoint
    {
      GrownAt(t0, events, n);
      hide TreeAt, GrowsOnly, Descending;
      ghost var before := t;
      t := Step(c, t, events[n]);
      DescendingGrows(before, t, checkpoints);
      DescendingNext(t, checkpoints, c.hashSyncCheckpoint);
      checkpoints := checkpoints + [c.hashSyncCheckpoint];
    }
  }

  // One step stays at the checkpoint or moves it to a proper descendant.
  method Step(c: SyncCheckpoint, t: Tree, e: Event) returns (t': Tree)
    requires c.Valid(t) && (e.Grow? ==> WellFormed(e.t) && Grows(t, e.t))
    modifies c
    ensures t' == (if e.Grow? then e.t else t) && Grows(t, t') && c.Valid(t')
    ensures c.hashSyncCheckpoint == old(c.hashSyncCheckpoint)
            || IsProperAncestor(t', old(c.hashSyncCheckpoint), c.hashSyncCheckpoint)
    ensures IsAncestor(t', old(c.hashSyncCheckpoint), c.hashSyncCheckpoint)
  {
    t' := t;
    match e {
      case Grow(grown) =>
        t' := grown;
      case Process(hashCheckpoint, signed, attempt) =>
        var ok := c.ProcessSyncCheckpoint(t, hashCheckpoint, signed, attempt);
      case AcceptPending(attempt) =>
        var ok := c.AcceptPendingSyncCheckpoint(t, attempt);
    }
  }
}
