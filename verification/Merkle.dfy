// The Merkle tree of a block, all levels in one flat vector.
module Merkle {

  // A uint256.
  type Hash = int

  // Hash of two concatenated hashes.
  type Combine = (Hash, Hash) -> Hash

  function Min(a: int, b: int): int { if a < b then a else b }

  // The next level: neighbours are hashed together, an odd last one with itself.
  function Next(h: Combine, level: seq<Hash>): (up: seq<Hash>)
    ensures |up| == (|level| + 1) / 2
  {
    seq((|level| + 1) / 2,
        i requires 0 <= i < (|level| + 1) / 2 => h(level[2 * i], level[Min(2 * i + 1, |level| - 1)]))
  }

  lemma NextAt(h: Combine, level: seq<Hash>, i: nat)
    requires i < (|level| + 1) / 2
    ensures Next(h, level)[i] == h(level[2 * i], level[Min(2 * i + 1, |level| - 1)])
  {
  }

  // The root of the tree over a level.
  function Root(h: Combine, level: seq<Hash>): Hash
    decreases |level|
  {
    if |level| == 0 then 0 else if |level| == 1 then level[0] else Root(h, Next(h, level))
  }

  // The root over twice as many leaves as a full tree has is that of the roots
  // of the two halves.
  lemma {:induction false} RootSplits(h: Combine, a: seq<Hash>, b: seq<Hash>, k: nat)
    requires |a| == |b| == Leaves(k)
    ensures Root(h, a + b) == h(Root(h, a), Root(h, b))
    decreases k
  {
    if k > 0 {
      NextSplits(h, a, b, Leaves(k - 1));
      hide Next;
      RootSplits(h, Next(h, a), Next(h, b), k - 1);
    } else {
      assert Next(h, a + b) == [h(a[0], b[0])];
    }
  }

  lemma NextSplits(h: Combine, a: seq<Hash>, b: seq<Hash>, n: nat)
    requires |a| == |b| == 2 * n
    ensures Next(h, a + b) == Next(h, a) + Next(h, b)
  {
    hide Next;
    forall i | 0 <= i < 2 * n ensures Next(h, a + b)[i] == (Next(h, a) + Next(h, b))[i] {
      NextAt(h, a + b, i);
      if i < n {
        NextAt(h, a, i);
      } else {
        NextAt(h, b, i - n);
      }
    }
  }

  // 2^k
  function Leaves(k: nat): (n: nat)
    ensures n >= 1
  {
    if k == 0 then 1 else 2 * Leaves(k - 1)
  }

  // All levels in a row.
  function Flat(h: Combine, level: seq<Hash>): (v: seq<Hash>)
    ensures level <= v
    decreases |level|
  {
    if |level| <= 1 then level else level + Flat(h, Next(h, level))
  }

  // n^1
  function Neighbour(n: nat): nat { if n % 2 == 0 then n + 1 else n - 1 }

  lemma LevelUp(h: Combine, level: seq<Hash>)
    requires |level| > 1
    ensures Flat(h, level) == level + Flat(h, Next(h, level)) && Root(h, level) == Root(h, Next(h, level))
  {
  }

  // The parent of node n.
  lemma Parent(h: Combine, level: seq<Hash>, n: nat)
    requires n < |level|
    ensures n / 2 < |Next(h, level)|
    ensures var sibling := level[Min(Neighbour(n), |level| - 1)];
      Next(h, level)[n / 2] == if n % 2 == 1 then h(sibling, level[n]) else h(level[n], sibling)
  {
    NextAt(h, level, n / 2);
  }

  lemma LevelDone(h: Combine, level: seq<Hash>)
    requires |level| <= 1
    ensures Flat(h, level) == level && Root(h, level) == if level == [] then 0 else level[0]
    ensures forall n: nat :: Branch(h, level, n) == []
  {
  }

  // The siblings on the way up from leaf n.
  function Branch(h: Combine, level: seq<Hash>, n: nat): seq<Hash>
    decreases |level|
  {
    if |level| <= 1 then [] else [level[Min(Neighbour(n), |level| - 1)]] + Branch(h, Next(h, level), n / 2)
  }

  lemma BranchUp(h: Combine, level: seq<Hash>, n: nat)
    requires |level| > 1
    ensures Branch(h, level, n) == [level[Min(Neighbour(n), |level| - 1)]] + Branch(h, Next(h, level), n / 2)
  {
  }

  // What a branch makes of a hash at position n.
  function Climb(h: Combine, x: Hash, branch: seq<Hash>, n: int): Hash
    decreases |branch|
  {
    if branch == [] then x
    else Climb(h, if n % 2 == 1 then h(branch[0], x) else h(x, branch[0]), branch[1..], n / 2)
  }

  // The transactions of a block, by their hashes, and the cached tree.
  class Block {
    const hash: Combine
    const vtx: seq<Hash>
    var vMerkleTree: seq<Hash>

    // The cached tree is absent or right.
    ghost predicate Valid()
      reads this
    {
      vMerkleTree == [] || vMerkleTree == Flat(hash, vtx)
    }

    constructor (hash: Combine, vtx: seq<Hash>)
      ensures Valid() && this.hash == hash && this.vtx == vtx
    {
      this.hash, this.vtx, vMerkleTree := hash, vtx, [];
    }

    method BuildMerkleTree() returns (root: Hash)
      modifies this
      ensures Valid() && vMerkleTree == Flat(hash, vtx) && root == Root(hash, vtx)
    {
      hide Next, Flat, Root;
      vMerkleTree := vtx;
      var j, nSize := 0, |vtx|;
      ghost var level := vtx;
      while nSize > 1
        invariant 0 <= j <= |vMerkleTree| && vMerkleTree[j..] == level && |level| == nSize
        invariant Flat(hash, vtx) == vMerkleTree[..j] + Flat(hash, level) && Root(hash, vtx) == Root(hash, level)
        invariant level == [] ==> vMerkleTree == []
        decreases nSize
      {
        LevelUp(hash, level);
        var up := BuildLevel(j, nSize, level);
        j, level := j + nSize, up;
        nSize := (nSize + 1) / 2;
      }
      LevelDone(hash, level);
      assert vMerkleTree == vMerkleTree[..j] + level;
      root := if vMerkleTree == [] then 0 else vMerkleTree[|vMerkleTree| - 1];
    }

    // The inner loop: appends the level above the one at j.
    method BuildLevel(j: nat, nSize: nat, ghost level: seq<Hash>) returns (ghost up: seq<Hash>)
      requires 1 < nSize == |level| && j <= |vMerkleTree| && vMerkleTree[j..] == level
      modifies this
      ensures up == Next(hash, level) && |vMerkleTree| >= j + nSize
      ensures vMerkleTree[..j + nSize] == old(vMerkleTree[..j]) + level && vMerkleTree[j + nSize..] == up
    {
      hide Next;
      up := Next(hash, level);
      ghost var done := vMerkleTree;
      var i := 0;
      while i < nSize
        invariant 0 <= i && i % 2 == 0 && i <= nSize + nSize % 2
        invariant vMerkleTree == done + up[..i / 2]
      {
        var i2 := Min(i + 1, nSize - 1);
        NextAt(hash, level, i / 2);
        assert level[i] == done[j..][i] && level[i2] == done[j..][i2];
        assert up[..i / 2 + 1] == up[..i / 2] + [up[i / 2]];
        vMerkleTree := vMerkleTree + [hash(vMerkleTree[j + i], vMerkleTree[j + i2])];
        i := i + 2;
      }
      assert up[..|up|] == up;
      assert done == done[..j] + level;
    }

    method GetMerkleBranch(nIndex0: nat) returns (vMerkleBranch: seq<Hash>)
      requires Valid()
      modifies this
      ensures Valid() && vMerkleBranch == Branch(hash, vtx, nIndex0)
    {
      hide Next, Root, Flat, Branch;
      TreeEmpty(hash, vtx);
      if vMerkleTree == [] {
        var root := BuildMerkleTree();
      }
      vMerkleBranch := [];
      var nIndex, j, nSize := nIndex0, 0, |vtx|;
      ghost var level := vtx;
      while nSize > 1
        invariant nSize == |level| && 0 <= j <= |vMerkleTree| && vMerkleTree[j..] == Flat(hash, level)
        invariant Valid() && Branch(hash, vtx, nIndex0) == vMerkleBranch + Branch(hash, level, nIndex)
        decreases nSize
      {
        LevelUp(hash, level);
        BranchUp(hash, level, nIndex);
        var i := Min(Neighbour(nIndex), nSize - 1);
        assert vMerkleTree[j..][i] == level[i];
        vMerkleBranch := vMerkleBranch + [vMerkleTree[j + i]];
        assert vMerkleTree[j + nSize..] == vMerkleTree[j..][nSize..];
        nIndex := nIndex / 2;
        j, level := j + nSize, Next(hash, level);
        nSize := (nSize + 1) / 2;
      }
      LevelDone(hash, level);
    }
  }

  lemma TreeEmpty(h: Combine, vtx: seq<Hash>)
    ensures Flat(h, vtx) == [] <==> vtx == []
  {
  }

  method CheckMerkleBranch(hash: Combine, x: Hash, vMerkleBranch: seq<Hash>, nIndex0: int) returns (r: Hash)
    ensures r == if nIndex0 == -1 then 0 else Climb(hash, x, vMerkleBranch, nIndex0)
  {
    if nIndex0 == -1 {
      return 0;
    }
    r := x;
    var nIndex := nIndex0;
    for k := 0 to |vMerkleBranch|
      invariant Climb(hash, r, vMerkleBranch[k..], nIndex) == Climb(hash, x, vMerkleBranch, nIndex0)
    {
      var otherside := vMerkleBranch[k];
      assert vMerkleBranch[k..][1..] == vMerkleBranch[k + 1..];
      if nIndex % 2 == 1 {
        r := hash(otherside, r);
      } else {
        r := hash(r, otherside);
      }
      nIndex := nIndex / 2;
    }
  }

  // ------------------------------------------------------------- properties

  // The branch of every leaf leads to the root.
  lemma {:induction false} BranchLeadsToRoot(h: Combine, level: seq<Hash>, n: nat)
    requires n < |level|
    ensures Climb(h, level[n], Branch(h, level, n), n) == Root(h, level)
    decreases |level|
  {
    hide Next;
    if |level| > 1 {
      Parent(h, level, n);
      BranchUp(h, level, n);
      LevelUp(h, level);
      BranchLeadsToRoot(h, Next(h, level), n / 2);
      ClimbUp(h, level[n], Branch(h, level, n), n);
    }
  }

  lemma ClimbUp(h: Combine, x: Hash, branch: seq<Hash>, n: int)
    requires branch != []
    ensures Climb(h, x, branch, n) ==
            Climb(h, if n % 2 == 1 then h(branch[0], x) else h(x, branch[0]), branch[1..], n / 2)
  {
  }

  // The cached tree and the branches of one block check against its root.
  method BranchChecks(b: Block, n: nat) returns (root: Hash, checked: Hash)
    requires b.Valid() && n < |b.vtx|
    modifies b
    ensures checked == root == Root(b.hash, b.vtx)
  {
    root := b.BuildMerkleTree();
    var branch := b.GetMerkleBranch(n);
    BranchLeadsToRoot(b.hash, b.vtx, n);
    checked := CheckMerkleBranch(b.hash, b.vtx[n], branch, n);
  }

  ghost predicate Injective(h: Combine) {
    forall a, b, c, d :: h(a, b) == h(c, d) ==> a == c && b == d
  }

  lemma Apart(h: Combine, a: Hash, b: Hash, c: Hash, d: Hash)
    requires Injective(h)
    ensures h(a, b) == h(c, d) <==> a == c && b == d
  {
  }

  // With an injective hash a branch of the right length proves nothing but the
  // leaf at that position, and can be none but that leaf's branch.
  lemma {:induction false} BranchBinds(h: Combine, level: seq<Hash>, x: Hash, branch: seq<Hash>, n: nat)
    requires Injective(h) && n < |level| && |branch| == |Branch(h, level, n)|
    ensures Climb(h, x, branch, n) == Root(h, level) <==> x == level[n] && branch == Branch(h, level, n)
    decreases |level|
  {
    hide Next;
    if |level| > 1 {
      var up, own := Next(h, level), Branch(h, level, n);
      var y := if n % 2 == 1 then h(branch[0], x) else h(x, branch[0]);
      Parent(h, level, n);
      BranchUp(h, level, n);
      LevelUp(h, level);
      ClimbUp(h, x, branch, n);
      assert own[1..] == Branch(h, up, n / 2);
      BranchBinds(h, up, y, branch[1..], n / 2);
      hide Branch, Climb, Root;
      if n % 2 == 1 {
        Apart(h, branch[0], x, own[0], level[n]);
      } else {
        Apart(h, x, branch[0], level[n], own[0]);
      }
      assert branch == [branch[0]] + branch[1..] && own == [own[0]] + own[1..];
    } else {
      assert branch == [];
    }
  }

  // Trees of one size with one root have the same leaves.
  lemma {:induction false} RootBinds(h: Combine, a: seq<Hash>, b: seq<Hash>)
    requires Injective(h) && |a| == |b| && Root(h, a) == Root(h, b)
    ensures a == b
    decreases |a|
  {
    hide Next;
    if |a| > 1 {
      var u, v := Next(h, a), Next(h, b);
      LevelUp(h, a);
      LevelUp(h, b);
      RootBinds(h, u, v);
      forall i | 0 <= i < |a| ensures a[i] == b[i] {
        Parent(h, a, i);
        Parent(h, b, i);
        var k := Min(Neighbour(i), |a| - 1);
        if i % 2 == 1 {
          Apart(h, a[k], a[i], b[k], b[i]);
        } else {
          Apart(h, a[i], a[k], b[i], b[k]);
        }
      }
    }
  }

  // Of different sizes they need not: an odd number of leaves gives the root
  // of the same leaves with the last one repeated.
  lemma LastRepeated(h: Combine, level: seq<Hash>)
    requires |level| > 1 && |level| % 2 == 1
    ensures Root(h, level) == Root(h, level + [level[|level| - 1]])
  {
    hide Next, Root;
    var longer := level + [level[|level| - 1]];
    LevelUp(h, level);
    LevelUp(h, longer);
    var a, b := Next(h, level), Next(h, longer);
    forall i: nat | i < |a| ensures a[i] == b[i] {
      PairRepeated(h, level, i);
    }
    assert a == b;
  }

  lemma PairRepeated(h: Combine, level: seq<Hash>, i: nat)
    requires |level| > 1 && |level| % 2 == 1 && i < (|level| + 1) / 2
    ensures Next(h, level)[i] == Next(h, level + [level[|level| - 1]])[i]
  {
    hide Next;
    var longer := level + [level[|level| - 1]];
    NextAt(h, level, i);
    NextAt(h, longer, i);
    var k := Min(2 * i + 1, |level| - 1);
    assert longer[2 * i] == level[2 * i];
    assert longer[2 * i + 1] == level[k];
  }
}
