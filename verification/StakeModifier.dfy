// The stake modifier: up to 64 bits, each contributed by a block selected from
// the candidates of a growing time window.
module StakeModifier {
  import opened BlockTree
  import opened Limbs

  const MODIFIER_INTERVAL_RATIO: int := 3
  const ROUNDS: int := 64

  // A candidate: block time and hash.
  type Candidate = (int, BlockHash)

  // Hash of a proof hash and the previous modifier.
  type SelectionHash = (BlockHash, nat) -> nat

  // ------------------------------------------------------------- the window

  function Section(interval: nat, nSection: nat): (s: nat)
    requires nSection < ROUNDS
  {
    QuotientFits(interval * 63, 63 + (63 - nSection) * (MODIFIER_INTERVAL_RATIO - 1));
    interval * 63 / (63 + (63 - nSection) * (MODIFIER_INTERVAL_RATIO - 1))
  }

  // The first n sections together.
  function Sections(interval: nat, n: nat): nat
    requires n <= ROUNDS
  {
    if n == 0 then 0 else Sections(interval, n - 1) + Section(interval, n - 1)
  }

  method GetStakeModifierSelectionInterval(interval: nat) returns (n: nat)
    ensures n == Sections(interval, ROUNDS)
  {
    n := 0;
    for nSection := 0 to ROUNDS
      invariant n == Sections(interval, nSection)
    {
      n := n + Section(interval, nSection);
    }
  }

  lemma DivAnti(a: nat, d: nat, e: nat)
    requires 0 < d <= e
    ensures a / e <= a / d
  {
    var q := a / e;
    QuotientFits(a, e);
    assert q * e <= a;
    MulMono(d, e, q);
    if a / d < q {
      MulMono(a / d + 1, q, d);
      MulAdd(a / d, 1, d);
    }
  }

  // Later sections are not shorter; the last one is the whole interval, and no
  // section is shorter than a third of it.
  lemma SectionsGrow(interval: nat, i: nat, j: nat)
    requires i <= j < ROUNDS
    ensures interval / 3 <= Section(interval, i) <= Section(interval, j) <= interval
    ensures Section(interval, ROUNDS - 1) == interval
  {
    var n := interval * 63;
    DivAnti(n, 63 + (63 - j) * 2, 63 + (63 - i) * 2);
    DivAnti(n, 63, 63 + (63 - j) * 2);
    DivAnti(n, 63 + (63 - i) * 2, 189);
    assert n / 63 == interval;
    DivDiv(n, 63, 3);
  }

  // The length of a section: its fraction of the interval, rounded down.
  lemma SectionLength(interval: nat, n: nat)
    requires n < ROUNDS
    ensures var s, d := Section(interval, n), 63 + 2 * (63 - n); s * d <= 63 * interval < (s + 1) * d
  {
    var d := 63 + 2 * (63 - n);
    MulAdd(interval * 63 / d, 1, d);
  }

  // The end of the window in round k.
  function Stop(start: int, interval: nat, k: nat): int
    requires k < ROUNDS
  {
    start + Sections(interval, k + 1)
  }

  // The window grows, and in the last round ends at the start of the current
  // modifier interval.
  lemma {:induction false} WindowGrows(start: int, interval: nat, i: nat, j: nat)
    requires i <= j < ROUNDS
    ensures start <= Stop(start, interval, i) <= Stop(start, interval, j)
         <= Stop(start, interval, ROUNDS - 1) == start + Sections(interval, ROUNDS)
    decreases ROUNDS - i
  {
    if i < j {
      WindowGrows(start, interval, i + 1, j);
    } else if j < ROUNDS - 1 {
      WindowGrows(start, interval, j + 1, j + 1);
    }
  }

  // ---------------------------------------------------------- the candidates

  function Less(a: Candidate, b: Candidate): bool { a.0 < b.0 || (a.0 == b.0 && a.1 < b.1) }

  ghost predicate Sorted(v: seq<Candidate>) {
    forall i, j | 0 <= i < j < |v| :: v[i] == v[j] || Less(v[i], v[j])
  }

  // By time, and by hash for equal times.
  lemma SortedByTime(v: seq<Candidate>, i: nat, j: nat)
    requires Sorted(v) && i < j < |v|
    ensures v[i].0 < v[j].0 || (v[i].0 == v[j].0 && v[i].1 <= v[j].1)
  {
    assert v[i] == v[j] || Less(v[i], v[j]);
  }

  function Insert(v: seq<Candidate>, x: Candidate): (w: seq<Candidate>)
    ensures multiset(w) == multiset(v) + multiset{x}
  {
    if v == [] || Less(x, v[0]) then
      assert multiset([x] + v) == multiset(v) + multiset{x};
      [x] + v
    else
      assert v == [v[0]] + v[1..];
      [v[0]] + Insert(v[1..], x)
  }

  lemma {:induction false} InsertSorted(v: seq<Candidate>, x: Candidate)
    requires Sorted(v)
    ensures Sorted(Insert(v, x))
  {
    if v != [] && !Less(x, v[0]) {
      var t := Insert(v[1..], x);
      InsertSorted(v[1..], x);
      forall j | 0 <= j < |t| ensures t[j] == v[0] || Less(v[0], t[j]) {
        assert t[j] in multiset(t);
        if t[j] != x {
          assert t[j] in multiset(v[1..]);
        }
      }
    }
  }

  // std::sort
  function Sort(v: seq<Candidate>): (w: seq<Candidate>)
    ensures multiset(w) == multiset(v)
  {
    if v == [] then []
    else
      assert v == v[..|v| - 1] + [v[|v| - 1]];
      Insert(Sort(v[..|v| - 1]), v[|v| - 1])
  }

  lemma {:induction false} SortSorted(v: seq<Candidate>)
    ensures Sorted(Sort(v))
  {
    if v != [] {
      SortSorted(v[..|v| - 1]);
      InsertSorted(Sort(v[..|v| - 1]), v[|v| - 1]);
    }
  }

  // The candidates: the blocks from h back to the first one before the start.
  function Window(t: Tree, h: BlockHash, start: int): seq<Candidate>
    requires WellFormed(t) && h in t
    decreases t[h].nHeight
  {
    if t[h].nTime < start then []
    else
      [(t[h].nTime as int, h)] + match t[h].pprev
                                 case None => []
                                 case Some(p) => Window(t, p, start)
  }

  ghost predicate CandidateOk(t: Tree, c: Candidate, h: BlockHash, start: int, nHeight: int)
    requires WellFormed(t)
  {
    IsAncestor(t, c.1, h) && c.0 == t[c.1].nTime && start <= c.0 && t[c.1].nHeight == nHeight
  }

  // h and the ancestors right below it, with times from the start on; the next
  // ancestor, if there is one, is older.
  ghost predicate WindowOk(t: Tree, v: seq<Candidate>, h: BlockHash, start: int)
    requires WellFormed(t) && h in t
  {
    && |v| <= t[h].nHeight + 1
    && (forall i | 0 <= i < |v| :: CandidateOk(t, v[i], h, start, t[h].nHeight - i))
    && (|v| <= t[h].nHeight ==> t[AncestorAt(t, h, t[h].nHeight - |v|)].nTime < start)
  }

  lemma {:induction false} WindowBlocks(t: Tree, h: BlockHash, start: int)
    requires WellFormed(t) && h in t
    ensures WindowOk(t, Window(t, h, start), h, start)
    decreases t[h].nHeight
  {
    AncestorReflexive(t, h);
    if t[h].nTime >= start && t[h].pprev.Some? {
      var p := t[h].pprev.value;
      WindowBlocks(t, p, start);
      var v, w := Window(t, h, start), Window(t, p, start);
      assert v == [(t[h].nTime as int, h)] + w;
      WindowNext(t, h, v, w, start);
    }
  }

  lemma AncestorBelow(t: Tree, h: BlockHash, k: nat)
    requires WellFormed(t) && h in t && k < t[h].nHeight
    ensures AncestorAt(t, h, k) == AncestorAt(t, t[h].pprev.value, k)
  {
  }

  lemma WindowNext(t: Tree, h: BlockHash, v: seq<Candidate>, w: seq<Candidate>, start: int)
    requires WellFormed(t) && h in t && t[h].pprev.Some? && t[h].nTime >= start
    requires WindowOk(t, w, t[h].pprev.value, start) && v == [(t[h].nTime as int, h)] + w
    ensures WindowOk(t, v, h, start)
  {
    var p := t[h].pprev.value;
    assert p in t && t[p].nHeight == t[h].nHeight - 1;
    hide AncestorAt, WellFormed;
    AncestorReflexive(t, h);
    if |v| <= t[h].nHeight {
      AncestorBelow(t, h, t[h].nHeight - |v|);
    }
    forall i | 0 <= i < |v| ensures CandidateOk(t, v[i], h, start, t[h].nHeight - i) {
      if i > 0 {
        assert CandidateOk(t, w[i - 1], p, start, t[p].nHeight - (i - 1));
        ProperAncestorOfParent(t, w[i - 1].1, h);
      }
    }
  }

  ghost predicate AllDifferent(v: seq<Candidate>) {
    forall i, j | 0 <= i < j < |v| :: v[i].1 != v[j].1
  }

  // The candidates, known from the tree and all different, also when sorted.
  ghost predicate CandidatesOk(t: Tree, v: seq<Candidate>) {
    AllDifferent(v) && forall i | 0 <= i < |v| :: v[i].1 in t && v[i].0 == t[v[i].1].nTime
  }

  lemma WindowIsOk(t: Tree, h: BlockHash, start: int)
    requires WellFormed(t) && h in t
    ensures CandidatesOk(t, Window(t, h, start))
  {
    WindowBlocks(t, h, start);
    var v := Window(t, h, start);
    hide Window;
    forall i | 0 <= i < |v| ensures CandidateOk(t, v[i], h, start, t[h].nHeight - i) {
    }
  }

  // Candidates that differ stay different in any order.
  lemma SameCandidates(t: Tree, v: seq<Candidate>, w: seq<Candidate>)
    requires CandidatesOk(t, v) && multiset(v) == multiset(w)
    ensures CandidatesOk(t, w) && |w| == |v|
  {
    forall i | 0 <= i < |w| ensures w[i] in v {
      assert w[i] in multiset(w);
      assert w[i] in multiset(v);
    }
    forall i, j | 0 <= i < j < |w| ensures w[i].1 != w[j].1 {
      if w[i] == w[j] {
        Twice(w, i, j);
        OnlyOnce(v, w[i]);
      } else {
        var x, y := w[i], w[j];
        assert x in v && y in v;
      }
    }
    assert |multiset(v)| == |v| && |multiset(w)| == |w|;
  }

  lemma Twice(w: seq<Candidate>, i: nat, j: nat)
    requires i < j < |w| && w[i] == w[j]
    ensures multiset(w)[w[i]] >= 2
  {
    assert w == w[..j] + [w[j]] + w[j + 1..];
    assert w[i] in w[..j];
    assert multiset(w) == multiset(w[..j]) + multiset{w[j]} + multiset(w[j + 1..]);
  }

  lemma {:induction false} OnlyOnce(v: seq<Candidate>, x: Candidate)
    requires AllDifferent(v)
    ensures multiset(v)[x] <= 1
  {
    if v != [] {
      var n := |v| - 1;
      assert v == v[..n] + [v[n]];
      OnlyOnce(v[..n], x);
      if v[n] == x {
        assert x !in v[..n];
      }
    }
  }

  // -------------------------------------------------------------- one round

  function HashOf(t: Tree, h: BlockHash, nStakeModifierPrev: nat, hash: SelectionHash): nat
    requires h in t
  {
    var hashProof := if t[h].fProofOfStake then t[h].hashProofOfStake else h;
    var hashSelection := hash(hashProof, nStakeModifierPrev);
    if t[h].fProofOfStake then
      QuotientFits(hashSelection, 0x1_0000_0000);
      hashSelection / 0x1_0000_0000
    else hashSelection
  }

  // Candidate i has not been selected yet.
  predicate Free(v: seq<Candidate>, taken: set<BlockHash>, i: int) {
    0 <= i < |v| && v[i].1 !in taken
  }

  predicate Inside(v: seq<Candidate>, taken: set<BlockHash>, stop: int, i: int) {
    Free(v, taken, i) && v[i].0 <= stop
  }

  // i comes before j in the order of selection hashes, ties going to the
  // earlier candidate.
  predicate Before(t: Tree, v: seq<Candidate>, m: nat, hash: SelectionHash, i: int, j: int)
    requires 0 <= i < |v| && 0 <= j < |v| && v[i].1 in t && v[j].1 in t
  {
    var a, b := HashOf(t, v[i].1, m, hash), HashOf(t, v[j].1, m, hash);
    a < b || (a == b && i <= j)
  }

  // The rule of selection: the least hash among the free candidates inside the
  // window or, when there are none, the first free candidate.
  ghost predicate Picks(t: Tree, v: seq<Candidate>, taken: set<BlockHash>, stop: int, m: nat, hash: SelectionHash,
                        i: int)
    requires CandidatesOk(t, v)
  {
    && Free(v, taken, i)
    && (forall j | Inside(v, taken, stop, j) :: v[i].0 <= stop && Before(t, v, m, hash, i, j))
    && (v[i].0 > stop ==> forall j | 0 <= j < i :: !Free(v, taken, j))
  }

  lemma PicksUnique(t: Tree, v: seq<Candidate>, taken: set<BlockHash>, stop: int, m: nat, hash: SelectionHash, i: int,
                    j: int)
    requires CandidatesOk(t, v)
    requires Picks(t, v, taken, stop, m, hash, i) && Picks(t, v, taken, stop, m, hash, j)
    ensures i == j
  {
    if v[i].0 <= stop {
      assert Inside(v, taken, stop, i);
    }
    if v[j].0 <= stop {
      assert Inside(v, taken, stop, j);
    }
  }

  // What is compared: the selection hash of a block's own hash for proof of
  // work, of its proof hash and divided by 2^32 for proof of stake.
  lemma PickedIsLeast(t: Tree, v: seq<Candidate>, taken: set<BlockHash>, stop: int, m: nat, hash: SelectionHash, i: int)
    requires CandidatesOk(t, v) && Picks(t, v, taken, stop, m, hash, i)
    ensures 0 <= i < |v| && v[i].1 !in taken
    ensures forall j | 0 <= j < |v| && v[j].1 !in taken && v[j].0 <= stop ::
      var a, b := v[i].1, v[j].1;
      && v[i].0 <= stop
      && (!t[a].fProofOfStake && !t[b].fProofOfStake ==>
            hash(a, m) < hash(b, m) || (hash(a, m) == hash(b, m) && i <= j))
      && (!t[a].fProofOfStake && t[b].fProofOfStake ==>
            var s := hash(t[b].hashProofOfStake, m) / 0x1_0000_0000; hash(a, m) < s || (hash(a, m) == s && i <= j))
      && (t[a].fProofOfStake && !t[b].fProofOfStake ==>
            var s := hash(t[a].hashProofOfStake, m) / 0x1_0000_0000; s < hash(b, m) || (s == hash(b, m) && i <= j))
      && (t[a].fProofOfStake && t[b].fProofOfStake ==>
            var r, s := hash(t[a].hashProofOfStake, m) / 0x1_0000_0000, hash(t[b].hashProofOfStake, m) / 0x1_0000_0000;
            r < s || (r == s && i <= j))
    ensures v[i].0 > stop ==> forall j | 0 <= j < i :: v[j].1 in taken
  {
    forall j | 0 <= j < |v| && v[j].1 !in taken && v[j].0 <= stop ensures Inside(v, taken, stop, j) {
    }
    if v[i].0 > stop {
      forall j | 0 <= j < i ensures v[j].1 in taken {
        assert !Free(v, taken, j);
      }
    }
  }

  // With hashes of 256 bits, a block of proof of work is taken before one of
  // proof of stake only if its hash is below 2^224.
  lemma StakeFavored(t: Tree, v: seq<Candidate>, taken: set<BlockHash>, stop: int, m: nat, hash: SelectionHash, i: int,
                     j: int)
    requires CandidatesOk(t, v) && Picks(t, v, taken, stop, m, hash, i)
    requires forall h :: hash(h, m) < Pow2(256)
    requires 0 <= j < |v| && v[j].1 !in taken && v[j].0 <= stop
    requires !t[v[i].1].fProofOfStake && t[v[j].1].fProofOfStake
    ensures hash(v[i].1, m) < Pow2(224)
  {
    hide Pow2, Picks;
    PickedIsLeast(t, v, taken, stop, m, hash, i);
    Pow2Add(224, 32);
    Pow2Small();
    assert hash(t[v[j].1].hashProofOfStake, m) < Pow2(224) * 0x1_0000_0000;
  }

  method SelectBlockFromCandidates(t: Tree, v: seq<Candidate>, taken: set<BlockHash>, nSelectionIntervalStop: int,
                                   nStakeModifierPrev: nat, hash: SelectionHash)
    returns (fSelected: bool, pindexSelected: BlockHash, ghost i: int)
    requires CandidatesOk(t, v) && Sorted(v)
    ensures fSelected <==> exists j :: Free(v, taken, j)
    ensures fSelected ==> Picks(t, v, taken, nSelectionIntervalStop, nStakeModifierPrev, hash, i)
    ensures fSelected ==> pindexSelected == v[i].1
  {
    fSelected, pindexSelected, i := false, 0, -1;
    var hashBest := 0;
    var n := 0;
    while n < |v|
      invariant n <= |v|
      invariant !fSelected ==> forall j | 0 <= j < n :: !Free(v, taken, j)
      invariant fSelected ==> Free(v, taken, i) && i < n && pindexSelected == v[i].1
                              && hashBest == HashOf(t, v[i].1, nStakeModifierPrev, hash)
      invariant fSelected && v[i].0 > nSelectionIntervalStop ==> forall j | 0 <= j < i :: !Free(v, taken, j)
      invariant fSelected ==> forall j | 0 <= j < n && Inside(v, taken, nSelectionIntervalStop, j) ::
                                v[i].0 <= nSelectionIntervalStop && Before(t, v, nStakeModifierPrev, hash, i, j)
    {
      var h := v[n].1;
      if fSelected && t[h].nTime > nSelectionIntervalStop {
        forall j | n <= j < |v| ensures v[j].0 > nSelectionIntervalStop {
          assert n < j ==> v[n] == v[j] || Less(v[n], v[j]);
        }
        break;
      }
      if h !in taken {
        assert Free(v, taken, n);
        var hashSelection := HashOf(t, h, nStakeModifierPrev, hash);
        if fSelected && hashSelection < hashBest {
          hashBest, pindexSelected, i := hashSelection, h, n;
        } else if !fSelected {
          fSelected, hashBest, pindexSelected, i := true, hashSelection, h, n;
        }
      }
      n := n + 1;
    }
  }

  // --------------------------------------------------------------- all rounds

  function TakenBy(v: seq<Candidate>, chosen: seq<int>): set<BlockHash> {
    set i | i in chosen && 0 <= i < |v| :: v[i].1
  }

  // Round k picks chosen[k] among what the earlier rounds have left.
  ghost predicate PickedAt(t: Tree, v: seq<Candidate>, start: int, interval: nat, m: nat, hash: SelectionHash,
                           chosen: seq<int>, k: int)
    requires CandidatesOk(t, v) && 0 <= k < |chosen| <= ROUNDS
  {
    Picks(t, v, TakenBy(v, chosen[..k]), Stop(start, interval, k), m, hash, chosen[k])
  }

  ghost predicate Picked(t: Tree, v: seq<Candidate>, start: int, interval: nat, m: nat, hash: SelectionHash,
                         chosen: seq<int>)
    requires CandidatesOk(t, v)
  {
    |chosen| <= ROUNDS && forall k | 0 <= k < |chosen| :: PickedAt(t, v, start, interval, m, hash, chosen, k)
  }

  // The selected blocks are pairwise distinct.
  lemma PickedDistinct(t: Tree, v: seq<Candidate>, start: int, interval: nat, m: nat, hash: SelectionHash,
                       chosen: seq<int>)
    requires CandidatesOk(t, v) && Picked(t, v, start, interval, m, hash, chosen)
    ensures forall k | 0 <= k < |chosen| :: 0 <= chosen[k] < |v|
    ensures forall j, k | 0 <= j < k < |chosen| :: v[chosen[j]].1 != v[chosen[k]].1
  {
    forall k | 0 <= k < |chosen| ensures 0 <= chosen[k] < |v| {
      assert PickedAt(t, v, start, interval, m, hash, chosen, k);
    }
    forall j, k | 0 <= j < k < |chosen| ensures v[chosen[j]].1 != v[chosen[k]].1 {
      assert PickedAt(t, v, start, interval, m, hash, chosen, k);
      assert chosen[..k][j] == chosen[j] && chosen[j] in chosen[..k];
      assert v[chosen[j]].1 in TakenBy(v, chosen[..k]);
    }
  }

  // The rounds leave no choice: the selection is determined by the candidates.
  lemma {:induction false} PickedUnique(t: Tree, v: seq<Candidate>, start: int, interval: nat, m: nat,
                                        hash: SelectionHash, a: seq<int>, b: seq<int>)
    requires CandidatesOk(t, v) && |a| == |b|
    requires Picked(t, v, start, interval, m, hash, a) && Picked(t, v, start, interval, m, hash, b)
    ensures a == b
    decreases |a|
  {
    if |a| > 0 {
      var n := |a| - 1;
      PickedPrefix(t, v, start, interval, m, hash, a, n);
      PickedPrefix(t, v, start, interval, m, hash, b, n);
      PickedUnique(t, v, start, interval, m, hash, a[..n], b[..n]);
      assert PickedAt(t, v, start, interval, m, hash, a, n) && PickedAt(t, v, start, interval, m, hash, b, n);
      PicksUnique(t, v, TakenBy(v, a[..n]), Stop(start, interval, n), m, hash, a[n], b[n]);
      assert a == a[..n] + [a[n]] && b == b[..n] + [b[n]];
    }
  }

  lemma PickedPrefix(t: Tree, v: seq<Candidate>, start: int, interval: nat, m: nat, hash: SelectionHash,
                     chosen: seq<int>, n: nat)
    requires CandidatesOk(t, v) && Picked(t, v, start, interval, m, hash, chosen) && n <= |chosen|
    ensures Picked(t, v, start, interval, m, hash, chosen[..n])
  {
    forall k | 0 <= k < n ensures PickedAt(t, v, start, interval, m, hash, chosen[..n], k) {
      assert PickedAt(t, v, start, interval, m, hash, chosen, k);
      assert chosen[..n][..k] == chosen[..k];
    }
  }

  lemma PickedNext(t: Tree, v: seq<Candidate>, start: int, interval: nat, m: nat, hash: SelectionHash,
                   chosen: seq<int>, i: int)
    requires CandidatesOk(t, v) && Picked(t, v, start, interval, m, hash, chosen) && |chosen| < ROUNDS
    requires Picks(t, v, TakenBy(v, chosen), Stop(start, interval, |chosen|), m, hash, i)
    ensures Picked(t, v, start, interval, m, hash, chosen + [i])
    ensures TakenBy(v, chosen + [i]) == TakenBy(v, chosen) + {v[i].1}
  {
    var chosen' := chosen + [i];
    forall k | 0 <= k < |chosen'| ensures PickedAt(t, v, start, interval, m, hash, chosen', k) {
      if k < |chosen| {
        assert PickedAt(t, v, start, interval, m, hash, chosen, k);
        assert chosen'[..k] == chosen[..k];
      } else {
        assert chosen'[..k] == chosen;
      }
    }
    forall h ensures h in TakenBy(v, chosen') <==> h in TakenBy(v, chosen) + {v[i].1} {
      if h == v[i].1 {
        assert i in chosen';
      }
      if h in TakenBy(v, chosen) {
        var j :| j in chosen && 0 <= j < |v| && v[j].1 == h;
        assert j in chosen';
      }
    }
  }

  // As long as there are fewer rounds than candidates, one is free.
  lemma FreeLeft(t: Tree, v: seq<Candidate>, chosen: seq<int>) returns (i: int)
    requires CandidatesOk(t, v) && |chosen| < |v|
    ensures Free(v, TakenBy(v, chosen), i)
  {
    i := Missing(chosen, |v|);
    assert forall j | j in chosen && 0 <= j < |v| :: v[j].1 != v[i].1;
  }

  lemma {:induction false} Missing(s: seq<int>, n: nat) returns (i: int)
    requires |s| < n
    ensures 0 <= i < n && i !in s
  {
    if n - 1 !in s {
      i := n - 1;
    } else {
      var j :| 0 <= j < |s| && s[j] == n - 1;
      i := Missing(s[..j] + s[j + 1..], n - 1);
      Without(s, j, i);
    }
  }

  lemma Without(s: seq<int>, j: nat, x: int)
    requires j < |s| && x != s[j]
    ensures x in s <==> x in s[..j] + s[j + 1..]
  {
    assert s == s[..j] + [s[j]] + s[j + 1..];
  }

  // Bit k of the modifier is the entropy bit of the block of round k, and
  // there are no other bits.
  ghost predicate BitsOf(t: Tree, v: seq<Candidate>, chosen: seq<int>, modifier: nat) {
    && modifier < Pow2(|chosen|)
    && forall k | 0 <= k < |chosen| ::
         0 <= chosen[k] < |v| && v[chosen[k]].1 in t
         && modifier / Pow2(k) % 2 == t[v[chosen[k]].1].nStakeEntropyBit
  }

  lemma BitsNext(t: Tree, v: seq<Candidate>, chosen: seq<int>, modifier: nat, i: int)
    requires BitsOf(t, v, chosen, modifier) && 0 <= i < |v| && v[i].1 in t && t[v[i].1].nStakeEntropyBit <= 1
    ensures var m' := BitOr(modifier, t[v[i].1].nStakeEntropyBit * Pow2(|chosen|)); BitsOf(t, v, chosen + [i], m')
  {
    var n, bit := |chosen|, t[v[i].1].nStakeEntropyBit;
    AddBit(modifier, bit, n);
    var m', chosen' := modifier + bit * Pow2(n), chosen + [i];
    hide Pow2, BitOr;
    forall k | 0 <= k < |chosen'|
      ensures 0 <= chosen'[k] < |v| && v[chosen'[k]].1 in t
      ensures m' / Pow2(k) % 2 == t[v[chosen'[k]].1].nStakeEntropyBit
    {
      if k < n {
        assert chosen'[k] == chosen[k];
        HigherBit(modifier, bit, k, n);
      }
    }
  }

  lemma AddBit(m: nat, bit: nat, n: nat)
    requires m < Pow2(n) && bit <= 1
    ensures BitOr(m, bit * Pow2(n)) == m + bit * Pow2(n) < Pow2(n + 1)
    ensures (m + bit * Pow2(n)) / Pow2(n) % 2 == bit
  {
    DivModUnique(bit * Pow2(n), Pow2(n), bit, 0);
    OrDisjoint(bit * Pow2(n), m, n);
    DivModUnique(m + bit * Pow2(n), Pow2(n), bit, m);
  }

  // Adding a multiple of 2^n leaves bit k below n alone.
  lemma HigherBit(m: nat, b: nat, k: nat, n: nat)
    requires k < n
    ensures (m + b * Pow2(n)) / Pow2(k) % 2 == m / Pow2(k) % 2
  {
    Pow2Add(n - k, k);
    assert Pow2(n - k) == 2 * Pow2(n - k - 1);
    hide Pow2;
    KeptBit(m, b, Pow2(k), Pow2(n - k - 1));
  }

  lemma KeptBit(m: nat, b: nat, p: nat, u: nat)
    requires p >= 1
    ensures (m + b * (2 * u * p)) / p % 2 == m / p % 2
  {
    var q, r, e := m / p, m % p, b * u;
    assert b * (2 * u * p) == (e + e) * p by {
      MulAssoc(b, 2 * u, p);
      MulAdd(u, u, b);
    }
    MulAdd(q, e + e, p);
    DivModUnique(m + b * (2 * u * p), p, q + e + e, r);
  }

  // -------------------------------------------------------------- the modifier

  // The last block that generated a modifier, or the root.
  function LastGenerated(t: Tree, h: BlockHash): (g: BlockHash)
    requires WellFormed(t) && h in t
    ensures g in t
    decreases t[h].nHeight
  {
    if t[h].pprev.None? || t[h].fGeneratedStakeModifier then h else LastGenerated(t, t[h].pprev.value)
  }

  // It is the nearest generating ancestor, if there is one.
  lemma {:induction false} LastGeneratedIsNearest(t: Tree, h: BlockHash)
    requires WellFormed(t) && h in t
    ensures var g := LastGenerated(t, h);
      && IsAncestor(t, g, h)
      && (forall a | IsAncestor(t, a, h) && t[a].fGeneratedStakeModifier :: t[a].nHeight <= t[g].nHeight)
      && (t[g].fGeneratedStakeModifier <==> exists a :: IsAncestor(t, a, h) && t[a].fGeneratedStakeModifier)
    decreases t[h].nHeight
  {
    AncestorReflexive(t, h);
    forall a ensures IsAncestor(t, a, h) <==> a == h || (t[h].pprev.Some? && IsAncestor(t, a, t[h].pprev.value)) {
      if IsProperAncestor(t, a, h) || (t[h].pprev.Some? && IsAncestor(t, a, t[h].pprev.value)) {
        ProperAncestorOfParent(t, a, h);
      }
    }
    if t[h].pprev.Some? && !t[h].fGeneratedStakeModifier {
      LastGeneratedIsNearest(t, t[h].pprev.value);
    }
  }

  method GetLastStakeModifier(t: Tree, h: BlockHash) returns (ok: bool, nStakeModifier: nat, nModifierTime: int)
    requires WellFormed(t) && h in t
    ensures var g := LastGenerated(t, h);
      ok == t[g].fGeneratedStakeModifier
      && (ok ==> nStakeModifier == t[g].nStakeModifier && nModifierTime == t[g].nTime)
  {
    var pindex := h;
    while t[pindex].pprev.Some? && !t[pindex].fGeneratedStakeModifier
      invariant pindex in t && LastGenerated(t, pindex) == LastGenerated(t, h)
      decreases t[pindex].nHeight
    {
      pindex := t[pindex].pprev.value;
    }
    if !t[pindex].fGeneratedStakeModifier {
      return false, 0, 0;
    }
    return true, t[pindex].nStakeModifier, t[pindex].nTime;
  }

  // The loop that collects the candidates.
  method Collect(t: Tree, h: BlockHash, start: int) returns (v: seq<Candidate>)
    requires WellFormed(t) && h in t
    ensures v == Window(t, h, start)
  {
    v := [];
    var pindex := Some(h);
    while pindex.Some? && t[pindex.value].nTime >= start
      invariant pindex.Some? ==> pindex.value in t && Window(t, h, start) == v + Window(t, pindex.value, start)
      invariant pindex.None? ==> Window(t, h, start) == v
      decreases if pindex.Some? then t[pindex.value].nHeight + 1 else 0
    {
      var p := pindex.value;
      v := v + [(t[p].nTime as int, p)];
      pindex := t[p].pprev;
    }
  }

  // The selection loop: exactly min(64, n) rounds, and none of them fails.
  method Select(t: Tree, v: seq<Candidate>, start: int, interval: nat, nStakeModifier: nat, hash: SelectionHash)
    returns (ok: bool, nStakeModifierNew: nat, ghost chosen: seq<int>)
    requires CandidatesOk(t, v) && Sorted(v) && forall h | h in t :: t[h].nStakeEntropyBit <= 1
    ensures ok && |chosen| == (if |v| < ROUNDS then |v| else ROUNDS)
    ensures Picked(t, v, start, interval, nStakeModifier, hash, chosen) && BitsOf(t, v, chosen, nStakeModifierNew)
  {
    assert Pow2(0) == 1 && Sections(interval, 0) == 0;
    hide Pow2, BitOr, CandidatesOk, Picks, Picked, BitsOf, TakenBy, Sorted, Section, Free;
    nStakeModifierNew, chosen := 0, [];
    var nSelectionIntervalStop := start;
    var mapSelectedBlocks: set<BlockHash> := {};
    PickNone(t, v, start, interval, nStakeModifier, hash);
    for nRound := 0 to if |v| < ROUNDS then |v| else ROUNDS
      invariant |chosen| == nRound && nSelectionIntervalStop == start + Sections(interval, nRound)
      invariant mapSelectedBlocks == TakenBy(v, chosen)
      invariant Picked(t, v, start, interval, nStakeModifier, hash, chosen)
      invariant BitsOf(t, v, chosen, nStakeModifierNew)
    {
      nSelectionIntervalStop := nSelectionIntervalStop + Section(interval, nRound);
      ghost var free := FreeLeft(t, v, chosen);
      var fSelected, pindex, i := SelectBlockFromCandidates(t, v, mapSelectedBlocks, nSelectionIntervalStop,
                                                            nStakeModifier, hash);
      ok := fSelected;
      if !fSelected {
        return;
      }
      PickKnown(t, v, mapSelectedBlocks, nSelectionIntervalStop, nStakeModifier, hash, i);
      BitsNext(t, v, chosen, nStakeModifierNew, i);
      PickedNext(t, v, start, interval, nStakeModifier, hash, chosen, i);
      nStakeModifierNew := BitOr(nStakeModifierNew, t[pindex].nStakeEntropyBit * Pow2(nRound));
      mapSelectedBlocks := mapSelectedBlocks + {pindex};
      chosen := chosen + [i];
    }
    ok := true;
  }

  lemma PickNone(t: Tree, v: seq<Candidate>, start: int, interval: nat, m: nat, hash: SelectionHash)
    requires CandidatesOk(t, v)
    ensures Picked(t, v, start, interval, m, hash, []) && TakenBy(v, []) == {} && BitsOf(t, v, [], 0)
  {
  }

  lemma PickKnown(t: Tree, v: seq<Candidate>, taken: set<BlockHash>, stop: int, m: nat, hash: SelectionHash, i: int)
    requires CandidatesOk(t, v) && Picks(t, v, taken, stop, m, hash, i)
    ensures 0 <= i < |v| && v[i].1 in t
  {
  }

  // The time of the modifier interval a time falls in.
  function IntervalStart(nTime: nat, interval: nat): nat
    requires interval > 0
  {
    QuotientFits(nTime, interval);
    MulMono(0, nTime / interval, interval);
    nTime / interval * interval
  }

  // The last multiple of the interval that is not later.
  lemma IntervalStarts(nTime: nat, interval: nat)
    requires interval > 0
    ensures var start := IntervalStart(nTime, interval); start <= nTime < start + interval && start % interval == 0
  {
    var q := nTime / interval;
    DivModUnique(q * interval, interval, q, 0);
  }

  // A new modifier after h, with the candidates and the rounds it comes from.
  ghost predicate Generates(t: Tree, h: BlockHash, interval: nat, hash: SelectionHash, m: nat, v: seq<Candidate>,
                            chosen: seq<int>, modifier: nat)
    requires WellFormed(t) && h in t && interval > 0
  {
    var start := IntervalStart(t[h].nTime, interval) - Sections(interval, ROUNDS);
    && v == Sort(Window(t, h, start)) && CandidatesOk(t, v)
    && |chosen| == (if |v| < ROUNDS then |v| else ROUNDS)
    && Picked(t, v, start, interval, m, hash, chosen) && BitsOf(t, v, chosen, modifier)
  }

  // There is only one such modifier.
  lemma GeneratesUnique(t: Tree, h: BlockHash, interval: nat, hash: SelectionHash, m: nat, v: seq<Candidate>,
                        chosen: seq<int>, modifier: nat, v': seq<Candidate>, chosen': seq<int>, modifier': nat)
    requires WellFormed(t) && h in t && interval > 0
    requires Generates(t, h, interval, hash, m, v, chosen, modifier)
    requires Generates(t, h, interval, hash, m, v', chosen', modifier')
    ensures v == v' && chosen == chosen' && modifier == modifier'
  {
    hide Picked, BitsOf, CandidatesOk, Sort, Window;
    var start := IntervalStart(t[h].nTime, interval) - Sections(interval, ROUNDS);
    PickedUnique(t, v, start, interval, m, hash, chosen, chosen');
    BitsUnique(t, v, chosen, modifier, modifier');
  }

  lemma {:induction false} BitsUnique(t: Tree, v: seq<Candidate>, chosen: seq<int>, a: nat, b: nat)
    requires BitsOf(t, v, chosen, a) && BitsOf(t, v, chosen, b)
    ensures a == b
  {
    forall k: nat | k < |chosen| ensures a / Pow2(k) % 2 == b / Pow2(k) % 2 {
      assert a / Pow2(k) % 2 == t[v[chosen[k]].1].nStakeEntropyBit;
    }
    SameBits(a, b, |chosen|);
  }

  // Numbers with the same n bits.
  lemma {:induction false} SameBits(a: nat, b: nat, n: nat)
    requires a < Pow2(n) && b < Pow2(n) && forall k: nat | k < n :: a / Pow2(k) % 2 == b / Pow2(k) % 2
    ensures a == b
    decreases n
  {
    if n > 0 {
      assert a / Pow2(0) % 2 == b / Pow2(0) % 2;
      forall k: nat | k < n - 1 ensures a / 2 / Pow2(k) % 2 == b / 2 / Pow2(k) % 2 {
        DivDiv(a, 2, Pow2(k));
        DivDiv(b, 2, Pow2(k));
        assert Pow2(k + 1) == Pow2(k) * 2;
        assert a / Pow2(k + 1) % 2 == b / Pow2(k + 1) % 2;
      }
      SameBits(a / 2, b / 2, n - 1);
    }
  }

  method ComputeNextStakeModifier(t: Tree, pindexPrev: Option<BlockHash>, interval: nat, hash: SelectionHash)
    returns (ok: bool, nStakeModifier: nat, fGeneratedStakeModifier: bool, ghost v: seq<Candidate>,
             ghost chosen: seq<int>)
    requires WellFormed(t) && (pindexPrev.Some? ==> pindexPrev.value in t) && interval > 0
    requires forall h | h in t :: t[h].nStakeEntropyBit <= 1
    ensures pindexPrev.None? ==> ok && nStakeModifier == 0 && fGeneratedStakeModifier
    ensures pindexPrev.Some? ==> ok == t[LastGenerated(t, pindexPrev.value)].fGeneratedStakeModifier
    ensures pindexPrev.Some? && ok ==>
      var h := pindexPrev.value; var g := LastGenerated(t, h);
      && fGeneratedStakeModifier == (t[g].nTime / interval < t[h].nTime / interval)
      && if fGeneratedStakeModifier then Generates(t, h, interval, hash, t[g].nStakeModifier, v, chosen, nStakeModifier)
         else nStakeModifier == t[g].nStakeModifier
  {
    hide LastGenerated, Generates;
    nStakeModifier, fGeneratedStakeModifier, v, chosen := 0, false, [], [];
    if pindexPrev.None? {
      return true, 0, true, [], [];
    }
    var h := pindexPrev.value;
    var nModifierTime;
    ok, nStakeModifier, nModifierTime := GetLastStakeModifier(t, h);
    if !ok {
      return;
    }
    if nModifierTime / interval >= t[h].nTime / interval {
      return;
    }
    ok, nStakeModifier, v, chosen := Regenerate(t, h, interval, nStakeModifier, hash);
    fGeneratedStakeModifier := true;
  }

  // From the start of the selection interval to the new modifier.
  method Regenerate(t: Tree, h: BlockHash, interval: nat, nStakeModifier: nat, hash: SelectionHash)
    returns (ok: bool, nStakeModifierNew: nat, ghost v: seq<Candidate>, ghost chosen: seq<int>)
    requires WellFormed(t) && h in t && interval > 0 && forall h | h in t :: t[h].nStakeEntropyBit <= 1
    ensures ok && Generates(t, h, interval, hash, nStakeModifier, v, chosen, nStakeModifierNew)
  {
    hide CandidatesOk, Picked, BitsOf, Sort, Window, Sections, Sorted;
    var nSelectionInterval := GetStakeModifierSelectionInterval(interval);
    var start := IntervalStart(t[h].nTime, interval) - nSelectionInterval;
    var vSortedByTimestamp := Collect(t, h, start);
    ghost var unsorted := vSortedByTimestamp;
    WindowIsOk(t, h, start);
    SortSorted(vSortedByTimestamp);
    vSortedByTimestamp := Sort(vSortedByTimestamp);
    SameCandidates(t, unsorted, vSortedByTimestamp);
    v := vSortedByTimestamp;
    ok, nStakeModifierNew, chosen := Select(t, vSortedByTimestamp, start, interval, nStakeModifier, hash);
  }
}
