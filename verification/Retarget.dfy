// The target of the next block: GetNextTargetRequired and ComputeMaxBits.
module Retarget {
  import opened BlockTree
  import opened Limbs
  import Compact

  const nTargetTimespan: int := 60 * 60 * 4
  const nTargetSpacingWorkMax: int := 2 * 30
  const DAY: int := 24 * 60 * 60

  // The division of CBigNum, towards zero.
  function TruncDiv(a: int, b: int): int
    requires b > 0
  {
    if a >= 0 then a / b else -((-a) / b)
  }

  function Min(a: int, b: int): int { if a < b then a else b }

  // The next target, before it is rounded to compact form.
  function NextTarget(target: int, limit: nat, spacing: int, actual: int): int
    requires spacing > 0
  {
    Min(Moved(target, spacing, actual), limit)
  }

  // The exponential move towards the target spacing.
  function Moved(target: int, spacing: int, actual: int): int
    requires spacing > 0
  {
    var interval := nTargetTimespan / spacing;
    Positive(spacing);
    TruncDiv(target * ((interval - 1) * spacing + actual + actual), (interval + 1) * spacing)
  }

  lemma Positive(spacing: int)
    requires spacing > 0
    ensures nTargetTimespan / spacing >= 0 && (nTargetTimespan / spacing + 1) * spacing > nTargetTimespan
    ensures spacing <= nTargetTimespan ==> nTargetTimespan / spacing >= 1
  {
    var q, r := nTargetTimespan / spacing, nTargetTimespan % spacing;
    assert nTargetTimespan == q * spacing + r;
    QuotientFits(nTargetTimespan, spacing);
    MulAdd(q, 1, spacing);
    if q == 0 && spacing <= nTargetTimespan {
      DivModUnique(nTargetTimespan, spacing, q, r);
    }
  }

  // The nearest block of the given kind on the way to the root, or the root.
  ghost predicate LastOf(t: Tree, h: BlockHash, fProofOfStake: bool, r: BlockHash)
    requires WellFormed(t)
  {
    && IsAncestor(t, r, h) && (t[r].pprev.None? || t[r].fProofOfStake == fProofOfStake)
    && forall a | IsAncestor(t, a, h) && t[a].nHeight > t[r].nHeight :: t[a].fProofOfStake != fProofOfStake
  }

  function Last(t: Tree, h: BlockHash, fProofOfStake: bool): (r: BlockHash)
    requires WellFormed(t) && h in t
    ensures r in t && t[r].nHeight <= t[h].nHeight
    ensures t[r].pprev.None? || t[r].fProofOfStake == fProofOfStake
    decreases t[h].nHeight
  {
    if t[h].pprev.None? || t[h].fProofOfStake == fProofOfStake then h else Last(t, t[h].pprev.value, fProofOfStake)
  }

  method GetLastBlockIndex(t: Tree, h: BlockHash, fProofOfStake: bool) returns (r: BlockHash)
    requires WellFormed(t) && h in t
    ensures r == Last(t, h, fProofOfStake)
  {
    r := h;
    while t[r].pprev.Some? && t[r].fProofOfStake != fProofOfStake
      invariant r in t && Last(t, r, fProofOfStake) == Last(t, h, fProofOfStake)
      decreases t[r].nHeight
    {
      r := t[r].pprev.value;
    }
  }

  lemma {:induction false} LastIsNearest(t: Tree, h: BlockHash, fProofOfStake: bool)
    requires WellFormed(t) && h in t
    ensures LastOf(t, h, fProofOfStake, Last(t, h, fProofOfStake))
    decreases t[h].nHeight
  {
    AncestorReflexive(t, h);
    if t[h].pprev.Some? && t[h].fProofOfStake != fProofOfStake {
      var p := t[h].pprev.value;
      LastIsNearest(t, p, fProofOfStake);
      forall a | IsAncestor(t, a, h) && t[a].nHeight > t[Last(t, h, fProofOfStake)].nHeight
        ensures t[a].fProofOfStake != fProofOfStake
      {
        if a != h {
          ProperAncestorOfParent(t, a, h);
        }
      }
    }
  }

  // There is only one such block.
  lemma LastUnique(t: Tree, h: BlockHash, fProofOfStake: bool, r: BlockHash, r': BlockHash)
    requires WellFormed(t) && LastOf(t, h, fProofOfStake, r) && LastOf(t, h, fProofOfStake, r')
    ensures r == r'
  {
    NotLower(t, h, fProofOfStake, r, r');
    NotLower(t, h, fProofOfStake, r', r);
  }

  lemma NotLower(t: Tree, h: BlockHash, fProofOfStake: bool, r: BlockHash, r': BlockHash)
    requires WellFormed(t) && LastOf(t, h, fProofOfStake, r) && LastOf(t, h, fProofOfStake, r')
    ensures t[r].nHeight >= t[r'].nHeight
  {
    hide AncestorAt;
    assert IsAncestor(t, r', h);
    assert t[r'].pprev.None? ==> t[r'].nHeight == 0;
  }

  // The clamp on the actual spacing.
  function Clamped(spacing: int): (s: int)
    ensures 0 <= s <= nTargetTimespan && (0 <= spacing <= nTargetTimespan ==> s == spacing)
  {
    if spacing < 0 then 1 else if spacing > nTargetTimespan then nTargetTimespan else spacing
  }

  // The target required after pindexLast, before rounding: the limit for the
  // first blocks of a kind, and then a move of the last one's target.
  function Required(t: Tree, pindexLast: Option<BlockHash>, fProofOfStake: bool, limit: nat,
                    nStakeTargetSpacing: int): int
    requires WellFormed(t) && (pindexLast.Some? ==> pindexLast.value in t) && nStakeTargetSpacing > 0
  {
    if pindexLast.None? then limit
    else
      var prev := Last(t, pindexLast.value, fProofOfStake);
      if t[prev].pprev.None? then limit
      else
        var prevPrev := Last(t, t[prev].pprev.value, fProofOfStake);
        if t[prevPrev].pprev.None? then limit
        else
          var gap := 1 + t[pindexLast.value].nHeight - t[prev].nHeight;
          NextTarget(Compact.SignedDecode(t[prev].nBits), limit, TargetSpacing(fProofOfStake, nStakeTargetSpacing, gap),
                     Clamped(t[prev].nTime - t[prevPrev].nTime))
  }

  // What GetCompact makes of a number.
  function CompactOf(x: int): nat { Compact.Encode(Compact.Abs(x), x < 0) % 0x1_0000_0000 }

  lemma LimitCompact(limit: nat)
    ensures CompactOf(limit) == Compact.Encode(Compact.Abs(limit), false) % 0x1_0000_0000
  {
  }

  // GetNextTargetRequired; nStakeTargetSpacing is what the rules say.
  method GetNextTargetRequired(t: Tree, pindexLast: Option<BlockHash>, fProofOfStake: bool, bnProofOfWorkLimit: nat,
                               bnProofOfStakeLimit: nat, nStakeTargetSpacing: int)
    returns (nBits: nat)
    requires WellFormed(t) && (pindexLast.Some? ==> pindexLast.value in t)
    requires forall h | h in t :: t[h].nBits < 0x1_0000_0000
    requires nStakeTargetSpacing > 0
    ensures nBits == CompactOf(Required(t, pindexLast, fProofOfStake,
                                        if fProofOfStake then bnProofOfStakeLimit else bnProofOfWorkLimit,
                                        nStakeTargetSpacing))
  {
    hide Last, CompactOf, NextTarget, Compact.SignedDecode;
    var bnTargetLimit := bnProofOfWorkLimit;
    if fProofOfStake {
      bnTargetLimit := bnProofOfStakeLimit;
    }
    LimitCompact(bnTargetLimit);
    if pindexLast.None? {
      nBits := Compact.GetCompact(bnTargetLimit);
      return;
    }
    var pindexPrev := GetLastBlockIndex(t, pindexLast.value, fProofOfStake);
    if t[pindexPrev].pprev.None? {
      nBits := Compact.GetCompact(bnTargetLimit);
      return;
    }
    var pindexPrevPrev := GetLastBlockIndex(t, t[pindexPrev].pprev.value, fProofOfStake);
    if t[pindexPrevPrev].pprev.None? {
      nBits := Compact.GetCompact(bnTargetLimit);
      return;
    }
    var nActualSpacing: int := t[pindexPrev].nTime as int - t[pindexPrevPrev].nTime as int;
    if nActualSpacing < 0 {
      nActualSpacing := 1;
    } else if nActualSpacing > nTargetTimespan {
      nActualSpacing := nTargetTimespan;
    }
    var nTargetSpacing := if fProofOfStake then nStakeTargetSpacing
      else Min(nTargetSpacingWorkMax, nStakeTargetSpacing * (1 + t[pindexLast.value].nHeight - t[pindexPrev].nHeight));
    SpacingPositive(nStakeTargetSpacing, 1 + t[pindexLast.value].nHeight - t[pindexPrev].nHeight);
    nBits := Move(t[pindexPrev].nBits, nTargetSpacing, nActualSpacing, bnTargetLimit);
  }

  // The arithmetic at the end of it.
  method Move(nBitsPrev: nat, nTargetSpacing: int, nActualSpacing: int, bnTargetLimit: nat) returns (nBits: nat)
    requires nBitsPrev < 0x1_0000_0000 && nTargetSpacing > 0
    ensures nBits ==
      CompactOf(NextTarget(Compact.SignedDecode(nBitsPrev), bnTargetLimit, nTargetSpacing, nActualSpacing))
  {
    hide Compact.Encode, Compact.SignedDecode;
    var bnNew := Compact.SetCompact(nBitsPrev);
    Positive(nTargetSpacing);
    var nInterval := nTargetTimespan / nTargetSpacing;
    bnNew := bnNew * ((nInterval - 1) * nTargetSpacing + nActualSpacing + nActualSpacing);
    bnNew := TruncDiv(bnNew, (nInterval + 1) * nTargetSpacing);
    if bnNew > bnTargetLimit {
      bnNew := bnTargetLimit;
    }
    nBits := Compact.GetCompact(bnNew);
  }

  lemma SpacingPositive(spacing: int, gap: int)
    requires spacing > 0 && gap > 0
    ensures spacing * gap > 0
  {
    MulMono(1, gap, spacing);
  }

  function TargetSpacing(fProofOfStake: bool, nStakeTargetSpacing: int, gap: int): (s: int)
    requires nStakeTargetSpacing > 0 && gap > 0
    ensures s > 0
  {
    MulMono(1, gap, nStakeTargetSpacing);
    if fProofOfStake then nStakeTargetSpacing else Min(nTargetSpacingWorkMax, nStakeTargetSpacing * gap)
  }

  // ------------------------------------------------------------------ bounds

  // The factor applied to the target, for a sensible spacing.
  lemma Factor(spacing: int, actual: int)
    requires 0 < spacing <= nTargetTimespan && 0 <= actual <= nTargetTimespan
    ensures var i := nTargetTimespan / spacing; var f, g := (i - 1) * spacing + actual + actual, (i + 1) * spacing;
      0 <= (i - 1) * spacing <= f < 3 * g && g > 0 && (actual == spacing ==> f == g) && (actual <= spacing <==> f <= g)
  {
    var i := nTargetTimespan / spacing;
    Positive(spacing);
    MulAdd(i, 1, spacing);
    MulAdd(i, -1, spacing);
    MulMono(1, i, spacing);
  }

  lemma DivMono(a: int, b: int, d: int)
    requires a <= b && d > 0
    ensures a / d <= b / d
  {
    if b / d < a / d {
      MulMono(b / d + 1, a / d, d);
      MulAdd(b / d, 1, d);
    }
  }

  lemma DivBounds(a: int, d: int, q: int)
    requires d > 0
    ensures a < q * d ==> a / d < q
    ensures q * d <= a ==> q <= a / d
  {
    if a < q * d && q <= a / d {
      MulMono(q, a / d, d);
    }
    if q * d <= a && a / d < q {
      MulMono(a / d + 1, q, d);
      MulAdd(a / d, 1, d);
    }
  }

  // The next target is below the limit, less than three times the old one, and
  // not smaller than the old one times (I - 1) / (I + 1), unless capped.
  lemma RetargetBounds(target: int, limit: nat, spacing: int, actual: int)
    requires target >= 0 && 0 < spacing <= nTargetTimespan && 0 <= actual <= nTargetTimespan
    ensures var n := NextTarget(target, limit, spacing, actual); var i := nTargetTimespan / spacing;
      && 0 <= n <= limit
      && (target > 0 ==> n < 3 * target)
      && (n == limit || n >= target * (i - 1) / (i + 1))
  {
    var i := nTargetTimespan / spacing;
    Positive(spacing);
    Factor(spacing, actual);
    var f, g := (i - 1) * spacing + actual + actual, (i + 1) * spacing;
    MulMono(0, f, target);
    QuotientFits(target * f, g);
    if target > 0 {
      MulLess(f, 3 * g, target);
      MulAssoc(3, target, g);
      MulAssoc(3, g, target);
      DivBounds(target * f, g, 3 * target);
    }
    LowerBound(target, i, spacing, f);
  }

  lemma LowerBound(target: int, i: int, spacing: int, f: int)
    requires target >= 0 && i >= 1 && spacing > 0 && f >= (i - 1) * spacing
    ensures (i + 1) * spacing > 0 && target * f / ((i + 1) * spacing) >= target * (i - 1) / (i + 1)
  {
    var m := target * (i - 1) / (i + 1);
    MulMono(1, i + 1, spacing);
    assert m * (i + 1) <= target * (i - 1);
    MulMono(m * (i + 1), target * (i - 1), spacing);
    MulAssoc(m, i + 1, spacing);
    MulAssoc(target, i - 1, spacing);
    MulMono((i - 1) * spacing, f, target);
    DivBounds(target * f, (i + 1) * spacing, m);
  }

  // A slower chain never gets a harder target, and a larger old target never
  // gives a smaller new one.
  lemma RetargetMonotone(target: int, target': int, limit: nat, spacing: int, actual: int, actual': int)
    requires 0 <= target <= target' && 0 < spacing <= nTargetTimespan && 0 <= actual <= actual' <= nTargetTimespan
    ensures NextTarget(target, limit, spacing, actual) <= NextTarget(target', limit, spacing, actual')
  {
    var i := nTargetTimespan / spacing;
    Positive(spacing);
    Factor(spacing, actual);
    Factor(spacing, actual');
    var f, f', g := (i - 1) * spacing + actual + actual, (i - 1) * spacing + actual' + actual', (i + 1) * spacing;
    MulMono(f, f', target);
    MulMono(target, target', f');
    MulMono(0, target, f);
    DivMono(target * f, target' * f', g);
  }

  // On schedule the target stays; early blocks never raise it, late ones never
  // lower it, as far as the limit allows.
  lemma RetargetDirection(target: int, limit: nat, spacing: int, actual: int)
    requires 0 <= target && 0 < spacing <= nTargetTimespan && 0 <= actual <= nTargetTimespan
    ensures var n := NextTarget(target, limit, spacing, actual);
      && (actual == spacing ==> n == Min(target, limit))
      && (actual <= spacing ==> n <= target)
      && (actual >= spacing ==> n >= Min(target, limit))
  {
    var i := nTargetTimespan / spacing;
    Positive(spacing);
    Factor(spacing, spacing);
    DivModUnique(target * ((i + 1) * spacing), (i + 1) * spacing, target, 0);
    MulMono(0, target, (i + 1) * spacing);
    assert NextTarget(target, limit, spacing, spacing) == Min(target, limit);
    if actual <= spacing {
      RetargetMonotone(target, target, limit, spacing, actual, spacing);
    } else {
      RetargetMonotone(target, target, limit, spacing, spacing, actual);
    }
  }

  // ------------------------------------------------------ on the block tree

  // prev is the last block of a kind up to h, prevPrev the one before it, and
  // neither is a root: then their times decide, not the limit alone.
  ghost predicate LastTwo(t: Tree, h: BlockHash, fProofOfStake: bool, prev: BlockHash, prevPrev: BlockHash)
    requires WellFormed(t) && h in t
  {
    && LastOf(t, h, fProofOfStake, prev) && t[prev].pprev.Some?
    && LastOf(t, t[prev].pprev.value, fProofOfStake, prevPrev) && t[prevPrev].pprev.Some?
  }

  // The first and the second block of a kind have the limit as target.
  lemma FirstTargets(t: Tree, h: BlockHash, kind: bool, limit: nat, s: int, prev: BlockHash)
    requires WellFormed(t) && h in t && s > 0 && LastOf(t, h, kind, prev)
    ensures Required(t, None, kind, limit, s) == limit
    ensures t[prev].pprev.None? ==> Required(t, Some(h), kind, limit, s) == limit
    ensures t[prev].pprev.Some? ==> forall p | LastOf(t, t[prev].pprev.value, kind, p) && t[p].pprev.None? ::
        Required(t, Some(h), kind, limit, s) == limit
  {
    hide LastOf, NextTarget, Last;
    LastIsNearest(t, h, kind);
    LastUnique(t, h, kind, prev, Last(t, h, kind));
    if t[prev].pprev.Some? {
      var q := t[prev].pprev.value;
      LastIsNearest(t, q, kind);
      forall p | LastOf(t, q, kind, p) ensures p == Last(t, q, kind) {
        LastUnique(t, q, kind, p, Last(t, q, kind));
      }
    }
  }

  lemma RequiredIs(t: Tree, h: BlockHash, kind: bool, limit: nat, s: int, prev: BlockHash, prevPrev: BlockHash)
    requires WellFormed(t) && h in t && s > 0 && LastTwo(t, h, kind, prev, prevPrev)
    ensures prev in t && prevPrev in t && t[prev].nHeight <= t[h].nHeight
    ensures Required(t, Some(h), kind, limit, s) ==
      NextTarget(Compact.SignedDecode(t[prev].nBits), limit, TargetSpacing(kind, s, 1 + t[h].nHeight - t[prev].nHeight),
                 Clamped(t[prev].nTime - t[prevPrev].nTime))
  {
    hide LastOf, NextTarget, Last;
    LastIsNearest(t, h, kind);
    LastUnique(t, h, kind, prev, Last(t, h, kind));
    var q := t[prev].pprev.value;
    LastIsNearest(t, q, kind);
    LastUnique(t, q, kind, prevPrev, Last(t, q, kind));
  }

  // Blocks of proof of work aim at the spacing of all blocks since the last of
  // their kind, up to a minute.
  lemma SpacingIs(kind: bool, s: int, gap: int)
    requires s > 0 && gap > 0
    ensures var spacing := TargetSpacing(kind, s, gap);
      && (kind ==> spacing == s)
      && (!kind && s * gap <= 60 ==> spacing == s * gap)
      && (!kind && s * gap >= 60 ==> spacing == 60)
      && (s <= nTargetTimespan ==> 0 < spacing <= nTargetTimespan)
  {
    SpacingPositive(s, gap);
  }

  // Blocks on schedule keep the target; slower ones never get a harder one
  // than that, faster ones never an easier one.
  lemma TargetFollowsTimes(t: Tree, h: BlockHash, kind: bool, limit: nat, s: int, spacing: int, prev: BlockHash,
                           prevPrev: BlockHash)
    requires WellFormed(t) && h in t && 0 < s <= nTargetTimespan && LastTwo(t, h, kind, prev, prevPrev)
    requires var all := s * (1 + t[h].nHeight - t[prev].nHeight);
      spacing == if kind then s else if all < 60 then all else 60
    requires Compact.SignedDecode(t[prev].nBits) >= 0
    ensures var r, was := Required(t, Some(h), kind, limit, s), Compact.SignedDecode(t[prev].nBits);
      var gap := t[prev].nTime - t[prevPrev].nTime;
      && 0 <= r <= limit
      && (gap == spacing ==> r == if was < limit then was else limit)
      && (gap >= spacing ==> was <= r || r == limit)
      && (gap <= spacing ==> r <= was)
  {
    hide NextTarget, LastTwo, Clamped, TargetSpacing, Compact.SignedDecode, Required;
    RequiredIs(t, h, kind, limit, s, prev, prevPrev);
    SpacingIs(kind, s, 1 + t[h].nHeight - t[prev].nHeight);
    var was, gap := Compact.SignedDecode(t[prev].nBits), t[prev].nTime - t[prevPrev].nTime;
    ClampIs(gap);
    RetargetBounds(was, limit, spacing, Clamped(gap));
    RetargetDirection(was, limit, spacing, Clamped(gap));
  }

  lemma ClampIs(gap: int)
    ensures Clamped(gap) == if gap < 0 then 1 else if gap > 14400 then 14400 else gap
  {
  }

  // The later the last block, the easier the target: for any two chains that
  // agree on the last target and on the spacing aimed at.
  lemma TargetMonotoneInTimes(t: Tree, h: BlockHash, prev: BlockHash, prevPrev: BlockHash,
                              t': Tree, h': BlockHash, prev': BlockHash, prevPrev': BlockHash,
                              kind: bool, limit: nat, s: int)
    requires WellFormed(t) && h in t && LastTwo(t, h, kind, prev, prevPrev)
    requires WellFormed(t') && h' in t' && LastTwo(t', h', kind, prev', prevPrev')
    requires 0 < s <= nTargetTimespan && Compact.SignedDecode(t[prev].nBits) >= 0
    requires t[prev].nBits == t'[prev'].nBits
    requires t[h].nHeight - t[prev].nHeight == t'[h'].nHeight - t'[prev'].nHeight
    requires 0 <= t[prev].nTime - t[prevPrev].nTime <= t'[prev'].nTime - t'[prevPrev'].nTime
    ensures Required(t, Some(h), kind, limit, s) <= Required(t', Some(h'), kind, limit, s)
  {
    hide NextTarget, LastTwo, TargetSpacing, Clamped, Compact.SignedDecode, Required, WellFormed;
    RequiredIs(t, h, kind, limit, s, prev, prevPrev);
    RequiredIs(t', h', kind, limit, s, prev', prevPrev');
    var gap := 1 + t[h].nHeight - t[prev].nHeight;
    SpacingIs(kind, s, gap);
    var a, a' := t[prev].nTime - t[prevPrev].nTime, t'[prev'].nTime - t'[prevPrev'].nTime;
    ClampIs(a);
    ClampIs(a');
    var was := Compact.SignedDecode(t[prev].nBits);
    RetargetMonotone(was, was, limit, TargetSpacing(kind, s, gap), Clamped(a), Clamped(a'));
  }

  // The step itself: with i target spacings in the timespan, the new target is
  // the old one times ((i - 1) * spacing + 2 * gap) / ((i + 1) * spacing).
  lemma TargetStep(t: Tree, h: BlockHash, kind: bool, limit: nat, s: int, spacing: int, prev: BlockHash,
                   prevPrev: BlockHash)
    requires WellFormed(t) && h in t && 0 < s <= nTargetTimespan && LastTwo(t, h, kind, prev, prevPrev)
    requires var all := s * (1 + t[h].nHeight - t[prev].nHeight);
      spacing == if kind then s else if all < 60 then all else 60
    requires Compact.SignedDecode(t[prev].nBits) >= 0 && 0 <= t[prev].nTime - t[prevPrev].nTime <= 14400
    ensures spacing > 0
    ensures var r, was := Required(t, Some(h), kind, limit, s), Compact.SignedDecode(t[prev].nBits);
      var gap, i := t[prev].nTime - t[prevPrev].nTime, 14400 / spacing;
      var f, g := was * ((i - 1) * spacing + 2 * gap), (i + 1) * spacing;
      r * g <= f && (r == limit || f < (r + 1) * g)
  {
    hide LastTwo, Clamped, TargetSpacing, Compact.SignedDecode, Required;
    RequiredIs(t, h, kind, limit, s, prev, prevPrev);
    SpacingIs(kind, s, 1 + t[h].nHeight - t[prev].nHeight);
    var was, gap := Compact.SignedDecode(t[prev].nBits), t[prev].nTime - t[prevPrev].nTime;
    ClampIs(gap);
    StepIs(was, limit, spacing, gap);
  }

  lemma StepIs(was: nat, limit: nat, spacing: int, gap: int)
    requires 0 < spacing <= nTargetTimespan && 0 <= gap <= nTargetTimespan
    ensures var r, i := NextTarget(was, limit, spacing, gap), nTargetTimespan / spacing;
      var f, g := was * ((i - 1) * spacing + 2 * gap), (i + 1) * spacing;
      r * g <= f && (r == limit || f < (r + 1) * g)
  {
    var i := nTargetTimespan / spacing;
    Positive(spacing);
    Factor(spacing, gap);
    var f, g := was * ((i - 1) * spacing + gap + gap), (i + 1) * spacing;
    MulMono(0, (i - 1) * spacing + gap + gap, was);
    var q, r := f / g, NextTarget(was, limit, spacing, gap);
    MulAdd(q, 1, g);
    MulMono(r, q, g);
  }

  // With a spacing beyond the timespan the interval count is 0, and the new
  // target is negative when the blocks came faster than half the spacing.
  lemma SpacingTooLarge(target: int, limit: nat, spacing: int, actual: int)
    requires target > 0 && spacing > nTargetTimespan && 0 <= actual <= nTargetTimespan
    ensures NextTarget(target, limit, spacing, actual) < 0 <==> target * (spacing - 2 * actual) >= spacing
  {
    DivModUnique(nTargetTimespan, spacing, 0, nTargetTimespan);
    var n := target * (-spacing + actual + actual);
    assert n == -(target * (spacing - 2 * actual));
    if n < 0 {
      DivBounds(-n, spacing, 1);
      QuotientFits(-n, spacing);
    } else {
      QuotientFits(n, spacing);
    }
  }

  // What the next block really gets, after rounding to compact form.
  lemma RoundedBounds(target: int, limit: nat, spacing: int, actual: int)
    requires target >= 0 && 0 < spacing <= nTargetTimespan && 0 <= actual <= nTargetTimespan
    ensures var n := NextTarget(target, limit, spacing, actual);
      n >= 0 && var d := Compact.Decode(Compact.Encode(n, false));
      && d <= limit && (target > 0 ==> d < 3 * target) && d <= n && (n > 0 ==> (n - d) * 0x8000 < n)
  {
    RetargetBounds(target, limit, spacing, actual);
    Compact.DecodeEncode(NextTarget(target, limit, spacing, actual));
  }

  // The check of AcceptBlock: every block has the target required after its
  // parent, by the rules at the parent's height.
  ghost predicate TargetOk(t: Tree, h: BlockHash, limit: bool -> nat, spacing: nat -> int)
    requires WellFormed(t) && h in t && forall n :: spacing(n) > 0
  {
    t[h].pprev.Some? ==>
      t[h].nBits == CompactOf(Required(t, t[h].pprev, t[h].fProofOfStake, limit(t[h].fProofOfStake),
                                       spacing(t[t[h].pprev.value].nHeight)))
  }

  // On such a tree no target is negative, and none exceeds the limit of its kind.
  lemma {:induction false} TargetsWithinLimit(t: Tree, h: BlockHash, limit: bool -> nat, spacing: nat -> int)
    requires WellFormed(t) && h in t && t[h].pprev.Some?
    requires forall n :: 0 < spacing(n) <= nTargetTimespan
    requires forall kind :: limit(kind) < LIMIT
    requires forall x | x in t :: TargetOk(t, x, limit, spacing)
    ensures !Compact.Sign(t[h].nBits) && Compact.Decode(t[h].nBits) <= limit(t[h].fProofOfStake)
    decreases t[h].nHeight
  {
    var p, kind := t[h].pprev.value, t[h].fProofOfStake;
    assert TargetOk(t, h, limit, spacing);
    var prev := Last(t, p, kind);
    if t[prev].pprev.Some? {
      TargetsWithinLimit(t, prev, limit, spacing);
    }
    RequiredWithin(t, p, kind, limit(kind), spacing(t[p].nHeight));
    CompactWithin(Required(t, Some(p), kind, limit(kind), spacing(t[p].nHeight)), limit(kind));
  }

  lemma RequiredWithin(t: Tree, h: BlockHash, kind: bool, limit: nat, spacing: int)
    requires WellFormed(t) && h in t && 0 < spacing <= nTargetTimespan
    requires t[Last(t, h, kind)].pprev.Some? ==> !Compact.Sign(t[Last(t, h, kind)].nBits)
    ensures 0 <= Required(t, Some(h), kind, limit, spacing) <= limit
  {
    hide Compact.Decode, Compact.Sign, NextTarget, Last;
    var prev := Last(t, h, kind);
    if t[prev].pprev.Some? {
      var prevPrev := Last(t, t[prev].pprev.value, kind);
      RetargetBounds(Compact.Decode(t[prev].nBits), limit,
                     TargetSpacing(kind, spacing, 1 + t[h].nHeight - t[prev].nHeight),
                     Clamped(t[prev].nTime - t[prevPrev].nTime));
    }
  }

  lemma CompactWithin(n: nat, limit: nat)
    requires n <= limit < LIMIT
    ensures !Compact.Sign(CompactOf(n)) && Compact.Decode(CompactOf(n)) <= limit
  {
    Compact.Fields(n);
    Compact.DecodeEncode(n);
    Compact.SmallEncoding(n);
    hide Compact.Encode, Compact.Decode, Compact.Sign;
  }

  // --------------------------------------------------------- ComputeMaxBits

  // The number of rounds for a time span: full days, rounded up.
  function Rounds(nTime: int): nat { if nTime <= 0 then 0 else (nTime + DAY - 1) / DAY }

  // The largest target a chain may have nTime after a block of target `base`:
  // doubled at once and once a day, up to the limit.
  function MaxTarget(base: int, limit: nat, nTime: int): int {
    Min(base * Pow2(1 + Rounds(nTime)), limit)
  }

  method ComputeMaxBits(bnTargetLimit: nat, nBase: nat, nTime0: int) returns (nBits: nat)
    requires nBase < 0x1_0000_0000
    ensures var m := MaxTarget(Compact.SignedDecode(nBase), bnTargetLimit, nTime0);
      nBits == Compact.Encode(Compact.Abs(m), m < 0) % 0x1_0000_0000
  {
    var bnResult := Compact.SetCompact(nBase);
    ghost var base := bnResult;
    var nTime := nTime0;
    bnResult := bnResult * 2;
    ghost var k := 0;
    while nTime > 0 && bnResult < bnTargetLimit
      invariant k >= 0 && bnResult == base * Pow2(1 + k) && Rounds(nTime0) == k + Rounds(nTime)
      decreases nTime
    {
      bnResult := bnResult * 2;
      RoundsStep(nTime);
      Doubled(base, 1 + k);
      nTime := nTime - DAY;
      k := k + 1;
    }
    if nTime > 0 {
      Growing(base, 1 + k, 1 + Rounds(nTime0));
    }
    if bnResult > bnTargetLimit {
      bnResult := bnTargetLimit;
    }
    nBits := Compact.GetCompact(bnResult);
  }

  lemma RoundsStep(n: int)
    requires n > 0
    ensures Rounds(n) == 1 + Rounds(n - DAY)
  {
  }

  lemma Doubled(base: int, k: nat)
    ensures base * Pow2(k) * 2 == base * Pow2(k + 1)
  {
    MulAssoc(base, Pow2(k), 2);
  }

  lemma {:induction false} Growing(base: int, a: nat, b: nat)
    requires a <= b && base * Pow2(a) >= 0
    ensures base * Pow2(b) >= base * Pow2(a)
    decreases b - a
  {
    if a < b {
      Growing(base, a, b - 1);
      Doubled(base, b - 1);
    }
  }

  // At once and once a started day the base is doubled.
  lemma DaysDouble(base: int, limit: nat, n: int, d: nat)
    requires d == 0 <==> n <= 0
    requires n > 0 ==> (d - 1) * 86400 < n <= d * 86400
    ensures var m := base * Pow2(1 + d); MaxTarget(base, limit, n) == if m < limit then m else limit
  {
    if n > 0 {
      DivModUnique(n + DAY - 1, DAY, d, n + DAY - 1 - d * DAY);
    }
  }

  // More time never lowers the bound, and it is never above the limit.
  lemma MaxTargetMonotone(base: int, limit: nat, n: int, n': int)
    requires base >= 0 && n <= n'
    ensures MaxTarget(base, limit, n) <= MaxTarget(base, limit, n') <= limit
    ensures Min(2 * base, limit) <= MaxTarget(base, limit, n)
  {
    MulMono(0, base, Pow2(1 + Rounds(n)));
    if n > 0 {
      DivMono(n + DAY - 1, n' + DAY - 1, DAY);
    }
    Growing(base, 1 + Rounds(n), 1 + Rounds(n'));
    assert Pow2(1) == 2;
    Growing(base, 1, 1 + Rounds(n));
  }
}
