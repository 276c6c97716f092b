// Numbers as little-endian sequences of 32-bit limbs.
module Limbs {

  const BASE: int := 0x1_0000_0000

  newtype uint32 = x: int | 0 <= x < 0x1_0000_0000
  newtype uint64 = x: int | 0 <= x < 0x1_0000_0000_0000_0000

  function Pow2(n: nat): (p: nat)
    ensures p >= 1
  {
    if n == 0 then 1 else 2 * Pow2(n - 1)
  }

  // One more than the largest 256-bit number.
  const LIMIT: int := Pow2(256)

  // The weight of limb i.
  function Weight(i: nat): (w: nat)
    ensures w >= 1
  {
    if i == 0 then 1 else BASE * Weight(i - 1)
  }

  function Num(s: seq<uint32>): (n: nat)
    decreases |s|
  {
    if |s| == 0 then 0 else Num(s[..|s| - 1]) + s[|s| - 1] as int * Weight(|s| - 1)
  }

  // Bitwise or of two words.
  function BitOr(a: nat, b: nat): nat
    decreases a + b
  {
    if a == 0 && b == 0 then 0
    else 2 * BitOr(a / 2, b / 2) + (if a % 2 == 1 || b % 2 == 1 then 1 else 0)
  }

  // -------------------------------------------------------------- arithmetic

  lemma {:induction false} Pow2Add(a: nat, b: nat)
    ensures Pow2(a + b) == Pow2(a) * Pow2(b)
  {
    if a != 0 {
      Pow2Add(a - 1, b);
      MulAssoc(2, Pow2(a - 1), Pow2(b));
    }
  }

  lemma MulAssoc(a: int, b: int, c: int)
    ensures a * b * c == a * (b * c)
  {
  }

  lemma MulAdd(a: int, b: int, c: int)
    ensures (a + b) * c == a * c + b * c && c * (a + b) == c * a + c * b
  {
  }

  lemma MulMono(a: int, b: int, c: int)
    requires a <= b && 0 <= c
    ensures a * c <= b * c
  {
  }

  lemma MulLess(a: int, b: int, c: int)
    requires a < b && 0 < c
    ensures a * c < b * c
  {
  }

  lemma {:induction false} Pow2Monotone(a: nat, b: nat)
    requires a <= b
    ensures Pow2(a) <= Pow2(b)
  {
    if a < b { Pow2Monotone(a, b - 1); }
  }

  lemma {:induction false} WeightIsPow2(i: nat)
    ensures Weight(i) == Pow2(32 * i)
  {
    if i != 0 {
      WeightIsPow2(i - 1);
      Pow2Add(32, 32 * (i - 1));
      Pow2Small();
    }
  }

  lemma Pow2Small()
    ensures Pow2(8) == 0x100 && Pow2(16) == 0x1_0000 && Pow2(32) == BASE && Pow2(24) == 0x100_0000
  {
    assert Pow2(8) == 0x100;
    Pow2Add(8, 8);
    Pow2Add(8, 16);
    Pow2Add(16, 16);
  }

  lemma {:induction false} WeightAdd(i: nat, j: nat)
    ensures Weight(i + j) == Weight(i) * Weight(j)
  {
    WeightIsPow2(i);
    WeightIsPow2(j);
    WeightIsPow2(i + j);
    Pow2Add(32 * i, 32 * j);
  }

  // Quotient and remainder are determined.
  lemma DivModUnique(n: int, d: int, q: int, r: int)
    requires n == q * d + r && 0 <= r < d
    ensures q == n / d && r == n % d
  {
    var q', r' := n / d, n % d;
    assert n == q' * d + r';
    assert (q - q') * d == r' - r by {
      MulAdd(q - q', q', d);
    }
    if q > q' {
      MulMono(1, q - q', d);
    } else if q < q' {
      MulMono(q - q', -1, d);
    }
  }

  lemma QuotientFits(a: int, d: int)
    requires 0 <= a && d >= 1
    ensures 0 <= a / d <= a
  {
    var q := a / d;
    if q < 0 { MulMono(q, -1, d); } else { MulMono(1, d, q); }
  }

  lemma DivDiv(x: nat, p: nat, k: nat)
    requires p >= 1 && k >= 1
    ensures x / p / k == x / (k * p)
  {
    var q, r := x / p, x % p;
    var q', r' := q / k, q % k;
    assert x == q * p + r && q == q' * k + r';
    MulAdd(q' * k, r', p);
    MulAssoc(q', k, p);
    MulMono(r' + 1, k, p);
    MulAdd(r', 1, p);
    MulMono(0, r', p);
    QuotientFits(x, p);
    DivModUnique(x, k * p, q', r' * p + r);
  }

  // ------------------------------------------------------------------- limbs

  lemma {:induction false} NumBound(s: seq<uint32>)
    ensures Num(s) < Weight(|s|)
  {
    if |s| != 0 {
      var n := |s| - 1;
      NumBound(s[..n]);
      MulMono(s[n] as int, BASE - 1, Weight(n));
      MulAdd(BASE, -1, Weight(n));
    }
  }

  lemma NumNext(s: seq<uint32>, i: nat)
    requires i < |s|
    ensures Num(s[..i + 1]) == Num(s[..i]) + s[i] as int * Weight(i)
  {
    assert s[..i + 1][..i] == s[..i];
  }

  lemma {:induction false} NumSplit(s: seq<uint32>, i: nat)
    requires i <= |s|
    ensures Num(s) == Num(s[..i]) + Num(s[i..]) * Weight(i)
    decreases |s|
  {
    var n := |s| - 1;
    if i == |s| {
      assert s[..i] == s && s[i..] == [];
    } else {
      NumSplit(s[..n], i);
      assert s[..n][..i] == s[..i] && s[..n][i..] == s[i..][..n - i];
      var h := s[i..];
      assert Num(h) == Num(h[..n - i]) + s[n] as int * Weight(n - i);
      WeightAdd(n - i, i);
      MulAdd(Num(h[..n - i]), s[n] as int * Weight(n - i), Weight(i));
      MulAssoc(s[n] as int, Weight(n - i), Weight(i));
    }
  }

  // Limb i of s has been assigned, giving t; from i on, s was still x.
  lemma NumStep(x: seq<uint32>, s: seq<uint32>, t: seq<uint32>, i: nat)
    requires i < |s| == |t| == |x| && s[i..] == x[i..] && t == s[i := t[i]]
    ensures Num(t[..i + 1]) == Num(s[..i]) + t[i] as int * Weight(i)
    ensures Num(x[..i + 1]) == Num(x[..i]) + x[i] as int * Weight(i)
    ensures Num(t) - Num(t[..i + 1]) == Num(x) - Num(x[..i + 1])
    ensures t[i + 1..] == x[i + 1..] && Weight(i + 1) == BASE * Weight(i)
  {
    NumNext(t, i);
    NumNext(x, i);
    assert t[..i] == s[..i];
    assert t[i + 1..] == s[i..][1..] && x[i + 1..] == x[i..][1..];
    NumSplit(t, i + 1);
    NumSplit(x, i + 1);
  }

  lemma {:induction false} NumUpdate(s: seq<uint32>, j: nat, v: uint32)
    requires j < |s|
    ensures Num(s[j := v]) == Num(s) + (v as int - s[j] as int) * Weight(j)
    decreases |s|
  {
    var n, t := |s| - 1, s[j := v];
    if j == n {
      assert t[..n] == s[..n];
      MulAdd(v as int - s[j] as int, s[j] as int, Weight(j));
    } else {
      NumUpdate(s[..n], j, v);
      assert t[..n] == s[..n][j := v];
    }
  }

  lemma {:induction false} NumZero(s: seq<uint32>)
    requires forall i | 0 <= i < |s| :: s[i] == 0
    ensures Num(s) == 0
  {
    if |s| != 0 { NumZero(s[..|s| - 1]); }
  }

  // The most significant differing limb decides.
  lemma NumLess(s: seq<uint32>, t: seq<uint32>, i: nat)
    requires |s| == |t| && i < |s| && s[i + 1..] == t[i + 1..] && s[i] < t[i]
    ensures Num(s) < Num(t)
  {
    NumSplit(s, i + 1);
    NumSplit(t, i + 1);
    NumNext(s, i);
    NumNext(t, i);
    NumBound(s[..i]);
    MulMono(s[i] as int + 1, t[i] as int, Weight(i));
    MulAdd(s[i] as int, 1, Weight(i));
  }

  // ---------------------------------------------------------------- bit or

  lemma {:induction false} OrZero(a: nat)
    ensures BitOr(a, 0) == a && BitOr(0, a) == a
  {
    if a != 0 { OrZero(a / 2); }
  }

  // Words with no bit in common.
  lemma {:induction false} OrDisjoint(a: nat, b: nat, k: nat)
    requires a % Pow2(k) == 0 && b < Pow2(k)
    ensures BitOr(a, b) == a + b && BitOr(b, a) == a + b
    decreases k
  {
    if k == 0 {
      OrZero(a);
    } else {
      var p := Pow2(k - 1);
      var c := a / (2 * p);
      assert a == c * (2 * p);
      assert a == 2 * (c * p);
      DivModUnique(a / 2, p, c, 0);
      OrDisjoint(a / 2, b / 2, k - 1);
    }
  }

  lemma {:induction false} OrFits(a: nat, b: nat, n: nat)
    requires a < Pow2(n) && b < Pow2(n)
    ensures BitOr(a, b) < Pow2(n)
    decreases n
  {
    if n != 0 && (a != 0 || b != 0) {
      OrFits(a / 2, b / 2, n - 1);
    }
  }

  // Setting a bit that is clear.
  lemma {:induction false} OrBit(c: nat, k: nat)
    requires c / Pow2(k) % 2 == 0
    ensures BitOr(c, Pow2(k)) == c + Pow2(k)
    decreases k
  {
    if k == 0 {
      OrZero(c / 2);
    } else {
      DivDiv(c, 2, Pow2(k - 1));
      OrBit(c / 2, k - 1);
      OrEven(c, Pow2(k - 1));
    }
  }

  lemma OrEven(c: nat, p: nat)
    requires p > 0
    ensures BitOr(c, 2 * p) == 2 * BitOr(c / 2, p) + c % 2
  {
  }
}
