// base_uint<256>: eight 32-bit limbs changed in place.
module Arith256 {
  import opened Limbs
  import Compact

  const WIDTH: int := 8

  // ++ and -- on a word.
  function Next(w: uint32): uint32 { if w == 0xffff_ffff then 0 else w + 1 }

  function Previous(w: uint32): uint32 { if w == 0 then 0xffff_ffff else w - 1 }

  // What 256 bits keep of a number.
  function Wrapped(n: int): nat
  {
    n % LIMIT
  }

  class ArithUint256 {
    const pn: array<uint32>

    ghost predicate Valid()
      reads this
    {
      pn.Length == WIDTH
    }

    function Value(): nat
      requires Valid()
      reads this, pn
    {
      Num(pn[..])
    }

    constructor ()
      ensures Valid() && fresh(pn) && Value() == 0
    {
      pn := new uint32[WIDTH](_ => 0);
      new;
      NumZero(pn[..]);
    }

    constructor Copy(b: ArithUint256)
      requires b.Valid()
      ensures Valid() && fresh(pn) && pn[..] == b.pn[..]
    {
      pn := new uint32[WIDTH](i requires 0 <= i < WIDTH && b.Valid() reads b, b.pn => b.pn[i]);
      new;
      assert pn[..] == b.pn[..];
    }

    // *this = b, for a 64-bit b
    method Set(b: uint64)
      requires Valid()
      modifies pn
      ensures Value() == b as int
    {
      pn[0], pn[1] := (b as int % BASE) as uint32, (b as int / BASE) as uint32;
      for i := 2 to WIDTH
        invariant pn[0] as int == b as int % BASE && pn[1] as int == b as int / BASE
        invariant forall j | 2 <= j < i :: pn[j] == 0
      {
        pn[i] := 0;
      }
      TwoLimbs(pn[..]);
    }

    method AddAssign(b: ArithUint256)
      requires Valid() && b.Valid()
      modifies pn
      ensures Value() == Wrapped(old(Value()) + old(b.Value()))
    {
      hide Weight, Pow2, Wrapped;
      ghost var x, y := pn[..], b.pn[..];
      Empty(x);
      Empty(y);
      hide Num;
      var carry: uint64 := 0;
      for i := 0 to WIDTH
        invariant carry <= 1
        invariant pn[i..] == x[i..] && b.pn[i..] == y[i..]
        invariant Num(pn[..i]) + carry as int * Weight(i) == Num(x[..i]) + Num(y[..i])
      {
        assert pn[i] == x[i] && b.pn[i] == y[i];
        ghost var s, c := pn[..], carry;
        var n: uint64 := carry + pn[i] as uint64 + b.pn[i] as uint64;
        pn[i] := (n % 0x1_0000_0000) as uint32;
        carry := n / 0x1_0000_0000;
        NumStep(x, s, pn[..], i);
        NumNext(y, i);
        assert b.pn[i + 1..] == y[i + 1..];
        Carried(Num(s[..i]), c as int, x[i] as int, y[i] as int, pn[i] as int, carry as int, Weight(i));
      }
      assert pn[..WIDTH] == pn[..] && x[..WIDTH] == x && y[..WIDTH] == y;
      Wraps(pn[..], carry as int, Num(x) + Num(y));
    }

    // operator~
    method Complement() returns (ret: ArithUint256)
      requires Valid()
      ensures ret.Valid() && fresh(ret) && fresh(ret.pn)
      ensures ret.Value() == LIMIT - 1 - Value()
    {
      hide Pow2, Wrapped;
      ret := new ArithUint256();
      ghost var x := pn[..];
      Empty(x);
      Empty(ret.pn[..]);
      assert Weight(0) == 1;
      hide Num, Weight;
      for i := 0 to WIDTH
        invariant pn[..] == x
        invariant Num(ret.pn[..i]) + Num(x[..i]) == Weight(i) - 1
      {
        ghost var s := ret.pn[..];
        ret.pn[i] := 0xffff_ffff - pn[i];
        ComplementNext(s, ret.pn[..], x, i);
      }
      assert ret.pn[..WIDTH] == ret.pn[..] && x[..WIDTH] == x;
      WeightIsPow2(WIDTH);
    }

    // operator-
    method Neg() returns (ret: ArithUint256)
      requires Valid()
      ensures ret.Valid() && fresh(ret) && fresh(ret.pn)
      ensures ret.Value() == Wrapped(LIMIT - Value())
    {
      hide Pow2, Num, Wrapped;
      ghost var x := pn[..];
      ret := Complement();
      ret.Inc();
      assert pn[..] == x;
    }

    method SubAssign(b: ArithUint256)
      requires Valid() && b.Valid()
      modifies pn
      ensures Value() == Wrapped(old(Value()) - old(b.Value()))
    {
      hide Pow2, Num, Weight, Wrapped;
      ghost var x, y := pn[..], b.pn[..];
      var n := b.Neg();
      assert pn[..] == x;
      AddAssign(n);
      ValueBound(y);
      WrappedSub(Num(x), Num(y));
    }

    // operator++
    method Inc()
      requires Valid()
      modifies pn
      ensures Value() == Wrapped(old(Value()) + 1)
    {
      hide Num, Weight, Pow2, Wrapped, Next, Previous;
      ghost var x, s := pn[..], pn[..];
      Empty(x);
      var i := 0;
      while i < WIDTH
        invariant i <= WIDTH && pn[..] == s && s[i..] == x[i..]
        invariant Num(s[..i]) == 0 && Num(x[..i]) == Weight(i) - 1
      {
        ghost var t := s;
        assert s[i] == s[i..][0] == x[i];
        pn[i] := Next(pn[i]);
        s := s[i := pn[i]];
        IncStep(x, t, s, i);
        if pn[i] != 0 {
          Wraps(s, 0, Num(x) + 1);
          return;
        }
        i := i + 1;
      }
      assert s[..WIDTH] == s && x[..WIDTH] == x;
      Wraps(s, 1, Num(x) + 1);
    }

    // operator--
    method Dec()
      requires Valid()
      modifies pn
      ensures Value() == Wrapped(old(Value()) - 1)
    {
      hide Num, Weight, Pow2, Wrapped, Next, Previous;
      ghost var x, s := pn[..], pn[..];
      Empty(x);
      var i := 0;
      while i < WIDTH
        invariant i <= WIDTH && pn[..] == s && s[i..] == x[i..]
        invariant Num(x[..i]) == 0 && Num(s[..i]) == Weight(i) - 1
      {
        ghost var t := s;
        assert s[i] == s[i..][0] == x[i];
        pn[i] := Previous(pn[i]);
        s := s[i := pn[i]];
        DecStep(x, t, s, i);
        if pn[i] != 0xffff_ffff {
          Wraps(s, 0, Num(x) - 1);
          return;
        }
        i := i + 1;
      }
      assert s[..WIDTH] == s && x[..WIDTH] == x;
      Wraps(s, -1, Num(x) - 1);
    }

    // operator*= for a 32-bit factor
    method Mul32(b32: uint32)
      requires Valid()
      modifies pn
      ensures Value() == Wrapped(old(Value()) * b32 as int)
    {
      hide Pow2, Weight, Wrapped;
      ghost var x := pn[..];
      Empty(x);
      hide Num;
      var carry: uint64 := 0;
      for i := 0 to WIDTH
        invariant carry < 0x1_0000_0000
        invariant pn[i..] == x[i..]
        invariant Num(pn[..i]) + carry as int * Weight(i) == Num(x[..i]) * b32 as int
      {
        assert pn[i] == x[i];
        ghost var s, c := pn[..], carry;
        ProductFits(b32 as int, pn[i] as int, carry as int, 0);
        var n: uint64 := carry + b32 as uint64 * pn[i] as uint64;
        pn[i] := (n % 0x1_0000_0000) as uint32;
        carry := n / 0x1_0000_0000;
        NumStep(x, s, pn[..], i);
        Carried(Num(s[..i]), c as int, b32 as int * x[i] as int, 0, pn[i] as int, carry as int, Weight(i));
        MulAdd(Num(x[..i]), x[i] as int * Weight(i), b32 as int);
        MulAssoc(b32 as int, x[i] as int, Weight(i));
      }
      assert pn[..WIDTH] == pn[..] && x[..WIDTH] == x;
      Wraps(pn[..], carry as int, Num(x) * b32 as int);
    }

    // operator*=.  *this is zeroed before b is read: if b is *this, the
    // result is 0.
    method Mul(b: ArithUint256)
      requires Valid() && b.Valid()
      modifies pn
      ensures Value() == if b.pn == pn then 0 else Wrapped(old(Value()) * b.Value())
    {
      hide Pow2, Wrapped;
      ghost var x, y := pn[..], b.pn[..];
      var a := new ArithUint256.Copy(this);
      Empty(x);
      Set(0);
      AllZero(pn[..]);
      hide Num, Weight, RowEquation;
      ghost var q := 0;
      for j := 0 to WIDTH
        invariant a.pn[..] == x && (b.pn != pn ==> b.pn[..] == y)
        invariant b.pn != pn ==> Num(pn[..]) + q * Weight(WIDTH) == Num(x[..j]) * Num(y)
        invariant b.pn == pn ==> forall i | 0 <= i < WIDTH :: pn[i] == 0
      {
        ghost var s := pn[..];
        var carry := MulRow(a.pn[j], b, j);
        if b.pn != pn {
          RowDone(x, y, s, pn[..], j, carry, q);
          q := q + carry as int + x[j] as int * Num(y[WIDTH - j..]);
        }
      }
      if b.pn == pn {
        NumZero(pn[..]);
      } else {
        assert x[..WIDTH] == x;
        Wraps(pn[..], q, Num(x) * Num(y));
      }
    }

    // The inner loop of operator*=: adds f * b, shifted by j limbs.
    method MulRow(f: uint32, b: ArithUint256, j: nat) returns (carry: uint64)
      requires Valid() && b.Valid() && j < WIDTH
      requires b.pn == pn ==> forall i | 0 <= i < WIDTH :: pn[i] == 0
      modifies pn
      ensures b.pn != pn ==> RowEquation(old(pn[..]), pn[..], b.pn[..], f, j, WIDTH - j, carry)
      ensures b.pn == pn ==> forall i | 0 <= i < WIDTH :: pn[i] == 0
    {
      ghost var x, y := pn[..], b.pn[..];
      carry := 0;
      RowStart(x, y, f, j);
      hide RowEquation;
      var i := 0;
      while i + j < WIDTH
        invariant i + j <= WIDTH && carry < 0x1_0000_0000
        invariant if b.pn == pn then carry == 0 && pn[..] == x else b.pn[..] == y
        invariant b.pn != pn ==> pn[i + j..] == x[i + j..] && RowEquation(x, pn[..], y, f, j, i, carry)
      {
        ghost var s, c := pn[..], carry;
        ProductFits(f as int, b.pn[i] as int, carry as int, pn[i + j] as int);
        var n: uint64 := carry + pn[i + j] as uint64 + f as uint64 * b.pn[i] as uint64;
        pn[i + j] := (n % 0x1_0000_0000) as uint32;
        carry := n / 0x1_0000_0000;
        if b.pn != pn {
          RowNext(x, s, pn[..], y, f, j, i, c, carry);
        }
        i := i + 1;
      }
    }

    method CompareTo(b: ArithUint256) returns (r: int)
      requires Valid() && b.Valid()
      ensures r == -1 <==> Value() < b.Value()
      ensures r == 0 <==> Value() == b.Value()
      ensures r == 1 <==> Value() > b.Value()
    {
      var i := WIDTH - 1;
      while i >= 0
        invariant -1 <= i < WIDTH && pn[i + 1..] == b.pn[i + 1..]
      {
        if pn[i] < b.pn[i] {
          NumLess(pn[..], b.pn[..], i);
          return -1;
        }
        if pn[i] > b.pn[i] {
          NumLess(b.pn[..], pn[..], i);
          return 1;
        }
        i := i - 1;
      }
      assert pn[0..] == pn[..] && b.pn[0..] == b.pn[..];
      r := 0;
    }

    method EqualTo(b: uint64) returns (r: bool)
      requires Valid()
      ensures r <==> Value() == b as int
    {
      hide Num;
      var i := WIDTH - 1;
      while i >= 2
        invariant 1 <= i < WIDTH && forall j | i < j < WIDTH :: pn[j] == 0
      {
        if pn[i] != 0 {
          HighLimb(pn[..], i);
          return false;
        }
        i := i - 1;
      }
      TwoLimbs(pn[..]);
      hide Num;
      if pn[1] as int != b as int / BASE {
        return false;
      }
      r := pn[0] as int == b as int % BASE;
    }

    method GetLow64() returns (r: uint64)
      requires Valid()
      ensures r as int == Value() % Pow2(64)
    {
      LowLimbs(pn[..]);
      r := pn[0] as uint64 + pn[1] as uint64 * 0x1_0000_0000;
    }

    // The position of the highest bit set plus one, or 0.
    method Bits() returns (r: nat)
      requires Valid()
      ensures r <= 256 && (r == 0 <==> Value() == 0)
      ensures r > 0 ==> Pow2(r - 1) <= Value() < Pow2(r)
    {
      hide Pow2, Weight, Wrapped;
      var pos := WIDTH - 1;
      while pos >= 0
        invariant -1 <= pos < WIDTH && forall j | pos < j < WIDTH :: pn[j] == 0
      {
        if pn[pos] != 0 {
          WordBound(pn[pos]);
          var nbits := 31;
          while nbits > 0
            invariant 0 <= nbits <= 31 && pn[pos] as int < Pow2(nbits + 1)
          {
            TopBit(pn[pos] as int, nbits);
            if pn[pos] as int / Pow2(nbits) % 2 == 1 {
              TopLimb(pn[..], pos, nbits);
              return 32 * pos + nbits + 1;
            }
            nbits := nbits - 1;
          }
          LowestBit(pn[pos] as int);
          TopLimb(pn[..], pos, 0);
          return 32 * pos + 1;
        }
        pos := pos - 1;
      }
      NumZero(pn[..]);
      r := 0;
    }

    // The loop that zeroes the limbs.
    method Clear()
      requires Valid()
      modifies pn
      ensures Num(pn[..]) == 0 && forall j | 0 <= j < WIDTH :: pn[j] == 0
    {
      for i := 0 to WIDTH
        invariant forall j | 0 <= j < i :: pn[j] == 0
      {
        pn[i] := 0;
      }
      NumZero(pn[..]);
    }

    // operator<<=
    method Shl(shift: nat)
      requires Valid()
      modifies pn
      ensures Value() == Wrapped(old(Value()) * Pow2(shift))
    {
      ghost var x := pn[..];
      var a := new ArithUint256.Copy(this);
      Clear();
      var k, s := shift / 32, shift % 32;
      hide Pow2, Num, Weight, BitOr, Or, LeftOf, RightOf, Wrapped;
      ShiftNone(x, shift);
      assert ShiftedLeft(x, pn[..], 0, k, s);
      hide ShiftedLeft;
      for i := 0 to WIDTH
        invariant a.pn[..] == x && ShiftedLeft(x, pn[..], i, k, s)
      {
        ghost var t := pn[..];
        ShlStep(x, t, i, k, s);
        if i + k + 1 < WIDTH && s != 0 {
          pn[i + k + 1] := Or(pn[i + k + 1], RightOf(a.pn[i], 32 - s));
        }
        if i + k < WIDTH {
          pn[i + k] := Or(pn[i + k], LeftOf(a.pn[i], s));
        }
        assert pn[..] == ShlNext(x, t, i, k, s);
      }
      ShlDone(x, pn[..], k, s);
    }

    // operator>>=
    method Shr(shift: nat)
      requires Valid()
      modifies pn
      ensures Value() == old(Value()) / Pow2(shift)
    {
      ghost var x := pn[..];
      var a := new ArithUint256.Copy(this);
      Clear();
      var k, s := shift / 32, shift % 32;
      hide Pow2, Num, Weight, BitOr, Or, LeftOf, RightOf, Wrapped;
      ShiftNone(x, shift);
      assert ShiftedRight(x, pn[..], 0, k, s);
      hide ShiftedRight;
      for i := 0 to WIDTH
        invariant a.pn[..] == x && ShiftedRight(x, pn[..], i, k, s)
      {
        ghost var t := pn[..];
        ShrStep(x, t, i, k, s);
        if i - k - 1 >= 0 && s != 0 {
          pn[i - k - 1] := Or(pn[i - k - 1], LeftOf(a.pn[i], 32 - s));
        }
        if i - k >= 0 {
          pn[i - k] := Or(pn[i - k], RightOf(a.pn[i], s));
        }
        assert pn[..] == ShrNext(x, t, i, k, s);
      }
      ShrDone(x, pn[..], k, s);
    }

    // operator/=: shift, compare and subtract.  Division by zero leaves 0.
    method Div(b: ArithUint256) returns (ok: bool, ghost remainder: nat)
      requires Valid() && b.Valid()
      modifies pn
      ensures ok <==> old(b.Value()) != 0
      ensures !ok ==> Value() == 0
      ensures ok ==> old(Value()) == Value() * old(b.Value()) + remainder && remainder < old(b.Value())
    {
      hide Pow2, Num, Weight, LowClear, Dividing, Wrapped;
      ghost var n, d := Value(), b.Value();
      var div := new ArithUint256.Copy(b);
      var num := new ArithUint256.Copy(this);
      Set(0);
      remainder := 0;
      var numBits := num.Bits();
      var divBits := div.Bits();
      if divBits == 0 {
        return false, 0;
      }
      ok := true;
      if divBits > numBits {
        BelowDivisor(n, d, numBits, divBits);
        remainder := n;
        return;
      }
      var shift := numBits - divBits;
      Aligned(n, d, numBits, divBits);
      div.Shl(shift);
      AllClear(pn[..], shift + 1);
      while shift >= 0
        invariant -1 <= shift < WIDTH * 32
        invariant Dividing(n, d, Value(), num.Value(), shift + 1) && LowClear(pn[..], shift + 1)
        invariant shift >= 0 ==> div.Value() == d * Pow2(shift)
      {
        DivStep(num, div, shift, n, d);
        DoubleWeight(d, shift);
        div.Shr(1);
        shift := shift - 1;
      }
      remainder := num.Value();
      DivDone(n, d, Value(), remainder);
    }

    // The body of the loop, up to shifting back.
    method DivStep(num: ArithUint256, div: ArithUint256, shift: nat, ghost n: nat, ghost d: nat)
      requires Valid() && num.Valid() && div.Valid() && pn != num.pn && pn != div.pn && num.pn != div.pn
      requires shift < WIDTH * 32 && div.Value() == d * Pow2(shift) && LowClear(pn[..], shift + 1)
      requires Dividing(n, d, Value(), num.Value(), shift + 1)
      modifies pn, num.pn
      ensures Dividing(n, d, Value(), num.Value(), shift) && LowClear(pn[..], shift)
    {
      hide Pow2, Num, Weight, LowClear, Or, LeftOf, Wrapped;
      ghost var q, r, t := Value(), num.Value(), pn[..];
      ClearBelow(t, shift);
      DoubleWeight(d, shift);
      var c := num.CompareTo(div);
      if c >= 0 {
        ValueBound(num.pn[..]);
        Subtracted(r, d * Pow2(shift));
        num.SubAssign(div);
        assert pn[..] == t;
        pn[shift / 32] := Or(pn[shift / 32], LeftOf(1, shift % 32));
        SetBit(t, pn[..], shift);
        MulAdd(q, Pow2(shift), d);
      }
    }

    // SetCompact, and its two flags.
    method SetCompact(nCompact: uint32) returns (fNegative: bool, fOverflow: bool)
      requires Valid()
      modifies pn
      ensures Value() == Wrapped(Compact.Decode(nCompact as int))
      ensures fNegative <==> Compact.Negative(nCompact as int)
      ensures fOverflow <==> Compact.Decode(nCompact as int) >= LIMIT
    {
      hide Pow2, Compact.Bytes, Num, Weight, Wrapped;
      ghost var c := nCompact as int;
      var nSize := nCompact as int / Compact.SIZE_ONE;
      var nWord := nCompact as int % Compact.SIGN;
      Compact.OverflowExact(c);
      if nSize <= 3 {
        Compact.BytesPow2(3 - nSize);
        QuotientFits(nWord, Pow2(8 * (3 - nSize)));
        nWord := nWord / Pow2(8 * (3 - nSize));
        Set(nWord as uint64);
        ValueBound(pn[..]);
        WrappedSmall(nWord);
      } else {
        Compact.BytesPow2(nSize - 3);
        Set(nWord as uint64);
        Shl(8 * (nSize - 3));
      }
      fNegative := nWord != 0 && nCompact as int / Compact.SIGN % 2 == 1;
      fOverflow := nWord != 0 && (nSize > 34 || (nWord > 0xff && nSize > 33) || (nWord > 0xffff && nSize > 32));
    }

    method GetCompact(fNegative: bool) returns (nCompact: int)
      requires Valid()
      ensures nCompact == Compact.Encode(Value(), fNegative)
    {
      hide Pow2, Compact.Bytes, Compact.ByteSize, Num, Weight, BitOr, Wrapped;
      var r := Bits();
      var nSize := (r + 7) / 8;
      BytesOfBits(Value(), r);
      ghost var m := Compact.Scale(Value(), nSize);
      Compact.ScaleBound(Value(), nSize, 1);
      LowWord(m);
      if nSize <= 3 {
        Compact.BytesPow2(3 - nSize);
        var low := GetLow64();
        LowValue(Value(), nSize);
        nCompact := low as int * Pow2(8 * (3 - nSize)) % BASE;
      } else {
        Compact.BytesPow2(nSize - 3);
        var bn := new ArithUint256.Copy(this);
        bn.Shr(8 * (nSize - 3));
        var low := bn.GetLow64();
        nCompact := low as int % BASE;
      }
      assert nCompact == m;
      if nCompact / Compact.SIGN % 2 == 1 {
        nCompact := nCompact / 256;
        nSize := nSize + 1;
      }
      assert nCompact < Compact.SIGN && nSize < 256;
      OrSize(nCompact, nSize);
      nCompact := BitOr(nCompact, nSize * Compact.SIZE_ONE);
      if fNegative && nCompact % Compact.SIGN != 0 {
        OrSign(nCompact, nSize);
        nCompact := BitOr(nCompact, Compact.SIGN);
      }
    }
  }

  // The word operators | << >> .
  function Or(a: uint32, b: uint32): uint32
  {
    Pow2Small();
    OrFits(a as int, b as int, 32);
    BitOr(a as int, b as int) as uint32
  }

  function LeftOf(a: uint32, s: nat): uint32 { (a as int * Pow2(s) % BASE) as uint32 }

  function RightOf(a: uint32, s: nat): uint32
  {
    QuotientFits(a as int, Pow2(s));
    (a as int / Pow2(s)) as uint32
  }

  lemma ComplementNext(s: seq<uint32>, t: seq<uint32>, x: seq<uint32>, i: nat)
    requires i < |s| == |t| == |x| && t == s[i := 0xffff_ffff - x[i]]
    requires Num(s[..i]) + Num(x[..i]) == Weight(i) - 1
    ensures Num(t[..i + 1]) + Num(x[..i + 1]) == Weight(i + 1) - 1
  {
    hide Num, Pow2;
    NumStep(s, s, t, i);
    NumNext(x, i);
    MulAdd(t[i] as int, x[i] as int, Weight(i));
    MulAdd(BASE, -1, Weight(i));
  }

  // One limb of an increment: done, or carried on.
  lemma IncStep(x: seq<uint32>, s: seq<uint32>, t: seq<uint32>, i: nat)
    requires i < |s| == |t| == |x| && s[i..] == x[i..]
    requires t == s[i := Next(x[i])]
    requires Num(s[..i]) == 0 && Num(x[..i]) == Weight(i) - 1
    ensures if t[i] != 0 then Num(t) == Num(x) + 1
            else t[i + 1..] == x[i + 1..] && Num(t[..i + 1]) == 0 && Num(x[..i + 1]) == Weight(i + 1) - 1
  {
    hide Num, Weight, Pow2, LIMIT;
    NumStep(x, s, t, i);
    MulAdd(x[i] as int, 1, Weight(i));
    MulAdd(BASE, -1, Weight(i));
  }

  // One limb of a decrement: done, or borrowed on.
  lemma DecStep(x: seq<uint32>, s: seq<uint32>, t: seq<uint32>, i: nat)
    requires i < |s| == |t| == |x| && s[i..] == x[i..]
    requires t == s[i := Previous(x[i])]
    requires Num(x[..i]) == 0 && Num(s[..i]) == Weight(i) - 1
    ensures if t[i] != 0xffff_ffff then Num(t) == Num(x) - 1
            else t[i + 1..] == x[i + 1..] && Num(x[..i + 1]) == 0 && Num(t[..i + 1]) == Weight(i + 1) - 1
  {
    hide Num, Weight, Pow2, LIMIT;
    NumStep(x, s, t, i);
    MulAdd(x[i] as int, -1, Weight(i));
    MulAdd(BASE, -1, Weight(i));
  }

  lemma Empty(s: seq<uint32>)
    ensures Num(s[..0]) == 0 && Weight(0) == 1
  {
  }

  // One step of an addition with carry.
  lemma Carried(low: int, c: int, a: int, b: int, p: int, c': int, w: int)
    requires c + a + b == p + c' * BASE
    ensures low + p * w + c' * (BASE * w) == low + c * w + a * w + b * w
  {
    assert (c + a + b) * w == c * w + a * w + b * w by {
      MulAdd(c, a, w);
      MulAdd(c + a, b, w);
    }
    MulAdd(p, c' * BASE, w);
    MulAssoc(c', BASE, w);
  }

  // b * x + c + p fits 64 bits.
  lemma ProductFits(b: int, x: int, c: int, p: int)
    requires 0 <= b < BASE && 0 <= x < BASE && 0 <= c < BASE && 0 <= p < BASE
    ensures 0 <= b * x <= (BASE - 1) * (BASE - 1) && c + p + b * x < BASE * BASE
    ensures 0 <= (c + p + b * x) / BASE < BASE
  {
    MulMono(b, BASE - 1, x);
    MulMono(x, BASE - 1, BASE - 1);
    MulMono(0, b, x);
  }

  lemma ValueBound(s: seq<uint32>)
    requires |s| == WIDTH
    ensures Num(s) < LIMIT
  {
    NumBound(s);
    WeightIsPow2(WIDTH);
  }

  // What is carried out of the top limb is lost.
  lemma Wraps(s: seq<uint32>, carry: int, total: int)
    requires |s| == WIDTH && Num(s) + carry * Weight(WIDTH) == total
    ensures Num(s) == Wrapped(total)
  {
    ValueBound(s);
    WeightIsPow2(WIDTH);
    DivModUnique(total, LIMIT, carry, Num(s));
  }

  lemma WrappedSmall(n: int)
    requires 0 <= n < LIMIT
    ensures Wrapped(n) == n
  {
    DivModUnique(n, LIMIT, 0, n);
  }

  lemma WrappedSub(x: int, y: int)
    requires 0 <= y < LIMIT
    ensures Wrapped(x + Wrapped(LIMIT - y)) == Wrapped(x - y)
  {
    ModSub(x, y, LIMIT);
  }

  lemma ModSub(x: int, y: int, m: int)
    requires 0 <= y < m
    ensures (x + (m - y) % m) % m == (x - y) % m
  {
    if y != 0 {
      assert (m - y) % m == m - y by { DivModUnique(m - y, m, 0, m - y); }
      var q, r := (x - y) / m, (x - y) % m;
      assert x - y == q * m + r;
      MulAdd(q, 1, m);
      DivModUnique(x - y + m, m, q + 1, r);
    } else {
      DivModUnique(m, m, 1, 0);
    }
  }

  lemma TwoLimbs(s: seq<uint32>)
    requires |s| == WIDTH && forall j | 2 <= j < WIDTH :: s[j] == 0
    ensures Num(s) == s[0] as int + s[1] as int * BASE
  {
    NumSplit(s, 2);
    NumZero(s[2..]);
    NumNext(s, 0);
    NumNext(s, 1);
    assert s[..0] == [] && Weight(0) == 1 && Weight(1) == BASE;
  }

  // i limbs of y have been multiplied by f and added at limb j, giving t.
  ghost predicate RowEquation(x: seq<uint32>, t: seq<uint32>, y: seq<uint32>, f: uint32, j: nat, i: nat, carry: uint64)
    requires i <= |y|
  {
    Num(t) + carry as int * Weight(i + j) == Num(x) + f as int * Num(y[..i]) * Weight(j)
  }

  lemma RowStart(x: seq<uint32>, y: seq<uint32>, f: uint32, j: nat)
    ensures RowEquation(x, x, y, f, j, 0, 0)
  {
    Empty(y);
  }

  lemma RowNext(x: seq<uint32>, s: seq<uint32>, t: seq<uint32>, y: seq<uint32>, f: uint32, j: nat, i: nat, c: uint64,
                c': uint64)
    requires i + j < |s| == |x| == |t| == |y| && s[i + j..] == x[i + j..] && t == s[i + j := t[i + j]]
    requires c as int + s[i + j] as int + f as int * y[i] as int == t[i + j] as int + c' as int * BASE
    requires RowEquation(x, s, y, f, j, i, c)
    ensures t[i + 1 + j..] == x[i + 1 + j..] && RowEquation(x, t, y, f, j, i + 1, c')
  {
    hide Weight, Num, Pow2;
    NumStep(x, s, t, i + j);
    NumUpdate(s, i + j, t[i + j]);
    NumNext(y, i);
    RowStep(Num(s), c as int, s[i + j] as int, t[i + j] as int, c' as int, f as int, y[i] as int, Num(y[..i]), i, j,
            Num(x));
  }

  // One step of a row: limb k = i + j, before and after.
  lemma RowStep(v: int, c: int, p: int, p': int, c': int, f: int, yi: int, ys: int, i: nat, j: nat, x: int)
    requires c + p + f * yi == p' + c' * BASE
    requires v + c * Weight(i + j) == x + f * ys * Weight(j)
    ensures v + (p' - p) * Weight(i + j) + c' * (BASE * Weight(i + j)) == x + f * (ys + yi * Weight(i)) * Weight(j)
  {
    var w := Weight(i + j);
    WeightAdd(i, j);
    hide Weight;
    Carried(v - p * w, c, p, f * yi, p', c', w);
    MulAdd(p', -p, w);
    MulAdd(ys, yi * Weight(i), f);
    MulAssoc(f, yi, Weight(i));
    MulAdd(f * ys, f * yi * Weight(i), Weight(j));
    MulAssoc(f * yi, Weight(i), Weight(j));
  }

  // A whole row: what does not fit the eight limbs goes into q.
  lemma RowDone(x: seq<uint32>, y: seq<uint32>, s: seq<uint32>, t: seq<uint32>, j: nat, carry: uint64, q: int)
    requires |x| == |y| == WIDTH && j < WIDTH
    requires Num(s) + q * Weight(WIDTH) == Num(x[..j]) * Num(y)
    requires RowEquation(s, t, y, x[j], j, WIDTH - j, carry)
    ensures Num(t) + (q + carry as int + x[j] as int * Num(y[WIDTH - j..])) * Weight(WIDTH)
         == Num(x[..j + 1]) * Num(y)
  {
    hide *;
    WholeRow(s, t, y, x[j], j, carry);
    NumNext(x, j);
    NumSplit(y, WIDTH - j);
    TopWeight(j);
    RowSum(Num(s), Num(t), q, carry as int, x[j] as int, Num(y[..WIDTH - j]), Num(y[WIDTH - j..]), Weight(j),
           Weight(WIDTH - j), Weight(WIDTH), Num(x[..j]), Num(y));
  }

  lemma WholeRow(s: seq<uint32>, t: seq<uint32>, y: seq<uint32>, f: uint32, j: nat, carry: uint64)
    requires |y| == WIDTH && j < WIDTH && RowEquation(s, t, y, f, j, WIDTH - j, carry)
    ensures Num(t) + carry as int * Weight(WIDTH) == Num(s) + f as int * Num(y[..WIDTH - j]) * Weight(j)
  {
    hide Num, Weight;
  }

  lemma TopWeight(j: nat)
    requires j < WIDTH
    ensures Weight(WIDTH) == Weight(WIDTH - j) * Weight(j)
  {
    WeightAdd(WIDTH - j, j);
  }

  lemma RowSum(v: int, v': int, q: int, c: int, f: int, low: int, high: int, w: int, u: int, W: int, xs: int, ys: int)
    requires W == u * w && ys == low + high * u
    requires v + q * W == xs * ys && v' + c * W == v + f * low * w
    ensures v' + (q + c + f * high) * W == (xs + f * w) * ys
  {
    RowAlgebra(f, low, high, w, u);
    MulAdd(q + c, f * high, W);
    MulAdd(q, c, W);
    MulAdd(xs, f * w, ys);
  }

  lemma RowAlgebra(f: int, low: int, high: int, w: int, u: int)
    ensures f * w * (low + high * u) == f * low * w + f * high * (u * w)
  {
    MulAdd(low, high * u, f * w);
    Shuffle(f, w, low);
    Shuffle4(f, w, high, u);
  }

  lemma Shuffle(a: int, b: int, c: int)
    ensures a * b * c == a * c * b
  {
  }

  lemma Shuffle4(a: int, b: int, c: int, d: int)
    ensures a * b * (c * d) == a * c * (d * b)
  {
  }

  lemma LowLimbs(s: seq<uint32>)
    requires |s| == WIDTH
    ensures Num(s) % Pow2(64) == s[0] as int + s[1] as int * BASE
    ensures Num(s) == s[0] as int + s[1] as int * BASE + Num(s[2..]) * Pow2(64)
  {
    NumSplit(s, 2);
    NumNext(s, 0);
    NumNext(s, 1);
    Empty(s);
    WeightIsPow2(2);
    assert Weight(0) == 1 && Weight(1) == BASE && Weight(2) == BASE * BASE;
    DivModUnique(Num(s), Pow2(64), Num(s[2..]), s[0] as int + s[1] as int * BASE);
  }

  lemma HighLimb(s: seq<uint32>, i: nat)
    requires 2 <= i < |s| == WIDTH && s[i] != 0
    ensures Num(s) >= BASE * BASE
  {
    NumSplit(s, i + 1);
    NumNext(s, i);
    WeightAdd(2, i - 2);
    assert Weight(2) == BASE * BASE;
    MulMono(1, Weight(i - 2), BASE * BASE);
    MulMono(1, s[i] as int, Weight(i));
    MulMono(0, Num(s[i + 1..]), Weight(i + 1));
  }

  lemma WordBound(w: uint32)
    ensures (w as int) < Pow2(32)
  {
    Pow2Small();
  }

  lemma TopBit(w: int, n: nat)
    requires 0 <= w < Pow2(n + 1)
    ensures if w / Pow2(n) % 2 == 1 then w >= Pow2(n) else w < Pow2(n)
  {
    if w < Pow2(n) {
      DivModUnique(w, Pow2(n), 0, w);
    } else {
      DivModUnique(w, Pow2(n), 1, w - Pow2(n));
    }
  }

  lemma LowestBit(w: int)
    requires 0 < w < Pow2(1)
    ensures w == Pow2(0)
  {
  }

  lemma TopWord(low: int, d: int, p: int, p': int, w: int)
    requires 0 <= low < w && p <= d < p'
    ensures p * w <= low + d * w < p' * w
  {
    MulMono(p, d, w);
    MulMono(d + 1, p', w);
    MulAdd(d, 1, w);
  }

  // The highest limb and its highest bit.
  lemma TopLimb(s: seq<uint32>, pos: nat, n: nat)
    requires pos < |s| == WIDTH && n < 32 && forall j | pos < j < WIDTH :: s[j] == 0
    requires Pow2(n) <= s[pos] as int < Pow2(n + 1)
    ensures Pow2(32 * pos + n) <= Num(s) < Pow2(32 * pos + n + 1)
  {
    hide Pow2, Num, Weight;
    NumSplit(s, pos + 1);
    NumZero(s[pos + 1..]);
    NumNext(s, pos);
    NumBound(s[..pos]);
    WeightIsPow2(pos);
    Pow2Add(n, 32 * pos);
    Pow2Add(n + 1, 32 * pos);
    TopWord(Num(s[..pos]), s[pos] as int, Pow2(n), Pow2(n + 1), Weight(pos));
  }

  // ------------------------------------------------------------------ shifts

  lemma ShiftNone(x: seq<uint32>, shift: nat)
    ensures Num(x[..0]) == 0 && 0 * Pow2(shift) == 0 && 0 / Pow2(shift) == 0 && Wrapped(0) == 0
  {
    DivModUnique(0, Pow2(shift), 0, 0);
    DivModUnique(0, LIMIT, 0, 0);
  }

  // After i limbs of x: t holds their shifted value, with room for the next
  // limb in limb i + k.
  ghost predicate ShiftedLeft(x: seq<uint32>, t: seq<uint32>, i: nat, k: nat, s: nat)
    requires i <= |x|
  {
    && |t| == WIDTH && Num(t) == Wrapped(Num(x[..i]) * Pow2(32 * k + s))
    && (i + k < WIDTH ==> t[i + k] as int < Pow2(s))
    && forall j | i + k < j < WIDTH :: t[j] == 0
  }

  function ShlNext(x: seq<uint32>, t: seq<uint32>, i: nat, k: nat, s: nat): (t': seq<uint32>)
    requires i < |x| && |t| == WIDTH && s < 32
    ensures |t'| == WIDTH
  {
    var t1 := if i + k + 1 < WIDTH && s != 0 then t[i + k + 1 := Or(t[i + k + 1], RightOf(x[i], 32 - s))] else t;
    if i + k < WIDTH then t1[i + k := Or(t1[i + k], LeftOf(x[i], s))] else t1
  }

  // The two parts of a shifted word.
  lemma Parts(w: uint32, s: nat)
    requires s <= 32
    ensures w as int * Pow2(s) == LeftOf(w, s) as int + RightOf(w, 32 - s) as int * BASE
    ensures LeftOf(w, s) as int % Pow2(s) == 0 && RightOf(w, 32 - s) as int < Pow2(s)
  {
    Pow2Add(s, 32 - s);
    Pow2Small();
    hide Pow2;
    SplitWord(w as int, Pow2(s), Pow2(32 - s));
  }

  lemma SplitWord(w: int, p: int, u: int)
    requires 0 <= w < BASE && p >= 1 && u >= 1 && p * u == BASE
    ensures w * p == w * p % BASE + w / u * BASE && w * p % BASE % p == 0 && w / u < p
  {
    var h, l := w / u, w % u;
    assert w == h * u + l;
    assert w * p == h * BASE + l * p by {
      MulAdd(h * u, l, p);
      MulAssoc(h, u, p);
    }
    MulLess(l, u, p);
    MulMono(0, l, p);
    DivModUnique(w * p, BASE, h, l * p);
    DivModUnique(l * p, p, l, 0);
    if h >= p { MulMono(p, h, u); }
  }

  // Or-ing into an empty limb.
  lemma FillEmpty(t: seq<uint32>, j: nat, v: uint32)
    requires j < |t| && t[j] == 0
    ensures Or(t[j], v) == v && Num(t[j := Or(t[j], v)]) == Num(t) + v as int * Weight(j)
  {
    OrZero(v as int);
    NumUpdate(t, j, v);
  }

  // Or-ing above the bits a limb holds.
  lemma FillAbove(t: seq<uint32>, j: nat, v: uint32, s: nat)
    requires j < |t| && (t[j] as int) < Pow2(s) && v as int % Pow2(s) == 0
    ensures Num(t[j := Or(t[j], v)]) == Num(t) + v as int * Weight(j)
  {
    OrDisjoint(v as int, t[j] as int, s);
    NumUpdate(t, j, Or(t[j], v));
  }

  lemma ModAdd(v: int, v': int, a: int, b: int, c: int, m: int)
    requires m >= 1 && v == a % m && v' == v + b - c * m && 0 <= v' < m
    ensures v' == (a + b) % m
  {
    var q := a / m;
    assert a == q * m + v;
    MulAdd(q, c, m);
    DivModUnique(a + b, m, q + c, v');
  }

  lemma ShlDone(x: seq<uint32>, t: seq<uint32>, k: nat, s: nat)
    requires |x| == WIDTH && ShiftedLeft(x, t, WIDTH, k, s)
    ensures Num(t) == Wrapped(Num(x) * Pow2(32 * k + s))
  {
    assert x[..WIDTH] == x;
  }

  lemma ShrDone(x: seq<uint32>, t: seq<uint32>, k: nat, s: nat)
    requires |x| == WIDTH && s < 32 && ShiftedRight(x, t, WIDTH, k, s)
    ensures Num(t) == Num(x) / Pow2(32 * k + s)
  {
    assert x[..WIDTH] == x;
  }

  // What limb i adds to the shifted number.
  lemma ShlTotal(x: seq<uint32>, i: nat, k: nat, s: nat)
    requires i < |x|
    ensures Num(x[..i + 1]) * Pow2(32 * k + s)
         == Num(x[..i]) * Pow2(32 * k + s) + x[i] as int * Pow2(s) * Weight(i + k)
  {
    hide Pow2, Num, Weight;
    NumNext(x, i);
    WeightIsPow2(k);
    Pow2Add(32 * k, s);
    WeightAdd(i, k);
    MulAdd(Num(x[..i]), x[i] as int * Weight(i), Pow2(32 * k + s));
    Shuffle4(x[i] as int, Weight(i), Pow2(s), Weight(k));
    assert Weight(k) * Pow2(s) == Pow2(s) * Weight(k);
    assert Weight(k) * Weight(i) == Weight(i + k);
  }

  lemma ShlStep(x: seq<uint32>, t: seq<uint32>, i: nat, k: nat, s: nat)
    requires i < |x| == WIDTH && s < 32 && ShiftedLeft(x, t, i, k, s)
    ensures ShiftedLeft(x, ShlNext(x, t, i, k, s), i + 1, k, s)
  {
    hide Pow2, Num, Weight, BitOr, Or, LeftOf, RightOf;
    var t' := ShlNext(x, t, i, k, s);
    if i + k < WIDTH {
      ShlInside(x, t, i, k, s);
      ShlValue(x, Num(t), t', i, k, s, if i + k + 1 < WIDTH then 0 else RightOf(x[i], 32 - s) as int);
    } else {
      ShlOutside(x, t, i, k, s);
    }
  }

  lemma ShlValue(x: seq<uint32>, v: int, t': seq<uint32>, i: nat, k: nat, s: nat, c: int)
    requires i < |x| && |t'| == WIDTH && v == Wrapped(Num(x[..i]) * Pow2(32 * k + s))
    requires Num(t') == v + x[i] as int * Pow2(s) * Weight(i + k) - c * Weight(WIDTH)
    ensures Num(t') == Wrapped(Num(x[..i + 1]) * Pow2(32 * k + s))
  {
    hide Pow2, Num, Weight;
    ShlTotal(x, i, k, s);
    ValueBound(t');
    WeightIsPow2(WIDTH);
    ModAdd(v, Num(t'), Num(x[..i]) * Pow2(32 * k + s), x[i] as int * Pow2(s) * Weight(i + k), c, LIMIT);
  }

  lemma ShlOutside(x: seq<uint32>, t: seq<uint32>, i: nat, k: nat, s: nat)
    requires i < |x| && s < 32 && ShiftedLeft(x, t, i, k, s) && i + k >= WIDTH
    ensures ShiftedLeft(x, t, i + 1, k, s)
  {
    hide Pow2, Num, Weight;
    WeightAdd(i + k - WIDTH, WIDTH);
    var c := x[i] as int * Pow2(s) * Weight(i + k - WIDTH);
    MulAssoc(x[i] as int * Pow2(s), Weight(i + k - WIDTH), Weight(WIDTH));
    ShlValue(x, Num(t), t, i, k, s, c);
  }

  // The words written while they are inside the number.
  lemma ShlInside(x: seq<uint32>, t: seq<uint32>, i: nat, k: nat, s: nat)
    requires i < |x| == WIDTH && s < 32 && ShiftedLeft(x, t, i, k, s) && i + k < WIDTH
    ensures var t' := ShlNext(x, t, i, k, s); var high := RightOf(x[i], 32 - s);
      && Num(t') == Num(t) + x[i] as int * Pow2(s) * Weight(i + k)
                  - (if i + k + 1 < WIDTH then 0 else high as int * Weight(WIDTH))
      && (i + 1 + k < WIDTH ==> t'[i + 1 + k] == high && high as int < Pow2(s))
      && forall j | i + 1 + k < j < WIDTH :: t'[j] == 0
  {
    Parts(x[i], s);
    var j, low, high := i + k, LeftOf(x[i], s), RightOf(x[i], 32 - s);
    var t1 := if j + 1 < WIDTH then t[j + 1 := Or(t[j + 1], high)] else t;
    if j + 1 < WIDTH {
      FillEmpty(t, j + 1, high);
      NothingRight(x[i], t[j + 1]);
    }
    FillAbove(t1, j, low, s);
    assert j + 1 < WIDTH && s == 0 ==> t1 == t;
    hide *;
    TwoParts(x[i] as int * Pow2(s), low as int, high as int, j);
    ShlBoth(x, t, i, k, s);
  }

  lemma ShlBoth(x: seq<uint32>, t: seq<uint32>, i: nat, k: nat, s: nat)
    requires i < |x| == |t| == WIDTH && s < 32 && i + k < WIDTH
    requires i + k + 1 < WIDTH && s == 0 ==> t[i + k + 1 := Or(t[i + k + 1], RightOf(x[i], 32 - s))] == t
    ensures ShlNext(x, t, i, k, s) ==
            (if i + k + 1 < WIDTH then t[i + k + 1 := Or(t[i + k + 1], RightOf(x[i], 32 - s))] else t)
            [i + k := Or(t[i + k], LeftOf(x[i], s))]
  {
  }

  lemma NothingRight(w: uint32, v: uint32)
    ensures Or(v, RightOf(w, 32)) == v
  {
    Pow2Small();
    DivModUnique(w as int, BASE, 0, w as int);
    OrZero(v as int);
  }

  // A word shifted across limbs j and j + 1.
  lemma TwoParts(w: int, low: int, high: int, j: nat)
    requires w == low + high * BASE
    ensures w * Weight(j) == low * Weight(j) + high * Weight(j + 1)
  {
    MulAdd(low, high * BASE, Weight(j));
    MulAssoc(high, BASE, Weight(j));
  }

  // After i limbs of x: t holds their shifted value.
  ghost predicate ShiftedRight(x: seq<uint32>, t: seq<uint32>, i: nat, k: nat, s: nat)
    requires i <= |x| && s < 32
  {
    && |t| == WIDTH && Num(t) == Num(x[..i]) / Pow2(32 * k + s)
    && (k + 1 <= i <= WIDTH ==> t[i - k - 1] as int < Pow2(32 - s))
    && forall j | 0 <= j < WIDTH && j >= i - k :: t[j] == 0
  }

  function ShrNext(x: seq<uint32>, t: seq<uint32>, i: nat, k: nat, s: nat): (t': seq<uint32>)
    requires i < |x| == |t| == WIDTH && s < 32
    ensures |t'| == WIDTH
  {
    var t1 := if i - k - 1 >= 0 && s != 0 then t[i - k - 1 := Or(t[i - k - 1], LeftOf(x[i], 32 - s))] else t;
    if i - k >= 0 then t1[i - k := Or(t1[i - k], RightOf(x[i], s))] else t1
  }

  lemma ShrStep(x: seq<uint32>, t: seq<uint32>, i: nat, k: nat, s: nat)
    requires i < |x| == WIDTH && s < 32 && ShiftedRight(x, t, i, k, s)
    ensures ShiftedRight(x, ShrNext(x, t, i, k, s), i + 1, k, s)
  {
    hide Pow2, Num, Weight, BitOr, Or, LeftOf, RightOf;
    if i < k {
      AllOut(x, i, k, s);
      AllOut(x, i + 1, k, s);
    } else if i == k {
      AllOut(x, i, k, s);
      Parts(x[i], 32 - s);
      FillEmpty(t, 0, RightOf(x[i], s));
      ShiftFirst(x, k, s);
    } else {
      ShrInside(x, t, i, k, s);
    }
  }

  lemma AllOut(x: seq<uint32>, i: nat, k: nat, s: nat)
    requires i <= k && i <= |x|
    ensures Num(x[..i]) / Pow2(32 * k + s) == 0
  {
    hide Pow2, Num, Weight;
    NumBound(x[..i]);
    WeightIsPow2(i);
    Pow2Monotone(32 * i, 32 * k + s);
    DivModUnique(Num(x[..i]), Pow2(32 * k + s), 0, Num(x[..i]));
  }

  // The first limb that is not shifted out altogether.
  lemma ShiftFirst(x: seq<uint32>, k: nat, s: nat)
    requires k < |x|
    ensures Num(x[..k + 1]) / Pow2(32 * k + s) == RightOf(x[k], s) as int && Weight(0) == 1
  {
    NumNext(x, k);
    NumBound(x[..k]);
    WeightIsPow2(k);
    Pow2Add(32 * k, s);
    ShiftWord(Num(x[..k]), x[k] as int, Pow2(s), Weight(k));
  }

  lemma ShiftWord(a: int, x: int, p: int, w: int)
    requires 0 <= a < w && p >= 1
    ensures (a + x * w) / (w * p) == x / p
  {
    var q, r := x / p, x % p;
    assert x == q * p + r;
    MulAdd(q * p, r, w);
    Shuffle(q, p, w);
    MulAssoc(q, w, p);
    MulMono(r + 1, p, w);
    MulAdd(r, 1, w);
    MulMono(0, r, w);
    DivModUnique(a + x * w, w * p, q, r * w + a);
  }

  lemma ShrInside(x: seq<uint32>, t: seq<uint32>, i: nat, k: nat, s: nat)
    requires i < |x| == WIDTH && s < 32 && ShiftedRight(x, t, i, k, s) && k < i
    ensures var t' := ShrNext(x, t, i, k, s);
      && Num(t') == Num(x[..i + 1]) / Pow2(32 * k + s)
      && (t'[i - k] as int) < Pow2(32 - s) && forall j | i - k < j < WIDTH :: t'[j] == 0
  {
    Parts(x[i], 32 - s);
    var j, low, high := i - k - 1, LeftOf(x[i], 32 - s), RightOf(x[i], s);
    var t1 := t[j := Or(t[j], low)];
    FillAbove(t, j, low, 32 - s);
    FillEmpty(t1, j + 1, high);
    NothingLeft(x[i], t[j]);
    hide *;
    TwoParts(x[i] as int * Pow2(32 - s), low as int, high as int, j);
    ShrTotal(x, i, k, s);
    assert s == 0 ==> t1 == t;
    ShrBoth(x, t, i, k, s);
  }

  lemma ShrBoth(x: seq<uint32>, t: seq<uint32>, i: nat, k: nat, s: nat)
    requires k < i < |x| == |t| == WIDTH && s < 32
    requires s == 0 ==> t[i - k - 1 := Or(t[i - k - 1], LeftOf(x[i], 32 - s))] == t
    ensures ShrNext(x, t, i, k, s) == t[i - k - 1 := Or(t[i - k - 1], LeftOf(x[i], 32 - s))]
                                       [i - k := Or(t[i - k], RightOf(x[i], s))]
  {
  }

  lemma NothingLeft(w: uint32, v: uint32)
    ensures Or(v, LeftOf(w, 32)) == v
  {
    Pow2Small();
    OrZero(v as int);
  }

  lemma ShrTotal(x: seq<uint32>, i: nat, k: nat, s: nat)
    requires i < |x| && s < 32 && k < i
    ensures Num(x[..i + 1]) / Pow2(32 * k + s)
         == Num(x[..i]) / Pow2(32 * k + s) + x[i] as int * Pow2(32 - s) * Weight(i - k - 1)
  {
    hide Pow2, Num, Weight;
    NumNext(x, i);
    WeightIsPow2(k + 1);
    Pow2Add(32 * k + s, 32 - s);
    WeightAdd(k + 1, i - k - 1);
    var a, d, m := Num(x[..i]), Pow2(32 * k + s), Pow2(32 - s) * Weight(i - k - 1);
    MulAssoc(d, Pow2(32 - s), Weight(i - k - 1));
    assert Weight(i) == d * m;
    MulAssoc(x[i] as int, Pow2(32 - s), Weight(i - k - 1));
    AddMultiple(a, x[i] as int, m, d);
  }

  lemma AddMultiple(a: int, x: int, m: int, d: int)
    requires d >= 1
    ensures (a + x * (d * m)) / d == a / d + x * m
  {
    var q, r := a / d, a % d;
    assert a == q * d + r;
    Shuffle(x, m, d);
    MulAssoc(x, d, m);
    MulAdd(q, x * m, d);
    DivModUnique(a + x * (d * m), d, q + x * m, r);
  }

  // ---------------------------------------------------------------- division

  // The m lowest bits of a word are 0.
  ghost predicate WordClear(w: uint32, m: int) {
    (m >= 32 ==> w == 0) && (0 < m < 32 ==> w as int % Pow2(m) == 0)
  }

  // The n lowest bits are 0.
  ghost predicate LowClear(t: seq<uint32>, n: nat) {
    |t| == WIDTH && forall j | 0 <= j < WIDTH :: WordClear(t[j], n - 32 * j)
  }

  lemma AllZero(t: seq<uint32>)
    requires |t| == WIDTH && Num(t) == 0
    ensures forall j | 0 <= j < WIDTH :: t[j] == 0
  {
    forall j | 0 <= j < WIDTH ensures t[j] == 0 {
      NumUpdate(t, j, 0);
      ZeroFactor(t[j] as int, Weight(j));
    }
  }

  lemma AllClear(t: seq<uint32>, n: nat)
    requires |t| == WIDTH && Num(t) == 0
    ensures LowClear(t, n)
  {
    AllZero(t);
    forall j | 0 <= j < WIDTH ensures WordClear(t[j], n - 32 * j) {
      ZeroMod(n - 32 * j);
    }
  }

  lemma ZeroMod(m: int)
    ensures m > 0 ==> 0 % Pow2(m) == 0
  {
    if m > 0 {
      DivModUnique(0, Pow2(m), 0, 0);
    }
  }

  lemma ZeroFactor(a: nat, w: int)
    requires w >= 1 && (0 - a) * w >= 0
    ensures a == 0
  {
    if a > 0 {
      MulMono(1, a, w);
    }
  }

  lemma WordBelow(w: uint32, m: int)
    requires WordClear(w, m + 1)
    ensures WordClear(w, m)
  {
    if m == 31 {
      ZeroMod(31);
    } else if 0 < m < 31 {
      HalfClear(w as int, m);
    }
  }

  lemma ClearBelow(t: seq<uint32>, n: nat)
    requires LowClear(t, n + 1)
    ensures LowClear(t, n)
  {
    hide WordClear;
    forall j | 0 <= j < WIDTH ensures WordClear(t[j], n - 32 * j) {
      WordBelow(t[j], n - 32 * j);
    }
  }

  lemma HalfClear(w: nat, k: nat)
    requires w % Pow2(k + 1) == 0
    ensures w % Pow2(k) == 0
  {
    var q, p := w / (2 * Pow2(k)), Pow2(k);
    assert w == q * (2 * p);
    MulAssoc(q, 2, p);
    DivModUnique(w, p, q * 2, 0);
  }

  // Setting bit n, the lower bits being 0.
  lemma SetBit(t: seq<uint32>, t': seq<uint32>, n: nat)
    requires n < 32 * WIDTH && LowClear(t, n + 1) && t' == t[n / 32 := Or(t[n / 32], LeftOf(1, n % 32))]
    ensures Num(t') == Num(t) + Pow2(n) && LowClear(t', n)
  {
    var j, k := n / 32, n % 32;
    hide Pow2, Num, Weight, Or, LeftOf, BitOr, WordClear;
    ClearBelow(t, n);
    assert WordClear(t[j], k + 1);
    SetWord(t[j], k);
    NumUpdate(t, j, t'[j]);
    WeightIsPow2(j);
    Pow2Add(k, 32 * j);
  }

  lemma SetWord(w: uint32, k: nat)
    requires k < 32 && WordClear(w, k + 1)
    ensures Or(w, LeftOf(1, k)) as int == w as int + Pow2(k) && WordClear(Or(w, LeftOf(1, k)), k)
  {
    BitWord(k);
    if k == 31 {
      OrZero(Pow2(31));
    } else {
      OrDisjoint(w as int, Pow2(k), k + 1);
    }
    WordBelow(w, k);
    if k > 0 {
      SumClear(w as int, k);
    }
  }

  lemma BitWord(k: nat)
    requires k < 32
    ensures LeftOf(1, k) as int == Pow2(k) && Pow2(k) < Pow2(k + 1)
  {
    Pow2Monotone(k + 1, 32);
    Pow2Small();
  }

  lemma SumClear(w: nat, k: nat)
    requires w % Pow2(k) == 0
    ensures (w + Pow2(k)) % Pow2(k) == 0
  {
    var q, p := w / Pow2(k), Pow2(k);
    assert w == q * p;
    MulAdd(q, 1, p);
    DivModUnique(w + p, p, q + 1, 0);
  }

  lemma BelowDivisor(n: nat, d: nat, numBits: nat, divBits: nat)
    requires numBits < divBits && Pow2(divBits - 1) <= d
    requires (numBits == 0 ==> n == 0) && n < Pow2(numBits)
    ensures n < d
  {
    Pow2Monotone(numBits, divBits - 1);
  }

  // The first shift loses no bit and puts the divisor in place.
  lemma Aligned(n: nat, d: nat, numBits: nat, divBits: nat)
    requires 0 < divBits <= numBits <= 256 && Pow2(divBits - 1) <= d < Pow2(divBits) && n < Pow2(numBits)
    ensures var shift := numBits - divBits;
      Dividing(n, d, 0, n, shift + 1) && Wrapped(d * Pow2(shift)) == d * Pow2(shift)
  {
    hide Pow2;
    var shift := numBits - divBits;
    Pow2Add(divBits - 1, shift + 1);
    Pow2Add(divBits, shift);
    MulMono(Pow2(divBits - 1), d, Pow2(shift + 1));
    MulLess(d, Pow2(divBits), Pow2(shift));
    Pow2Monotone(numBits, 256);
    MulMono(0, d, Pow2(shift));
    DivModUnique(d * Pow2(shift), LIMIT, 0, d * Pow2(shift));
  }

  lemma Subtracted(r: nat, s: nat)
    requires s <= r < LIMIT
    ensures Wrapped(r - s) == r - s
  {
    DivModUnique(r - s, LIMIT, 0, r - s);
  }

  lemma DoubleWeight(d: nat, n: nat)
    ensures d * Pow2(n + 1) == 2 * (d * Pow2(n)) && (n > 0 ==> d * Pow2(n) / Pow2(1) == d * Pow2(n - 1))
  {
    MulAssoc(d, 2, Pow2(n));
    if n > 0 {
      MulAssoc(d, 2, Pow2(n - 1));
    }
    assert Pow2(1) == 2;
  }

  // q is the quotient so far, r what is left.
  ghost predicate Dividing(n: nat, d: nat, q: nat, r: nat, shift: nat) {
    n == q * d + r && r < d * Pow2(shift)
  }

  lemma DivDone(n: nat, d: nat, q: nat, r: nat)
    requires Dividing(n, d, q, r, 0)
    ensures n == q * d + r && r < d
  {
    assert d * Pow2(0) == d;
  }

  // ----------------------------------------------------------------- compact

  lemma BytesOfBits(v: nat, r: nat)
    requires r <= 256 && (r == 0 <==> v == 0) && (r > 0 ==> Pow2(r - 1) <= v < Pow2(r))
    ensures Compact.ByteSize(v) == (r + 7) / 8 && (r + 7) / 8 <= 32
  {
    var n := (r + 7) / 8;
    Compact.BytesPow2(n);
    Pow2Monotone(r, 8 * n);
    if n > 0 {
      Compact.BytesPow2(n - 1);
      Pow2Monotone(8 * (n - 1), r - 1);
    }
    Compact.SizeUnique(v, n);
  }

  // A mantissa is not changed by taking 64, and then 32, bits of it.
  lemma LowWord(m: nat)
    requires m < Compact.SIZE_ONE
    ensures m % Pow2(64) == m && m % BASE == m && (m / Compact.SIGN % 2 == 1 <==> m >= Compact.SIGN)
  {
    Pow2Monotone(32, 64);
    Pow2Small();
    DivModUnique(m, Pow2(64), 0, m);
  }

  lemma LowValue(v: nat, n: nat)
    requires n <= 3 && Compact.Scale(v, n) < Compact.SIZE_ONE
    ensures v % Pow2(64) == v
  {
    MulMono(1, Compact.Bytes(3 - n), v);
    LowWord(v);
  }

  lemma OrSize(m: nat, n: nat)
    requires m < Compact.SIGN
    ensures BitOr(m, n * Compact.SIZE_ONE) == m + n * Compact.SIZE_ONE
    ensures (m + n * Compact.SIZE_ONE) % Compact.SIGN == m
  {
    Pow2Small();
    DivModUnique(n * Compact.SIZE_ONE, Compact.SIZE_ONE, n, 0);
    OrDisjoint(n * Compact.SIZE_ONE, m, 24);
    DivModUnique(m + n * Compact.SIZE_ONE, Compact.SIGN, 2 * n, m);
  }

  lemma OrSign(c: nat, n: nat)
    requires n * Compact.SIZE_ONE <= c < n * Compact.SIZE_ONE + Compact.SIGN
    ensures BitOr(c, Compact.SIGN) == c + Compact.SIGN
  {
    Pow2Add(8, 15);
    Pow2Small();
    assert Pow2(23) == Compact.SIGN by {
      assert Pow2(24) == 2 * Pow2(23);
    }
    DivModUnique(c, Compact.SIGN, 2 * n, c - n * Compact.SIZE_ONE);
    OrBit(c, 23);
  }
}
