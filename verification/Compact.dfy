// The compact form of targets: one byte of size, one sign bit and 23 bits of
// mantissa, N = mantissa * 256^(size - 3).
module Compact {
  import opened Limbs

  const SIGN: int := 0x80_0000
  const SIZE_ONE: int := 0x100_0000

  // 256^n
  function Bytes(n: nat): (p: nat)
    ensures p >= 1
  {
    if n == 0 then 1 else 256 * Bytes(n - 1)
  }

  // The number of bytes of x.
  function ByteSize(x: nat): (n: nat)
    ensures x < Bytes(n) && (n > 0 ==> Bytes(n - 1) <= x)
  {
    if x == 0 then 0 else 1 + ByteSize(x / 256)
  }

  // x moved so that byte n becomes the third byte.
  function Scale(x: nat, n: nat): nat {
    if n <= 3 then x * Bytes(3 - n)
    else
      QuotientFits(x, Bytes(n - 3));
      x / Bytes(n - 3)
  }

  // The compact form, as GetCompact computes it.
  function Encode(x: nat, fNegative: bool): (c: nat)
  {
    var n := ByteSize(x);
    var m := Scale(x, n);
    var (m', n') := if m >= SIGN then (m / 256, n + 1) else (m, n);
    m' + n' * SIZE_ONE + if fNegative && m' != 0 then SIGN else 0
  }

  function Size(c: nat): nat { c / SIZE_ONE }

  function Word(c: nat): (w: nat)
    ensures w < SIGN
  {
    c % SIGN
  }

  predicate Sign(c: nat) { c / SIGN % 2 == 1 }

  // The number a compact form stands for, without its sign.
  function Decode(c: nat): nat {
    if Size(c) <= 3 then
      QuotientFits(Word(c), Bytes(3 - Size(c)));
      Word(c) / Bytes(3 - Size(c))
    else
      MulMono(0, Word(c), Bytes(Size(c) - 3));
      Word(c) * Bytes(Size(c) - 3)
  }

  // The mantissa of 23 bits, moved up by the size in bytes less three, or down.
  lemma DecodeMeans(c: nat)
    ensures var size, word := c / 0x100_0000, c % 0x80_0000;
      && (size >= 3 ==> Decode(c) == word * Pow2(8 * (size - 3)))
      && (size <= 3 ==> Decode(c) == word / Pow2(8 * (3 - size)))
  {
    var size, word := Size(c), Word(c);
    if size >= 3 {
      BytesPow2(size - 3);
    }
    if size <= 3 {
      BytesPow2(3 - size);
    }
    hide Pow2;
    assert word * 1 == word && word / 1 == word;
  }

  // ------------------------------------------------------------ simple form

  // The size of the compact form leaves room for the sign bit.
  function SignedSize(x: nat): nat { ByteSize(2 * x) }

  function Simple(x: nat): nat { Scale(x, SignedSize(x)) + SignedSize(x) * SIZE_ONE }

  lemma {:induction false} BytesAdd(a: nat, b: nat)
    ensures Bytes(a + b) == Bytes(a) * Bytes(b)
  {
    if a != 0 {
      BytesAdd(a - 1, b);
      MulAssoc(256, Bytes(a - 1), Bytes(b));
    }
  }

  lemma {:induction false} BytesPow2(n: nat)
    ensures Bytes(n) == Pow2(8 * n)
  {
    if n != 0 {
      BytesPow2(n - 1);
      Pow2Add(8, 8 * (n - 1));
      Pow2Small();
    }
  }

  lemma {:induction false} BytesMonotone(a: nat, b: nat)
    requires a <= b
    ensures Bytes(a) <= Bytes(b)
  {
    if a < b { BytesMonotone(a, b - 1); }
  }

  lemma SmallBytes()
    ensures Bytes(0) == 1 && Bytes(1) == 0x100 && Bytes(2) == 0x1_0000 && Bytes(3) == SIZE_ONE
  {
    assert Bytes(1) == 256 * Bytes(0);
    assert Bytes(2) == 256 * Bytes(1);
  }

  // The size is determined by its bounds.
  lemma {:induction false} SizeUnique(x: nat, n: nat)
    requires x < Bytes(n) && (n > 0 ==> Bytes(n - 1) <= x)
    ensures ByteSize(x) == n
  {
    var m := ByteSize(x);
    if m < n {
      BytesMonotone(m, n - 1);
    } else if m > n {
      BytesMonotone(n, m - 1);
    }
  }

  lemma {:induction false} SizeMonotone(x: nat, y: nat)
    requires x <= y
    ensures ByteSize(x) <= ByteSize(y)
  {
    if ByteSize(x) > ByteSize(y) {
      BytesMonotone(ByteSize(y), ByteSize(x) - 1);
    }
  }

  // Whether x has the byte n at all (k = 1), or its top bit (k = 2), shows in
  // the mantissa.
  lemma ScaleBound(x: nat, n: nat, k: nat)
    requires k == 1 || k == 2
    ensures k * x < Bytes(n) <==> k * Scale(x, n) < SIZE_ONE
  {
    hide Bytes;
    SmallBytes();
    if n <= 3 {
      BytesAdd(n, 3 - n);
      assert Bytes(n) * Bytes(3 - n) == SIZE_ONE;
      ScaledUp(k, x, Bytes(n), Bytes(3 - n));
    } else {
      BytesAdd(3, n - 3);
      assert Bytes(n) == SIZE_ONE * Bytes(n - 3);
      ScaledDown(x, k, Bytes(n - 3));
    }
  }

  lemma ScaledUp(k: nat, x: nat, b: nat, p: nat)
    requires p >= 1 && b * p == SIZE_ONE
    ensures k * x < b <==> k * (x * p) < SIZE_ONE
  {
    MulAssoc(k, x, p);
    if k * x < b { MulLess(k * x, b, p); } else { MulMono(b, k * x, p); }
  }

  lemma ScaledDown(x: nat, k: nat, p: nat)
    requires p >= 1 && (k == 1 || k == 2)
    ensures k * x < SIZE_ONE * p <==> k * (x / p) < SIZE_ONE
  {
    DivBelow(x, p, SIZE_ONE / k);
    MulAssoc(k, SIZE_ONE / k, p);
  }

  lemma DivBelow(x: nat, p: nat, b: int)
    requires p >= 1
    ensures x < b * p <==> x / p < b
  {
    var q, r := x / p, x % p;
    assert x == q * p + r;
    if q < b {
      MulMono(q + 1, b, p);
      MulAdd(q, 1, p);
    } else {
      MulMono(b, q, p);
    }
  }

  lemma {:induction false} SignedSizes(x: nat)
    ensures SignedSize(x) == if 2 * x < Bytes(ByteSize(x)) then ByteSize(x) else ByteSize(x) + 1
  {
    var n := ByteSize(x);
    if 2 * x < Bytes(n) {
      SizeUnique(2 * x, n);
    } else {
      SizeUnique(2 * x, n + 1);
    }
  }

  // Moving the sign bit out of the mantissa is choosing the larger size.
  lemma {:induction false} EncodeIsSimple(x: nat)
    ensures Encode(x, false) == Simple(x) && Scale(x, SignedSize(x)) < SIGN
  {
    var n := ByteSize(x);
    var m := Scale(x, n);
    SignedSizes(x);
    ScaleBound(x, n, 2);
    if m >= SIGN {
      NextScale(x, n);
      ScaleBound(x, n, 1);
    }
  }

  lemma {:induction false} NextScale(x: nat, n: nat)
    ensures Scale(x, n + 1) == Scale(x, n) / 256
  {
    if n < 3 {
      var p := Bytes(2 - n);
      MulAssoc(x, p, 256);
      assert Scale(x, n) == x * p * 256;
      DivModUnique(Scale(x, n), 256, x * p, 0);
    } else {
      DivDiv(x, Bytes(n - 3), 256);
      assert Bytes(n - 2) == 256 * Bytes(n - 3);
      assert Bytes(0) == 1;
    }
  }

  lemma Fields(x: nat)
    ensures var c := Encode(x, false); Size(c) == SignedSize(x) && Word(c) == Scale(x, SignedSize(x)) && !Sign(c)
  {
    EncodeIsSimple(x);
    hide Encode, Scale, SignedSize, Size, Word, Sign;
    FieldsOf(Encode(x, false), Scale(x, SignedSize(x)), SignedSize(x));
  }

  lemma FieldsOf(c: nat, w: nat, n: nat)
    requires w < SIGN && c == w + n * SIZE_ONE
    ensures Size(c) == n && Word(c) == w && !Sign(c)
  {
    DivModUnique(c, SIZE_ONE, n, w);
    DivModUnique(c, SIGN, 2 * n, w);
  }

  // The bounds of a number whose compact form has n bytes.
  lemma SizeBounds(x: nat)
    ensures var n := SignedSize(x); n > 3 ==>
      var p := Bytes(n - 3); p * 0x8000 <= x < p * SIGN && x / p >= 0x8000
  {
    var n := SignedSize(x);
    if n > 3 {
      BytesAdd(3, n - 3);
      BytesAdd(2, n - 3);
      SmallBytes();
      DivBelow(x, Bytes(n - 3), 0x8000);
    }
  }

  // What is left of x: its low bytes are cut off.
  function Floor(x: nat): nat {
    var n := SignedSize(x);
    if n <= 3 then x
    else
      QuotientFits(x, Bytes(n - 3));
      x / Bytes(n - 3) * Bytes(n - 3)
  }

  lemma DecodeIsFloor(x: nat)
    ensures Decode(Encode(x, false)) == Floor(x)
  {
    Fields(x);
    hide Encode, SignedSize, Size, Word, Bytes;
    var n := SignedSize(x);
    if n <= 3 {
      DivModUnique(x * Bytes(3 - n), Bytes(3 - n), x, 0);
    }
  }

  // Decoding never exceeds what was encoded, and misses less than 1 in 2^15.
  lemma DecodeEncode(x: nat)
    ensures var d := Decode(Encode(x, false)); d <= x && (x > 0 ==> (x - d) * 0x8000 < x)
    ensures SignedSize(x) <= 3 ==> Decode(Encode(x, false)) == x
  {
    DecodeIsFloor(x);
    SizeBounds(x);
    hide Encode, Decode, SignedSize, Bytes;
    if SignedSize(x) > 3 {
      var p := Bytes(SignedSize(x) - 3);
      assert x == x / p * p + x % p;
    }
  }

  // Encoding what was decoded changes nothing.
  lemma {:induction false} EncodeIdempotent(x: nat)
    ensures Encode(Decode(Encode(x, false)), false) == Encode(x, false)
  {
    DecodeIsFloor(x);
    FloorKeeps(x);
    EncodeIsSimple(x);
    EncodeIsSimple(Floor(x));
    hide Encode, Decode, Floor, SignedSize, Scale;
  }

  lemma {:induction false} FloorKeeps(x: nat)
    ensures SignedSize(Floor(x)) == SignedSize(x) && Scale(Floor(x), SignedSize(x)) == Scale(x, SignedSize(x))
  {
    var n, d := SignedSize(x), Floor(x);
    SizeBounds(x);
    if n > 3 {
      BytesAdd(2, n - 3);
      SmallBytes();
      FloorBounds(x, Bytes(n - 3));
      SizeUnique(2 * d, n);
    }
  }

  lemma FloorBounds(x: nat, p: nat)
    requires p >= 1 && x / p >= 0x8000
    ensures 0x8000 * p <= x / p * p <= x && x / p * p / p == x / p
  {
    MulMono(0x8000, x / p, p);
    assert x == x / p * p + x % p;
    DivModUnique(x / p * p, p, x / p, 0);
  }

  // Compact forms are ordered like the numbers.
  lemma {:induction false} EncodeMonotone(x: nat, y: nat)
    requires x <= y
    ensures Encode(x, false) <= Encode(y, false)
    ensures Decode(Encode(x, false)) <= Decode(Encode(y, false))
  {
    hide Encode, Decode, Floor, Scale, Bytes, ByteSize;
    SizeMonotone(2 * x, 2 * y);
    EncodeIsSimple(x);
    EncodeIsSimple(y);
    ScaleMonotone(x, y, SignedSize(x));
    DecodeIsFloor(x);
    DecodeIsFloor(y);
    FloorsOrdered(x, y);
  }

  lemma ScaleMonotone(x: nat, y: nat, n: nat)
    requires x <= y
    ensures Scale(x, n) <= Scale(y, n)
    ensures n > 3 ==> x / Bytes(n - 3) * Bytes(n - 3) <= y / Bytes(n - 3) * Bytes(n - 3)
  {
    if n <= 3 {
      MulMono(x, y, Bytes(3 - n));
    } else {
      var p := Bytes(n - 3);
      DivBelow(x, p, y / p + 1);
      DivBelow(y, p, y / p + 1);
      MulMono(x / p, y / p, p);
    }
  }

  // A number with a larger size keeps more than the whole smaller number.
  lemma {:induction false} LargerSize(x: nat, y: nat)
    requires x <= y && SignedSize(x) < SignedSize(y)
    ensures Floor(x) <= x <= Floor(y)
  {
    var n := SignedSize(y);
    DecodeIsFloor(x);
    DecodeEncode(x);
    if n > 3 {
      BytesMonotone(SignedSize(x), n - 1);
      BytesAdd(2, n - 3);
      SmallBytes();
      SizeBounds(y);
      MulMono(0x8000, y / Bytes(n - 3), Bytes(n - 3));
    }
  }

  lemma FloorsOrdered(x: nat, y: nat)
    requires x <= y
    ensures Floor(x) <= Floor(y)
  {
    if SignedSize(x) < SignedSize(y) {
      LargerSize(x, y);
    } else {
      SizeMonotone(2 * x, 2 * y);
      ScaleMonotone(x, y, SignedSize(x));
    }
  }

  // Compact forms of 256-bit numbers have 32 bits.
  lemma {:induction false} SmallEncoding(x: nat)
    requires x < LIMIT
    ensures SignedSize(x) <= 33 && Encode(x, false) % 0x1_0000_0000 == Encode(x, false)
  {
    hide Encode, SignedSize, Scale, Bytes, Pow2;
    BytesPow2(32);
    SizeAtMost(x, 32);
    EncodeIsSimple(x);
    assert 0 <= Simple(x) < 34 * SIZE_ONE;
  }

  lemma {:induction false} SizeAtMost(x: nat, n: nat)
    requires x < Bytes(n)
    ensures SignedSize(x) <= n + 1
  {
    if SignedSize(x) > n + 1 {
      BytesMonotone(n + 1, SignedSize(x) - 1);
    }
  }

  // ---------------------------------------------------- SetCompact's two flags

  // nWord after its shift
  function ShiftedWord(c: nat): nat {
    if Size(c) <= 3 then
      QuotientFits(Word(c), Bytes(3 - Size(c)));
      Word(c) / Bytes(3 - Size(c))
    else Word(c)
  }

  predicate Negative(c: nat) { ShiftedWord(c) != 0 && Sign(c) }

  predicate Overflow(c: nat) {
    ShiftedWord(c) != 0 &&
    (Size(c) > 34 || (ShiftedWord(c) > 0xff && Size(c) > 33) || (ShiftedWord(c) > 0xffff && Size(c) > 32))
  }

  // The overflow flag says exactly that the number does not fit 256 bits.
  lemma OverflowExact(c: nat)
    ensures Overflow(c) <==> Decode(c) >= LIMIT
  {
    hide Size, Word, Pow2, Bytes;
    var n, w := Size(c), Word(c);
    BytesPow2(32);
    SmallBytes();
    if n <= 3 {
      QuotientFits(w, Bytes(3 - n));
      BytesMonotone(3, 32);
    } else if n <= 35 {
      BytesAdd(n - 3, 35 - n);
      MantissaFits(w, n);
      ScaledTo(w, Bytes(35 - n), Bytes(n - 3), LIMIT);
    } else if w > 0 {
      BytesMonotone(33, n - 3);
      MulMono(1, w, Bytes(n - 3));
      BytesMonotone(32, 33);
    }
  }

  lemma MantissaFits(w: nat, n: nat)
    requires w < SIGN && 3 < n <= 35
    ensures w >= Bytes(35 - n) <==> w != 0 && (n > 34 || (w > 0xff && n > 33) || (w > 0xffff && n > 32))
  {
    SmallBytes();
    if n <= 32 { BytesMonotone(3, 35 - n); }
  }

  lemma ScaledTo(w: nat, u: nat, p: nat, limit: nat)
    requires p >= 1 && p * u == limit
    ensures w >= u <==> w * p >= limit
  {
    if w >= u { MulMono(u, w, p); } else { MulLess(w, u, p); }
  }

  // ---------------------------------------------------- the form of CBigNum

  newtype byte = x: int | 0 <= x < 256

  function BigEndian(s: seq<byte>): (n: nat) {
    if s == [] then 0 else 256 * BigEndian(s[..|s| - 1]) + s[|s| - 1] as int
  }

  // BN_mpi2bn without the length: the top bit of the first byte is the sign.
  function FromMpi(s: seq<byte>): int {
    if s == [] then 0
    else if s[0] >= 128 then 0 - (BigEndian(s[0 := s[0] - 128]) as int)
    else BigEndian(s) as int
  }

  // n big-endian bytes of x.
  function ToBytes(x: nat, n: nat): (s: seq<byte>)
    ensures |s| == n
  {
    if n == 0 then [] else ToBytes(x / 256, n - 1) + [(x % 256) as byte]
  }

  // BN_bn2mpi without the length: as few bytes as leave room for the sign.
  function ToMpi(x: int): seq<byte> {
    var a := if x < 0 then -x else x;
    var s := ToBytes(a, SignedSize(a));
    TopByte(a);
    if x < 0 then s[0 := s[0] + 128] else s
  }

  lemma {:induction false} ToBytesValue(x: nat, n: nat)
    requires x < Bytes(n)
    ensures BigEndian(ToBytes(x, n)) == x
    decreases n
  {
    if n != 0 {
      DivBelow(x, 256, Bytes(n - 1));
      ToBytesValue(x / 256, n - 1);
      var s := ToBytes(x, n);
      assert s[..n - 1] == ToBytes(x / 256, n - 1);
    }
  }

  lemma {:induction false} FirstByte(x: nat, n: nat)
    requires 2 * x < Bytes(n) && n > 0
    ensures ToBytes(x, n)[0] < 128
    decreases n
  {
    if n > 1 {
      DivBelow(2 * x, 256, Bytes(n - 1));
      DivBelow(x, 256, x / 256 + 1);
      assert 2 * (x / 256) <= 2 * x / 256;
      FirstByte(x / 256, n - 1);
    }
  }

  lemma TopByte(x: nat)
    ensures x > 0 ==> SignedSize(x) > 0 && ToBytes(x, SignedSize(x))[0] < 128
  {
    if x > 0 {
      FirstByte(x, SignedSize(x));
    }
  }

  // The byte form loses nothing.
  lemma MpiRoundTrip(x: int)
    ensures FromMpi(ToMpi(x)) == x
  {
    assert SignedSize(0) == 0;
    hide BigEndian, ToBytes, SignedSize;
    var a := if x < 0 then -x else x;
    var s := ToBytes(a, SignedSize(a));
    TopByte(a);
    Value(a);
    if x < 0 {
      assert ToMpi(x)[0 := ToMpi(x)[0] - 128] == s;
    }
  }

  lemma Value(a: nat)
    ensures BigEndian(ToBytes(a, SignedSize(a))) == a
  {
    ToBytesValue(a, SignedSize(a));
  }

  // With the four bytes of length in front.
  function Mpi2bn(s: seq<byte>): int
    requires |s| >= 4 && |s| == 4 + BigEndian(s[..4])
  {
    FromMpi(s[4..])
  }

  function Bn2mpi(x: int): seq<byte> { ToBytes(|ToMpi(x)|, 4) + ToMpi(x) }

  function SignedDecode(c: nat): int { if Sign(c) then 0 - (Decode(c) as int) else Decode(c) as int }

  // CBigNum::SetCompact
  method SetCompact(nCompact: nat) returns (r: int)
    requires nCompact < 0x1_0000_0000
    ensures r == SignedDecode(nCompact)
  {
    var nSize := nCompact / SIZE_ONE;
    var vch := new byte[4 + nSize](_ => 0);
    vch[3] := nSize as byte;
    if nSize >= 1 { vch[4] := (nCompact / 0x1_0000 % 256) as byte; }
    if nSize >= 2 { vch[5] := (nCompact / 0x100 % 256) as byte; }
    if nSize >= 3 { vch[6] := (nCompact % 256) as byte; }
    LengthBytes(vch[..4], nSize);
    CompactBytes(vch[4..], nCompact);
    assert vch[..][..4] == vch[..4] && vch[..][4..] == vch[4..];
    r := Mpi2bn(vch[..]);
  }

  lemma LengthBytes(s: seq<byte>, n: nat)
    requires |s| == 4 && s[0] == 0 && s[1] == 0 && s[2] == 0 && s[3] as int == n
    ensures BigEndian(s) == n
  {
    var t := s[..3];
    assert t[..2][..1][..0] == [];
    assert BigEndian(t[..2][..1]) == 0;
    assert BigEndian(t[..2]) == 0;
    assert BigEndian(t) == 0;
  }

  lemma ThreeBytes(s: seq<byte>)
    requires |s| == 3
    ensures BigEndian(s) == s[0] as int * 0x1_0000 + s[1] as int * 0x100 + s[2] as int
    ensures BigEndian(s[..2]) == s[0] as int * 0x100 + s[1] as int
    ensures BigEndian(s[..1]) == s[0] as int && BigEndian(s[..0]) == 0
  {
    var t, u := s[..2], s[..1];
    assert t[..1] == u && u[..0] == [] && s[..0] == [];
    assert BigEndian(u) == u[0] as int;
    assert BigEndian(t) == 256 * BigEndian(u) + t[1] as int;
  }

  lemma {:induction false} TrailingZeros(s: seq<byte>, n: nat)
    requires n <= |s| && forall i | n <= i < |s| :: s[i] == 0
    ensures BigEndian(s) == BigEndian(s[..n]) * Bytes(|s| - n)
    decreases |s|
  {
    if n == |s| {
      assert s[..n] == s;
    } else {
      var t := s[..|s| - 1];
      TrailingZeros(t, n);
      assert t[..n] == s[..n];
      MulAssoc(BigEndian(s[..n]), Bytes(|t| - n), 256);
      assert Bytes(|s| - n) == Bytes(|t| - n) * 256;
    }
  }

  // The bytes that SetCompact writes.
  lemma CompactBytes(s: seq<byte>, c: nat)
    requires c < 0x1_0000_0000 && |s| == Size(c)
    requires |s| >= 1 ==> s[0] as int == c / 0x1_0000 % 256
    requires |s| >= 2 ==> s[1] as int == c / 0x100 % 256
    requires |s| >= 3 ==> s[2] as int == c % 256
    requires forall i | 3 <= i < |s| :: s[i] == 0
    ensures FromMpi(s) == SignedDecode(c)
  {
    WordBytes(c);
    if |s| > 0 {
      var t := if s[0] >= 128 then s[0 := s[0] - 128] else s;
      UnsignedBytes(t, c, t[0] as int, c / 0x100 % 256, c % 256);
    } else {
      QuotientFits(Word(c), Bytes(3));
      SmallBytes();
      DivModUnique(Word(c), Bytes(3), 0, Word(c));
    }
  }

  // The four bytes of a compact form.
  lemma FourBytes(c: nat)
    ensures c == Size(c) * SIZE_ONE + c / 0x1_0000 % 256 * 0x1_0000 + c / 0x100 % 256 * 0x100 + c % 256
  {
    DivDiv(c, 0x100, 256);
    DivDiv(c, 0x1_0000, 256);
    Digit(c);
    Digit(c / 0x100);
    Digit(c / 0x1_0000);
  }

  lemma Digit(x: int)
    ensures x == x / 256 * 256 + x % 256 && 0 <= x % 256 < 256
  {
  }

  lemma WordBytes(c: nat)
    ensures var b := c / 0x1_0000 % 256; var h := if b >= 128 then b - 128 else b;
      && (Sign(c) <==> b >= 128)
      && Word(c) == h * 0x1_0000 + c / 0x100 % 256 * 0x100 + c % 256
  {
    FourBytes(c);
    Digit(c / 0x1_0000);
    Digit(c / 0x100);
    Digit(c);
    var n, b0, b1, b2 := Size(c), c / 0x1_0000 % 256, c / 0x100 % 256, c % 256;
    SignAndWord(c, n, b0, b1, b2);
  }

  lemma SignAndWord(c: nat, n: nat, b0: nat, b1: nat, b2: nat)
    requires c == n * SIZE_ONE + b0 * 0x1_0000 + b1 * 0x100 + b2 && b0 < 256 && b1 < 256 && b2 < 256
    ensures Sign(c) <==> b0 >= 128
    ensures Word(c) == (if b0 >= 128 then b0 - 128 else b0) * 0x1_0000 + b1 * 0x100 + b2
  {
    var t := if b0 >= 128 then 1 else 0;
    DivModUnique(c, SIGN, 2 * n + t, (b0 - 128 * t) * 0x1_0000 + b1 * 0x100 + b2);
  }

  lemma UnsignedBytes(t: seq<byte>, c: nat, b0: nat, b1: nat, b2: nat)
    requires |t| == Size(c) > 0 && t[0] as int == b0 && b1 < 256 && b2 < 256
    requires Word(c) == b0 * 0x1_0000 + b1 * 0x100 + b2
    requires |t| >= 2 ==> t[1] as int == b1
    requires |t| >= 3 ==> t[2] as int == b2
    requires forall i | 3 <= i < |t| :: t[i] == 0
    ensures BigEndian(t) == Decode(c)
  {
    SmallBytes();
    hide Word, Size;
    if |t| >= 3 {
      ThreeBytes(t[..3]);
      TrailingZeros(t, 3);
      assert t[..3][..3] == t[..3];
      if |t| == 3 { assert t[..3] == t; }
    } else if |t| == 2 {
      ThreeBytes(t + [0]);
      assert (t + [0])[..2] == t;
      DivModUnique(Word(c), 0x100, b0 * 0x100 + b1, b2);
    } else {
      ThreeBytes(t + [0, 0]);
      assert (t + [0, 0])[..1] == t;
      DivModUnique(Word(c), 0x1_0000, b0, b1 * 0x100 + b2);
    }
  }

  // CBigNum::GetCompact
  method GetCompact(x: int) returns (nCompact: nat)
    ensures nCompact == Encode(Abs(x), x < 0) % 0x1_0000_0000
  {
    var vch := Bn2mpi(x);
    assert vch[4..] == ToMpi(x);
    ghost var n := |ToMpi(x)|;
    MantissaBytes(x);
    SizeWraps(n, 0);
    SizeWraps(n, Encode(Abs(x), x < 0) - n * SIZE_ONE);
    hide *;
    nCompact := (|vch| - 4) * SIZE_ONE % 0x1_0000_0000;
    nCompact := OrBytes(nCompact, vch, n % 256);
  }

  // The mantissa of GetCompact.
  method OrBytes(nCompact0: nat, vch: seq<byte>, ghost q: nat) returns (nCompact: nat)
    requires nCompact0 == q * SIZE_ONE && |vch| >= 4
    ensures nCompact == q * SIZE_ONE + TopThree(vch[4..])
  {
    hide BitOr, Pow2;
    nCompact := nCompact0;
    if |vch| >= 5 {
      OrByte(nCompact, q, vch[4], 16);
      nCompact := BitOr(nCompact, vch[4] as int * 0x1_0000);
    }
    if |vch| >= 6 {
      OrByte(nCompact, q * 256 + vch[4] as int, vch[5], 8);
      nCompact := BitOr(nCompact, vch[5] as int * 0x100);
    }
    if |vch| >= 7 {
      OrByte(nCompact, (q * 256 + vch[4] as int) * 256 + vch[5] as int, vch[6], 0);
      nCompact := BitOr(nCompact, vch[6] as int);
    }
  }

  // The first three bytes, missing ones being 0.
  function TopThree(s: seq<byte>): (w: nat)
    ensures w < SIZE_ONE
  {
    (if |s| > 0 then s[0] as int * 0x1_0000 else 0)
    + (if |s| > 1 then s[1] as int * 0x100 else 0)
    + if |s| > 2 then s[2] as int else 0
  }

  // The size is a 32-bit word shifted by 24.
  lemma SizeWraps(n: nat, low: int)
    requires 0 <= low < SIZE_ONE
    ensures (n * SIZE_ONE + low) % 0x1_0000_0000 == n % 256 * SIZE_ONE + low
  {
    assert n == n / 256 * 256 + n % 256;
    DivModUnique(n * SIZE_ONE + low, 0x1_0000_0000, n / 256, n % 256 * SIZE_ONE + low);
  }

  function Abs(x: int): nat { if x < 0 then -x else x }

  lemma OrByte(n: nat, q: nat, b: byte, k: nat)
    requires k == 0 || k == 8 || k == 16
    requires n == q * if k == 0 then 0x100 else if k == 8 then 0x1_0000 else 0x100_0000
    ensures BitOr(n, b as int * Pow2(k)) == n + b as int * Pow2(k)
    ensures Pow2(0) == 1 && Pow2(8) == 0x100 && Pow2(16) == 0x1_0000
  {
    Pow2Add(8, k);
    Pow2Small();
    MulLess(b as int, 256, Pow2(k));
    MulMono(0, b as int, Pow2(k));
    DivModUnique(n, Pow2(k + 8), q, 0);
    OrDisjoint(n, b as int * Pow2(k), k + 8);
  }

  lemma {:induction false} TopBytes(x: nat, n: nat, k: nat)
    requires k <= n
    ensures ToBytes(x, n)[..k] == ToBytes(x / Bytes(n - k), k)
    decreases n
  {
    if k < n {
      TopBytes(x / 256, n - 1, k);
      var s := ToBytes(x, n);
      assert s[..k] == s[..n - 1][..k] && s[..n - 1] == ToBytes(x / 256, n - 1);
      DivDiv(x, 256, Bytes(n - 1 - k));
    } else {
      assert ToBytes(x, n)[..k] == ToBytes(x, n);
      assert Bytes(0) == 1;
    }
  }

  // The mantissa in the bytes of a number.
  lemma TopWord(x: nat, n: nat)
    requires x < Bytes(n)
    ensures Scale(x, n) == TopThree(ToBytes(x, n))
  {
    hide BigEndian, ToBytes, TopThree, Bytes;
    SmallBytes();
    ToBytesValue(x, n);
    TopThreeValue(ToBytes(x, n));
    if n >= 3 {
      TopBytes(x, n, 3);
      BytesAdd(3, n - 3);
      DivBelow(x, Bytes(n - 3), Bytes(3));
      QuotientFits(x, Bytes(n - 3));
      ToBytesValue(x / Bytes(n - 3), 3);
    }
  }

  lemma TopThreeValue(s: seq<byte>)
    ensures TopThree(s) == if |s| >= 3 then BigEndian(s[..3]) else if |s| == 2 then BigEndian(s) * 0x100
                           else if |s| == 1 then BigEndian(s) * 0x1_0000 else BigEndian(s)
  {
    if |s| >= 3 {
      ThreeBytes(s[..3]);
    } else if |s| == 2 {
      ThreeBytes(s + [0]);
      assert (s + [0])[..2] == s;
    } else if |s| == 1 {
      ThreeBytes(s + [0, 0]);
      assert (s + [0, 0])[..1] == s;
    }
  }

  lemma {:induction false} EncodeSigned(a: nat, neg: bool)
    requires neg ==> a > 0
    ensures Encode(a, neg) == Simple(a) + if neg then SIGN else 0
  {
    EncodeIsSimple(a);
    if a > 0 {
      SizeBounds(a);
      PositiveScale(a);
    }
  }

  lemma PositiveScale(a: nat)
    requires a > 0 && (SignedSize(a) > 3 ==> a / Bytes(SignedSize(a) - 3) >= 0x8000)
    ensures Scale(a, SignedSize(a)) > 0
  {
    if SignedSize(a) <= 3 {
      MulMono(1, a, Bytes(3 - SignedSize(a)));
    }
  }

  lemma MantissaBytes(x: int)
    ensures Encode(Abs(x), x < 0) == |ToMpi(x)| * SIZE_ONE + TopThree(ToMpi(x))
  {
    var a := Abs(x);
    var n := SignedSize(a);
    TopWord(a, n);
    TopByte(a);
    EncodeSigned(a, x < 0);
  }

  // Both ways of decoding give the same number exactly when neither flag is set.
  lemma FormsAgree(c: nat)
    ensures SignedDecode(c) == Decode(c) % LIMIT <==> !Negative(c) && !Overflow(c)
  {
    OverflowExact(c);
    DecodeZero(c);
    hide Decode, ShiftedWord, Overflow;
    if Decode(c) < LIMIT {
      DivModUnique(Decode(c), LIMIT, 0, Decode(c));
    }
  }

  lemma DecodeZero(c: nat)
    ensures Decode(c) == 0 <==> ShiftedWord(c) == 0
  {
    if Size(c) > 3 && Word(c) > 0 {
      MulMono(1, Word(c), Bytes(Size(c) - 3));
    }
  }
}
