// Variable-length integers and compact sizes on a byte stream.
module VarInt {
  import opened Limbs

  newtype byte = x: int | 0 <= x < 256

  const MAX_SIZE: int := 0x0200_0000

  class Stream {
    var vch: seq<byte>
    var nReadPos: nat

    ghost predicate Valid()
      reads this
    {
      nReadPos <= |vch|
    }

    // What is left to read.
    ghost function Rest(): seq<byte>
      requires Valid()
      reads this
    {
      vch[nReadPos..]
    }

    constructor ()
      ensures Valid() && vch == [] && nReadPos == 0
    {
      vch, nReadPos := [], 0;
    }

    // ser_writedata8
    method WriteByte(b: byte)
      requires Valid()
      modifies this
      ensures Valid() && vch == old(vch) + [b] && nReadPos == old(nReadPos)
    {
      vch := vch + [b];
    }

    // ser_readdata8; it fails at the end of the data.
    method ReadByte() returns (ok: bool, b: byte)
      requires Valid()
      modifies this`nReadPos
      ensures Valid() && ok == (old(Rest()) != [])
      ensures if ok then b == old(Rest())[0] && Rest() == old(Rest())[1..] else Rest() == old(Rest())
    {
      if nReadPos == |vch| {
        return false, 0;
      }
      b := vch[nReadPos];
      nReadPos := nReadPos + 1;
      ok := true;
    }
  }

  datatype Result = Ok(value: nat, used: nat) | TooLarge | NonCanonical | EndOfData

  // ------------------------------------------------------------ the encoding

  // The largest value of an integer type.
  function Max(bits: nat, signed: bool): nat
    requires bits >= 8
  {
    Pow2(if signed then bits - 1 else bits) - 1
  }

  function Digit(n: nat, more: bool): byte { (n % 128 + if more then 128 else 0) as byte }

  // Most significant digit first, every digit but the last one less by one.
  function Encode(n: nat, more: bool): (s: seq<byte>)
    ensures |s| >= 1
  {
    if n <= 0x7F then [Digit(n, more)]
    else Encode(n / 128 - 1, true) + [Digit(n, more)]
  }

  lemma EncodeDigits(n: nat, more: bool)
    ensures var last := [Digit(n, more)];
      Encode(n, more) == if n > 0x7F then Encode(n / 128 - 1, true) + last else last
  {
  }

  // The number that the digits before the last one stand for.
  function Upper(s: seq<byte>): nat {
    if s == [] then 0 else 128 * Upper(s[..|s| - 1]) + s[|s| - 1] as int % 128 + 1
  }

  // The documented meaning: seven bits a byte, most significant first, one
  // less in all bytes but the last; the top bit says that more follow.
  lemma {:induction false} EncodeMeans(n: nat, more: bool)
    ensures var s := Encode(n, more); var last := |s| - 1;
      && n == 128 * Upper(s[..last]) + s[last] as int % 128
      && (forall i | 0 <= i < last :: s[i] >= 128) && (s[last] >= 128 <==> more)
  {
    hide Encode, Upper;
    EncodeDigits(n, more);
    NoUpper();
    if n > 0x7F {
      EncodeMeans(n / 128 - 1, true);
      OneMore(Encode(n / 128 - 1, true), Digit(n, more));
    }
  }

  lemma NoUpper()
    ensures Upper([]) == 0
  {
  }

  lemma OneMore(p: seq<byte>, d: byte)
    requires |p| >= 1 && forall i | 0 <= i < |p| :: p[i] >= 128
    ensures var s := p + [d]; s[..|s| - 1] == p && Upper(p) == 128 * Upper(p[..|p| - 1]) + p[|p| - 1] as int % 128 + 1
    ensures forall i | 0 <= i < |p| :: (p + [d])[i] >= 128
  {
    assert (p + [d])[..|p|] == p;
  }

  // The documented examples.
  lemma EncodeExamples()
    ensures Encode(0, false) == [0x00] && Encode(127, false) == [0x7F]
    ensures Encode(128, false) == [0x80, 0x00] && Encode(255, false) == [0x80, 0x7F]
    ensures Encode(256, false) == [0x81, 0x00] && Encode(16383, false) == [0xFE, 0x7F]
    ensures Encode(16384, false) == [0xFF, 0x00] && Encode(16511, false) == [0xFF, 0x7F]
  {
  }

  lemma LongExamples()
    ensures Encode(65535, false) == [0x82, 0xFE, 0x7F]
    ensures Encode(0x1_0000_0000, false) == [0x8E, 0xFE, 0xFE, 0xFF, 0x00]
  {
    assert Encode(2, true) == [0x82];
    assert Encode(510, true) == [0x82, 0xFE];
    assert Encode(14, true) == [0x8E];
    assert Encode(2046, true) == [0x8E, 0xFE];
    assert Encode(262_142, true) == [0x8E, 0xFE, 0xFE];
    assert Encode(33_554_431, true) == [0x8E, 0xFE, 0xFE, 0xFF];
  }

  // What the reader makes of s when it has read `acc` already.
  function Parse(s: seq<byte>, acc: nat, max: nat): Result {
    if s == [] then EndOfData
    else if acc > max / 128 then TooLarge
    else
      var n := acc * 128 + s[0] as int % 128;
      if s[0] >= 128 then
        if n == max then TooLarge
        else match Parse(s[1..], n + 1, max)
          case Ok(v, k) => Ok(v, k + 1)
          case other => other
      else Ok(n, 1)
  }

  function Longer(r: Result, k: nat): Result { if r.Ok? then Ok(r.value, r.used + k) else r }

  // One byte.
  lemma ParseByte(s: seq<byte>, acc: nat, max: nat)
    ensures Parse(s, acc, max) ==
      if s == [] then EndOfData
      else if acc > max / 128 then TooLarge
      else
        var n := acc * 128 + s[0] as int % 128;
        if s[0] < 128 then Ok(n, 1) else if n == max then TooLarge else Longer(Parse(s[1..], n + 1, max), 1)
  {
  }

  lemma ParseDigit(s: seq<byte>, acc: nat, max: nat)
    requires s != [] && s[0] >= 128 && acc <= max / 128 && acc * 128 + s[0] as int % 128 < max
    ensures Parse(s, acc, max) == Longer(Parse(s[1..], acc * 128 + s[0] as int % 128 + 1, max), 1)
  {
  }

  // Digits that are not the last one.
  lemma {:induction false} ParseDigits(m: nat, s: seq<byte>, max: nat)
    requires m < max
    ensures Parse(Encode(m, true) + s, 0, max) == Longer(Parse(s, m + 1, max), |Encode(m, true)|)
    decreases m
  {
    hide Encode, Parse;
    var last := (m % 128 + 128) as byte;
    EncodeDigits(m, true);
    LastIs(m, last, s);
    if m <= 0x7F {
      ParseDigit([last] + s, 0, max);
    } else {
      ParseDigits(m / 128 - 1, [last] + s, max);
      assert Encode(m, true) + s == Encode(m / 128 - 1, true) + ([last] + s);
      ParseDigit([last] + s, m / 128, max);
    }
  }

  lemma LastIs(m: nat, last: byte, s: seq<byte>)
    requires last as int == m % 128 + 128
    ensures ([last] + s)[1..] == s && m / 128 * 128 + last as int % 128 == m
  {
  }

  // Reading what was written, whatever follows.
  lemma ReadWritten(n: nat, s: seq<byte>, max: nat)
    requires n <= max
    ensures Parse(Encode(n, false) + s, 0, max) == Ok(n, |Encode(n, false)|)
  {
    hide Encode, Parse;
    var last := (n % 128) as byte;
    EncodeDigits(n, false);
    ParseByte([last] + s, n / 128, max);
    if n > 0x7F {
      ParseDigits(n / 128 - 1, [last] + s, max);
      assert Encode(n, false) + s == Encode(n / 128 - 1, true) + ([last] + s);
    }
  }

  // The digits that lead to acc.
  function Digits(acc: nat): seq<byte> { if acc == 0 then [] else Encode(acc - 1, true) }

  lemma LastDigit(acc: nat, b: byte)
    ensures var n := acc * 128 + b as int % 128; var more := b >= 128;
      Encode(n, more) == Digits(acc) + [b] && (more ==> Digits(n + 1) == Digits(acc) + [b])
  {
    DivModUnique(acc * 128 + b as int % 128, 128, acc, b as int % 128);
  }

  lemma {:induction false} ParseUnique(s: seq<byte>, acc: nat, max: nat)
    requires Parse(s, acc, max).Ok?
    ensures var r := Parse(s, acc, max);
      r.used <= |s| && Digits(acc) + s[..r.used] == Encode(r.value, false)
  {
    hide Encode, Digits, Digit;
    var r, n := Parse(s, acc, max), acc * 128 + s[0] as int % 128;
    LastDigit(acc, s[0]);
    if s[0] >= 128 {
      ParseUnique(s[1..], n + 1, max);
      assert s[..r.used] == [s[0]] + s[1..][..r.used - 1];
    } else {
      assert s[..1] == [s[0]];
    }
  }

  lemma {:induction false} ParseBound(s: seq<byte>, acc: nat, max: nat)
    requires Parse(s, acc, max).Ok? && max % 128 == 127
    ensures Parse(s, acc, max).value <= max
  {
    if s[0] >= 128 {
      ParseBound(s[1..], acc * 128 + s[0] as int % 128 + 1, max);
    }
  }

  lemma MaxShape(bits: nat, signed: bool)
    requires bits >= 8
    ensures Max(bits, signed) % 128 == 127
  {
    var k := if signed then bits - 1 else bits;
    Pow2Add(7, k - 7);
    assert Pow2(7) == 128;
    DivModUnique(Max(bits, signed), 128, Pow2(k - 7) - 1, 127);
  }

  // The reader accepts exactly what the writer emits.
  lemma Bijection(s: seq<byte>, n: nat, bits: nat, signed: bool)
    requires bits >= 8
    ensures (exists k: nat :: Parse(s, 0, Max(bits, signed)) == Ok(n, k)) <==>
      n <= Max(bits, signed) && Encode(n, false) <= s
  {
    var max := Max(bits, signed);
    MaxShape(bits, signed);
    if k: nat :| Parse(s, 0, max) == Ok(n, k) {
      ParseUnique(s, 0, max);
      ParseBound(s, 0, max);
      assert s[..k] == Encode(n, false);
    }
    if n <= max && Encode(n, false) <= s {
      var e := Encode(n, false);
      ReadWritten(n, s[|e|..], max);
      assert s == e + s[|e|..];
      assert Parse(s, 0, max) == Ok(n, |e|);
    }
  }

  // The bytes needed for a number.
  lemma {:induction false} EncodeLength(n: nat, more: bool, k: nat)
    requires n < Pow2(k)
    ensures 7 * (|Encode(n, more)| - 1) < k || |Encode(n, more)| == 1
    decreases n
  {
    if n > 0x7F {
      NeedsBits(n, k);
      Pow2Add(7, k - 7);
      assert Pow2(7) == 128;
      EncodeLength(n / 128 - 1, true, k - 7);
    }
  }

  lemma NeedsBits(n: nat, k: nat)
    requires 0x7F < n < Pow2(k)
    ensures k > 7
  {
    assert Pow2(7) == 128;
    if k <= 7 {
      Pow2Monotone(k, 7);
    }
  }

  method GetSizeOfVarInt(n0: nat) returns (nRet: nat)
    ensures nRet == |Encode(n0, false)|
  {
    nRet := 0;
    var n := n0;
    while true
      invariant nRet + |Encode(n, nRet > 0)| == |Encode(n0, false)|
      decreases n
    {
      nRet := nRet + 1;
      if n <= 0x7F {
        break;
      }
      n := n / 128 - 1;
    }
  }

  function Reverse(s: seq<byte>): (r: seq<byte>) { if s == [] then [] else Reverse(s[1..]) + [s[0]] }

  // WriteVarInt
  method WriteVarInt(stream: Stream, n: nat, bits: nat, signed: bool)
    requires stream.Valid() && bits >= 8 && n <= Max(bits, signed)
    modifies stream
    ensures stream.Valid() && stream.nReadPos == old(stream.nReadPos)
    ensures stream.vch == old(stream.vch) + Encode(n, false)
  {
    var tmp := new byte[(bits + 6) / 7];
    EncodeLength(n, false, if signed then bits - 1 else bits);
    var len := FillDigits(tmp, n);
    EmitDigits(stream, tmp, len);
  }

  // Its first loop: the digits go into tmp, least significant first.
  method FillDigits(tmp: array<byte>, n0: nat) returns (len: nat)
    requires |Encode(n0, false)| <= tmp.Length
    modifies tmp
    ensures len < tmp.Length && Reverse(tmp[..len + 1]) == Encode(n0, false)
  {
    len := 0;
    var n: nat := n0;
    ReverseNone(tmp[..0]);
    hide Encode, Reverse, Digit;
    while true
      invariant len < tmp.Length
      invariant Encode(n0, false) == Encode(n, len > 0) + Reverse(tmp[..len])
      invariant len + |Encode(n, len > 0)| == |Encode(n0, false)|
      decreases n
    {
      ghost var done := tmp[..len];
      tmp[len] := Digit(n, len > 0);
      assert tmp[..len + 1] == done + [tmp[len]];
      ReverseNext(done, tmp[len]);
      EncodeDigits(n, len > 0);
      if n <= 0x7F {
        break;
      }
      n := n / 128 - 1;
      len := len + 1;
    }
  }

  // Its second loop: out they go, most significant first.
  method EmitDigits(stream: Stream, tmp: array<byte>, len0: nat)
    requires stream.Valid() && len0 < tmp.Length
    modifies stream
    ensures stream.Valid() && stream.nReadPos == old(stream.nReadPos)
    ensures stream.vch == old(stream.vch) + Reverse(tmp[..len0 + 1])
  {
    var len: nat := len0;
    ghost var all := Reverse(tmp[..len0 + 1]);
    hide Reverse;
    while true
      invariant len < tmp.Length && stream.Valid() && stream.nReadPos == old(stream.nReadPos)
      invariant stream.vch + Reverse(tmp[..len + 1]) == old(stream.vch) + all
      decreases len
    {
      ReverseNext(tmp[..len], tmp[len]);
      assert tmp[..len + 1] == tmp[..len] + [tmp[len]];
      stream.WriteByte(tmp[len]);
      if len == 0 {
        ReverseNone(tmp[..0]);
        break;
      }
      len := len - 1;
    }
  }

  lemma ReverseNone(s: seq<byte>)
    requires s == []
    ensures Reverse(s) == []
  {
  }

  lemma {:induction false} ReverseNext(s: seq<byte>, b: byte)
    ensures Reverse(s + [b]) == [b] + Reverse(s) && |Reverse(s)| == |s|
  {
    if s != [] {
      ReverseNext(s[1..], b);
      assert (s + [b])[1..] == s[1..] + [b];
    }
  }

  method ReadVarInt(stream: Stream, bits: nat, signed: bool) returns (r: Result)
    requires stream.Valid() && bits >= 8
    modifies stream`nReadPos
    ensures stream.Valid() && r == Parse(old(stream.Rest()), 0, Max(bits, signed))
    ensures r.Ok? ==> r.used <= |old(stream.Rest())| && stream.Rest() == old(stream.Rest())[r.used..]
  {
    var n, max, k := 0, Max(bits, signed), 0;
    ghost var s := stream.Rest();
    hide Parse, BitOr, Pow2, Reading;
    ReadingStart(s, max);
    while true
      invariant stream.Valid() && k <= |s| && stream.Rest() == s[k..] && Reading(s, k, n, max)
      decreases |s| - k
    {
      ReadingByte(s, k, n, max);
      var ok, chData := stream.ReadByte();
      if !ok {
        return EndOfData;
      }
      if n > max / 128 {
        return TooLarge;
      }
      n := BitOr(n * 128, chData as int % 128);
      k := k + 1;
      if chData >= 128 {
        if n == max {
          return TooLarge;
        }
        n := n + 1;
      } else {
        return Ok(n, k);
      }
    }
  }

  // The first k bytes have been read, giving n.
  ghost predicate Reading(s: seq<byte>, k: nat, n: nat, max: nat) {
    k <= |s| && Parse(s, 0, max) == Longer(Parse(s[k..], n, max), k)
  }

  lemma ReadingStart(s: seq<byte>, max: nat)
    ensures Reading(s, 0, 0, max)
  {
    assert s[0..] == s;
  }

  lemma ReadingByte(s: seq<byte>, k: nat, n: nat, max: nat)
    requires Reading(s, k, n, max)
    ensures k == |s| ==> Parse(s, 0, max) == EndOfData
    ensures k < |s| ==> s[k..][0] == s[k] && s[k..][1..] == s[k + 1..]
    ensures k < |s| && n > max / 128 ==> Parse(s, 0, max) == TooLarge
    ensures k < |s| && n <= max / 128 ==> var v := BitOr(n * 128, s[k] as int % 128);
      if s[k] < 128 then Parse(s, 0, max) == Ok(v, k + 1)
      else if v == max then Parse(s, 0, max) == TooLarge
      else Reading(s, k + 1, v + 1, max)
  {
    hide Parse, BitOr;
    ParseByte(s[k..], n, max);
    if k < |s| {
      OrDigit(n, s[k]);
      assert s[k..][1..] == s[k + 1..];
    }
  }

  lemma OrDigit(n: nat, b: byte)
    ensures BitOr(n * 128, b as int % 128) == n * 128 + b as int % 128
  {
    assert Pow2(7) == 128;
    DivModUnique(n * 128, 128, n, 0);
    OrDisjoint(n * 128, b as int % 128, 7);
  }

  // ------------------------------------------------------------ compact size

  // k little-endian bytes.
  function ToBytes(n: nat, k: nat): (s: seq<byte>)
    ensures |s| == k
  {
    if k == 0 then [] else [(n % 256) as byte] + ToBytes(n / 256, k - 1)
  }

  // Byte i holds bits 8 * i and up.
  lemma {:induction false} BytesAt(n: nat, k: nat, i: nat)
    requires i < k
    ensures ToBytes(n, k)[i] as int == n / Pow2(8 * i) % 256
    decreases k
  {
    if i > 0 {
      BytesAt(n / 256, k - 1, i - 1);
      EightMore(8 * (i - 1));
      DivDiv(n, 256, Pow2(8 * (i - 1)));
    }
  }

  // One byte, or a mark for the width and the number in two, four or eight
  // bytes, least significant first.
  lemma CompactLayout(n: nat)
    requires n <= 0xffff_ffff_ffff_ffff
    ensures var s := CompactSize(n); var k := |s| - 1;
      && (n <= 252 ==> s == [n as byte])
      && (252 < n <= 0xffff ==> k == 2 && s[0] == 253)
      && (0xffff < n <= 0xffff_ffff ==> k == 4 && s[0] == 254)
      && (0xffff_ffff < n ==> k == 8 && s[0] == 255)
      && forall i: nat | i < k :: s[1 + i] as int == n / Pow2(8 * i) % 256
  {
    var s := CompactSize(n);
    var k := |s| - 1;
    hide ToBytes, Pow2;
    forall i: nat | i < k ensures s[1 + i] as int == n / Pow2(8 * i) % 256 {
      BytesAt(n, k, i);
    }
  }

  function FromBytes(s: seq<byte>): nat { if s == [] then 0 else s[0] as int + 256 * FromBytes(s[1..]) }

  lemma {:induction false} BytesRoundTrip(n: nat, k: nat)
    requires n < Pow2(8 * k)
    ensures FromBytes(ToBytes(n, k)) == n
    decreases k
  {
    if k > 0 {
      EightMore(8 * (k - 1));
      assert n / 256 < Pow2(8 * (k - 1));
      BytesRoundTrip(n / 256, k - 1);
    }
  }

  lemma {:induction false} BytesUnique(s: seq<byte>)
    ensures ToBytes(FromBytes(s), |s|) == s && FromBytes(s) < Pow2(8 * |s|)
  {
    if s != [] {
      BytesUnique(s[1..]);
      DivModUnique(FromBytes(s), 256, FromBytes(s[1..]), s[0] as int);
      EightMore(8 * (|s| - 1));
    }
  }

  lemma EightMore(n: nat)
    ensures Pow2(n + 8) == 256 * Pow2(n)
  {
    Pow2Add(8, n);
    Pow2Small();
  }

  function CompactSize(n: nat): seq<byte> {
    if n < 253 then [n as byte]
    else if n <= 0xffff then [253] + ToBytes(n, 2)
    else if n <= 0xffff_ffff then [254] + ToBytes(n, 4)
    else [255] + ToBytes(n, 8)
  }

  function GetSizeOfCompactSize(n: nat): (k: nat)
    ensures k == |CompactSize(n)|
  {
    if n < 253 then 1 else if n <= 0xffff then 1 + 2 else if n <= 0xffff_ffff then 1 + 4 else 1 + 8
  }

  // The number in the k bytes of s after the first, if it is at least `least`.
  function Field(s: seq<byte>, k: nat, least: nat): Result
    requires s != []
  {
    if |s| < 1 + k then EndOfData
    else
      var n := FromBytes(s[1..1 + k]);
      if n < least then NonCanonical else if n > MAX_SIZE then TooLarge else Ok(n, 1 + k)
  }

  function ParseCompact(s: seq<byte>): Result {
    if s == [] then EndOfData
    else if s[0] < 253 then Ok(s[0] as int, 1)
    else if s[0] == 253 then Field(s, 2, 253)
    else if s[0] == 254 then Field(s, 4, 0x1_0000)
    else Field(s, 8, 0x1_0000_0000)
  }

  lemma FieldExact(s: seq<byte>, k: nat, least: nat, n: nat)
    requires s != [] && n < Pow2(8 * k)
    ensures Field(s, k, least) == Ok(n, 1 + k) <==> least <= n <= MAX_SIZE && s[..1] + ToBytes(n, k) <= s
  {
    BytesRoundTrip(n, k);
    if |s| >= 1 + k {
      var f := s[1..1 + k];
      BytesUnique(f);
      assert s[..1 + k] == s[..1] + f;
      if s[..1] + ToBytes(n, k) <= s {
        assert s[..1 + k] == s[..1] + ToBytes(n, k);
        assert f == ToBytes(n, k);
      }
    }
  }

  // The reader accepts exactly the shortest form of the numbers up to MAX_SIZE.
  lemma CompactExact(s: seq<byte>, n: nat)
    ensures ParseCompact(s) == Ok(n, |CompactSize(n)|) <==> n <= MAX_SIZE && CompactSize(n) <= s
    ensures ParseCompact(s).Ok? ==> CompactSize(ParseCompact(s).value) <= s
  {
    if s != [] {
      CompactForm(s, n);
      if ParseCompact(s).Ok? {
        CompactForm(s, ParseCompact(s).value);
      }
    }
  }

  lemma CompactForm(s: seq<byte>, n: nat)
    requires s != []
    ensures (ParseCompact(s).Ok? && ParseCompact(s).value == n) <==> n <= MAX_SIZE && CompactSize(n) <= s
    ensures ParseCompact(s).Ok? && ParseCompact(s).value == n ==> ParseCompact(s).used == |CompactSize(n)|
  {
    Pow2Small();
    assert s[..1] == [s[0]];
    hide ToBytes, FromBytes, Pow2, Field;
    if s[0] == 253 {
      FieldForm(s, 2, 253, n);
    } else if s[0] == 254 {
      FieldForm(s, 4, 0x1_0000, n);
    } else {
      FieldBounds(s, 8, 0x1_0000_0000);
    }
  }

  lemma FieldForm(s: seq<byte>, k: nat, least: nat, n: nat)
    requires s != []
    ensures var r := Field(s, k, least);
      (r.Ok? && r.value == n <==> least <= n <= MAX_SIZE && n < Pow2(8 * k) && s[..1] + ToBytes(n, k) <= s)
      && (r.Ok? ==> r.used == 1 + k)
  {
    hide ToBytes, FromBytes, Field, Pow2;
    FieldBounds(s, k, least);
    if n < Pow2(8 * k) {
      FieldExact(s, k, least, n);
    }
  }

  lemma FieldBounds(s: seq<byte>, k: nat, least: nat)
    requires s != []
    ensures var r := Field(s, k, least);
      r.Ok? ==> least <= r.value <= MAX_SIZE && r.value < Pow2(8 * k) && r.used == 1 + k
  {
    BytesBound(s, k);
  }

  lemma BytesBound(s: seq<byte>, k: nat)
    requires s != []
    ensures |s| >= 1 + k ==> FromBytes(s[1..1 + k]) < Pow2(8 * k)
  {
    if |s| >= 1 + k {
      BytesUnique(s[1..1 + k]);
    }
  }

  // A fixed-width integer, least significant byte first.
  method WriteBytes(stream: Stream, n0: nat, k: nat)
    requires stream.Valid()
    modifies stream
    ensures stream.Valid() && stream.nReadPos == old(stream.nReadPos)
    ensures stream.vch == old(stream.vch) + ToBytes(n0, k)
  {
    var n: nat := n0;
    for i := 0 to k
      invariant stream.Valid() && stream.nReadPos == old(stream.nReadPos)
      invariant stream.vch + ToBytes(n, k - i) == old(stream.vch) + ToBytes(n0, k)
    {
      stream.WriteByte((n % 256) as byte);
      n := n / 256;
    }
  }

  method WriteCompactSize(stream: Stream, nSize: uint64)
    requires stream.Valid()
    modifies stream
    ensures stream.Valid() && stream.nReadPos == old(stream.nReadPos)
    ensures stream.vch == old(stream.vch) + CompactSize(nSize as int)
  {
    hide ToBytes;
    if nSize < 253 {
      stream.WriteByte(nSize as byte);
    } else if nSize <= 0xffff {
      stream.WriteByte(253);
      WriteBytes(stream, nSize as int, 2);
    } else if nSize <= 0xffff_ffff {
      stream.WriteByte(254);
      WriteBytes(stream, nSize as int, 4);
    } else {
      stream.WriteByte(255);
      WriteBytes(stream, nSize as int, 8);
    }
  }

  method ReadBytes(stream: Stream, k: nat) returns (ok: bool, n: nat)
    requires stream.Valid()
    modifies stream`nReadPos
    ensures stream.Valid() && ok == (|old(stream.Rest())| >= k)
    ensures ok ==> n == FromBytes(old(stream.Rest())[..k]) && stream.Rest() == old(stream.Rest())[k..]
  {
    ghost var s := stream.Rest();
    var b: seq<byte> := [];
    for i := 0 to k
      invariant stream.Valid() && i <= |s| && b == s[..i] && stream.Rest() == s[i..]
    {
      var chData;
      ok, chData := stream.ReadByte();
      if !ok {
        return false, 0;
      }
      b := b + [chData];
    }
    return true, FromBytes(b);
  }

  method ReadCompactSize(stream: Stream) returns (r: Result)
    requires stream.Valid()
    modifies stream`nReadPos
    ensures stream.Valid() && r == ParseCompact(old(stream.Rest()))
    ensures r.Ok? ==> r.used <= |old(stream.Rest())| && stream.Rest() == old(stream.Rest())[r.used..]
  {
    ghost var s := stream.Rest();
    var ok, chSize := stream.ReadByte();
    if !ok {
      return EndOfData;
    }
    var nSizeRet: nat := chSize as int;
    if chSize >= 253 {
      var k := if chSize == 253 then 2 else if chSize == 254 then 4 else 8;
      var least := if chSize == 253 then 253 else if chSize == 254 then 0x1_0000 else 0x1_0000_0000;
      ok, nSizeRet := ReadBytes(stream, k);
      if !ok {
        return EndOfData;
      }
      assert s[1..][..k] == s[1..1 + k] && s[1..][k..] == s[1 + k..];
      if nSizeRet < least {
        return NonCanonical;
      }
      if nSizeRet > MAX_SIZE {
        return TooLarge;
      }
      return Ok(nSizeRet, 1 + k);
    }
    if nSizeRet > MAX_SIZE {
      return TooLarge;
    }
    r := Ok(nSizeRet, 1);
  }
}
