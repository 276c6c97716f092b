// Base58 with and without a checksum.
module Base58 {
  import opened Limbs
  import opened Compact
  import opened BlockTree

  // The alphabet: digits, capitals without I and O, small letters without l.
  const pszBase58: string := "123456789" + "ABCDEFGH" + "JKLMN" + "PQRSTUVWXYZ" + "abcdefghijk" + "mnopqrstuvwxyz"

  // ----------------------------------------------------- positional notation

  // Digits in base b, most significant first.
  function Num(ds: seq<int>, b: nat): int {
    if ds == [] then 0 else Num(ds[..|ds| - 1], b) * b + ds[|ds| - 1]
  }

  // The digits of n without leading zeros.
  function ToDigits(n: nat, b: nat): seq<int>
    requires b > 1
  {
    if n == 0 then []
    else
      QuotientFits(n, b);
      Smaller(n, b);
      ToDigits(n / b, b) + [n % b]
  }

  lemma Smaller(n: nat, b: nat)
    requires b > 1 && n > 0
    ensures n / b < n
  {
    QuotientFits(n, b);
    if n / b > 0 {
      MulLess(1, b, n / b);
    }
  }

  ghost predicate AreDigits(ds: seq<int>, b: nat) {
    forall i | 0 <= i < |ds| :: 0 <= ds[i] < b
  }

  function Zeros(k: nat): (z: seq<int>)
    ensures |z| == k && forall i | 0 <= i < k :: z[i] == 0
  {
    if k == 0 then [] else Zeros(k - 1) + [0]
  }

  // How many zeros ds starts with.
  function Leading(ds: seq<int>): (k: nat)
    ensures k <= |ds| && (forall i | 0 <= i < k :: ds[i] == 0) && (k < |ds| ==> ds[k] != 0)
  {
    if ds == [] || ds[0] != 0 then 0 else 1 + Leading(ds[1..])
  }

  lemma LeadingIs(ds: seq<int>, k: nat)
    requires k <= |ds| && (forall i | 0 <= i < k :: ds[i] == 0) && (k < |ds| ==> ds[k] != 0)
    ensures Leading(ds) == k
  {
  }

  // Another base, each leading zero becoming a leading zero.
  function Recode(ds: seq<int>, b: nat, c: nat): seq<int>
    requires b > 0 && c > 1 && AreDigits(ds, b)
  {
    NumNonNegative(ds, b);
    Zeros(Leading(ds)) + ToDigits(Num(ds, b), c)
  }

  lemma {:induction false} NumNonNegative(ds: seq<int>, b: nat)
    requires AreDigits(ds, b)
    ensures Num(ds, b) >= 0
  {
    if ds != [] {
      NumNonNegative(ds[..|ds| - 1], b);
      MulMono(0, Num(ds[..|ds| - 1], b), b);
    }
  }

  lemma {:induction false} NumOfDigits(n: nat, b: nat)
    requires b > 1
    ensures var ds := ToDigits(n, b); AreDigits(ds, b) && Num(ds, b) == n && (ds != [] ==> ds[0] != 0)
    decreases n
  {
    if n > 0 {
      QuotientFits(n, b);
      Smaller(n, b);
      NumOfDigits(n / b, b);
      var ds, up := ToDigits(n, b), ToDigits(n / b, b);
      assert ds == up + [n % b];
      DigitAdded(up, n / b, n % b, n, b);
    }
  }

  lemma DigitAdded(up: seq<int>, q: nat, r: nat, n: nat, b: nat)
    requires b > 1 && n > 0 && q == n / b && r == n % b
    requires AreDigits(up, b) && Num(up, b) == q && (up != [] ==> up[0] != 0)
    ensures var ds := up + [r]; AreDigits(ds, b) && Num(ds, b) == n && ds[0] != 0
  {
    var ds := up + [r];
    assert ds[..|ds| - 1] == up;
    assert n == q * b + r;
  }

  lemma {:induction false} DigitsOfNum(ds: seq<int>, b: nat)
    requires b > 1 && AreDigits(ds, b) && (ds != [] ==> ds[0] != 0)
    ensures Num(ds, b) >= 0 && ToDigits(Num(ds, b), b) == ds
    decreases |ds|
  {
    if ds != [] {
      var up, last := ds[..|ds| - 1], ds[|ds| - 1];
      if up != [] {
        assert up[0] == ds[0];
      }
      DigitsOfNum(up, b);
      MulMono(0, Num(up, b), b);
      DivModUnique(Num(ds, b), b, Num(up, b), last);
      PositiveNum(up, last, b);
      assert ds == up + [last];
    }
  }

  lemma PositiveNum(up: seq<int>, last: int, b: nat)
    requires b > 1 && Num(up, b) >= 0 && 0 <= last && ToDigits(Num(up, b), b) == up && (up == [] ==> last != 0)
    ensures Num(up, b) * b + last > 0
  {
    if Num(up, b) > 0 {
      MulMono(1, Num(up, b), b);
    }
  }

  lemma {:induction false} NumZeros(k: nat, ds: seq<int>, b: nat)
    ensures Num(Zeros(k) + ds, b) == Num(ds, b)
    decreases k + |ds|
  {
    var s := Zeros(k) + ds;
    if ds != [] {
      assert s[..|s| - 1] == Zeros(k) + ds[..|ds| - 1];
      NumZeros(k, ds[..|ds| - 1], b);
    } else if k > 0 {
      assert s[..|s| - 1] == Zeros(k - 1) + [];
      NumZeros(k - 1, [], b);
    }
  }

  lemma SplitZeros(ds: seq<int>)
    ensures var k := Leading(ds); ds == Zeros(k) + ds[k..]
  {
  }

  // Recoding back gives the digits one had, leading zeros included.
  lemma RecodeRoundTrip(ds: seq<int>, b: nat, c: nat)
    requires b > 1 && c > 1 && AreDigits(ds, b)
    ensures AreDigits(Recode(ds, b, c), c) && Recode(Recode(ds, b, c), c, b) == ds
  {
    hide Num, ToDigits, Zeros, Leading;
    var k := Leading(ds);
    var rest := ds[k..];
    SplitZeros(ds);
    NumZeros(k, rest, b);
    DigitsOfNum(rest, b);
    NumOfDigits(Num(rest, b), c);
    var es := ToDigits(Num(rest, b), c);
    NumZeros(k, es, c);
    LeadingIs(Zeros(k) + es, k);
  }

  // ------------------------------------------------------------ the alphabet

  // The code of its d-th character.
  function Code(d: int): int
    requires 0 <= d < 58
  {
    if d < 9 then '1' as int + d
    else if d < 17 then 'A' as int + d - 9
    else if d < 22 then 'J' as int + d - 17
    else if d < 33 then 'P' as int + d - 22
    else if d < 44 then 'a' as int + d - 33
    else 'm' as int + d - 44
  }

  lemma Codes(d: nat)
    requires d < 58
    ensures |pszBase58| == 58 && pszBase58[d] as int == Code(d)
  {
    var s0, s1, s2, s3, s4, s5 := "123456789", "ABCDEFGH", "JKLMN", "PQRSTUVWXYZ", "abcdefghijk", "mnopqrstuvwxyz";
    assert forall i | 0 <= i < 9 :: s0[i] as int == '1' as int + i;
    assert forall i | 0 <= i < 8 :: s1[i] as int == 'A' as int + i;
    assert forall i | 0 <= i < 5 :: s2[i] as int == 'J' as int + i;
    assert forall i | 0 <= i < 11 :: s3[i] as int == 'P' as int + i;
    assert forall i | 0 <= i < 11 :: s4[i] as int == 'a' as int + i;
    assert forall i | 0 <= i < 14 :: s5[i] as int == 'm' as int + i;
  }

  function Char(d: int): (c: char)
    requires 0 <= d < 58
  {
    Codes(d);
    pszBase58[d]
  }

  // strchr on the alphabet, as an index; -1 for NULL.
  function IndexOf(c: char): (r: int)
    ensures if r < 0 then forall k | 0 <= k < 58 :: Char(k) != c else r < 58 && Char(r) == c
  {
    FindFrom(c, 0)
  }

  function FindFrom(c: char, d: nat): (r: int)
    requires d <= 58
    ensures if r < 0 then forall k | d <= k < 58 :: Char(k) != c else d <= r < 58 && Char(r) == c
    decreases 58 - d
  {
    if d == 58 then -1 else if Char(d) == c then d else FindFrom(c, d + 1)
  }

  lemma IndexOfChar(d: nat)
    requires d < 58
    ensures IndexOf(Char(d)) == d
  {
    var r := IndexOf(Char(d));
    Codes(d);
    if r >= 0 { Codes(r); }
  }

  predicate IsSpace(c: char) { c == ' ' || '\t' <= c <= '\r' }

  lemma NoSpaceInAlphabet(c: char)
    requires IndexOf(c) >= 0
    ensures !IsSpace(c)
  {
    Codes(IndexOf(c));
  }

  // ---------------------------------------------------------- bytes as digits

  function Ints(v: seq<byte>): (ds: seq<int>)
    ensures |ds| == |v| && AreDigits(ds, 256)
  {
    seq(|v|, i requires 0 <= i < |v| => v[i] as int)
  }

  function Reverse<T>(s: seq<T>): (r: seq<T>)
    ensures |r| == |s| && forall i | 0 <= i < |s| :: r[i] == s[|s| - 1 - i]
  {
    if s == [] then [] else Reverse(s[1..]) + [s[0]]
  }

  lemma ReverseTwice<T>(s: seq<T>)
    ensures Reverse(Reverse(s)) == s
  {
  }

  // CBigNum::setvch and getvch
  function SetVch(v: seq<byte>): int { FromMpi(Reverse(v)) }

  function GetVch(x: int): seq<byte> { Reverse(ToMpi(x)) }

  lemma {:induction false} BigEndianNum(v: seq<byte>)
    ensures BigEndian(v) == Num(Ints(v), 256)
  {
    if v != [] {
      BigEndianNum(v[..|v| - 1]);
      assert Ints(v)[..|v| - 1] == Ints(v[..|v| - 1]);
    }
  }

  lemma ReverseOnto(v: seq<byte>)
    ensures Reverse(Reverse(v) + [0]) == [0] + v
  {
    var r, w := Reverse(v) + [0], [0] + v;
    forall i | 0 <= i < |w| ensures Reverse(r)[i] == w[i] {
    }
  }

  // The extra zero byte keeps the number from being read as negative.
  lemma NotNegative(v: seq<byte>)
    ensures SetVch(Reverse(v) + [0]) == Num(Ints(v), 256) >= 0
  {
    hide Num, BigEndian, Zeros;
    ReverseTwice(v);
    assert Reverse(Reverse(v) + [0]) == [0] + v by {
      ReverseOnto(v);
    }
    hide Reverse;
    NumNonNegative(Ints(v), 256);
    BigEndianNum([0] + v);
    assert Zeros(1) == [0];
    assert Ints([0] + v) == Zeros(1) + Ints(v);
    NumZeros(1, Ints(v), 256);
  }

  lemma {:induction false} MinimalBytes(n: nat)
    ensures Ints(ToBytes(n, ByteSize(n))) == ToDigits(n, 256)
    decreases n
  {
    if n > 0 {
      MinimalBytes(n / 256);
      var up := ToBytes(n / 256, ByteSize(n / 256));
      assert ToBytes(n, ByteSize(n)) == up + [(n % 256) as byte];
      assert Ints(up + [(n % 256) as byte]) == Ints(up) + [n % 256];
    }
  }

  lemma {:induction false} OneMoreByte(n: nat, k: nat)
    requires n < Bytes(k)
    ensures ToBytes(n, k + 1) == [0] + ToBytes(n, k)
    decreases k
  {
    if k > 0 {
      DivBelow(n, 256, Bytes(k - 1));
      OneMoreByte(n / 256, k - 1);
    } else {
      assert n == 0;
    }
  }

  lemma {:induction false} HighByte(n: nat, k: nat)
    requires k > 0 && n < Bytes(k) && 2 * n >= Bytes(k)
    ensures ToBytes(n, k)[0] >= 128
    decreases k
  {
    if k > 1 {
      DivBelow(n, 256, Bytes(k - 1));
      assert 2 * (n / 256) >= Bytes(k - 1) by {
        assert Bytes(k) == 256 * Bytes(k - 1) && Bytes(k - 1) == 256 * Bytes(k - 2);
      }
      HighByte(n / 256, k - 1);
    }
  }

  // Trim off the sign byte if present.
  function Trim(v: seq<byte>): seq<byte> {
    if |v| >= 2 && v[|v| - 1] == 0 && v[|v| - 2] >= 0x80 then v[..|v| - 1] else v
  }

  lemma TrimSign(m: seq<byte>)
    requires |m| >= 2 && m[0] == 0 && m[1] >= 128
    ensures Reverse(Trim(Reverse(m))) == m[1..]
  {
  }

  lemma TrimNone(m: seq<byte>)
    requires m == [] || m[0] != 0
    ensures Reverse(Trim(Reverse(m))) == m
  {
    ReverseTwice(m);
  }

  lemma TrimmedVch(n: nat)
    ensures Ints(Reverse(Trim(GetVch(n)))) == ToDigits(n, 256)
  {
    var k := ByteSize(n);
    MinimalBytes(n);
    NumOfDigits(n, 256);
    SignedSizes(n);
    var m := ToBytes(n, k);
    assert k > 0 ==> Ints(m)[0] != 0;
    if SignedSize(n) == k + 1 {
      NotZero(n);
      OneMoreByte(n, k);
      HighByte(n, k);
      TrimSign([0] + m);
      assert ([0] + m)[1..] == m;
    } else {
      TrimNone(m);
    }
  }

  lemma NotZero(n: nat)
    requires SignedSize(n) == ByteSize(n) + 1
    ensures ByteSize(n) > 0
  {
  }

  // ------------------------------------------------------------- the strings

  function Chars(ds: seq<int>): (s: string)
    requires AreDigits(ds, 58)
    ensures |s| == |ds|
  {
    seq(|ds|, i requires 0 <= i < |ds| && AreDigits(ds, 58) => Char(ds[i]))
  }

  predicate AllDigits(s: string) {
    forall i | 0 <= i < |s| :: IndexOf(s[i]) >= 0
  }

  function Indexes(s: string): (ds: seq<int>)
    requires AllDigits(s)
    ensures AreDigits(ds, 58) && |ds| == |s|
  {
    seq(|s|, i requires 0 <= i < |s| && AllDigits(s) => IndexOf(s[i]))
  }

  lemma CharsIndexes(ds: seq<int>)
    requires AreDigits(ds, 58)
    ensures AllDigits(Chars(ds)) && Indexes(Chars(ds)) == ds
  {
    forall i | 0 <= i < |ds| ensures IndexOf(Chars(ds)[i]) == ds[i] {
      IndexOfChar(ds[i]);
    }
  }

  lemma IndexesChars(s: string)
    requires AllDigits(s)
    ensures Chars(Indexes(s)) == s
  {
  }

  // The string of a byte vector: its number in base 58, leading zero bytes
  // becoming leading ones.
  function Encoding(v: seq<byte>): (s: string)
    ensures AllDigits(s)
  {
    RecodeRoundTrip(Ints(v), 256, 58);
    CharsIndexes(Recode(Ints(v), 256, 58));
    Chars(Recode(Ints(v), 256, 58))
  }

  method EncodeBase58(v: seq<byte>) returns (str: string)
    ensures str == Encoding(v)
  {
    hide Num, ToDigits, FromMpi, Zeros, Leading, Chars, Reverse;
    NotNegative(v);
    var vchTmp := Reverse(v) + [0];
    var bn := SetVch(vchTmp);
    str := Convert(bn);
    str := AddOnes(v, str);
    Assembled(ToDigits(Num(Ints(v), 256), 58), Leading(Ints(v)));
    str := Reverse(str);
  }

  // The digits of a number, least significant first.
  method Convert(n: nat) returns (str: string)
    ensures AreDigits(Reverse(ToDigits(n, 58)), 58) && str == Chars(Reverse(ToDigits(n, 58)))
  {
    hide ToDigits;
    assert Reverse<int>([]) == [];
    NumOfDigits(n, 58);
    NoDigits();
    str := "";
    var bn: nat := n;
    ghost var ds: seq<int> := [];
    while bn > 0
      invariant AreDigits(ds, 58) && AreDigits(Reverse(ds), 58) && str == Chars(Reverse(ds))
      invariant ToDigits(n, 58) == ToDigits(bn, 58) + ds
      decreases bn
    {
      var c := bn % 58;
      DigitOff(bn);
      ReverseFront(ds, c);
      ds := [c] + ds;
      str := str + [Char(c)];
      bn := bn / 58;
    }
    assert ds == ToDigits(n, 58);
  }

  // One digit zero for every leading zero byte.
  method AddOnes(v: seq<byte>, str0: string) returns (str: string)
    ensures AreDigits(Zeros(Leading(Ints(v))), 58) && str == str0 + Chars(Zeros(Leading(Ints(v))))
  {
    str := str0;
    var p := 0;
    assert str0 + Chars([]) == str0;
    while p < |v| && v[p] == 0
      invariant p <= |v| && forall i | 0 <= i < p :: v[i] == 0
      invariant AreDigits(Zeros(p), 58) && str == str0 + Chars(Zeros(p))
    {
      assert Chars(Zeros(p + 1)) == Chars(Zeros(p)) + [Char(0)];
      str := str + [Char(0)];
      p := p + 1;
    }
    LeadingIs(Ints(v), p);
  }

  lemma DigitOff(n: nat)
    requires n > 0
    ensures ToDigits(n, 58) == ToDigits(n / 58, 58) + [n % 58] && 0 <= n / 58 < n
  {
  }

  lemma NoDigits()
    ensures ToDigits(0, 58) == []
  {
  }

  lemma ReverseFront(ds: seq<int>, c: int)
    requires AreDigits(ds, 58) && 0 <= c < 58
    ensures Reverse([c] + ds) == Reverse(ds) + [c] && AreDigits(Reverse(ds), 58) && AreDigits(Reverse([c] + ds), 58)
    ensures Chars(Reverse(ds) + [c]) == Chars(Reverse(ds)) + [Char(c)]
  {
    assert ([c] + ds)[1..] == ds;
  }

  lemma ReverseAppend(a: string, b: string)
    ensures Reverse(a + b) == Reverse(b) + Reverse(a)
  {
  }

  lemma ReverseChars(ds: seq<int>)
    requires AreDigits(ds, 58)
    ensures AreDigits(Reverse(ds), 58) && Reverse(Chars(ds)) == Chars(Reverse(ds))
  {
  }

  // Turned round, the string is the leading ones and then the digits.
  lemma Assembled(ds: seq<int>, k: nat)
    requires AreDigits(Reverse(ds), 58) && AreDigits(Zeros(k), 58)
    ensures AreDigits(Zeros(k) + ds, 58)
    ensures Reverse(Chars(Reverse(ds)) + Chars(Zeros(k))) == Chars(Zeros(k) + ds)
  {
    hide Reverse, Zeros, Chars;
    ReverseTwice(ds);
    ReverseDigits(Reverse(ds));
    ReverseChars(Reverse(ds));
    ReverseChars(Zeros(k));
    assert Reverse(Zeros(k)) == Zeros(k);
    ReverseAppend(Chars(Reverse(ds)), Chars(Zeros(k)));
    AppendChars(Zeros(k), ds);
  }

  lemma ReverseDigits(ds: seq<int>)
    requires AreDigits(ds, 58)
    ensures AreDigits(Reverse(ds), 58)
  {
  }

  lemma AppendChars(a: seq<int>, b: seq<int>)
    requires AreDigits(a, 58) && AreDigits(b, 58)
    ensures AreDigits(a + b, 58) && Chars(a + b) == Chars(a) + Chars(b)
  {
  }

  // ---------------------------------------------------------------- decoding

  function TrimEnd(s: string): (r: string)
    ensures r <= s && (r != [] ==> !IsSpace(r[|r| - 1]))
  {
    if s != [] && IsSpace(s[|s| - 1]) then TrimEnd(s[..|s| - 1]) else s
  }

  function TrimStart(s: string): (r: string)
    ensures r == [] || !IsSpace(r[0])
  {
    if s != [] && IsSpace(s[0]) then TrimStart(s[1..]) else s
  }

  // A string without the white space around it.
  function Trimmed(s: string): string { TrimEnd(TrimStart(s)) }

  // The byte vector of a string of base58 characters.
  function Decoding(s: string): Option<seq<byte>> {
    if AllDigits(Trimmed(s)) then Some(Vector(Trimmed(s))) else None
  }

  function Vector(s: string): (v: seq<byte>)
    requires AllDigits(s)
  {
    RecodeRoundTrip(Indexes(s), 58, 256);
    var ds := Recode(Indexes(s), 58, 256);
    seq(|ds|, i requires 0 <= i < |ds| && AreDigits(ds, 256) => ds[i] as byte)
  }

  lemma VectorInts(s: string, v: seq<byte>)
    requires AllDigits(s) && Ints(v) == Recode(Indexes(s), 58, 256)
    ensures v == Vector(s)
  {
    assert forall i | 0 <= i < |v| :: Ints(v)[i] as byte == v[i];
  }

  lemma VectorIs(s: string)
    requires AllDigits(s)
    ensures Ints(Vector(s)) == Recode(Indexes(s), 58, 256)
  {
    RecodeRoundTrip(Indexes(s), 58, 256);
  }

  // The string spells the number of the bytes in base 58, most significant
  // digit first, after a one for each leading zero byte.
  lemma EncodingMeans(v: seq<byte>)
    ensures var s := Encoding(v); var k := Leading(Ints(v));
      && Num(Indexes(s), 58) == Num(Ints(v), 256)
      && k <= |s| && (forall i | 0 <= i < k :: s[i] == '1') && (k < |s| ==> s[k] != '1')
  {
    var ds, k := Recode(Ints(v), 256, 58), Leading(Ints(v));
    RecodeRoundTrip(Ints(v), 256, 58);
    CharsIndexes(ds);
    NumNonNegative(Ints(v), 256);
    var n := Num(Ints(v), 256);
    NumOfDigits(n, 58);
    NumZeros(k, ToDigits(n, 58), 58);
    hide Num, ToDigits, Leading, Recode;
  }

  // Decoding the encoding of any byte vector returns it.
  lemma DecodeEncoded(v: seq<byte>)
    ensures Decoding(Encoding(v)) == Some(v)
  {
    var s := Encoding(v);
    NoSpace(s);
    RecodeRoundTrip(Ints(v), 256, 58);
    CharsIndexes(Recode(Ints(v), 256, 58));
    VectorInts(s, v);
  }

  // Encoding what a string without white space decodes to returns the string.
  lemma EncodeDecoded(s: string)
    requires Trimmed(s) == s && Decoding(s).Some?
    ensures Encoding(Decoding(s).value) == s
  {
    VectorIs(s);
    RecodeRoundTrip(Indexes(s), 58, 256);
    IndexesChars(s);
  }

  lemma NoSpace(s: string)
    requires AllDigits(s)
    ensures Trimmed(s) == s
  {
    if s != [] {
      NoSpaceInAlphabet(s[0]);
      NoSpaceInAlphabet(s[|s| - 1]);
    }
  }

  method SkipSpace(s: string, p0: nat) returns (p: nat)
    requires p0 <= |s|
    ensures p0 <= p <= |s| && TrimStart(s[p0..]) == s[p..]
    ensures (forall i | p0 <= i < p :: IsSpace(s[i])) && (p < |s| ==> !IsSpace(s[p]))
  {
    p := p0;
    while p < |s| && IsSpace(s[p])
      invariant p0 <= p <= |s| && TrimStart(s[p0..]) == TrimStart(s[p..])
      invariant forall i | p0 <= i < p :: IsSpace(s[i])
    {
      assert s[p..][1..] == s[p + 1..];
      p := p + 1;
    }
  }

  // Characters of the alphabet and then white space.
  lemma {:induction false} TrimTail(s: string, p: nat)
    requires p <= |s| && AllDigits(s[..p]) && forall i | p <= i < |s| :: IsSpace(s[i])
    ensures TrimEnd(s) == s[..p]
    decreases |s|
  {
    hide TrimEnd, IndexOf;
    TrimOne(s);
    if p == |s| {
      assert s[..p] == s;
      if p > 0 {
        assert s[..p][p - 1] == s[p - 1];
        NoSpaceInAlphabet(s[p - 1]);
      }
    } else {
      var t := s[..|s| - 1];
      assert t[..p] == s[..p];
      TrimTail(t, p);
    }
  }

  lemma TrimOne(s: string)
    ensures TrimEnd(s) == if s != [] && IsSpace(s[|s| - 1]) then TrimEnd(s[..|s| - 1]) else s
  {
  }

  // A character that is not white space stays.
  lemma {:induction false} TrimStops(s: string, q: nat)
    requires q < |s| && !IsSpace(s[q])
    ensures |TrimEnd(s)| > q
    decreases |s|
  {
    if IsSpace(s[|s| - 1]) {
      TrimStops(s[..|s| - 1], q);
    }
  }

  lemma NoText(s: string)
    ensures AllDigits(s[..0]) && Num(Indexes(s[..0]), 58) == 0
  {
  }

  lemma NextDigit(s: string, n: nat)
    requires n < |s| && AllDigits(s[..n]) && IndexOf(s[n]) >= 0
    ensures AllDigits(s[..n + 1])
    ensures Num(Indexes(s[..n + 1]), 58) == Num(Indexes(s[..n]), 58) * 58 + IndexOf(s[n])
  {
    var ds := Indexes(s[..n + 1]);
    assert s[..n + 1] == s[..n] + [s[n]];
    assert ds[..n] == Indexes(s[..n]);
  }

  // The bytes of the number after as many zeros as there are leading ones.
  lemma Restored(core: string, z: nat, w: seq<byte>, v: seq<byte>)
    requires AllDigits(core) && Num(Indexes(core), 58) >= 0 && Ints(w) == ToDigits(Num(Indexes(core), 58), 256)
    requires z <= |core| && forall i | 0 <= i < z :: core[i] == Char(0)
    requires z < |core| ==> core[z] != Char(0)
    requires v == seq(z, _ => 0) + w
    ensures v == Vector(core)
  {
    var ds := Indexes(core);
    forall i | 0 <= i < |core| ensures ds[i] == 0 <==> core[i] == Char(0) {
      IndexOfChar(0);
    }
    LeadingIs(ds, z);
    assert Ints(v) == Zeros(z) + Ints(w);
    VectorInts(core, v);
  }

  method DecodeBase58(psz: string) returns (ok: bool, vchRet: seq<byte>)
    ensures if ok then Decoding(psz) == Some(vchRet) else Decoding(psz) == None && vchRet == []
  {
    hide *;
    vchRet := [];
    var start := SkipSpace(psz, 0);
    assert psz[0..] == psz;
    var bn, p;
    ok, bn, p := ReadNumber(psz, start);
    if !ok {
      Refused(psz);
      return;
    }
    var vchTmp := Trim(GetVch(bn));
    TrimmedVch(bn);
    Accepted(psz, psz[start..p]);
    assert psz[start..][..p - start] == psz[start..p];
    vchRet := AddZeros(psz[start..], p - start, Reverse(vchTmp));
  }

  lemma Refused(psz: string)
    requires !AllDigits(TrimEnd(TrimStart(psz)))
    ensures Decoding(psz) == None
  {
  }

  lemma Accepted(psz: string, core: string)
    requires TrimEnd(TrimStart(psz)) == core && AllDigits(core)
    ensures Decoding(psz) == Some(Vector(core))
  {
  }

  // The number that the digits from start on spell, most significant first.
  method ReadNumber(psz: string, start: nat) returns (ok: bool, bn: nat, p: nat)
    requires start <= |psz|
    ensures !ok ==> !AllDigits(TrimEnd(psz[start..]))
    ensures ok ==> start <= p <= |psz| && TrimEnd(psz[start..]) == psz[start..p] && AllDigits(psz[start..p])
                   && (p < |psz| ==> IsSpace(psz[p]))
                   && bn == Num(Indexes(psz[start..p]), 58)
  {
    hide Num, TrimEnd, TrimStart, IndexOf;
    ghost var text := psz[start..];
    bn, p := 0, start;
    NoText(text);
    while p < |psz|
      invariant start <= p <= |psz| && AllDigits(text[..p - start])
      invariant bn == Num(Indexes(text[..p - start]), 58)
    {
      assert text[p - start] == psz[p];
      var digit := IndexOf(psz[p]);
      if digit < 0 {
        var q := SkipSpace(psz, p);
        if q < |psz| {
          TrimStops(text, q - start);
          assert IndexOf(TrimEnd(text)[p - start]) < 0;
          return false, bn, p;
        }
        break;
      }
      NextDigit(text, p - start);
      bn := bn * 58;
      bn := bn + digit;
      p := p + 1;
    }
    assert psz[start..p] == text[..p - start];
    forall i | p - start <= i < |text| ensures IsSpace(text[i]) {
      assert text[i] == psz[start + i];
    }
    TrimTail(text, p - start);
    ok := true;
  }

  // Puts back a zero byte for every leading digit zero.
  method AddZeros(psz: string, n: nat, w: seq<byte>) returns (vchRet: seq<byte>)
    requires n <= |psz| && AllDigits(psz[..n]) && Num(Indexes(psz[..n]), 58) >= 0
    requires n < |psz| ==> IsSpace(psz[n])
    requires Ints(w) == ToDigits(Num(Indexes(psz[..n]), 58), 256)
    ensures vchRet == Vector(psz[..n])
  {
    hide Num, ToDigits, Vector, IndexOf;
    ghost var core := psz[..n];
    var nLeadingZeros := 0;
    assert Char(0) == '1' by {
      Codes(0);
    }
    while nLeadingZeros < |psz| && psz[nLeadingZeros] == Char(0)
      invariant nLeadingZeros <= n && forall i | 0 <= i < nLeadingZeros :: core[i] == Char(0)
    {
      nLeadingZeros := nLeadingZeros + 1;
    }
    vchRet := seq(nLeadingZeros, _ => 0) + w;
    Restored(core, nLeadingZeros, w, vchRet);
  }

  // ---------------------------------------------------------------- checksum

  // The first four bytes of the hash of a byte vector.
  type Checksum = f: seq<byte> -> seq<byte> | forall v :: |f(v)| == 4 witness (_ => [0, 0, 0, 0])

  function CheckEncoding(checksum: Checksum, v: seq<byte>): string { Encoding(v + checksum(v)) }

  method EncodeBase58Check(checksum: Checksum, vchIn: seq<byte>) returns (str: string)
    ensures str == CheckEncoding(checksum, vchIn)
  {
    var vch := vchIn;
    vch := vch + checksum(vch);
    str := EncodeBase58(vch);
  }

  function CheckDecoding(checksum: Checksum, psz: string): Option<seq<byte>> {
    match Decoding(psz)
    case None => None
    case Some(v) =>
      if |v| < 4 || checksum(v[..|v| - 4]) != v[|v| - 4..] then None else Some(v[..|v| - 4])
  }

  method DecodeBase58Check(checksum: Checksum, psz: string) returns (ok: bool, vchRet: seq<byte>)
    ensures CheckDecoding(checksum, psz) == if ok then Some(vchRet) else None
    ensures !ok ==> vchRet == []
  {
    hide Decoding;
    ok, vchRet := DecodeBase58(psz);
    if !ok {
      return;
    }
    if |vchRet| < 4 {
      return false, [];
    }
    if checksum(vchRet[..|vchRet| - 4]) != vchRet[|vchRet| - 4..] {
      return false, [];
    }
    vchRet := vchRet[..|vchRet| - 4];
  }

  lemma CheckDecodeEncoded(checksum: Checksum, v: seq<byte>)
    ensures CheckDecoding(checksum, CheckEncoding(checksum, v)) == Some(v)
  {
    hide Decoding, Encoding;
    DecodeEncoded(v + checksum(v));
    var w := v + checksum(v);
    assert w[..|w| - 4] == v && w[|w| - 4..] == checksum(v);
  }

  // A string is accepted only if it is the checked encoding of the result.
  lemma CheckEncodeDecoded(checksum: Checksum, s: string)
    requires Trimmed(s) == s && CheckDecoding(checksum, s).Some?
    ensures CheckEncoding(checksum, CheckDecoding(checksum, s).value) == s
  {
    hide Trimmed, Decoding, Encoding;
    EncodeDecoded(s);
    var w := Decoding(s).value;
    assert w == w[..|w| - 4] + w[|w| - 4..];
  }
}
