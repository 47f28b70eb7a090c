/**
 * Byte strings and digit strings: the conversions the tool performs through
 * GMP and the C++ standard library (mpz_import, mpz_get_str, mpz_set_str,
 * std::bitset<8>::to_string, std::stoi in base 2, std::string::c_str).
 */
module Digits {
  import opened Options
  import opened Arithmetic

  /** One octet of a std::string, read as unsigned. */
  type Byte = b: int | 0 <= b < 256

  // ---------------------------------------------------------------------
  // Bitwise or on naturals (the |= of the key generator)
  // ---------------------------------------------------------------------

  function BitOr(x: nat, y: nat): (r: nat)
    ensures r >= x && r >= y
    ensures r % 2 == 1 <==> x % 2 == 1 || y % 2 == 1
    decreases x + y
  {
    if x == 0 then y
    else if y == 0 then x
    else
      var low := if x % 2 == 1 || y % 2 == 1 then 1 else 0;
      LowBit(BitOr(x / 2, y / 2), low);
      2 * BitOr(x / 2, y / 2) + low
  }

  lemma LowBit(high: nat, low: nat)
    requires low < 2
    ensures (2 * high + low) % 2 == low
  {
  }

  /** Or-ing two k-bit numbers gives a k-bit number. */
  lemma {:induction false} BitOrBound(x: nat, y: nat, k: nat)
    requires x < Pow(2, k) && y < Pow(2, k)
    ensures BitOr(x, y) < Pow(2, k)
    decreases k
  {
    if k > 0 && x != 0 && y != 0 {
      BitOrBound(x / 2, y / 2, k - 1);
    }
  }

  // ---------------------------------------------------------------------
  // Big-endian bytes as a natural number (mpz_import with order 1)
  // ---------------------------------------------------------------------

  function BytesToNat(b: seq<Byte>): (r: nat)
    ensures |b| > 0 ==> r >= b[0] * Pow(256, |b| - 1)
  {
    if |b| == 0 then 0 else b[0] * Pow(256, |b| - 1) + BytesToNat(b[1..])
  }

  /** A k-byte value is below 256^k. */
  lemma {:induction false} BytesToNatBound(b: seq<Byte>)
    ensures BytesToNat(b) < Pow(256, |b|)
    decreases |b|
  {
    if |b| > 0 {
      var p := Pow(256, |b| - 1);
      BytesToNatBound(b[1..]);
      var c: int := b[0];
      assert c * p + p <= 256 * p by {
        assert c * p + p == (c + 1) * p;
        MonotoneMul(c + 1, 256, p);
      }
    }
  }

  lemma MonotoneMul(x: nat, y: nat, p: nat)
    requires x <= y
    ensures x * p <= y * p
  {
  }

  /** 256^k is 2^(8k). */
  lemma BytePower(k: nat)
    ensures Pow(256, k) == Pow(2, 8 * k)
  {
    assert Pow(2, 8) == 256;
    PowMul(2, 8, k);
  }

  // ---------------------------------------------------------------------
  // Binary digit strings
  // ---------------------------------------------------------------------

  predicate IsBinary(s: string) {
    forall i :: 0 <= i < |s| ==> s[i] == '0' || s[i] == '1'
  }

  function BitChar(bit: nat): (c: char)
    requires bit < 2
    ensures c == '0' || c == '1'
  {
    if bit == 1 then '1' else '0'
  }

  function BitValue(c: char): (bit: nat)
    ensures bit < 2
  {
    if c == '1' then 1 else 0
  }

  /** The value of a binary digit string, most significant digit first (mpz_set_str in base 2). */
  function ParseBinary(s: string): (r: nat)
    ensures r < Pow(2, |s|)
  {
    if |s| == 0 then 0 else 2 * ParseBinary(s[..|s| - 1]) + BitValue(s[|s| - 1])
  }

  lemma {:induction false} ParseBinaryAppend(s: string, t: string)
    ensures ParseBinary(s + t) == ParseBinary(s) * Pow(2, |t|) + ParseBinary(t)
    decreases |t|
  {
    if |t| > 0 {
      var t' := t[..|t| - 1];
      assert (s + t)[..|s + t| - 1] == s + t';
      assert (s + t)[|s + t| - 1] == t[|t| - 1];
      assert ParseBinary(s + t) == 2 * ParseBinary(s + t') + BitValue(t[|t| - 1]);
      assert ParseBinary(t) == 2 * ParseBinary(t') + BitValue(t[|t| - 1]);
      assert Pow(2, |t|) == 2 * Pow(2, |t'|);
      ParseBinaryAppend(s, t');
      var a, p := ParseBinary(s), Pow(2, |t'|);
      assert 2 * (a * p + ParseBinary(t')) == a * (2 * p) + 2 * ParseBinary(t') by {
        Reorder(a, p);
      }
    } else {
      assert s + t == s;
    }
  }

  lemma Reorder(a: int, p: int)
    ensures 2 * (a * p) == a * (2 * p)
  {
  }

  /**
   * The w-bit rendering of x, most significant bit first
   * (std::bitset<w>(x).to_string()).
   */
  function Bits(x: nat, w: nat): (s: string)
    ensures |s| == w && IsBinary(s)
  {
    if w == 0 then [] else Bits(x / 2, w - 1) + [BitChar(x % 2)]
  }

  lemma {:induction false} BitsValue(x: nat, w: nat)
    requires x < Pow(2, w)
    ensures ParseBinary(Bits(x, w)) == x
    decreases w
  {
    if w > 0 {
      BitsValue(x / 2, w - 1);
      assert Bits(x, w)[..w - 1] == Bits(x / 2, w - 1);
    }
  }

  /** The shortest binary rendering of x ("0" for zero), as mpz_get_str in base 2. */
  function Binary(x: nat): (s: string)
    ensures |s| >= 1 && IsBinary(s)
    decreases x
  {
    if x < 2 then [BitChar(x)] else Binary(x / 2) + [BitChar(x % 2)]
  }

  lemma {:induction false} BinaryValue(x: nat)
    ensures ParseBinary(Binary(x)) == x
    decreases x
  {
    if x >= 2 {
      BinaryValue(x / 2);
      assert Binary(x)[..|Binary(x)| - 1] == Binary(x / 2);
    }
  }

  /** A positive x has exactly as many binary digits as its bit length. */
  lemma {:induction false} BinaryLength(x: nat)
    requires x >= 1
    ensures Pow(2, |Binary(x)| - 1) <= x < Pow(2, |Binary(x)|)
    decreases x
  {
    BinaryValue(x);
    if x >= 2 {
      BinaryLength(x / 2);
    }
  }

  /** Binary strings of equal length and equal value are equal. */
  lemma {:induction false} ParseBinaryInjective(s: string, t: string)
    requires IsBinary(s) && IsBinary(t) && |s| == |t|
    requires ParseBinary(s) == ParseBinary(t)
    ensures s == t
    decreases |s|
  {
    if |s| > 0 {
      var k := |s| - 1;
      var a, b := ParseBinary(s[..k]), ParseBinary(t[..k]);
      ModUnique(2, ParseBinary(s), a, BitValue(s[k]));
      ModUnique(2, ParseBinary(t), b, BitValue(t[k]));
      ParseBinaryInjective(s[..k], t[..k]);
      assert s == s[..k] + [s[k]] && t == t[..k] + [t[k]];
    }
  }

  // ---------------------------------------------------------------------
  // Bytes to bits and back (the block encoder and the block decoder)
  // ---------------------------------------------------------------------

  /** Each byte as 8 bits, most significant first, in order. */
  function BytesToBinary(b: seq<Byte>): (s: string)
    ensures |s| == 8 * |b| && IsBinary(s)
  {
    if |b| == 0 then [] else Bits(b[0], 8) + BytesToBinary(b[1..])
  }

  lemma {:induction false} BytesToBinaryAppend(x: seq<Byte>, y: seq<Byte>)
    ensures BytesToBinary(x + y) == BytesToBinary(x) + BytesToBinary(y)
    decreases |x|
  {
    if |x| > 0 {
      assert (x + y)[1..] == x[1..] + y;
      assert (x + y)[0] == x[0];
      BytesToBinaryAppend(x[1..], y);
      assert BytesToBinary(x + y) == Bits(x[0], 8) + BytesToBinary(x[1..] + y);
    } else {
      assert x + y == y;
    }
  }

  /** The bit string of a byte sequence denotes its big-endian value. */
  lemma {:induction false} BytesToBinaryValue(b: seq<Byte>)
    ensures ParseBinary(BytesToBinary(b)) == BytesToNat(b)
    decreases |b|
  {
    if |b| > 0 {
      var rest := BytesToBinary(b[1..]);
      var head := Bits(b[0], 8);
      BytesToBinaryValue(b[1..]);
      assert BytesToBinary(b) == head + rest;
      assert ParseBinary(head) == b[0] as nat by {
        assert Pow(2, 8) == 256;
        BitsValue(b[0], 8);
      }
      assert Pow(2, |rest|) == Pow(256, |b| - 1) by {
        BytePower(|b| - 1);
      }
      ParseBinaryAppend(head, rest);
    }
  }

  /** The byte written for eight bits (std::stoi in base 2, cast to char). */
  function ByteValue(s: string): (r: Byte)
    requires |s| == 8
    ensures r == ParseBinary(s)
  {
    assert Pow(2, 8) == 256;
    ParseBinary(s)
  }

  /** Whole groups of eight bits, each read as one byte; a trailing partial group is dropped. */
  function Regroup(s: string): (r: seq<Byte>)
    ensures |r| == |s| / 8
    ensures forall i :: 0 <= i < |r| ==> r[i] == ParseBinary(s[8 * i..8 * i + 8])
  {
    seq(|s| / 8, i requires 0 <= i < |s| / 8 => ByteValue(s[8 * i..8 * i + 8]))
  }

  lemma {:induction false} BytesToBinarySlice(b: seq<Byte>, i: nat)
    requires i < |b|
    ensures BytesToBinary(b)[8 * i..8 * i + 8] == Bits(b[i], 8)
    decreases i
  {
    if i > 0 {
      BytesToBinarySlice(b[1..], i - 1);
      var rest := BytesToBinary(b[1..]);
      assert BytesToBinary(b)[8 * i..8 * i + 8] == rest[8 * (i - 1)..8 * (i - 1) + 8];
    }
  }

  /** Regrouping the bits of a byte sequence gives the bytes back. */
  lemma RegroupBytes(b: seq<Byte>)
    ensures Regroup(BytesToBinary(b)) == b
  {
    var r := Regroup(BytesToBinary(b));
    forall i | 0 <= i < |b|
      ensures r[i] == b[i]
    {
      BytesToBinarySlice(b, i);
      BitsValue(b[i], 8);
    }
  }

  // ---------------------------------------------------------------------
  // Left padding with zeros to whole bytes (addLeadingZeros)
  // ---------------------------------------------------------------------

  function Zeros(k: nat): (s: string)
    ensures |s| == k && IsBinary(s)
  {
    seq(k, _ => '0')
  }

  lemma {:induction false} ZerosValue(k: nat)
    ensures ParseBinary(Zeros(k)) == 0
    decreases k
  {
    if k > 0 {
      assert Zeros(k)[..k - 1] == Zeros(k - 1);
      ZerosValue(k - 1);
    }
  }

  /** s preceded by the fewest '0's that make its length a multiple of 8. */
  function PaddedBits(s: string): (r: string)
  {
    var z := 8 - |s| % 8;
    if z != 8 then Zeros(z) + s else s
  }

  /** Padding reaches a whole number of bytes with at most seven added zeros in front. */
  lemma PaddedBitsShape(s: string)
    ensures |PaddedBits(s)| % 8 == 0
    ensures |s| <= |PaddedBits(s)| <= |s| + 7
    ensures PaddedBits(s) == Zeros(|PaddedBits(s)| - |s|) + s
    ensures |s| % 8 == 0 ==> PaddedBits(s) == s
  {
    if |s| % 8 == 0 {
      assert Zeros(0) + s == s;
    }
  }

  lemma PaddedBitsIdempotent(s: string)
    ensures PaddedBits(PaddedBits(s)) == PaddedBits(s)
  {
    PaddedBitsShape(s);
    PaddedBitsShape(PaddedBits(s));
  }

  /** Padding keeps a binary string binary and keeps its value. */
  lemma PaddedBitsValue(s: string)
    requires IsBinary(s)
    ensures IsBinary(PaddedBits(s))
    ensures ParseBinary(PaddedBits(s)) == ParseBinary(s)
  {
    PaddedBitsShape(s);
    var z := |PaddedBits(s)| - |s|;
    ParseBinaryAppend(Zeros(z), s);
    ZerosValue(z);
  }

  /**
   * The byte codec round trip: a block whose first byte is not zero comes
   * back from its value's binary rendering, padded and regrouped.
   */
  lemma CodecRoundTrip(b: seq<Byte>)
    requires |b| > 0 && b[0] != 0
    ensures Regroup(PaddedBits(Binary(BytesToNat(b)))) == b
  {
    var x := BytesToNat(b);
    var bin := Binary(x);
    var padded := PaddedBits(bin);
    BinaryWidth(b);
    PaddedWidth(bin, |b|);
    PaddedBitsValue(bin);
    assert ParseBinary(padded) == ParseBinary(BytesToBinary(b)) by {
      BinaryValue(x);
      BytesToBinaryValue(b);
    }
    ParseBinaryInjective(padded, BytesToBinary(b));
    RegroupBytes(b);
  }

  /** A block of k bytes with a non-zero first byte has between 8(k - 1) + 1 and 8k binary digits. */
  lemma BinaryWidth(b: seq<Byte>)
    requires |b| > 0 && b[0] != 0
    ensures 8 * (|b| - 1) < |Binary(BytesToNat(b))| <= 8 * |b|
  {
    var x := BytesToNat(b);
    var k := |b|;
    var w := |Binary(x)|;
    assert Pow(2, 8 * (k - 1)) <= x by {
      MonotoneMul(1, b[0], Pow(256, k - 1));
      BytePower(k - 1);
    }
    assert x < Pow(2, 8 * k) by {
      BytesToNatBound(b);
      BytePower(k);
    }
    BinaryLength(x);
    if w <= 8 * (k - 1) {
      PowMonotone(2, w, 8 * (k - 1));
    }
    if w - 1 >= 8 * k {
      PowMonotone(2, 8 * k, w - 1);
    }
  }

  /** Padding a string of 8(k - 1) + 1 to 8k digits gives exactly 8k digits. */
  lemma PaddedWidth(s: string, k: nat)
    requires 8 * (k - 1) < |s| <= 8 * k
    ensures |PaddedBits(s)| == 8 * k
  {
    PaddedBitsShape(s);
    var m := |PaddedBits(s)| / 8;
    assert |PaddedBits(s)| == 8 * m;
  }

  /** A leading zero byte does not survive the codec. */
  lemma LeadingZeroLost()
    ensures Regroup(PaddedBits(Binary(BytesToNat([0, 65])))) == [65]
  {
    var b: seq<Byte> := [0, 65];
    assert BytesToNat(b) == BytesToNat([65 as Byte]) by {
      assert b[1..] == [65 as Byte];
    }
    CodecRoundTrip([65 as Byte]);
  }

  // ---------------------------------------------------------------------
  // Decimal digit strings (mpz_get_str and mpz_set_str in base 10)
  // ---------------------------------------------------------------------

  predicate IsDigit(c: char) {
    '0' <= c <= '9'
  }

  predicate IsDecimal(s: string) {
    forall i :: 0 <= i < |s| ==> IsDigit(s[i])
  }

  function DigitChar(d: nat): (c: char)
    requires d < 10
    ensures IsDigit(c) && c as int - '0' as int == d
  {
    (d + '0' as int) as char
  }

  /** The shortest decimal rendering of x ("0" for zero). */
  function Decimal(x: nat): (s: string)
    ensures |s| >= 1 && IsDecimal(s)
    decreases x
  {
    if x < 10 then [DigitChar(x)] else Decimal(x / 10) + [DigitChar(x % 10)]
  }

  function DecimalValue(s: string): (r: nat)
    requires IsDecimal(s)
  {
    if |s| == 0 then 0 else 10 * DecimalValue(s[..|s| - 1]) + (s[|s| - 1] as int - '0' as int)
  }

  /** mpz_set_str in base 10: a non-empty run of digits, or a failure. */
  function ParseDecimal(s: string): (r: Option<nat>)
    ensures r.Some? <==> |s| > 0 && IsDecimal(s)
  {
    if |s| > 0 && IsDecimal(s) then Some(DecimalValue(s)) else None
  }

  /** The value a freshly initialised mpz holds after mpz_set_str in base 10: zero when parsing fails. */
  function DecimalToNat(s: string): (r: nat)
    ensures ParseDecimal(s).Some? ==> r == ParseDecimal(s).value
    ensures ParseDecimal(s).None? ==> r == 0
  {
    match ParseDecimal(s)
    case Some(v) => v
    case None => 0
  }

  lemma {:induction false} DecimalRoundTrip(x: nat)
    ensures ParseDecimal(Decimal(x)) == Some(x)
    decreases x
  {
    if x >= 10 {
      DecimalRoundTrip(x / 10);
      var s := Decimal(x);
      assert s[..|s| - 1] == Decimal(x / 10);
      assert DecimalValue(s) == 10 * DecimalValue(Decimal(x / 10)) + x % 10;
    }
  }

  /** The prefix of s before its first NUL character (what c_str() shows to C code). */
  function CString(s: string): (r: string)
    ensures r <= s && '\0' !in r
    ensures |r| < |s| ==> s[|r|] == '\0'
  {
    if |s| == 0 || s[0] == '\0' then [] else [s[0]] + CString(s[1..])
  }

  lemma DecimalIsCString(x: nat)
    ensures CString(Decimal(x)) == Decimal(x)
  {
  }
}
