/** Bytes, byte order and the fixed-width scalar encodings read by the buffer chain. */
module Bytes {

  /** A Java `byte`, held as the unsigned value (0..255) of its bit pattern. */
  type byte = b: int | 0 <= b < 256

  /** `java.nio.ByteOrder`. */
  datatype ByteOrder = BigEndian | LittleEndian

  /** 256 to the power n: one more than the largest unsigned n-byte value. */
  function Pow256(n: nat): (p: nat)
    ensures p >= 1
  {
    if n == 0 then 1 else 256 * Pow256(n - 1)
  }

  /** Unsigned value of `s`, most significant byte first. */
  function BigEndianValue(s: seq<byte>): (v: nat)
    ensures v < Pow256(|s|)
  {
    if s == [] then 0 else BigEndianValue(s[..|s| - 1]) * 256 + s[|s| - 1]
  }

  function Reverse(s: seq<byte>): (r: seq<byte>)
    ensures |r| == |s|
    ensures forall i | 0 <= i < |s| :: r[i] == s[|s| - 1 - i]
  {
    if s == [] then [] else Reverse(s[1..]) + [s[0]]
  }

  /** Unsigned value of `s` read in byte order `order`. */
  function UnsignedValue(s: seq<byte>, order: ByteOrder): (v: nat)
    ensures v < Pow256(|s|)
  {
    match order
    case BigEndian => BigEndianValue(s)
    case LittleEndian => BigEndianValue(Reverse(s))
  }

  /** Two's complement reading of an unsigned n-byte value. */
  function Signed(v: nat, n: nat): (x: int)
    requires n > 0 && v < Pow256(n)
    ensures -(Pow256(n) as int) / 2 <= x < Pow256(n) / 2
    ensures x == v || x == v - Pow256(n)
  {
    if v < Pow256(n) / 2 then v else v - Pow256(n)
  }

  /** The n bytes that encode the unsigned value v, most significant first. */
  function BigEndianBytes(v: nat, n: nat): (s: seq<byte>)
    requires v < Pow256(n)
    ensures |s| == n
  {
    if n == 0 then [] else BigEndianBytes(v / 256, n - 1) + [v % 256]
  }

  /** Decoding the big-endian encoding of v gives back v. */
  lemma {:induction false} BigEndianRoundTrip(v: nat, n: nat)
    requires v < Pow256(n)
    ensures BigEndianValue(BigEndianBytes(v, n)) == v
  {
    if n > 0 {
      var s := BigEndianBytes(v, n);
      assert s[..|s| - 1] == BigEndianBytes(v / 256, n - 1);
      BigEndianRoundTrip(v / 256, n - 1);
    }
  }

  /** Little-endian order reads the same bytes as big-endian order reversed. */
  lemma {:induction false} ReverseInvolution(s: seq<byte>)
    ensures Reverse(Reverse(s)) == s
  {
    var r := Reverse(Reverse(s));
    assert |r| == |s|;
    forall i | 0 <= i < |s| ensures r[i] == s[i] {
      assert r[i] == Reverse(s)[|s| - 1 - i];
    }
  }

  /** Bytes of v in little-endian order decode to v under LittleEndian. */
  lemma LittleEndianRoundTrip(v: nat, n: nat)
    requires v < Pow256(n)
    ensures UnsignedValue(Reverse(BigEndianBytes(v, n)), LittleEndian) == v
  {
    ReverseInvolution(BigEndianBytes(v, n));
    BigEndianRoundTrip(v, n);
  }

  /** Whether v fits in n bytes as a two's complement number. */
  predicate FitsSigned(v: int, n: nat)
  {
    -(Pow256(n) as int) / 2 <= v < Pow256(n) / 2
  }

  /** The n bytes `putShort`, `putInt` or `putLong` write for v, in byte order `order`. */
  function Encode(v: int, n: nat, order: ByteOrder): (s: seq<byte>)
    requires n > 0 && FitsSigned(v, n)
    ensures |s| == n
  {
    var u := if v < 0 then v + Pow256(n) else v;
    match order
    case BigEndian => BigEndianBytes(u, n)
    case LittleEndian => Reverse(BigEndianBytes(u, n))
  }

  /** What `getShort`, `getInt` or `getLong` return for the bytes s read in byte order `order`. */
  function Decode(s: seq<byte>, order: ByteOrder): (x: int)
    requires |s| > 0
    ensures FitsSigned(x, |s|)
  {
    Signed(UnsignedValue(s, order), |s|)
  }

  /** Reading back what was written gives the value back, in either byte order. */
  lemma DecodeEncode(v: int, n: nat, order: ByteOrder)
    requires n > 0 && FitsSigned(v, n)
    ensures Decode(Encode(v, n, order), order) == v
  {
    var p := Pow256(n);
    assert p == 256 * Pow256(n - 1);
    var u := if v < 0 then v + p else v;
    match order
    case BigEndian => BigEndianRoundTrip(u, n);
    case LittleEndian => LittleEndianRoundTrip(u, n);
  }

  /** The signed value of a Java byte. */
  function SignedByte(b: byte): (x: int)
    ensures -128 <= x < 128
    ensures x % 256 == b
  {
    if b < 128 then b else b - 256
  }

  /** `(char) b` for a Java byte b: sign extension, then truncation to 16 bits. */
  function ByteToChar(b: byte): (c: char)
    ensures b < 128 ==> c as int == b
    ensures b >= 128 ==> c as int == 0x1_0000 + SignedByte(b)
  {
    if b < 128 then b as char else (b + 0xFF00) as char
  }

  /** What the US-ASCII decoder produces for one byte: the character, or U+FFFD for a byte above 127. */
  function AsciiChar(b: byte): (c: char)
    ensures b < 128 ==> c as int == b
    ensures b >= 128 ==> c == '�'
  {
    if b < 128 then b as char else '�'
  }

  function AsciiDecode(s: seq<byte>): (r: seq<char>)
    ensures |r| == |s|
    ensures forall i | 0 <= i < |s| :: r[i] == AsciiChar(s[i])
  {
    seq(|s|, i requires 0 <= i < |s| => AsciiChar(s[i]))
  }

  /** Decoding is byte by byte, so decoding two runs is decoding their concatenation. */
  lemma AsciiDecodeAppend(s: seq<byte>, t: seq<byte>)
    ensures AsciiDecode(s + t) == AsciiDecode(s) + AsciiDecode(t)
  {
    assert forall i | 0 <= i < |s + t| :: AsciiDecode(s + t)[i] == (AsciiDecode(s) + AsciiDecode(t))[i];
  }
}
