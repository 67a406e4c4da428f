/**
 * okio `ByteString`: an immutable sequence of bytes over a backing array,
 * with hexadecimal encoding and decoding and ASCII case mapping.
 */
module ByteStrings {
  import opened Bytes
  import opened Outcomes

  /** `HEX_DIGITS`: the lower-case hexadecimal digits, by value. */
  const HexDigits: seq<char> := ['0', '1', '2', '3', '4', '5', '6', '7', '8', '9', 'a', 'b', 'c', 'd', 'e', 'f']

  /** A hexadecimal digit of either case. */
  predicate IsHexDigit(c: char)
  {
    '0' <= c <= '9' || 'a' <= c <= 'f' || 'A' <= c <= 'F'
  }

  /** `decodeHexDigit(c)`: the value of a hexadecimal digit of either case; any other character throws. */
  function DecodeHexDigit(c: char): (r: Result<nat>)
    ensures r.Success? <==> IsHexDigit(c)
    ensures r.Success? ==> r.value < 16
  {
    if '0' <= c <= '9' then Success(c as int - '0' as int)
    else if 'a' <= c <= 'f' then Success(c as int - 'a' as int + 10)
    else if 'A' <= c <= 'F' then Success(c as int - 'A' as int + 10)
    else Failure
  }

  /** The value of a character known to be a hexadecimal digit. */
  function DigitValue(c: char): (d: nat)
    requires IsHexDigit(c)
    ensures d < 16 && DecodeHexDigit(c) == Success(d)
  {
    DecodeHexDigit(c).value
  }

  /** Every digit the encoder writes decodes back to its value. */
  lemma DigitRoundTrip(d: nat)
    requires d < 16
    ensures IsHexDigit(HexDigits[d]) && DigitValue(HexDigits[d]) == d
  {
    if d < 10 {
      assert HexDigits[d] as int == '0' as int + d;
    } else {
      assert HexDigits[d] as int == 'a' as int + d - 10;
    }
  }

  /** An upper-case letter digit decodes like its lower-case form. */
  lemma DigitCaseBlind(c: char)
    requires 'A' <= c <= 'F'
    ensures DecodeHexDigit(c) == DecodeHexDigit((c as int + 32) as char)
  {
  }

  /** The text `hex()` writes for bs: per byte two lower-case digits, the high nibble first. */
  function HexOf(bs: seq<byte>): (s: string)
    ensures |s| == 2 * |bs|
    ensures forall k | 0 <= k < |s| :: s[k] in HexDigits
  {
    seq(2 * |bs|, k requires 0 <= k < 2 * |bs| => if k % 2 == 0 then HexDigits[bs[k / 2] / 16] else HexDigits[bs[k / 2] % 16])
  }

  /**
   * What `decodeHex(s)` yields: it throws for a text of odd length or one
   * holding a character that is not a hexadecimal digit; otherwise byte i is
   * 16 times the value of character 2i plus the value of character 2i + 1
   * (at most 255, so the narrowing cast keeps it).
   */
  function Unhex(s: string): (r: Result<seq<byte>>)
    ensures r.Success? ==> |r.value| * 2 == |s|
  {
    if |s| % 2 != 0 || exists k | 0 <= k < |s| :: !IsHexDigit(s[k]) then Failure
    else Success(seq(|s| / 2, i requires 0 <= i < |s| / 2 => 16 * DigitValue(s[2 * i]) + DigitValue(s[2 * i + 1])))
  }

  /** `decodeHex(hex())` gives back the bytes. */
  lemma HexRoundTrip(bs: seq<byte>)
    ensures Unhex(HexOf(bs)) == Success(bs)
  {
    var s := HexOf(bs);
    EncoderDigits();
    assert forall k | 0 <= k < |s| :: IsHexDigit(s[k]);
    assert Unhex(s).Success?;
    var r := Unhex(s).value;
    forall i | 0 <= i < |bs| ensures r[i] == bs[i] {
      HexOfAt(bs, i);
      var hi, lo := bs[i] / 16, bs[i] % 16;
      assert r[i] == 16 * hi + lo;
    }
    assert r == bs;
  }

  /** Every character the encoder writes is a hexadecimal digit. */
  lemma EncoderDigits()
    ensures forall c | c in HexDigits :: IsHexDigit(c)
  {
  }

  /** The two digits `hex()` writes for byte i, and what they decode to. */
  lemma HexOfAt(bs: seq<byte>, i: nat)
    requires i < |bs|
    ensures HexOf(bs)[2 * i] == HexDigits[bs[i] / 16] && HexOf(bs)[2 * i + 1] == HexDigits[bs[i] % 16]
    ensures IsHexDigit(HexOf(bs)[2 * i]) && IsHexDigit(HexOf(bs)[2 * i + 1])
    ensures DigitValue(HexOf(bs)[2 * i]) == bs[i] / 16 && DigitValue(HexOf(bs)[2 * i + 1]) == bs[i] % 16
  {
    assert (2 * i) % 2 == 0 && (2 * i) / 2 == i && (2 * i + 1) % 2 == 1 && (2 * i + 1) / 2 == i;
    DigitRoundTrip(bs[i] / 16);
    DigitRoundTrip(bs[i] % 16);
  }

  /** A hexadecimal digit as the encoder writes it: letters in lower case. */
  function LowerDigit(c: char): (l: char)
    requires IsHexDigit(c)
    ensures l in HexDigits && DigitValue(l) == DigitValue(c)
  {
    var d := DigitValue(c);
    DigitRoundTrip(d);
    HexDigits[d]
  }

  /** `hex(decodeHex(s))` is s with its letter digits in lower case: the encoding is the only text of its bytes up to case. */
  lemma UnhexThenHex(s: string)
    requires Unhex(s).Success?
    ensures forall k | 0 <= k < |s| :: IsHexDigit(s[k]) && HexOf(Unhex(s).value)[k] == LowerDigit(s[k])
  {
    forall k | 0 <= k < |s| ensures IsHexDigit(s[k]) && HexOf(Unhex(s).value)[k] == LowerDigit(s[k]) {
      var i := k / 2;
      assert k == 2 * i || k == 2 * i + 1;
      UnhexAt(s, i);
    }
  }

  /** The two digits `hex()` writes for byte i of `decodeHex(s)` are those of s, in lower case. */
  lemma UnhexAt(s: string, i: nat)
    requires Unhex(s).Success? && 2 * i + 1 < |s|
    ensures IsHexDigit(s[2 * i]) && HexOf(Unhex(s).value)[2 * i] == LowerDigit(s[2 * i])
    ensures IsHexDigit(s[2 * i + 1]) && HexOf(Unhex(s).value)[2 * i + 1] == LowerDigit(s[2 * i + 1])
  {
    var bs := Unhex(s).value;
    var hi, lo := DigitValue(s[2 * i]), DigitValue(s[2 * i + 1]);
    assert bs[i] == 16 * hi + lo;
    Nibbles(hi, lo);
    assert bs[i] / 16 == hi && bs[i] % 16 == lo;
    HexOfAt(bs, i);
    assert LowerDigit(s[2 * i]) == HexDigits[hi] && LowerDigit(s[2 * i + 1]) == HexDigits[lo];
  }

  /** A byte built from two digits splits back into them. */
  lemma Nibbles(hi: nat, lo: nat)
    requires hi < 16 && lo < 16
    ensures (16 * hi + lo) / 16 == hi && (16 * hi + lo) % 16 == lo
  {
  }

  /** Which ASCII letters a case mapping rewrites: upper-case ones for lower-casing, lower-case ones for upper-casing. */
  datatype Case = LowerCase | UpperCase

  /** b is an ASCII letter the mapping to `to` rewrites. */
  predicate Rewritten(b: byte, to: Case)
  {
    match to
    case LowerCase => 'A' as int <= b <= 'Z' as int
    case UpperCase => 'a' as int <= b <= 'z' as int
  }

  /** The byte after mapping to `to`: a rewritten letter moves by the distance between 'a' and 'A'. */
  function Recase(b: byte, to: Case): (c: byte)
    ensures !Rewritten(c, to)
    ensures c == b <==> !Rewritten(b, to)
  {
    if !Rewritten(b, to) then b
    else if to == LowerCase then b + ('a' as int - 'A' as int)
    else b - ('a' as int - 'A' as int)
  }

  /** Every byte of s mapped to `to`. */
  function RecaseAll(s: seq<byte>, to: Case): (t: seq<byte>)
    ensures |t| == |s|
  {
    seq(|s|, i requires 0 <= i < |s| => Recase(s[i], to))
  }

  /** s holds no byte the mapping to `to` rewrites. */
  predicate NoneRewritten(s: seq<byte>, to: Case)
  {
    forall i | 0 <= i < |s| :: !Rewritten(s[i], to)
  }

  /** The mapping changes a byte string exactly when it holds a letter of the other case, and is idempotent. */
  lemma RecaseAllFixes(s: seq<byte>, to: Case)
    ensures RecaseAll(s, to) == s <==> NoneRewritten(s, to)
    ensures NoneRewritten(RecaseAll(s, to), to) && RecaseAll(RecaseAll(s, to), to) == RecaseAll(s, to)
  {
    if RecaseAll(s, to) == s {
      forall i | 0 <= i < |s| ensures !Rewritten(s[i], to) {
        assert RecaseAll(s, to)[i] == s[i];
      }
    }
  }

  /** Lower-casing after upper-casing is plain lower-casing, and the other way round. */
  lemma RecaseAbsorbs(s: seq<byte>)
    ensures RecaseAll(RecaseAll(s, UpperCase), LowerCase) == RecaseAll(s, LowerCase)
    ensures RecaseAll(RecaseAll(s, LowerCase), UpperCase) == RecaseAll(s, UpperCase)
  {
  }

  /** `data.clone()`. */
  method Clone(a: array<byte>) returns (b: array<byte>)
    ensures fresh(b) && b[..] == a[..]
  {
    b := new byte[a.Length](i requires 0 <= i < a.Length reads a => a[i]);
  }

  class ByteString {
    /** The backing array; the class never writes to it. */
    const data: array<byte>

    /** The bytes. */
    ghost function Bytes(): seq<byte>
      reads data
    {
      data[..]
    }

    /** The trusted internal constructor: the array is taken as it is, not copied. */
    constructor Wrap(d: array<byte>)
      ensures data == d
    {
      data := d;
    }

    /** `of(data...)`: a byte string holding a copy of the array; a null array throws. */
    static method Of(d: array?<byte>) returns (r: Result<ByteString>)
      ensures r.Failure? <==> d == null
      ensures r.Success? ==> fresh(r.value) && fresh(r.value.data) && r.value.Bytes() == d[..]
    {
      if d == null {
        return Failure;
      }
      var copy := Clone(d);
      var s := new ByteString.Wrap(copy);
      return Success(s);
    }

    /**
     * `of(data, offset, byteCount)`: a copy of byteCount bytes of the array
     * from offset; a null array throws, and so does a negative offset or count
     * or a range past the end of the array.
     */
    static method OfRange(d: array?<byte>, offset: int, byteCount: int) returns (r: Result<ByteString>)
      ensures r.Failure? <==> d == null || offset < 0 || byteCount < 0 || offset > d.Length || d.Length - offset < byteCount
      ensures r.Success? ==> fresh(r.value) && fresh(r.value.data) && r.value.Bytes() == d[offset..offset + byteCount]
    {
      if d == null || offset < 0 || byteCount < 0 || offset > d.Length || d.Length - offset < byteCount {
        return Failure;
      }
      var copy := new byte[byteCount](i requires 0 <= i < byteCount reads d => d[offset + i]);
      var s := new ByteString.Wrap(copy);
      return Success(s);
    }

    /** `hex()`: two lower-case digits per byte, the high nibble first. */
    method Hex() returns (s: string)
      ensures s == HexOf(Bytes())
    {
      var result := new char[data.Length * 2];
      for j := 0 to data.Length
        invariant forall k | 0 <= k < 2 * j :: result[k] == HexOf(data[..])[k]
      {
        var b := data[j];
        result[2 * j] := HexDigits[b / 16];
        result[2 * j + 1] := HexDigits[b % 16];
      }
      s := result[..];
    }

    /**
     * `decodeHex(hex)`: the bytes the text encodes, digits of either case; a
     * null text (None), an odd length or a non-digit throws.
     */
    static method DecodeHex(text: Option<string>) returns (r: Result<ByteString>)
      ensures r.Failure? <==> text.None? || Unhex(text.value).Failure?
      ensures r.Success? ==> text.Some? && fresh(r.value) && r.value.Bytes() == Unhex(text.value).value
    {
      if text.None? {
        return Failure;
      }
      var hex := text.value;
      if |hex| % 2 != 0 {
        return Failure;
      }
      var result := new byte[|hex| / 2];
      for i := 0 to result.Length
        invariant forall k | 0 <= k < 2 * i :: IsHexDigit(hex[k])
        invariant forall j | 0 <= j < i :: result[j] == 16 * DigitValue(hex[2 * j]) + DigitValue(hex[2 * j + 1])
      {
        var d1 := DecodeHexDigit(hex[i * 2]);
        if d1.Failure? {
          return Failure;
        }
        var d2 := DecodeHexDigit(hex[i * 2 + 1]);
        if d2.Failure? {
          return Failure;
        }
        result[i] := d1.value * 16 + d2.value;
      }
      r := Of(result);
    }

    /**
     * `toAsciiLowercase()` (to == LowerCase) and `toAsciiUppercase()`
     * (to == UpperCase): the search for a letter to rewrite, then a copy
     * rewritten from that letter on; with nothing to rewrite, this byte string.
     */
    method Recased(to: Case) returns (r: ByteString)
      ensures r == this <==> NoneRewritten(Bytes(), to)
      ensures r.Bytes() == RecaseAll(Bytes(), to)
      ensures r != this ==> fresh(r) && fresh(r.data)
    {
      var i := 0;
      while i < data.Length
        invariant 0 <= i <= data.Length && NoneRewritten(data[..i], to)
      {
        var c := data[i];
        if !Rewritten(c, to) {
          i := i + 1;
          continue;
        }
        var mapped := Clone(data);
        mapped[i] := Recase(c, to);
        i := i + 1;
        while i < mapped.Length
          invariant i <= mapped.Length
          invariant forall k | 0 <= k < i :: mapped[k] == Recase(data[k], to)
          invariant forall k | i <= k < mapped.Length :: mapped[k] == data[k]
        {
          c := mapped[i];
          if Rewritten(c, to) {
            mapped[i] := Recase(c, to);
          }
          i := i + 1;
        }
        r := new ByteString.Wrap(mapped);
        assert !NoneRewritten(Bytes(), to) by {
          assert Rewritten(data[i - 1], to) || exists k | 0 <= k < data.Length :: Rewritten(data[k], to);
        }
        return;
      }
      assert data[..i] == data[..];
      RecaseAllFixes(data[..], to);
      return this;
    }

    /** `toAsciiLowercase()`. */
    method ToAsciiLowercase() returns (r: ByteString)
      ensures r == this <==> NoneRewritten(Bytes(), LowerCase)
      ensures r.Bytes() == RecaseAll(Bytes(), LowerCase)
    {
      r := Recased(LowerCase);
    }

    /** `toAsciiUppercase()`. */
    method ToAsciiUppercase() returns (r: ByteString)
      ensures r == this <==> NoneRewritten(Bytes(), UpperCase)
      ensures r.Bytes() == RecaseAll(Bytes(), UpperCase)
    {
      r := Recased(UpperCase);
    }

    /** `getByte(pos)`: the byte at pos; a position outside the data throws. */
    function GetByte(pos: int): (r: Result<byte>)
      reads data
      ensures r.Success? <==> 0 <= pos < |Bytes()|
      ensures r.Success? ==> r.value == Bytes()[pos]
    {
      if 0 <= pos < data.Length then Success(data[pos]) else Failure
    }

    /** `size()`. */
    function Size(): (n: nat)
      ensures n == |Bytes()|
    {
      data.Length
    }

    /** `equals(o)`: the same object, or a byte string with equal bytes. */
    function Equals(o: ByteString?): (e: bool)
      reads data, if o == null then {} else {o.data}
      ensures e <==> o != null && o.Bytes() == Bytes()
    {
      o == this || (o != null && o.data[..] == data[..])
    }

    /** Two byte strings are equal exactly when they agree at every position. */
    lemma EqualsByteWise(o: ByteString)
      ensures Equals(o) <==> Size() == o.Size() && forall pos | 0 <= pos < Size() :: GetByte(pos) == o.GetByte(pos)
    {
      if Size() == o.Size() && forall pos | 0 <= pos < Size() :: GetByte(pos) == o.GetByte(pos) {
        forall pos | 0 <= pos < Size() ensures data[pos] == o.data[pos] {
          assert GetByte(pos) == o.GetByte(pos);
        }
        assert data[..] == o.data[..];
      }
    }
  }
}
