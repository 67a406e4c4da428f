/**
 * The string and header helpers the HTTP code leans on: header lookup,
 * `String.trim`, single-character `String.split`, ASCII `equalsIgnoreCase`,
 * and the decimal parsing and printing of `Integer`/`Long`.
 */
module HttpText {
  import opened Outcomes

  /** A header block: names are compared exactly, one value per name. */
  type Headers = map<string, string>

  /** `headers.get(name)`: the value, or None where Java returns null. */
  function Get(h: Headers, name: string): (v: Option<string>)
    ensures v.Some? <==> name in h
    ensures v.Some? ==> v.value == h[name]
  {
    if name in h then Some(h[name]) else None
  }

  /** `android.text.TextUtils.isEmpty`: null or the empty string. */
  predicate IsEmpty(s: Option<string>)
  {
    s.None? || s.value == ""
  }

  // ---------------------------------------------------------------------------
  // String.trim

  /** A character `String.trim` strips: any code point up to the space. */
  predicate IsTrimmed(c: char)
  {
    c <= ' '
  }

  /** How many characters `trim` strips at the front of `s`. */
  function Lead(s: string): (n: nat)
    ensures n <= |s|
    ensures forall k | 0 <= k < n :: IsTrimmed(s[k])
    ensures n < |s| ==> !IsTrimmed(s[n])
  {
    if s == [] || !IsTrimmed(s[0]) then 0 else 1 + Lead(s[1..])
  }

  /** How many characters `trim` strips at the back of `s`. */
  function Trail(s: string): (n: nat)
    ensures n <= |s|
    ensures forall k | |s| - n <= k < |s| :: IsTrimmed(s[k])
    ensures n < |s| ==> !IsTrimmed(s[|s| - 1 - n])
  {
    if s == [] || !IsTrimmed(s[|s| - 1]) then 0 else 1 + Trail(s[..|s| - 1])
  }

  /**
   * `String.trim`: the longest middle of `s` that neither starts nor ends
   * with a character up to the space; everything cut away is such a character.
   */
  function Trim(s: string): (t: string)
    ensures |t| <= |s|
    ensures Lead(s) + |t| <= |s| && t == s[Lead(s)..Lead(s) + |t|]
    ensures forall k | Lead(s) + |t| <= k < |s| :: IsTrimmed(s[k])
    ensures t != [] ==> !IsTrimmed(t[0]) && !IsTrimmed(t[|t| - 1])
    ensures t == [] <==> forall k | 0 <= k < |s| :: IsTrimmed(s[k])
  {
    var i := Lead(s);
    if i == |s| then []
    else
      var j := |s| - Trail(s);
      assert !IsTrimmed(s[i]);
      s[i..j]
  }

  /** Trimming twice is trimming once. */
  lemma TrimIdempotent(s: string)
    ensures Trim(Trim(s)) == Trim(s)
  {
    var t := Trim(s);
    if t != [] {
      assert Lead(t) == 0;
      assert Trail(t) == 0;
    }
  }

  // ---------------------------------------------------------------------------
  // String.split on a single literal character

  /** Every field between occurrences of `c`, empty fields included. */
  function Fields(s: string, c: char): (r: seq<string>)
    ensures |r| >= 1
    ensures forall i | 0 <= i < |r| :: c !in r[i]
  {
    if s == [] then [""]
    else if s[0] == c then [""] + Fields(s[1..], c)
    else
      var rest := Fields(s[1..], c);
      [[s[0]] + rest[0]] + rest[1..]
  }

  /** The fields joined back with `c` between them. */
  function Join(fs: seq<string>, c: char): string
  {
    if fs == [] then "" else if |fs| == 1 then fs[0] else fs[0] + [c] + Join(fs[1..], c)
  }

  /** Splitting loses nothing: joining the fields gives the string back. */
  lemma {:induction false} FieldsJoin(s: string, c: char)
    ensures Join(Fields(s, c), c) == s
  {
    if s == [] {
    } else if s[0] == c {
      FieldsJoin(s[1..], c);
      assert [c] + s[1..] == s;
    } else {
      var rest := Fields(s[1..], c);
      FieldsJoin(s[1..], c);
      if |rest| == 1 {
        assert [s[0]] + s[1..] == s;
      } else {
        assert Join(rest, c) == rest[0] + [c] + Join(rest[1..], c);
        assert rest[1..][1..] == rest[2..];
        assert [s[0]] + s[1..] == s;
      }
    }
  }

  /** There is one more field than there are occurrences of `c`. */
  lemma {:induction false} FieldsCount(s: string, c: char)
    ensures |Fields(s, c)| == 1 + multiset(s)[c]
  {
    if s != [] {
      FieldsCount(s[1..], c);
      assert s == [s[0]] + s[1..];
    }
  }

  /** `fs` without its trailing empty strings. */
  function DropTrailingEmpty(fs: seq<string>): (r: seq<string>)
    ensures |r| <= |fs| && r == fs[..|r|]
    ensures r != [] ==> r[|r| - 1] != ""
    ensures forall i | |r| <= i < |fs| :: fs[i] == ""
  {
    if fs == [] || fs[|fs| - 1] != "" then fs else DropTrailingEmpty(fs[..|fs| - 1])
  }

  /**
   * `s.split(c)` for a character `c` that is not a regular-expression
   * metacharacter: the string itself when `c` does not occur, otherwise its
   * fields with the trailing empty ones removed (which may leave none).
   */
  function Split(s: string, c: char): (r: seq<string>)
    ensures c !in s ==> r == [s]
    ensures c in s ==> r == DropTrailingEmpty(Fields(s, c))
    ensures forall i | 0 <= i < |r| :: c !in r[i]
  {
    if c !in s then [s] else DropTrailingEmpty(Fields(s, c))
  }

  // ---------------------------------------------------------------------------
  // equalsIgnoreCase, as far as ASCII letters are concerned

  /**
   * The letter `c` is equated with by `equalsIgnoreCase`: A-Z fold to a-z,
   * and so do the four other characters whose upper or lower case is an
   * ASCII letter (dotted and dotless I to i, long s to s, the Kelvin sign
   * to k). Other characters stand for themselves.
   */
  function LowerChar(c: char): char
  {
    if 'A' <= c <= 'Z' then (c as int + 32) as char
    else if c == '\U{0130}' || c == '\U{0131}' then 'i'
    else if c == '\U{017F}' then 's'
    else if c == '\U{212A}' then 'k'
    else c
  }

  function LowerAll(s: string): (t: string)
    ensures |t| == |s|
    ensures forall i | 0 <= i < |s| :: t[i] == LowerChar(s[i])
  {
    seq(|s|, i requires 0 <= i < |s| => LowerChar(s[i]))
  }

  /** `a.equalsIgnoreCase(b)`: equal lengths, equal letter by letter up to case. */
  predicate EqualsIgnoreCase(a: string, b: string)
  {
    |a| == |b| && forall i | 0 <= i < |a| :: LowerChar(a[i]) == LowerChar(b[i])
  }

  /** `literal.equalsIgnoreCase(value)`, which is false when the value is null. */
  predicate MatchesIgnoreCase(literal: string, value: Option<string>)
  {
    value.Some? && EqualsIgnoreCase(literal, value.value)
  }

  /** Comparing ignoring case is comparing the lower-cased strings. */
  lemma EqualsIgnoreCaseLowers(a: string, b: string)
    ensures EqualsIgnoreCase(a, b) <==> LowerAll(a) == LowerAll(b)
  {
    if LowerAll(a) == LowerAll(b) {
      assert |a| == |b|;
      forall i | 0 <= i < |a|
        ensures LowerChar(a[i]) == LowerChar(b[i])
      {
        assert LowerAll(a)[i] == LowerAll(b)[i];
      }
    }
  }

  // ---------------------------------------------------------------------------
  // Integer.parseInt / Long.parseLong and their printing

  const IntMin: int := -0x8000_0000
  const IntMax: int := 0x7fff_ffff
  const LongMin: int := -0x8000_0000_0000_0000
  const LongMax: int := 0x7fff_ffff_ffff_ffff

  predicate IsDigit(c: char)
  {
    '0' <= c <= '9'
  }

  predicate AllDigits(s: string)
  {
    forall i | 0 <= i < |s| :: IsDigit(s[i])
  }

  /** The value of a run of decimal digits, most significant first. */
  function DigitsValue(ds: string): (v: nat)
    requires AllDigits(ds)
  {
    if ds == [] then 0 else DigitsValue(ds[..|ds| - 1]) * 10 + (ds[|ds| - 1] as int - '0' as int)
  }

  /**
   * `Integer.parseInt` (bounds IntMin..IntMax) or `Long.parseLong` (bounds
   * LongMin..LongMax): an optional sign, at least one digit, and a value in
   * range; anything else, null included, is a NumberFormatException (None).
   */
  function ParseDecimal(s: Option<string>, lo: int, hi: int): (r: Option<int>)
    ensures r.Some? ==> lo <= r.value <= hi
    ensures r.Some? ==> s.Some? && s.value != []
  {
    if s.None? || s.value == [] then None
    else
      var t := s.value;
      var signed := t[0] == '-' || t[0] == '+';
      var ds := if signed then t[1..] else t;
      if ds == [] || !AllDigits(ds) then None
      else
        var v: int := if t[0] == '-' then -(DigitsValue(ds) as int) else DigitsValue(ds);
        if lo <= v <= hi then Some(v) else None
  }

  /** The decimal digits of `n`, without leading zeros. */
  function NatDigits(n: nat): (ds: string)
    ensures ds != [] && AllDigits(ds)
  {
    if n < 10 then [('0' as int + n) as char] else NatDigits(n / 10) + [('0' as int + n % 10) as char]
  }

  /** `Integer.toString`, `String.valueOf(long)` and `%d`. */
  function ToDecimal(n: int): (s: string)
    ensures s != []
  {
    if n < 0 then "-" + NatDigits(-n) else NatDigits(n)
  }

  lemma {:induction false} NatDigitsValue(n: nat)
    ensures DigitsValue(NatDigits(n)) == n
  {
    if n >= 10 {
      NatDigitsValue(n / 10);
      var ds := NatDigits(n);
      assert ds[..|ds| - 1] == NatDigits(n / 10);
    }
  }

  /** Parsing what was printed gives the number back, whenever it is in range. */
  lemma DecimalRoundTrip(n: int, lo: int, hi: int)
    requires lo <= n <= hi
    ensures ParseDecimal(Some(ToDecimal(n)), lo, hi) == Some(n)
  {
    if n < 0 {
      NatDigitsValue(-n);
      assert ToDecimal(n)[1..] == NatDigits(-n);
    } else {
      NatDigitsValue(n);
    }
  }
}
