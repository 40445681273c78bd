/** Character-level facts the service relies on: Rust's `String::len` counts
    UTF-8 bytes, `char::is_digit(10)` accepts only '0'..'9', `u32::to_string`
    renders decimal digits without leading zeros, and UUIDs are rendered as
    lower-case hexadecimal. */
module Text {
  import opened Wrappers

  // ---------------------------------------------------------------------
  // UTF-8 byte length (`String::len`)

  /** Number of bytes the UTF-8 encoding of `c` occupies. */
  function Utf8Width(c: char): (w: nat)
    ensures 1 <= w <= 4
    ensures w == 1 <==> IsAscii(c)
  {
    if c as int < 0x80 then 1
    else if c as int < 0x800 then 2
    else if c as int < 0x10000 then 3
    else 4
  }

  predicate IsAscii(c: char) {
    c as int < 0x80
  }

  /** `s.len()` in Rust: the length of `s` in UTF-8 bytes. */
  function Utf8Len(s: string): nat {
    if s == [] then 0 else Utf8Width(s[0]) + Utf8Len(s[1..])
  }

  /** A string never has fewer bytes than characters. */
  lemma {:induction false} Utf8LenAtLeastLength(s: string)
    ensures Utf8Len(s) >= |s|
  {
    if s != [] {
      Utf8LenAtLeastLength(s[1..]);
    }
  }

  /** The byte length equals the character count exactly when every
      character is ASCII. */
  lemma {:induction false} Utf8LenIsLengthIffAscii(s: string)
    ensures Utf8Len(s) == |s| <==> forall i :: 0 <= i < |s| ==> IsAscii(s[i])
  {
    if s != [] {
      Utf8LenIsLengthIffAscii(s[1..]);
      Utf8LenAtLeastLength(s[1..]);
      assert forall i :: 1 <= i < |s| ==> s[i] == s[1..][i - 1];
    }
  }

  // ---------------------------------------------------------------------
  // Decimal digits (`char::is_digit(10)`, `u32::to_string`)

  predicate IsDigit(c: char) {
    '0' <= c <= '9'
  }

  /** `s.chars().all(|c| c.is_digit(10))`. */
  predicate AllDigits(s: string) {
    forall i :: 0 <= i < |s| ==> IsDigit(s[i])
  }

  function DigitChar(d: nat): (c: char)
    requires d < 10
    ensures IsDigit(c) && c as int - '0' as int == d
  {
    ('0' as int + d) as char
  }

  /** The decimal rendering of `n`, most significant digit first, with no
      leading zeros (`n.to_string()` for an unsigned integer). */
  function DecimalString(n: nat): string
    decreases n
  {
    if n < 10 then [DigitChar(n)] else DecimalString(n / 10) + [DigitChar(n % 10)]
  }

  /** The number a string of decimal digits denotes. */
  function DigitsValue(s: string): nat
    requires AllDigits(s)
  {
    if s == [] then 0
    else DigitsValue(s[..|s| - 1]) * 10 + (s[|s| - 1] as int - '0' as int)
  }

  function Pow10(k: nat): (p: nat)
    ensures p >= 1
  {
    if k == 0 then 1 else 10 * Pow10(k - 1)
  }

  /** Every character of a decimal rendering is a digit. */
  lemma {:induction false} DecimalStringDigits(n: nat)
    ensures AllDigits(DecimalString(n))
    decreases n
  {
    if n >= 10 {
      DecimalStringDigits(n / 10);
    }
  }

  /** Reading a decimal rendering back gives the number rendered. */
  lemma {:induction false} DecimalStringValue(n: nat)
    ensures AllDigits(DecimalString(n))
    ensures DigitsValue(DecimalString(n)) == n
    decreases n
  {
    DecimalStringDigits(n);
    if n >= 10 {
      DecimalStringValue(n / 10);
      var s := DecimalString(n);
      assert s[..|s| - 1] == DecimalString(n / 10);
    }
  }

  /** A number with exactly k + 1 decimal digits renders to k + 1 characters. */
  lemma {:induction false} DecimalStringLength(n: nat, k: nat)
    requires Pow10(k) <= n < Pow10(k + 1)
    ensures |DecimalString(n)| == k + 1
    decreases k
  {
    if k > 0 {
      var q := n / 10;
      assert n == 10 * q + n % 10;
      assert Pow10(k - 1) <= q < Pow10(k);
      DecimalStringLength(q, k - 1);
    }
  }

  // ---------------------------------------------------------------------
  // Hexadecimal (the textual form of a UUID)

  type Byte = x: int | 0 <= x < 256

  /** Lower-case hexadecimal digit for a value below 16. */
  function HexDigit(v: int): (c: char)
    requires 0 <= v < 16
  {
    if v < 10 then ('0' as int + v) as char else ('a' as int + v - 10) as char
  }

  /** Value of a hexadecimal digit of either case. */
  function HexValue(c: char): (r: Option<int>)
    ensures r.Some? ==> 0 <= r.value < 16
  {
    if '0' <= c <= '9' then Some(c as int - '0' as int)
    else if 'a' <= c <= 'f' then Some(c as int - 'a' as int + 10)
    else if 'A' <= c <= 'F' then Some(c as int - 'A' as int + 10)
    else None
  }

  /** Two lower-case hexadecimal digits per byte, high nibble first. */
  function HexString(bs: seq<Byte>): (s: string)
    ensures |s| == 2 * |bs|
  {
    if bs == [] then [] else [HexDigit(bs[0] / 16), HexDigit(bs[0] % 16)] + HexString(bs[1..])
  }

  /** Decodes pairs of hexadecimal digits of either case into bytes. */
  function ParseHex(s: string): Option<seq<Byte>>
    decreases |s|
  {
    if s == [] then Some([])
    else if |s| == 1 then None
    else
      match (HexValue(s[0]), HexValue(s[1]), ParseHex(s[2..]))
      case (Some(hi), Some(lo), Some(rest)) => Some([hi * 16 + lo] + rest)
      case _ => None
  }

  lemma HexDigitValue(v: int)
    requires 0 <= v < 16
    ensures HexValue(HexDigit(v)) == Some(v)
  {
  }

  /** Hex encoding distributes over concatenation. */
  lemma {:induction false} HexStringAppend(a: seq<Byte>, b: seq<Byte>)
    ensures HexString(a + b) == HexString(a) + HexString(b)
  {
    if a != [] {
      assert (a + b)[1..] == a[1..] + b;
      HexStringAppend(a[1..], b);
    } else {
      assert a + b == b;
    }
  }

  /** Decoding a hex rendering gives back the bytes rendered. */
  lemma {:induction false} ParseHexRoundTrip(bs: seq<Byte>)
    ensures ParseHex(HexString(bs)) == Some(bs)
  {
    if bs != [] {
      var s := HexString(bs);
      assert s[2..] == HexString(bs[1..]);
      ParseHexRoundTrip(bs[1..]);
      HexDigitValue(bs[0] / 16);
      HexDigitValue(bs[0] % 16);
      assert (bs[0] / 16) * 16 + bs[0] % 16 == bs[0];
      assert [bs[0]] + bs[1..] == bs;
    }
  }
}
