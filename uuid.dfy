/** The textual UUID forms the `uuid` crate reads and writes, after RFC 9562
    (section 4): 16 bytes written as 32 hexadecimal digits in groups of
    8-4-4-4-12 separated by hyphens. `Uuid::parse_str` also accepts the
    32 digits without hyphens, the hyphenated form in braces, and the
    hyphenated form after the prefix "urn:uuid:"; `to_string` always writes
    the lower-case hyphenated form. */
module Uuid {
  import opened Wrappers
  import opened Text

  type Bytes = seq<Byte>

  const URN_PREFIX: string := "urn:uuid:"

  /** `Uuid::to_string`: lower-case hyphenated form of 16 bytes. */
  function Hyphenated(b: Bytes): (s: string)
    requires |b| == 16
    ensures |s| == 36
  {
    HexString(b[..4]) + "-" + HexString(b[4..6]) + "-" + HexString(b[6..8]) + "-"
      + HexString(b[8..10]) + "-" + HexString(b[10..])
  }

  /** The 8-4-4-4-12 form, with hex digits of either case. */
  function ParseHyphenated(s: string): Option<Bytes> {
    if |s| == 36 && s[8] == '-' && s[13] == '-' && s[18] == '-' && s[23] == '-' then
      ParseHex(s[..8] + s[9..13] + s[14..18] + s[19..23] + s[24..])
    else None
  }

  /** `Uuid::parse_str`: the four accepted shapes, chosen by length. */
  function ParseStr(s: string): Option<Bytes> {
    if |s| == 32 then ParseHex(s)
    else if |s| == 36 then ParseHyphenated(s)
    else if |s| == 38 && s[0] == '{' && s[37] == '}' then ParseHyphenated(s[1..37])
    else if |s| == 45 && s[..9] == URN_PREFIX then ParseHyphenated(s[9..])
    else None
  }

  /** A parsed UUID always has 16 bytes. */
  lemma {:induction false} ParseHexLength(s: string)
    ensures ParseHex(s).Some? ==> 2 * |ParseHex(s).value| == |s|
    decreases |s|
  {
    if |s| >= 2 {
      ParseHexLength(s[2..]);
    }
  }

  lemma ParseStrLength(s: string)
    ensures ParseStr(s).Some? ==> |ParseStr(s).value| == 16
  {
    ParseHexLength(s);
    if |s| == 36 {
      ParseHexLength(s[..8] + s[9..13] + s[14..18] + s[19..23] + s[24..]);
    } else if |s| == 38 {
      var t := s[1..37];
      ParseHexLength(t[..8] + t[9..13] + t[14..18] + t[19..23] + t[24..]);
    } else if |s| == 45 {
      var t := s[9..];
      ParseHexLength(t[..8] + t[9..13] + t[14..18] + t[19..23] + t[24..]);
    }
  }

  /** Removing the hyphens from the rendering gives the plain hex digits. */
  lemma HyphenatedGroups(b: Bytes)
    requires |b| == 16
    ensures var s := Hyphenated(b);
      s[8] == '-' && s[13] == '-' && s[18] == '-' && s[23] == '-' &&
      s[..8] + s[9..13] + s[14..18] + s[19..23] + s[24..] == HexString(b)
  {
    var s := Hyphenated(b);
    var g1, g2, g3, g4, g5 := HexString(b[..4]), HexString(b[4..6]), HexString(b[6..8]),
      HexString(b[8..10]), HexString(b[10..]);
    assert s == g1 + "-" + g2 + "-" + g3 + "-" + g4 + "-" + g5;
    assert s[..8] == g1;
    assert s[9..13] == g2;
    assert s[14..18] == g3;
    assert s[19..23] == g4;
    assert s[24..] == g5;
    HexStringAppend(b[..4], b[4..6]);
    assert b[..4] + b[4..6] == b[..6];
    HexStringAppend(b[..6], b[6..8]);
    assert b[..6] + b[6..8] == b[..8];
    HexStringAppend(b[..8], b[8..10]);
    assert b[..8] + b[8..10] == b[..10];
    HexStringAppend(b[..10], b[10..]);
    assert b[..10] + b[10..] == b;
  }

  /** `Uuid::parse_str(&u.to_string())` gives back `u`. */
  lemma ParseHyphenatedRoundTrip(b: Bytes)
    requires |b| == 16
    ensures ParseHyphenated(Hyphenated(b)) == Some(b)
    ensures ParseStr(Hyphenated(b)) == Some(b)
  {
    HyphenatedGroups(b);
    ParseHexRoundTrip(b);
  }

  /** `Uuid::new_v4`: 16 random bytes with the version nibble set to 4 and
      the two variant bits set to 10 (RFC 9562, sections 4.1 and 4.2). */
  function NewV4(random: Bytes): (b: Bytes)
    requires |random| == 16
    ensures |b| == 16
  {
    random[6 := random[6] % 16 + 0x40][8 := random[8] % 64 + 0x80]
  }

  /** A version-4 UUID carries version 4 and variant 10, and keeps every
      other random byte. */
  lemma NewV4Fields(random: Bytes)
    requires |random| == 16
    ensures NewV4(random)[6] / 16 == 4 && NewV4(random)[8] / 64 == 2
    ensures forall i :: 0 <= i < 16 && i != 6 && i != 8 ==> NewV4(random)[i] == random[i]
  {
  }
}
