/**
 * How merkletree-tool/src/create-proof.js turns an address string into the
 * bytes it hashes: `addr.replace("0x", "")` followed by Node's
 * `Buffer.from(…, "hex")`.
 *
 * Node's hex decoder never fails: it decodes two characters at a time, from
 * the left, and stops silently at the first pair that holds a non-hex
 * character; an odd trailing character is dropped.
 */
module AddressCodec {

  /** An unsigned 8-bit value, one element of a Node `Buffer`. */
  type Byte = b: int | 0 <= b < 256

  type Bytes = seq<Byte>

  predicate IsHexChar(c: char) {
    '0' <= c <= '9' || 'a' <= c <= 'f' || 'A' <= c <= 'F'
  }

  predicate IsHexString(s: string) {
    forall i :: 0 <= i < |s| ==> IsHexChar(s[i])
  }

  function HexValue(c: char): (v: nat)
    requires IsHexChar(c)
    ensures v < 16
  {
    if '0' <= c <= '9' then c as int - '0' as int
    else if 'a' <= c <= 'f' then c as int - 'a' as int + 10
    else c as int - 'A' as int + 10
  }

  /** The lower-case hex digit of a value below 16. */
  function HexDigit(v: nat): (c: char)
    requires v < 16
    ensures IsHexChar(c) && HexValue(c) == v
  {
    if v < 10 then ('0' as int + v) as char else ('a' as int + v - 10) as char
  }

  /** ASCII lower-casing of one character; every other character is kept. */
  function ToLower(c: char): char {
    if 'A' <= c <= 'Z' then (c as int + 32) as char else c
  }

  function ToLowerString(s: string): (r: string)
    ensures |r| == |s|
    ensures forall i :: 0 <= i < |s| ==> r[i] == ToLower(s[i])
  {
    if s == [] then [] else [ToLower(s[0])] + ToLowerString(s[1..])
  }

  /** Whether the two-character pattern "0x" starts at position i of s. */
  predicate PrefixAt(s: string, i: int) {
    0 <= i && i + 1 < |s| && s[i] == '0' && s[i + 1] == 'x'
  }

  /** `s.indexOf("0x", from)`: the first occurrence at or after `from`, or -1. */
  function IndexOf0x(s: string, from: nat): (k: int)
    requires from <= |s|
    ensures k == -1 || (from <= k && PrefixAt(s, k))
    ensures forall j :: from <= j < (if k == -1 then |s| else k) ==> !PrefixAt(s, j)
    decreases |s| - from
  {
    if from + 1 >= |s| then -1
    else if PrefixAt(s, from) then from
    else IndexOf0x(s, from + 1)
  }

  /**
   * JavaScript's `s.replace("0x", "")`: a string pattern replaces only its
   * FIRST occurrence, wherever it stands, and leaves s unchanged when absent.
   */
  function Strip0x(s: string): (r: string)
    ensures IndexOf0x(s, 0) == -1 ==> r == s
    ensures IndexOf0x(s, 0) != -1 ==>
      var k := IndexOf0x(s, 0); |r| == |s| - 2 && r == s[..k] + s[k + 2..]
  {
    var k := IndexOf0x(s, 0);
    if k == -1 then s else s[..k] + s[k + 2..]
  }

  /** Node's `Buffer.from(s, "hex")`. */
  function HexDecode(s: string): (r: Bytes)
    ensures |r| <= |s| / 2
  {
    if |s| < 2 || !IsHexChar(s[0]) || !IsHexChar(s[1]) then []
    else [16 * HexValue(s[0]) + HexValue(s[1])] + HexDecode(s[2..])
  }

  /** Byte i of the decoding is the value of the hex pair at positions 2i and 2i+1. */
  lemma {:induction false} DecodeAt(s: string, i: nat)
    requires i < |HexDecode(s)|
    ensures 2 * i + 1 < |s| && IsHexChar(s[2 * i]) && IsHexChar(s[2 * i + 1])
    ensures HexDecode(s)[i] == 16 * HexValue(s[2 * i]) + HexValue(s[2 * i + 1])
  {
    if i > 0 {
      DecodeAt(s[2..], i - 1);
    }
  }

  /** Decoding stops exactly at the first pair that is not two hex digits. */
  lemma {:induction false} DecodeStops(s: string)
    ensures var n := |HexDecode(s)|;
      n < |s| / 2 ==> !IsHexChar(s[2 * n]) || !IsHexChar(s[2 * n + 1])
  {
    if |s| >= 2 && IsHexChar(s[0]) && IsHexChar(s[1]) {
      DecodeStops(s[2..]);
    }
  }

  /** Lower-case hex rendering of bytes, two digits per byte (`toString("hex")`). */
  function HexEncode(b: Bytes): (s: string)
    ensures |s| == 2 * |b|
    ensures IsHexString(s)
  {
    if b == [] then [] else [HexDigit(b[0] / 16), HexDigit(b[0] % 16)] + HexEncode(b[1..])
  }

  /** The bytes that generateProofs hashes into a leaf for address `addr`. */
  function LeafInput(addr: string): (r: Bytes)
    ensures |r| <= |addr| / 2
  {
    HexDecode(Strip0x(addr))
  }

  /** Decoding undoes the hex rendering. */
  lemma {:induction false} DecodeEncode(b: Bytes)
    ensures HexDecode(HexEncode(b)) == b
  {
    if b != [] {
      DecodeEncode(b[1..]);
      var s := HexEncode(b);
      assert s[2..] == HexEncode(b[1..]);
    }
  }

  /** A string made only of hex digits decodes to half as many bytes. */
  lemma {:induction false} DecodeLength(s: string)
    requires IsHexString(s)
    ensures |HexDecode(s)| == |s| / 2
  {
    if |s| >= 2 {
      DecodeLength(s[2..]);
    }
  }

  /** Lower-casing never changes what Node's decoder produces. */
  lemma {:induction false} DecodeIgnoresCase(s: string)
    ensures HexDecode(ToLowerString(s)) == HexDecode(s)
  {
    if |s| >= 2 {
      var t := ToLowerString(s);
      assert t[2..] == ToLowerString(s[2..]);
      DecodeIgnoresCase(s[2..]);
      if IsHexChar(s[0]) && IsHexChar(s[1]) {
        assert HexValue(t[0]) == HexValue(s[0]) && HexValue(t[1]) == HexValue(s[1]);
      }
    }
  }

  /** Only the leading "0x" is removed from a prefixed string. */
  lemma Strip0xPrefixed(d: string)
    ensures Strip0x("0x" + d) == d
  {
    assert PrefixAt("0x" + d, 0);
    assert ("0x" + d)[2..] == d;
  }

  /**
   * A `0x`-prefixed address of 40 hex digits is hashed as exactly the 20
   * bytes its digits spell, and its upper- and lower-case spellings give the
   * same bytes.
   */
  lemma AddressLeafInput(d: string)
    requires |d| == 40 && IsHexString(d)
    ensures LeafInput("0x" + d) == HexDecode(d)
    ensures |LeafInput("0x" + d)| == 20
    ensures LeafInput("0x" + ToLowerString(d)) == LeafInput("0x" + d)
  {
    Strip0xPrefixed(d);
    Strip0xPrefixed(ToLowerString(d));
    DecodeLength(d);
    DecodeIgnoresCase(d);
  }

  /**
   * An address written with an upper-case "0X" keeps its prefix (the
   * pattern is case-sensitive), and the decoder stops at once on 'X': the
   * leaf is hashed from no bytes at all.
   */
  lemma UpperCasePrefixDecodesEmpty(d: string)
    requires IsHexString(d)
    ensures LeafInput("0X" + d) == []
  {
    var s := "0X" + d;
    forall j | 0 <= j < |s|
      ensures !PrefixAt(s, j)
    {
      if j >= 1 && j + 1 < |s| {
        assert s[j + 1] == d[j - 1];
      }
    }
    assert Strip0x(s) == s;
  }
}
