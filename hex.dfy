/** Base16 as in section 8 of RFC 4648, in the form `Buffer.toString("hex")`
    writes it (lower case, two digits per byte) and `Buffer.from(s, "hex")`
    reads it back. */
module Hex {
  import opened Js

  predicate IsLowerHexDigit(c: char) {
    '0' <= c <= '9' || 'a' <= c <= 'f'
  }

  /** The decoder accepts either case. */
  predicate IsHexDigit(c: char) {
    IsLowerHexDigit(c) || 'A' <= c <= 'F'
  }

  predicate IsLowerHex(s: string) {
    forall i :: 0 <= i < |s| ==> IsLowerHexDigit(s[i])
  }

  /** Lower-case hex holds no character other than the sixteen digits. */
  lemma HexExcludes(s: string, c: char)
    requires IsLowerHex(s) && !IsLowerHexDigit(c)
    ensures c !in s
  {
    forall i | 0 <= i < |s| ensures s[i] != c {
      assert IsLowerHexDigit(s[i]);
    }
  }

  function NibbleValue(c: char): (n: nat)
    requires IsHexDigit(c)
    ensures n < 16
  {
    if '0' <= c <= '9' then c as int - '0' as int
    else if 'a' <= c <= 'f' then c as int - 'a' as int + 10
    else c as int - 'A' as int + 10
  }

  /** The lower-case digit for a nibble; `NibbleValue` reads it back. */
  function HexDigit(n: nat): (c: char)
    requires n < 16
    ensures IsLowerHexDigit(c) && NibbleValue(c) == n
  {
    if n < 10 then ('0' as int + n) as char else ('a' as int + n - 10) as char
  }

  /** `Buffer.from(bytes).toString("hex")`: two lower-case digits per byte,
      high nibble first. */
  function HexEncode(bs: seq<byte>): (s: string)
    ensures |s| == 2 * |bs|
    ensures IsLowerHex(s)
  {
    if bs == [] then ""
    else [HexDigit(bs[0] / 16), HexDigit(bs[0] % 16)] + HexEncode(bs[1..])
  }

  /** Byte `i` becomes characters `2 * i` and `2 * i + 1`: its high nibble,
      then its low nibble, as lower-case digits. */
  lemma {:induction false} HexEncodeAt(bs: seq<byte>, i: nat)
    requires i < |bs|
    ensures HexEncode(bs)[2 * i] == HexDigit(bs[i] / 16)
    ensures HexEncode(bs)[2 * i + 1] == HexDigit(bs[i] % 16)
  {
    if i > 0 {
      HexEncodeAt(bs[1..], i - 1);
    }
  }

  /** `Buffer.from(s, "hex")`: reads pairs of digits from the front, stops at
      the first pair that is not two hex digits, and drops an odd last
      character; it never fails. */
  function HexDecode(s: string): (bs: seq<byte>)
    ensures |bs| <= |s| / 2
  {
    if |s| < 2 || !IsHexDigit(s[0]) || !IsHexDigit(s[1]) then []
    else [NibbleValue(s[0]) * 16 + NibbleValue(s[1])] + HexDecode(s[2..])
  }

  /** A byte is its two nibbles, high one first. */
  lemma ByteNibbles(b: int, hi: nat, lo: nat)
    requires hi < 16 && lo < 16
    ensures hi * 16 + lo == b <==> b / 16 == hi && b % 16 == lo
  {
  }

  /** Decoding what was encoded gives the bytes back. */
  lemma {:induction false} DecodeEncode(bs: seq<byte>)
    ensures HexDecode(HexEncode(bs)) == bs
  {
    if bs != [] {
      var s := HexEncode(bs);
      var hi, lo := bs[0] / 16, bs[0] % 16;
      assert s[0] == HexDigit(hi) && s[1] == HexDigit(lo);
      assert s[2..] == HexEncode(bs[1..]);
      DecodeEncode(bs[1..]);
      ByteNibbles(bs[0], hi, lo);
    }
  }

  /** Encoding what was decoded from even-length lower-case hex gives the text
      back, so the two are inverse on that set. */
  lemma {:induction false} EncodeDecode(s: string)
    requires |s| % 2 == 0 && IsLowerHex(s)
    ensures HexEncode(HexDecode(s)) == s
  {
    if s != [] {
      var hi, lo := NibbleValue(s[0]), NibbleValue(s[1]);
      var b := hi * 16 + lo;
      ByteNibbles(b, hi, lo);
      assert HexDigit(hi) == s[0] && HexDigit(lo) == s[1];
      EncodeDecode(s[2..]);
      assert HexDecode(s) == [b] + HexDecode(s[2..]);
      assert s == [s[0], s[1]] + s[2..];
    }
  }
}
