/** The byte view of text: `TextEncoder.encode`, i.e. UTF-8 over Unicode
    scalar values. Every byte array the source hands to HMAC or to the
    timing-safe comparator is produced this way. */
module Utf8 {
  type byte = x: int | 0 <= x < 256

  /** The UTF-8 encoding of one scalar value: one to four bytes. */
  function EncodeChar(c: char): (r: seq<byte>)
    ensures 1 <= |r| <= 4
    ensures r[0] < 0x80 <==> |r| == 1
  {
    var n := c as int;
    if n < 0x80 then [n]
    else if n < 0x800 then [0xC0 + n / 64, 0x80 + n % 64]
    else if n < 0x1_0000 then [0xE0 + n / 4096, 0x80 + n / 64 % 64, 0x80 + n % 64]
    else [0xF0 + n / 0x4_0000, 0x80 + n / 4096 % 64, 0x80 + n / 64 % 64, 0x80 + n % 64]
  }

  /** The number of bytes of a UTF-8 sequence, read off its lead byte. */
  function SequenceLength(lead: byte): nat {
    if lead < 0x80 then 1 else if lead < 0xE0 then 2 else if lead < 0xF0 then 3 else 4
  }

  function Encode(s: string): (r: seq<byte>)
    ensures |s| <= |r| <= 4 * |s|
  {
    if s == [] then [] else EncodeChar(s[0]) + Encode(s[1..])
  }

  /** The value a well-formed UTF-8 sequence of one to four bytes encodes. */
  function Decoded(e: seq<int>): int
    requires 1 <= |e| <= 4
  {
    if |e| == 1 then e[0]
    else if |e| == 2 then (e[0] - 0xC0) * 64 + (e[1] - 0x80)
    else if |e| == 3 then (e[0] - 0xE0) * 4096 + (e[1] - 0x80) * 64 + (e[2] - 0x80)
    else (e[0] - 0xF0) * 0x4_0000 + (e[1] - 0x80) * 4096 + (e[2] - 0x80) * 64 + (e[3] - 0x80)
  }

  lemma DecodedTwo(n: int)
    requires 0x80 <= n < 0x800
    ensures Decoded([0xC0 + n / 64, 0x80 + n % 64]) == n
  {
  }

  lemma DecodedThree(n: int)
    requires 0x800 <= n < 0x1_0000
    ensures Decoded([0xE0 + n / 4096, 0x80 + n / 64 % 64, 0x80 + n % 64]) == n
  {
    assert n / 64 == (n / 4096) * 64 + n / 64 % 64;
  }

  lemma DecodedFour(n: int)
    requires 0x1_0000 <= n < 0x11_0000
    ensures Decoded([0xF0 + n / 0x4_0000, 0x80 + n / 4096 % 64, 0x80 + n / 64 % 64, 0x80 + n % 64]) == n
  {
    assert n / 4096 == (n / 0x4_0000) * 64 + n / 4096 % 64;
    assert n / 64 == (n / 4096) * 64 + n / 64 % 64;
  }

  /** The lead byte of a character's encoding announces its length, and the
      encoding gives back the character. */
  lemma EncodeCharDecodes(c: char)
    ensures SequenceLength(EncodeChar(c)[0]) == |EncodeChar(c)|
    ensures Decoded(EncodeChar(c)) == c as int
  {
    var n := c as int;
    if n < 0x80 {
    } else if n < 0x800 {
      DecodedTwo(n);
    } else if n < 0x1_0000 {
      DecodedThree(n);
    } else {
      DecodedFour(n);
    }
  }

  /** Different strings have different encodings, so comparing the bytes
      compares the strings. */
  lemma {:induction false} EncodeInjective(s: string, t: string)
    ensures Encode(s) == Encode(t) ==> s == t
  {
    if Encode(s) == Encode(t) && s != [] && t != [] {
      var es, et := EncodeChar(s[0]), EncodeChar(t[0]);
      assert Encode(s) == es + Encode(s[1..]);
      assert Encode(t) == et + Encode(t[1..]);
      EncodeCharDecodes(s[0]);
      EncodeCharDecodes(t[0]);
      assert es[0] == Encode(s)[0] == et[0];
      assert |es| == |et|;
      assert es == Encode(s)[..|es|] == et;
      assert s[0] as int == Decoded(es) == t[0] as int;
      assert Encode(s[1..]) == Encode(s)[|es|..] == Encode(t[1..]);
      EncodeInjective(s[1..], t[1..]);
      assert s == [s[0]] + s[1..];
      assert t == [t[0]] + t[1..];
    }
  }
}
