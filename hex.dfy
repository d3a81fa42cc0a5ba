/** Hex text <-> bytes: `arrayBufferToHex` (src/lib/auth.ts and
    src/lib/csrf.ts hold identical copies) and `hexToArrayBuffer`. */
module Hex {
  import opened Utf8
  import opened Wrappers
  import JsNumber
  import Text

  predicate IsLowerHexDigit(c: char) {
    '0' <= c <= '9' || 'a' <= c <= 'f'
  }

  predicate IsLowerHex(s: string) {
    forall i :: 0 <= i < |s| ==> IsLowerHexDigit(s[i])
  }

  /** `s.padStart(width, fill)` with a one-character fill. */
  function PadStart(s: string, width: nat, fill: char): string {
    if |s| >= width then s else seq(width - |s|, _ => fill) + s
  }

  /** `b.toString(16).padStart(2, "0")`: always two characters, the high
      digit then the low digit. */
  function EncodeByte(b: byte): (r: string)
    ensures r == [JsNumber.DigitChar(b / 16), JsNumber.DigitChar(b % 16)]
  {
    if b >= 16 then
      assert JsNumber.ToString(b, 16) == JsNumber.ToString(b / 16, 16) + [JsNumber.DigitChar(b % 16)];
      PadStart(JsNumber.ToString(b, 16), 2, '0')
    else
      PadStart(JsNumber.ToString(b, 16), 2, '0')
  }

  /** `arrayBufferToHex`: two lower-case digits per byte, in order. */
  function Encode(bytes: seq<byte>): (r: string)
    ensures |r| == 2 * |bytes|
    ensures IsLowerHex(r)
  {
    if bytes == [] then ""
    else
      EncodeByte(bytes[0]) + Encode(bytes[1..])
  }

  /** Character pair `i` of the encoding holds byte `i`, high digit first. */
  lemma {:induction false} EncodeAt(bytes: seq<byte>, i: nat)
    requires i < |bytes|
    ensures Encode(bytes)[2 * i] == JsNumber.DigitChar(bytes[i] / 16)
    ensures Encode(bytes)[2 * i + 1] == JsNumber.DigitChar(bytes[i] % 16)
  {
    if i > 0 {
      EncodeAt(bytes[1..], i - 1);
    }
  }

  /** The byte `parseInt(pair, 16)` leaves in a `Uint8Array`: NaN is stored
      as 0 and every other value modulo 256. Two hex digits give their
      value. */
  function PairValue(pair: string): (r: byte)
    ensures |pair| == 2 && JsNumber.IsDigit(pair[0], 16) && JsNumber.IsDigit(pair[1], 16)
      ==> r == 16 * JsNumber.DigitValue(pair[0]) + JsNumber.DigitValue(pair[1])
  {
    if |pair| == 2 && JsNumber.IsDigit(pair[0], 16) && JsNumber.IsDigit(pair[1], 16) then
      ParsedDigits(pair);
      ParsedByte(pair)
    else
      ParsedByte(pair)
  }

  lemma ParsedDigits(pair: string)
    requires |pair| == 2 && JsNumber.IsDigit(pair[0], 16) && JsNumber.IsDigit(pair[1], 16)
    ensures ParsedByte(pair) == 16 * JsNumber.DigitValue(pair[0]) + JsNumber.DigitValue(pair[1])
  {
    var h, l := JsNumber.DigitValue(pair[0]), JsNumber.DigitValue(pair[1]);
    ParsePair(pair);
    assert 0 <= h * 16 + l < 256;
  }

  /** `parseInt` of two hex digits is their two-digit value. */
  lemma ParsePair(pair: string)
    requires |pair| == 2 && JsNumber.IsDigit(pair[0], 16) && JsNumber.IsDigit(pair[1], 16)
    ensures JsNumber.ParseInt(pair, 16) == Some(JsNumber.DigitValue(pair[0]) * 16 + JsNumber.DigitValue(pair[1]))
  {
    assert pair == [pair[0], pair[1]] && pair + [] == pair;
    JsNumber.ParseNumeral(pair, [], 16);
    JsNumber.ValueOfPair(pair[0], pair[1], 16);
  }

  function ParsedByte(pair: string): byte {
    match JsNumber.ParseInt(pair, 16)
    case None => 0
    case Some(v) => v % 256
  }

  /** Text that starts with neither white space, a sign nor a hex digit is
      NaN to `parseInt`, which the byte array stores as 0. */
  lemma PairValueOfNaN(pair: string)
    requires pair != [] && !Text.IsSpace(pair[0]) && pair[0] != '-' && pair[0] != '+'
    requires !JsNumber.IsDigit(pair[0], 16)
    ensures PairValue(pair) == 0
  {
    assert JsNumber.ParseInt(pair, 16) == JsNumber.ParseSigned(pair, 16);
  }

  /** The bytes `hexToArrayBuffer` produces: one per complete pair of
      characters; a trailing odd character is dropped. */
  function Decode(hex: string): (r: seq<byte>)
    ensures 2 * |r| <= |hex| < 2 * |r| + 2
  {
    if |hex| < 2 then [] else [PairValue(hex[..2])] + Decode(hex[2..])
  }

  /** Byte `i` of the decoding comes from character pair `i`. */
  lemma {:induction false} DecodeAt(hex: string, i: nat)
    requires 2 * i + 2 <= |hex|
    ensures Decode(hex)[i] == PairValue(hex[2 * i..2 * i + 2])
  {
    if i == 0 {
      DecodeFirst(hex);
    } else {
      var tail, j := hex[2..], i - 1;
      assert 2 * j + 2 <= |tail|;
      DecodeAt(tail, j);
      DecodeStep(hex, i);
    }
  }

  /** Pair `i` of `hex` decodes as pair `i - 1` of the rest does. */
  lemma DecodeStep(hex: string, i: nat)
    requires 0 < i && 2 * i + 2 <= |hex|
    requires Decode(hex[2..])[i - 1] == PairValue(hex[2..][2 * (i - 1)..2 * (i - 1) + 2])
    ensures Decode(hex)[i] == PairValue(hex[2 * i..2 * i + 2])
  {
    DecodeShift(hex, i);
    PairShift(hex, i);
  }

  /** Byte 0 of the decoding comes from the first pair. */
  lemma DecodeFirst(hex: string)
    requires 2 <= |hex|
    ensures Decode(hex)[0] == PairValue(hex[0..2])
  {
    assert hex[0..2] == hex[..2];
  }

  /** Byte `i` of the decoding is byte `i - 1` of the rest's. */
  lemma DecodeShift(hex: string, i: nat)
    requires 0 < i && 2 * i + 2 <= |hex|
    ensures Decode(hex)[i] == Decode(hex[2..])[i - 1]
  {
  }

  /** Pair `i - 1` of the text after the first pair is pair `i`. */
  lemma PairShift(hex: string, i: nat)
    requires 0 < i && 2 * i + 2 <= |hex|
    ensures hex[2..][2 * (i - 1)..2 * (i - 1) + 2] == hex[2 * i..2 * i + 2]
  {
  }

  /** `hexToArrayBuffer(hex)`: a `Uint8Array` of `hex.length / 2` bytes
      (the fraction dropped) filled pair by pair; the write for a trailing
      odd character falls outside the array and is ignored. */
  method HexToBytes(hex: string) returns (bytes: array<byte>)
    ensures fresh(bytes)
    ensures bytes[..] == Decode(hex)
  {
    bytes := new byte[|hex| / 2](_ => 0);
    var i := 0;
    while i < |hex|
      invariant 0 <= i <= |hex| + 1 && i % 2 == 0
      invariant forall k :: 0 <= k < bytes.Length && 2 * k < i ==> bytes[k] == PairValue(hex[2 * k..2 * k + 2])
    {
      var end := if i + 2 <= |hex| then i + 2 else |hex|;
      if i / 2 < bytes.Length {
        bytes[i / 2] := PairValue(hex[i..end]);
      }
      i := i + 2;
    }
    forall k | 0 <= k < bytes.Length ensures bytes[k] == Decode(hex)[k] {
      DecodeAt(hex, k);
    }
  }

  /** Hex-encoding then decoding gives the bytes back. */
  lemma {:induction false} DecodeEncode(bytes: seq<byte>)
    ensures Decode(Encode(bytes)) == bytes
  {
    if bytes != [] {
      var first := EncodeByte(bytes[0]);
      EncodedByteDecodes(bytes[0]);
      DecodeFront(first, Encode(bytes[1..]));
      DecodeEncode(bytes[1..]);
      assert bytes == [bytes[0]] + bytes[1..];
    }
  }

  /** One byte's two digits are read back as that byte. */
  lemma EncodedByteDecodes(b: byte)
    ensures |EncodeByte(b)| == 2 && PairValue(EncodeByte(b)) == b
  {
  }

  /** Decoding text that starts with a pair reads that pair first. */
  lemma DecodeFront(pair: string, rest: string)
    requires |pair| == 2
    ensures Decode(pair + rest) == [PairValue(pair)] + Decode(rest)
  {
    var h := pair + rest;
    assert h[..2] == pair && h[2..] == rest;
  }

  /** A lower-case hex character is the digit of its own value. */
  lemma DigitOfLowerHex(c: char)
    requires IsLowerHexDigit(c)
    ensures JsNumber.DigitValue(c) < 16 && JsNumber.DigitChar(JsNumber.DigitValue(c)) == c
  {
  }

  /** One pair of lower-case digits is read and written back unchanged. */
  lemma PairOfLowerHex(pair: string)
    requires |pair| == 2 && IsLowerHex(pair)
    ensures EncodeByte(PairValue(pair)) == pair
  {
    DigitOfLowerHex(pair[0]);
    DigitOfLowerHex(pair[1]);
    var hi, lo := JsNumber.DigitValue(pair[0]), JsNumber.DigitValue(pair[1]);
    var b: byte := 16 * hi + lo;
    assert b / 16 == hi && b % 16 == lo;
  }

  /** Decoding canonical hex text (lower-case, even length) and encoding
      the result again gives the same text. */
  lemma {:induction false} EncodeDecode(hex: string)
    requires |hex| % 2 == 0 && IsLowerHex(hex)
    ensures Encode(Decode(hex)) == hex
  {
    if hex != [] {
      var pair, tail := hex[..2], hex[2..];
      calc {
        Encode(Decode(hex));
      == { DecodeFront(pair, tail); assert pair + tail == hex; }
        Encode([PairValue(pair)] + Decode(tail));
      == { EncodeFront(PairValue(pair), Decode(tail)); }
        EncodeByte(PairValue(pair)) + Encode(Decode(tail));
      == { LowerHexHalves(hex); PairOfLowerHex(pair); EncodeDecode(tail); }
        pair + tail;
      }
    }
  }

  /** Encoding a byte in front encodes it in front. */
  lemma EncodeFront(b: byte, rest: seq<byte>)
    ensures Encode([b] + rest) == EncodeByte(b) + Encode(rest)
  {
    assert ([b] + rest)[1..] == rest;
  }

  /** The first pair and the rest of even-length lower-case hex are again
      lower-case hex, the rest of even length. */
  lemma LowerHexHalves(hex: string)
    requires |hex| >= 2 && |hex| % 2 == 0 && IsLowerHex(hex)
    ensures IsLowerHex(hex[..2]) && IsLowerHex(hex[2..]) && |hex[2..]| % 2 == 0
  {
    assert forall i :: 0 <= i < |hex[2..]| ==> hex[2..][i] == hex[i + 2];
  }
}
