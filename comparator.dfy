/** `timingSafeEqual` (src/lib/auth.ts): both UTF-8 encodings are padded
    with zero bytes to the longer length, an accumulator is seeded with the
    exclusive-or of the two lengths and every padded byte difference is
    or-ed into it; the strings are reported equal when it ends at zero.
    JavaScript's `^` and `|` work on 32-bit integers: a length enters the
    seed modulo 2^32, every other operand is a byte. */
module Comparator {
  import opened Utf8

  const Int32Modulus: nat := 0x1_0000_0000

  /** Bitwise exclusive-or of two naturals, lowest bit first; it is zero
      exactly when the two numbers are equal. */
  function Xor(a: nat, b: nat): (r: nat)
    ensures r == 0 <==> a == b
    decreases a + b
  {
    if a == 0 then b
    else if b == 0 then a
    else 2 * Xor(a / 2, b / 2) + (if a % 2 == b % 2 then 0 else 1)
  }

  /** Bitwise inclusive-or of two naturals, lowest bit first; it is zero
      exactly when both numbers are, and it keeps every bit of each. */
  function Or(a: nat, b: nat): (r: nat)
    ensures r == 0 <==> a == 0 && b == 0
    ensures a <= r && b <= r
    decreases a + b
  {
    if a == 0 then b
    else if b == 0 then a
    else 2 * Or(a / 2, b / 2) + (if a % 2 == 1 || b % 2 == 1 then 1 else 0)
  }

  function Max(a: nat, b: nat): nat {
    if a >= b then a else b
  }

  /** A `Uint8Array` of `n` zero bytes after `set(bytes)`. */
  function Padded(bytes: seq<byte>, n: nat): (r: seq<byte>)
    requires |bytes| <= n
    ensures |r| == n && r[..|bytes|] == bytes
    ensures forall i :: |bytes| <= i < n ==> r[i] == 0
  {
    bytes + seq(n - |bytes|, _ => 0)
  }

  /** Padding to the length a sequence already has adds nothing. */
  lemma PaddedFull(bytes: seq<byte>)
    ensures Padded(bytes, |bytes|) == bytes
  {
    assert seq(0, _ => 0) == [];
  }

  /** The accumulator after or-ing in the differences of the remaining
      padded bytes, front to back, starting from `acc`. */
  function Accumulate(acc: nat, pa: seq<byte>, pb: seq<byte>): nat
    requires |pa| == |pb|
    decreases |pa|
  {
    if pa == [] then acc
    else Accumulate(Or(acc, Xor(pa[0], pb[0])), pa[1..], pb[1..])
  }

  /** The accumulator ends at zero exactly when it starts at zero and every
      pair of bytes agrees. */
  lemma {:induction false} AccumulateZero(acc: nat, pa: seq<byte>, pb: seq<byte>)
    requires |pa| == |pb|
    ensures Accumulate(acc, pa, pb) == 0 <==> acc == 0 && pa == pb
    decreases |pa|
  {
    if pa != [] {
      var next := Or(acc, Xor(pa[0], pb[0]));
      AccumulateZero(next, pa[1..], pb[1..]);
      if pa[1..] == pb[1..] && pa[0] == pb[0] {
        assert pa == [pa[0]] + pa[1..] && pb == [pb[0]] + pb[1..];
      }
    }
  }

  /** The accumulator `result` holds when the loop ends: zero exactly when
      the lengths agree modulo 2^32 and the zero-padded bytes agree. */
  function Difference(a: seq<byte>, b: seq<byte>): (r: nat)
    ensures var m := Max(|a|, |b|);
      r == 0 <==> |a| % Int32Modulus == |b| % Int32Modulus && Padded(a, m) == Padded(b, m)
  {
    var m := Max(|a|, |b|);
    var seed := Xor(|a| % Int32Modulus, |b| % Int32Modulus);
    AccumulateZero(seed, Padded(a, m), Padded(b, m));
    Accumulate(seed, Padded(a, m), Padded(b, m))
  }

  /** For byte sequences shorter than 2^32 the comparison is byte equality. */
  lemma DifferenceZeroIff(a: seq<byte>, b: seq<byte>)
    requires |a| < Int32Modulus && |b| < Int32Modulus
    ensures Difference(a, b) == 0 <==> a == b
  {
    if |a| == |b| {
      PaddedFull(a);
      PaddedFull(b);
    }
  }

  /** What `timingSafeEqual(a, b)` returns: string equality whenever the
      encodings are shorter than 2^32 bytes, and always true of a string
      and itself. */
  predicate SafeEqual(a: string, b: string): (r: bool)
    ensures |Encode(a)| < Int32Modulus && |Encode(b)| < Int32Modulus ==> (r <==> a == b)
    ensures a == b ==> r
  {
    if |Encode(a)| < Int32Modulus && |Encode(b)| < Int32Modulus then
      DifferenceZeroIff(Encode(a), Encode(b));
      EncodeInjective(a, b);
      Difference(Encode(a), Encode(b)) == 0
    else
      Difference(Encode(a), Encode(b)) == 0
  }

  /** `timingSafeEqual(a, b)`: allocates the padded arrays and runs the
      accumulation loop exactly `max` times, with no early exit; `rounds`
      counts the iterations. */
  method TimingSafeEqual(a: string, b: string) returns (equal: bool, rounds: nat)
    ensures equal == SafeEqual(a, b)
    ensures |Encode(a)| < Int32Modulus && |Encode(b)| < Int32Modulus ==> (equal <==> a == b)
    ensures rounds == Max(|Encode(a)|, |Encode(b)|)
  {
    var aBytes := Encode(a);
    var bBytes := Encode(b);
    var maxLength := Max(|aBytes|, |bBytes|);
    var paddedA := PaddedArray(aBytes, maxLength);
    var paddedB := PaddedArray(bBytes, maxLength);
    ghost var difference := Difference(aBytes, bBytes);
    var result := Xor(|aBytes| % Int32Modulus, |bBytes| % Int32Modulus);
    rounds := 0;
    for i := 0 to maxLength
      invariant rounds == i
      invariant Accumulate(result, paddedA[i..], paddedB[i..]) == difference
    {
      AccumulateStep(result, paddedA[..], paddedB[..], i);
      result := Or(result, Xor(paddedA[i], paddedB[i]));
      rounds := rounds + 1;
    }
    equal := result == 0;
  }

  /** One round of the loop: the pair at `i` is or-ed in, then the rest. */
  lemma AccumulateStep(acc: nat, pa: seq<byte>, pb: seq<byte>, i: nat)
    requires |pa| == |pb| && i < |pa|
    ensures Accumulate(acc, pa[i..], pb[i..]) == Accumulate(Or(acc, Xor(pa[i], pb[i])), pa[i + 1..], pb[i + 1..])
  {
    assert pa[i..][1..] == pa[i + 1..] && pb[i..][1..] == pb[i + 1..];
  }

  /** `new Uint8Array(n)` followed by `set(bytes)`. */
  method PaddedArray(bytes: seq<byte>, n: nat) returns (padded: array<byte>)
    requires |bytes| <= n
    ensures fresh(padded) && padded[..] == Padded(bytes, n)
  {
    padded := new byte[n](_ => 0);
    forall i | 0 <= i < |bytes| {
      padded[i] := bytes[i];
    }
  }
}
