/** Packing of the encoded bitstring into bytes, eight bits per byte, most significant first. */
module Packing {
  import opened HuffmanTypes

  function Pow2(n: nat): (r: nat)
    ensures r >= 1
  {
    if n == 0 then 1 else 2 * Pow2(n - 1)
  }

  /** The number the bits spell in base 2, first bit most significant (parseInt(s, 2)). */
  function FromBits(bits: seq<Bit>): (r: nat)
    ensures r < Pow2(|bits|)
  {
    if bits == [] then 0 else 2 * FromBits(bits[..|bits| - 1]) + bits[|bits| - 1]
  }

  /** `chunk` followed by zero bits up to a length of eight (padEnd(8, '0')). */
  function PadTo8(chunk: seq<Bit>): (r: seq<Bit>)
    requires |chunk| <= 8
    ensures |r| == 8
    ensures forall k :: 0 <= k < 8 ==> r[k] == if k < |chunk| then chunk[k] else 0
  {
    chunk + seq(8 - |chunk|, _ => 0)
  }

  /** The byte made of the group of eight bits starting at `i`, padded with zeros. */
  function ByteAt(bits: seq<Bit>, i: nat): Byte
    requires i < |bits|
  {
    var chunk := bits[i..Min(i + 8, |bits|)];
    assert Pow2(8) == 256;
    FromBits(PadTo8(chunk))
  }

  /** The packed bytes of the bitstring, group after group. */
  function Pack(bits: seq<Bit>): seq<Byte>
    decreases |bits|
  {
    if bits == [] then [] else [ByteAt(bits, 0)] + Pack(bits[Min(8, |bits|)..])
  }

  /** binaryStringToByteArray: a loop over the bitstring that steps by eight. */
  method BinaryStringToByteArray(bits: seq<Bit>) returns (bytes: seq<Byte>)
    ensures bytes == Pack(bits)
  {
    bytes := [];
    var i := 0;
    assert bits[0..] == bits;
    while i < |bits|
      invariant 0 <= i
      invariant Pack(bits) == bytes + Pack(bits[Min(i, |bits|)..])
      decreases |bits| - i
    {
      var b := ByteAt(bits, i);
      PackFrom(bits, i);
      assert bytes + Pack(bits[i..]) == (bytes + [b]) + Pack(bits[Min(i + 8, |bits|)..]);
      bytes := bytes + [b];
      i := i + 8;
    }
    assert bits[Min(i, |bits|)..] == [];
  }

  lemma PackFrom(bits: seq<Bit>, i: nat)
    requires i < |bits|
    ensures Pack(bits[i..]) == [ByteAt(bits, i)] + Pack(bits[Min(i + 8, |bits|)..])
  {
    var rest := bits[i..];
    assert rest[..Min(8, |rest|)] == bits[i..Min(i + 8, |bits|)];
    assert rest[Min(8, |rest|)..] == bits[Min(i + 8, |bits|)..];
  }

  /** Value of one bit of the stream, a missing (padding) bit being zero. */
  function BitOrZero(bits: seq<Bit>, j: nat): nat
  {
    if j < |bits| then bits[j] else 0
  }

  lemma BitOrZeroShift(bits: seq<Bit>, n: nat)
    requires n <= |bits|
    ensures forall j: nat :: BitOrZero(bits[n..], j) == BitOrZero(bits, n + j)
  {
  }

  /** A bitstring of length n packs into exactly ceil(n / 8) bytes. */
  lemma {:induction false} PackLength(bits: seq<Bit>)
    ensures |Pack(bits)| == (|bits| + 7) / 8
    decreases |bits|
  {
    if bits != [] {
      PackLength(bits[Min(8, |bits|)..]);
    }
  }

  lemma FromBits8(b: seq<Bit>)
    requires |b| == 8
    ensures FromBits(b) == 128 * (b[0] as int) + 64 * (b[1] as int) + 32 * (b[2] as int) + 16 * (b[3] as int) +
                           8 * (b[4] as int) + 4 * (b[5] as int) + 2 * (b[6] as int) + (b[7] as int)
  {
    assert b[..7][..6] == b[..6];
    assert b[..6][..5] == b[..5];
    assert b[..5][..4] == b[..4];
    assert b[..4][..3] == b[..3];
    assert b[..3][..2] == b[..2];
    assert b[..2][..1] == b[..1];
    assert b[..1][..0] == [];
  }

  /** Bits j .. j + 7 read as a byte, most significant first, missing bits counting as zero. */
  function ByteFrom(bits: seq<Bit>, j: nat): nat
  {
    128 * BitOrZero(bits, j) + 64 * BitOrZero(bits, j + 1) + 32 * BitOrZero(bits, j + 2) +
    16 * BitOrZero(bits, j + 3) + 8 * BitOrZero(bits, j + 4) + 4 * BitOrZero(bits, j + 5) +
    2 * BitOrZero(bits, j + 6) + BitOrZero(bits, j + 7)
  }

  lemma ByteFromShift(bits: seq<Bit>, j: nat)
    requires 8 <= |bits|
    ensures ByteFrom(bits[8..], j) == ByteFrom(bits, j + 8)
  {
    BitOrZeroShift(bits, 8);
  }

  /**
   * Byte i is bits 8i .. 8i+7 read most significant bit first, the bits past the end of the
   * stream counting as zero.
   */
  lemma {:induction false} PackByte(bits: seq<Bit>, i: nat)
    requires i < |Pack(bits)|
    ensures Pack(bits)[i] == ByteFrom(bits, 8 * i)
    decreases |bits|
  {
    if i == 0 {
      PackFirstByte(bits);
    } else {
      PackShift(bits, i);
      PackByte(bits[8..], i - 1);
      ByteFromShift(bits, 8 * (i - 1));
      assert 8 * (i - 1) + 8 == 8 * i;
    }
  }

  lemma PackFirstByte(bits: seq<Bit>)
    requires bits != []
    ensures Pack(bits)[0] == ByteFrom(bits, 0)
  {
    var n := Min(8, |bits|);
    var p := PadTo8(bits[0..n]);
    assert Pack(bits)[0] == FromBits(p);
    FromBits8(p);
    forall k | 0 <= k < 8
      ensures p[k] == BitOrZero(bits, k)
    {
    }
  }

  /** Byte i > 0 of the stream is byte i - 1 of the stream after its first eight bits. */
  lemma PackShift(bits: seq<Bit>, i: nat)
    requires 0 < i < |Pack(bits)|
    ensures 8 < |bits| && i - 1 < |Pack(bits[8..])| && Pack(bits)[i] == Pack(bits[8..])[i - 1]
  {
    var n := Min(8, |bits|);
    assert Pack(bits) == [ByteAt(bits, 0)] + Pack(bits[n..]);
    if |bits| <= 8 {
      PackLength(bits[n..]);
    }
  }
}
