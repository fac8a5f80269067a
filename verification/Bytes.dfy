/** Bytes as their eight bits; bit i has weight 2^i.  `1 << i` selects bit i, `|=` sets bits, `^`
    adds them, so every bit operation of the firmware on a uint8_t reads directly off this form. */
module Bytes {
  import F = BinaryField

  type Byte = b: F.Poly | |b| == 8 witness F.Zeros(8)

  function ZeroByte(): Byte { F.Zeros(8) }

  /** a ^ b. */
  function XorByte(a: Byte, b: Byte): Byte { F.Xor(a, b) }

  /** The low k bits of n, lowest first. */
  function LowBits(n: nat, k: nat): (bits: F.Poly)
    ensures |bits| == k
  {
    if k == 0 then [] else [n % 2 == 1] + LowBits(n / 2, k - 1)
  }

  /** The number that bits spell, lowest first. */
  function Value(bits: F.Poly): nat {
    if bits == [] then 0 else (if bits[0] then 1 else 0) + 2 * Value(bits[1..])
  }

  /** (uint8_t) n. */
  function ByteOf(n: nat): Byte { LowBits(n, 8) }

  // ---------------------------------------------------------------- bits of a buffer

  /** Bit i of a buffer of bytes, most significant bit of the first byte first. */
  function BitAt(data: seq<Byte>, i: nat): bool
    requires i < 8 * |data|
  {
    data[i / 8][7 - i % 8]
  }

  /** All the bits of a buffer. */
  function BitsOf(data: seq<Byte>): (bits: seq<bool>)
    ensures |bits| == 8 * |data|
    ensures forall i :: 0 <= i < |bits| ==> bits[i] == BitAt(data, i)
  {
    seq(8 * |data|, i requires 0 <= i < 8 * |data| => BitAt(data, i))
  }

  lemma SetInData(data: seq<Byte>, i: nat, on: bool)
    requires i < 8 * |data|
    ensures BitsOf(data[i / 8 := data[i / 8][7 - i % 8 := on]]) == BitsOf(data)[i := on]
  {}

  /** A buffer is determined by its bits. */
  lemma BitsInjective(a: seq<Byte>, b: seq<Byte>)
    requires BitsOf(a) == BitsOf(b)
    ensures a == b
  {
    assert |a| == |b|;
    forall k | 0 <= k < |a|
      ensures a[k] == b[k]
    {
      forall j | 0 <= j < 8
        ensures a[k][j] == b[k][j]
      {
        var i := 8 * k + 7 - j;
        assert i / 8 == k && i % 8 == 7 - j;
        assert BitsOf(a)[i] == BitsOf(b)[i];
      }
    }
  }
}
