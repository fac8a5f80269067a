/** Big-endian numbers in byte strings. */
module ByteOrder {
  import opened Numbers
  import opened Bytes
  import F = BinaryField

  // ---------------------------------------------------------------- bytes and their values

  /** The low bits spell the number, if it has no more. */
  lemma {:induction false} ValueOfLowBits(n: nat, k: nat)
    requires n < Pow2(k)
    ensures Value(LowBits(n, k)) == n
  {
    if k > 0 {
      ValueOfLowBits(n / 2, k - 1);
      assert LowBits(n, k)[1..] == LowBits(n / 2, k - 1);
    }
  }

  lemma {:induction false} LowBitsOfValue(bits: F.Poly)
    ensures LowBits(Value(bits), |bits|) == bits && Value(bits) < Pow2(|bits|)
  {
    if bits != [] {
      LowBitsOfValue(bits[1..]);
      var n := Value(bits);
      assert n / 2 == Value(bits[1..]) && (n % 2 == 1) == bits[0];
      assert bits == [bits[0]] + bits[1..];
    }
  }

  lemma ByteValue(n: nat, b: Byte)
    requires n < 256
    ensures Value(ByteOf(n)) == n && ByteOf(Value(b)) == b && Value(b) < 256
  {
    assert Pow2(8) == 256;
    ValueOfLowBits(n, 8);
    LowBitsOfValue(b);
  }

  // ---------------------------------------------------------------- big-endian

  function Pow256(n: nat): (p: nat)
    ensures p > 0
  {
    if n == 0 then 1 else 256 * Pow256(n - 1)
  }

  /** The number n bytes spell, most significant byte first. */
  function Be(bytes: seq<Byte>): nat {
    if bytes == [] then 0 else 256 * Be(bytes[..|bytes| - 1]) + Value(bytes[|bytes| - 1])
  }

  /** The low n bytes of v, most significant first. */
  function BeBytes(v: nat, n: nat): (bytes: seq<Byte>)
    ensures |bytes| == n
  {
    if n == 0 then [] else BeBytes(v / 256, n - 1) + [ByteOf(v % 256)]
  }

  /** v >> 8 * k. */
  function ShrBytes(v: nat, k: nat): nat {
    if k == 0 then v else ShrBytes(v, k - 1) / 256
  }

  lemma {:induction false} ShrBytesStep(v: nat, k: nat)
    requires k > 0
    ensures ShrBytes(v, k) == ShrBytes(v / 256, k - 1)
  {
    if k > 1 {
      ShrBytesStep(v, k - 1);
    }
  }

  lemma {:induction false} BeBytesAt(v: nat, n: nat, i: nat)
    requires i < n
    ensures BeBytes(v, n)[i] == ByteOf(ShrBytes(v, n - 1 - i) % 256)
  {
    if i < n - 1 {
      BeBytesAt(v / 256, n - 1, i);
      ShrBytesStep(v, n - 1 - i);
    }
  }

  /** The bytes of a number that fits spell it. */
  lemma {:induction false} BeRoundTrip(v: nat, n: nat)
    requires v < Pow256(n)
    ensures Be(BeBytes(v, n)) == v
  {
    if n > 0 {
      BeRoundTrip(v / 256, n - 1);
      ByteValue(v % 256, ZeroByte());
      assert BeBytes(v, n)[..n - 1] == BeBytes(v / 256, n - 1);
    }
  }

  lemma {:induction false} BytesRoundTrip(bytes: seq<Byte>)
    ensures BeBytes(Be(bytes), |bytes|) == bytes && Be(bytes) < Pow256(|bytes|)
  {
    if bytes != [] {
      var n := |bytes| - 1;
      BytesRoundTrip(bytes[..n]);
      ByteValue(0, bytes[n]);
      var v := Be(bytes);
      assert v / 256 == Be(bytes[..n]) && v % 256 == Value(bytes[n]);
      assert bytes == bytes[..n] + [bytes[n]];
    }
  }

  lemma BeSnoc(bytes: seq<Byte>, b: Byte)
    ensures Be(bytes + [b]) == 256 * Be(bytes) + Value(b)
  {
    assert (bytes + [b])[..|bytes|] == bytes;
  }
}
