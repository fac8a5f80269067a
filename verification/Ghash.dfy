/** GHASH of src/Helpers/AdminAuth.cpp (section 6.4 of NIST SP 800-38D): a fold over zero-padded blocks
    that equals the sum of X_i * H^(n - i + 1). */
module Ghash {
  import opened Bytes
  import opened Gf128
  import F = BinaryField

  type Elem = p: F.Poly | |p| == 128 witness F.Zeros(128)

  // ---------------------------------------------------------------- definitions

  /** Y after absorbing the blocks one by one. */
  function Folded(h: Elem, y: Elem, xs: seq<Elem>): Elem
    decreases |xs|
  {
    if xs == [] then y else Folded(h, Mul(F.Xor(y, xs[0]), h), xs[1..])
  }

  function Power(h: Elem, n: nat): Elem {
    if n == 0 then F.One(128) else Mul(h, Power(h, n - 1))
  }

  /** The sum of X_i * H^(n - i + 1) for i from 1 to n. */
  function Sum(h: Elem, xs: seq<Elem>): Elem {
    if xs == [] then F.Zeros(128) else F.Xor(Mul(xs[0], Power(h, |xs|)), Sum(h, xs[1..]))
  }

  /** The blocks of a byte string, the last one padded with zeros. */
  function Blocks(data: seq<Byte>): seq<Elem> {
    if data == [] then []
    else if |data| >= 16 then [PolyOf(data[..16])] + Blocks(data[16..])
    else [PolyOf(PaddedBlock(data))]
  }

  // ---------------------------------------------------------------- the fold is the sum

  lemma FoldStep(h: Elem, y: Elem, x: Elem, power: Elem, rest: Elem)
    ensures F.Xor(Mul(Mul(F.Xor(y, x), h), power), rest) ==
            F.Xor(Mul(y, Mul(h, power)), F.Xor(Mul(x, Mul(h, power)), rest))
  {
    hide F.Mul, F.Xor;
    MulIsField(y, x, h);
    MulIsField(Mul(y, h), Mul(x, h), power);
    MulIsField(y, h, power);
    MulIsField(x, h, power);
    F.XorLaws(Mul(y, Mul(h, power)), Mul(x, Mul(h, power)), rest);
  }

  /** Absorbing blocks one by one adds up their products with the powers of H. */
  lemma {:induction false} FoldIsSum(h: Elem, y: Elem, xs: seq<Elem>)
    ensures Folded(h, y, xs) == F.Xor(Mul(y, Power(h, |xs|)), Sum(h, xs))
    decreases |xs|
  {
    hide Mul, F.Xor;
    if xs == [] {
      AbsorbNothing(y);
    } else {
      FoldIsSum(h, Mul(F.Xor(y, xs[0]), h), xs[1..]);
      FoldStep(h, y, xs[0], Power(h, |xs| - 1), Sum(h, xs[1..]));
    }
  }

  lemma AbsorbNothing(y: Elem)
    ensures F.Xor(Mul(y, F.One(128)), F.Zeros(128)) == y
  {
    hide Taps;
    F.ActOneSame(y, Taps());
    F.XorLaws(y, y, y);
  }

  lemma {:induction false} FoldedMore(h: Elem, y: Elem, xs: seq<Elem>, zs: seq<Elem>)
    ensures Folded(h, y, xs + zs) == Folded(h, Folded(h, y, xs), zs)
    decreases |xs|
  {
    hide Mul, F.Xor;
    if xs == [] {
      assert xs + zs == zs;
    } else {
      assert (xs + zs)[1..] == xs[1..] + zs;
      FoldedMore(h, Mul(F.Xor(y, xs[0]), h), xs[1..], zs);
    }
  }

  /** From a zero state: the sum of section 6.4. */
  lemma GhashIsSum(h: Elem, xs: seq<Elem>)
    ensures Folded(h, F.Zeros(128), xs) == Sum(h, xs)
  {
    hide Folded, Sum, Taps;
    FoldIsSum(h, F.Zeros(128), xs);
    F.ActZeros(128, Power(h, |xs|), Taps());
    F.XorLaws(Sum(h, xs), F.Zeros(128), F.Zeros(128));
  }

  // ---------------------------------------------------------------- the state

  class GhashState {
    const h: array<Byte>
    const y: array<Byte>

    ghost predicate Valid() { h.Length == 16 && y.Length == 16 && h != y }

    ghost function H(): Elem requires Valid() reads h { PolyOf(h[..]) }

    ghost function Y(): Elem requires Valid() reads y { PolyOf(y[..]) }

    constructor (key: Block)
      ensures Valid() && fresh(h) && fresh(y)
      ensures H() == PolyOf(key) && Y() == F.Zeros(128)
    {
      h := new Byte[16](i requires 0 <= i < 16 => key[i]);
      y := new Byte[16](i => ZeroByte());
      new;
      assert h[..] == key;
      ZeroBlock(y[..]);
    }

    /** ghashUpdateBlock. */
    method UpdateBlock(block: Block)
      requires Valid()
      modifies y
      ensures H() == old(H()) && Y() == Mul(F.Xor(old(Y()), PolyOf(block)), H())
    {
      hide Mul, BitsOf;
      var xored := new Byte[16](i => ZeroByte());
      for i := 0 to 16
        invariant forall k :: 0 <= k < i ==> xored[k] == XorByte(y[k], block[k])
        invariant y[..] == old(y[..])
      {
        xored[i] := XorByte(y[i], block[i]);
      }
      XoredBlocks(y[..], block, xored[..]);
      Gf128Mul(xored, h, y);
    }

    /** ghashUpdateBytes. */
    method UpdateBytes(data: seq<Byte>)
      requires Valid()
      modifies y
      ensures H() == old(H()) && Y() == Folded(H(), old(Y()), Blocks(data))
    {
      hide Mul, BitsOf, Folded, Blocks, F.Xor, PolyOf;
      var off := 0;
      ghost var h0, y0 := H(), Y();
      assert data[0..] == data;
      while off + 16 <= |data|
        invariant 0 <= off <= |data| && H() == h0
        invariant Folded(h0, Y(), Blocks(data[off..])) == Folded(h0, y0, Blocks(data))
      {
        FirstBlock(h0, Y(), data[off..]);
        SliceTwice(data, off);
        UpdateBlock(data[off..off + 16]);
        off := off + 16;
      }
      ghost var rest, y1 := data[off..], Y();
      if off < |data| {
        LastBlock(h0, y1, rest);
        var block: Block := data[off..] + seq(16 - (|data| - off), i => ZeroByte());
        assert block == PaddedBlock(rest);
        UpdateBlock(block);
      } else {
        assert rest == [];
        NoBlock(h0, y1);
      }
    }
  }

  /** A short block with zeros behind it. */
  function PaddedBlock(data: seq<Byte>): Block
    requires |data| < 16
  {
    data + seq(16 - |data|, i => ZeroByte())
  }

  lemma XoredBlocks(a: Block, b: Block, c: Block)
    requires forall k :: 0 <= k < 16 ==> c[k] == XorByte(a[k], b[k])
    ensures PolyOf(c) == F.Xor(PolyOf(a), PolyOf(b))
  {
    hide XorByte;
    forall i | 0 <= i < 128
      ensures PolyOf(c)[i] == (PolyOf(a)[i] != PolyOf(b)[i])
    {
      XoredAt(a[i / 8], b[i / 8], 7 - i % 8);
    }
  }

  lemma XoredAt(a: Byte, b: Byte, j: nat)
    requires j < 8
    ensures XorByte(a, b)[j] == (a[j] != b[j])
  {}

  lemma SliceTwice<T>(data: seq<T>, off: nat)
    requires off + 16 <= |data|
    ensures data[off..][..16] == data[off..off + 16] && data[off..][16..] == data[off + 16..]
  {}

  lemma FirstBlock(h: Elem, y: Elem, data: seq<Byte>)
    requires |data| >= 16
    ensures Folded(h, y, Blocks(data)) == Folded(h, Mul(F.Xor(y, PolyOf(data[..16])), h), Blocks(data[16..]))
  {
    hide Mul, F.Xor, BitsOf;
    assert Blocks(data)[1..] == Blocks(data[16..]);
  }

  lemma LastBlock(h: Elem, y: Elem, data: seq<Byte>)
    requires 0 < |data| < 16
    ensures Folded(h, y, Blocks(data)) == Mul(F.Xor(y, PolyOf(PaddedBlock(data))), h)
  {
    hide Mul, F.Xor, BitsOf;
    var x := PolyOf(PaddedBlock(data));
    assert Blocks(data) == [x] && [x][1..] == [];
  }

  lemma NoBlock(h: Elem, y: Elem)
    ensures Folded(h, y, Blocks([])) == y
  {}
}
