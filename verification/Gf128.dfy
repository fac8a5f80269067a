/** gf128Mul of src/Helpers/AdminAuth.cpp: multiplication in GF(2^128) with the polynomial of GCM, on
    blocks whose bits are coefficients, most significant bit of the first byte first (section 6.3 of
    NIST SP 800-38D). */
module Gf128 {
  import opened Bytes
  import F = BinaryField

  type Block = b: seq<Byte> | |b| == 16 witness seq(16, i => ZeroByte())

  /** A block as a polynomial: 128 coefficients, lowest power first. */
  function PolyOf(b: Block): (p: F.Poly)
    ensures |p| == 128
  {
    BitsOf(b)
  }

  /** x^7 + x^2 + x + 1, the low part of the modulus. */
  function Taps(): (taps: F.Poly)
    ensures |taps| == 128
  {
    seq(128, i => i == 0 || i == 1 || i == 2 || i == 7)
  }

  function Mul(a: F.Poly, b: F.Poly): (c: F.Poly)
    requires |a| == |b| == 128
    ensures |c| == 128
  {
    F.Mul(a, b, Taps())
  }

  // ---------------------------------------------------------------- one step of the loop

  /** z ^= v, byte by byte. */
  method XorInto(z: array<Byte>, v: array<Byte>)
    requires z != v && z.Length == v.Length == 16
    modifies z
    ensures PolyOf(z[..]) == F.Xor(old(PolyOf(z[..])), PolyOf(v[..]))
  {
    for j := 0 to 16
      invariant forall k :: 0 <= k < j ==> z[k] == XorByte(old(z[k]), v[k])
      invariant forall k :: j <= k < 16 ==> z[k] == old(z[k])
    {
      z[j] := XorByte(z[j], v[j]);
    }
  }

  /** v >> 1 over all sixteen bytes: the carries are the low bits of the bytes before. */
  method ShiftRight(v: array<Byte>)
    requires v.Length == 16
    modifies v
    ensures forall k :: 1 <= k < 16 ==> v[k] == old(v[k])[1..] + [old(v[k - 1])[0]]
    ensures v[0] == old(v[0])[1..] + [false]
  {
    for j := 16 downto 1
      invariant forall k :: j <= k < 16 ==> v[k] == old(v[k])[1..] + [old(v[k - 1])[0]]
      invariant forall k :: 0 <= k < j ==> v[k] == old(v[k])
    {
      v[j] := v[j][1..] + [v[j - 1][0]];   // (v[j] >> 1) | ((v[j - 1] & 1) << 7)
    }
    v[0] := v[0][1..] + [false];
  }

  /** 0xe1. */
  function Fold(): Byte { [true, false, false, false, false, true, true, true] }

  function Shifted(v: Block, w: Block): bool {
    && (forall k :: 1 <= k < 16 ==> w[k] == v[k][1..] + [v[k - 1][0]])
    && w[0] == (var b: Byte := v[0][1..] + [false]; if v[15][0] then XorByte(b, Fold()) else b)
  }

  /** The shift and the conditional 0xe1 multiply by x. */
  lemma ShiftIsTimes(v: Block, w: Block)
    requires Shifted(v, w)
    ensures PolyOf(w) == F.Times(PolyOf(v), Taps())
  {
    hide F.Times, Taps, BitAt, Shifted;
    var p, t := PolyOf(v), F.Times(PolyOf(v), Taps());
    BitIsCoefficient(v, 127);
    forall i | 0 <= i < 128
      ensures PolyOf(w)[i] == t[i]
    {
      ShiftAt(v, w, i);
      F.TimesAt(p, Taps(), i);
    }
  }

  lemma ShiftAt(v: Block, w: Block, i: nat)
    requires Shifted(v, w) && i < 128
    ensures BitAt(w, i) == ((if i == 0 then false else BitAt(v, i - 1)) != (v[15][0] && Taps()[i]))
  {
    var k, j := i / 8, i % 8;
    if k > 0 {
      assert w[k] == v[k][1..] + [v[k - 1][0]];
      if j > 0 {
        assert (i - 1) / 8 == k && (i - 1) % 8 == j - 1;
      } else {
        assert (i - 1) / 8 == k - 1 && (i - 1) % 8 == 7;
      }
    } else if i > 0 {
      assert (i - 1) / 8 == 0;
    }
  }

  /** One round of the loop: add v to z if the coefficient is set, and multiply v by x. */
  method MulStep(bit: bool, z: array<Byte>, v: array<Byte>)
    requires z != v && z.Length == v.Length == 16
    modifies z, v
    ensures PolyOf(z[..]) == F.Xor(old(PolyOf(z[..])), F.Scale(bit, old(PolyOf(v[..]))))
    ensures PolyOf(v[..]) == F.Times(old(PolyOf(v[..])), Taps())
  {
    hide BitsOf, Taps;
    F.XorLaws(PolyOf(z[..]), PolyOf(z[..]), PolyOf(z[..]));
    ghost var before: Block := v[..];
    if bit {
      XorInto(z, v);
    }
    var lsb := v[15][0];
    ShiftRight(v);
    if lsb {
      v[0] := XorByte(v[0], Fold());
    }
    ShiftIsTimes(before, v[..]);
  }

  // ---------------------------------------------------------------- the loop

  lemma OneRound(x: F.Poly, i: nat, z: F.Poly, v: F.Poly, product: F.Poly)
    requires i < |x| == 128 && |v| == |z| == 128
    requires product == F.Xor(z, F.Act(x[i..], v, Taps()))
    ensures product == F.Xor(F.Xor(z, F.Scale(x[i], v)), F.Act(x[i + 1..], F.Times(v, Taps()), Taps()))
  {
    hide Taps, F.Xor, F.Scale, F.Times, F.Act;
    var rest := x[i + 1..];
    HeadAndRest(x, i);
    ActHead(x[i], rest, v);
    F.ActTimes(rest, v, Taps());
    F.XorLaws(z, F.Scale(x[i], v), F.Act(rest, F.Times(v, Taps()), Taps()));
  }

  lemma HeadAndRest<T>(s: seq<T>, i: nat)
    requires i < |s|
    ensures s[i..] == [s[i]] + s[i + 1..]
  {}

  lemma ActHead(b: bool, rest: F.Poly, v: F.Poly)
    requires |v| == 128
    ensures F.Act([b] + rest, v, Taps()) == F.Xor(F.Scale(b, v), F.Times(F.Act(rest, v, Taps()), Taps()))
  {
    hide Taps, F.Xor, F.Scale, F.Times;
    assert ([b] + rest)[1..] == rest;
  }

  /** The byte-shift loop is multiplication in the field. */
  method Gf128Mul(x: array<Byte>, y: array<Byte>, out: array<Byte>)
    requires x.Length == y.Length == out.Length == 16
    modifies out
    ensures PolyOf(out[..]) == Mul(old(PolyOf(x[..])), old(PolyOf(y[..])))
    ensures out != x ==> x[..] == old(x[..])
    ensures out != y ==> y[..] == old(y[..])
  {
    hide BitsOf, Taps, F.Act, F.Xor, F.Times, F.Scale;
    ghost var p, q := PolyOf(x[..]), PolyOf(y[..]);
    var z := new Byte[16](i => ZeroByte());
    var v := new Byte[16](i => ZeroByte());
    CopyBlock(y, v);
    ZeroBlock(z[..]);
    F.XorLaws(Mul(p, q), F.Zeros(128), F.Zeros(128));
    assert p[0..] == p;
    for i := 0 to 128
      invariant x[..] == old(x[..]) && y[..] == old(y[..])
      invariant Mul(p, q) == F.Xor(PolyOf(z[..]), F.Act(p[i..], PolyOf(v[..]), Taps()))
    {
      var bit := x[i / 8][7 - i % 8];
      BitIsCoefficient(x[..], i);
      OneRound(p, i, PolyOf(z[..]), PolyOf(v[..]), Mul(p, q));
      MulStep(bit, z, v);
    }
    assert p[128..] == [];
    NothingLeft(PolyOf(z[..]), PolyOf(v[..]));
    CopyBlock(z, out);
  }

  lemma BitIsCoefficient(x: Block, i: nat)
    requires i < 128
    ensures PolyOf(x)[i] == x[i / 8][7 - i % 8]
  {}

  lemma ZeroBlock(z: Block)
    requires forall i :: 0 <= i < 16 ==> z[i] == ZeroByte()
    ensures PolyOf(z) == F.Zeros(128)
  {}

  lemma NothingLeft(z: F.Poly, v: F.Poly)
    requires |z| == |v| == 128
    ensures F.Xor(z, F.Act([], v, Taps())) == z
  {}

  method CopyBlock(from: array<Byte>, to: array<Byte>)
    requires from.Length == to.Length == 16 && from != to
    modifies to
    ensures to[..] == from[..]
  {
    for i := 0 to 16
      invariant forall k :: 0 <= k < i ==> to[k] == from[k]
    {
      to[i] := from[i];
    }
  }

  /** The product is linear in its first argument, and the remainder of the product of polynomials. */
  lemma MulIsField(a: F.Poly, b: F.Poly, c: F.Poly)
    requires |a| == |b| == |c| == 128
    ensures Mul(F.Xor(a, b), c) == F.Xor(Mul(a, c), Mul(b, c))
    ensures Mul(Mul(a, b), c) == Mul(a, Mul(b, c)) && Mul(a, b) == Mul(b, a)
    ensures F.IsRemainder(F.Product(a, b), Mul(a, b), Taps())
  {
    hide Taps;
    F.MulDistributes(a, b, c, Taps());
    F.MulAssociates(a, b, c, Taps());
    F.MulCommutes(a, b, Taps());
    F.MulIsRemainder(a, b, Taps());
  }
}
