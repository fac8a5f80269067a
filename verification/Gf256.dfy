/** GF(2^8) modulo x^8 + x^4 + x^3 + x^2 + 1 (0x11D), in which the QR error correction computes.

    A byte is an element: bit i is the coefficient of x^i. */
module Gf256 {
  import opened Bytes
  import F = BinaryField

  type Elem = Byte

  /** x^4 + x^3 + x^2 + 1: the modulus 0x11D without its leading term. */
  function Taps(): Elem {
    [true, false, true, true, true, false, false, false]
  }

  function Zero(): Elem { F.Zeros(8) }
  function One(): Elem { F.One(8) }
  function Plus(x: Elem, y: Elem): Elem { F.Xor(x, y) }
  function Mul(x: Elem, y: Elem): Elem { F.Mul(x, y, Taps()) }

  // ---------------------------------------------------------------- the field laws

  lemma PlusLaws(x: Elem, y: Elem, z: Elem)
    ensures Plus(x, y) == Plus(y, x) && Plus(Plus(x, y), z) == Plus(x, Plus(y, z))
    ensures Plus(x, Zero()) == x && Plus(Zero(), x) == x && Plus(x, x) == Zero()
  {
    F.XorLaws(x, y, z);
  }

  lemma MulLaws(x: Elem, y: Elem, z: Elem)
    ensures Mul(x, y) == Mul(y, x)
    ensures Mul(Mul(x, y), z) == Mul(x, Mul(y, z))
    ensures Mul(Plus(x, y), z) == Plus(Mul(x, z), Mul(y, z))
    ensures Mul(z, Plus(x, y)) == Plus(Mul(z, x), Mul(z, y))
  {
    F.MulCommutes(x, y, Taps());
    F.MulAssociates(x, y, z, Taps());
    F.MulDistributes(x, y, z, Taps());
  }

  /** The product is the remainder of the polynomial product on division by 0x11D. */
  lemma MulIsModular(x: Elem, y: Elem)
    ensures F.IsRemainder(F.Product(x, y), Mul(x, y), Taps())
  {
    F.MulIsRemainder(x, y, Taps());
  }

  lemma MulUnits(x: Elem)
    ensures Mul(x, Zero()) == Zero() && Mul(Zero(), x) == Zero()
    ensures Mul(One(), x) == x && Mul(x, One()) == x
  {
    F.ActZeros(8, x, Taps());
    F.MulCommutes(x, Zero(), Taps());
    F.ActOneSame(x, Taps());
    F.MulCommutes(x, One(), Taps());
  }

  // ---------------------------------------------------------------- rs_multiply

  /** The modulus 0x11D itself: nine coefficients. */
  function Modulus(): F.Poly { F.Modulus(Taps()) }

  /** (z << 1) ^ ((z >> 7) * 0x11D) in the 16-bit register: bit 8 always cancels. */
  method Double(z: Byte) returns (d: Byte)
    ensures d == F.Times(z, Taps())
  {
    var wide := [false] + z;
    if z[7] {
      wide := F.Xor(wide, Modulus());
    }
    assert !wide[8];
    d := wide[..8];
    assert z == z[..7] + [z[7]];
  }

  /** rs_multiply: the product by Russian peasant multiplication, highest bit of y first. */
  method RsMultiply(x: Byte, y: Byte) returns (z: Byte)
    ensures z == Mul(x, y)
  {
    z := ZeroByte();
    for i := 8 downto 0
      invariant z == F.Act(y[i..], x, Taps())
    {
      assert y[i..][1..] == y[i + 1..];
      z := Double(z);
      PlusLaws(z, x, Zero());
      if y[i] {
        z := XorByte(z, x);
      }
    }
    F.MulCommutes(y, x, Taps());
  }
}
