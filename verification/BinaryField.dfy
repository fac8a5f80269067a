/** Arithmetic in GF(2)[x] modulo a polynomial of degree n, for any n.

    Both fields of the firmware are instances: GF(2^8)/0x11D of the QR error correction and
    GF(2^128) of GCM.  A polynomial is the sequence of its coefficients, lowest power first.
    A residue has exactly n of them, and the modulus x^n + t is given by its low part t
    (`taps`, n coefficients). */
module BinaryField {

  type Poly = seq<bool>

  // ---------------------------------------------------------------- vectors

  function Zeros(n: nat): (v: Poly)
    ensures |v| == n && forall i :: 0 <= i < n ==> !v[i]
  {
    seq(n, i => false)
  }

  /** The polynomial 1 as a residue. */
  function One(n: nat): (v: Poly)
    requires n > 0
    ensures |v| == n
  {
    [true] + Zeros(n - 1)
  }

  function Xor(a: Poly, b: Poly): (c: Poly)
    requires |a| == |b|
    ensures |c| == |a| && forall i :: 0 <= i < |a| ==> c[i] == (a[i] != b[i])
  {
    seq(|a|, i requires 0 <= i < |a| => a[i] != b[i])
  }

  /** b * v for a single coefficient b. */
  function Scale(b: bool, v: Poly): (c: Poly)
    ensures |c| == |v|
  {
    if b then v else Zeros(|v|)
  }

  /** Multiplication by x modulo x^n + taps. */
  function Times(v: Poly, taps: Poly): (c: Poly)
    requires |v| == |taps| > 0
    ensures |c| == |v|
  {
    Xor([false] + v[..|v| - 1], Scale(v[|v| - 1], taps))
  }

  /** p(x) * v modulo x^n + taps, for a polynomial p of any length, by Horner's rule. */
  function Act(p: Poly, v: Poly, taps: Poly): (c: Poly)
    requires |v| == |taps| > 0
    ensures |c| == |v|
  {
    if p == [] then Zeros(|v|) else Xor(Scale(p[0], v), Times(Act(p[1..], v, taps), taps))
  }

  lemma XorLaws(a: Poly, b: Poly, c: Poly)
    requires |a| == |b| == |c|
    ensures Xor(a, b) == Xor(b, a)
    ensures Xor(Xor(a, b), c) == Xor(a, Xor(b, c))
    ensures Xor(a, Zeros(|a|)) == a && Xor(Zeros(|a|), a) == a
    ensures Xor(a, a) == Zeros(|a|)
  {}

  lemma XorSwap(a: Poly, b: Poly, c: Poly, d: Poly)
    requires |a| == |b| == |c| == |d|
    ensures Xor(Xor(a, b), Xor(c, d)) == Xor(Xor(a, c), Xor(b, d))
  {}

  lemma ScaleXor(b: bool, v: Poly, w: Poly)
    requires |v| == |w|
    ensures Scale(b, Xor(v, w)) == Xor(Scale(b, v), Scale(b, w))
  {}

  /** Times, one coefficient. */
  lemma TimesAt(v: Poly, taps: Poly, i: nat)
    requires |v| == |taps| > 0 && i < |v|
    ensures Times(v, taps)[i] == ((if i == 0 then false else v[i - 1]) != (v[|v| - 1] && taps[i]))
  {}

  lemma TimesXor(v: Poly, w: Poly, taps: Poly)
    requires |v| == |w| == |taps| > 0
    ensures Times(Xor(v, w), taps) == Xor(Times(v, taps), Times(w, taps))
  {
    hide Times;
    var x, t, u := Times(Xor(v, w), taps), Times(v, taps), Times(w, taps);
    forall i | 0 <= i < |v|
      ensures x[i] == (t[i] != u[i])
    {
      TimesAt(v, taps, i);
      TimesAt(w, taps, i);
      TimesAt(Xor(v, w), taps, i);
    }
  }

  lemma TimesScale(b: bool, v: Poly, taps: Poly)
    requires |v| == |taps| > 0
    ensures Times(Scale(b, v), taps) == Scale(b, Times(v, taps))
  {}

  lemma ScaleSum(b: bool, c: bool, v: Poly)
    ensures Scale(b != c, v) == Xor(Scale(b, v), Scale(c, v))
  {}

  lemma XorTail(p: Poly, q: Poly)
    requires |p| == |q| > 0
    ensures Xor(p, q)[1..] == Xor(p[1..], q[1..])
  {}

  // ---------------------------------------------------------------- the action is bilinear and commutes

  lemma {:induction false} ActXor(p: Poly, v: Poly, w: Poly, taps: Poly)
    requires |v| == |w| == |taps| > 0
    ensures Act(p, Xor(v, w), taps) == Xor(Act(p, v, taps), Act(p, w, taps))
  {
    if p != [] {
      ActXor(p[1..], v, w, taps);
      var a, b := Act(p[1..], v, taps), Act(p[1..], w, taps);
      TimesXor(a, b, taps);
      ScaleXor(p[0], v, w);
      XorSwap(Scale(p[0], v), Scale(p[0], w), Times(a, taps), Times(b, taps));
    }
  }

  lemma {:induction false} ActTimes(p: Poly, v: Poly, taps: Poly)
    requires |v| == |taps| > 0
    ensures Act(p, Times(v, taps), taps) == Times(Act(p, v, taps), taps)
  {
    if p != [] {
      ActTimes(p[1..], v, taps);
      TimesScale(p[0], v, taps);
      TimesXor(Scale(p[0], v), Times(Act(p[1..], v, taps), taps), taps);
    }
  }

  lemma {:induction false} ActScale(p: Poly, b: bool, v: Poly, taps: Poly)
    requires |v| == |taps| > 0
    ensures Act(p, Scale(b, v), taps) == Scale(b, Act(p, v, taps))
  {
    if !b && p != [] {
      ActScale(p[1..], b, v, taps);
    }
  }

  lemma {:induction false} ActCommutes(p: Poly, q: Poly, v: Poly, taps: Poly)
    requires |v| == |taps| > 0
    ensures Act(p, Act(q, v, taps), taps) == Act(q, Act(p, v, taps), taps)
  {
    if p == [] {
      ActScale(q, false, v, taps);
    } else {
      ActCommutes(p[1..], q, v, taps);
      var a := Act(p[1..], v, taps);
      ActXor(q, Scale(p[0], v), Times(a, taps), taps);
      ActScale(q, p[0], v, taps);
      ActTimes(q, a, taps);
    }
  }

  /** Linearity in the polynomial that acts. */
  lemma {:induction false} ActXorLeft(p: Poly, q: Poly, v: Poly, taps: Poly)
    requires |p| == |q|
    requires |v| == |taps| > 0
    ensures Act(Xor(p, q), v, taps) == Xor(Act(p, v, taps), Act(q, v, taps))
  {
    if p != [] {
      XorTail(p, q);
      ActXorLeft(p[1..], q[1..], v, taps);
      var a, b := Act(p[1..], v, taps), Act(q[1..], v, taps);
      TimesXor(a, b, taps);
      ScaleSum(p[0], q[0], v);
      XorSwap(Scale(p[0], v), Scale(q[0], v), Times(a, taps), Times(b, taps));
    }
  }

  lemma {:induction false} ActZeros(k: nat, v: Poly, taps: Poly)
    requires |v| == |taps| > 0
    ensures Act(Zeros(k), v, taps) == Zeros(|v|)
  {
    if k > 0 {
      assert Zeros(k)[1..] == Zeros(k - 1);
      ActZeros(k - 1, v, taps);
    }
  }

  // ---------------------------------------------------------------- residues form a commutative ring

  /** A polynomial of degree below n, padded with zeros to n coefficients. */
  function Pad(p: Poly, n: nat): (v: Poly)
    requires |p| <= n
    ensures |v| == n
  {
    p + Zeros(n - |p|)
  }

  lemma PadStep(p: Poly, taps: Poly)
    requires 0 < |p| <= |taps|
    ensures Pad(p, |taps|) == Xor(Scale(p[0], One(|taps|)), Times(Pad(p[1..], |taps|), taps))
  {
    hide Times;
    var r, n := Pad(p[1..], |taps|), |taps|;
    var t := Times(r, taps);
    var x := Xor(Scale(p[0], One(n)), t);
    assert !r[n - 1];
    forall i | 0 <= i < n
      ensures Pad(p, n)[i] == x[i]
    {
      TimesAt(r, taps, i);
    }
  }

  lemma {:induction false} ActOne(p: Poly, taps: Poly)
    requires |p| <= |taps| && |taps| > 0
    ensures Act(p, One(|taps|), taps) == Pad(p, |taps|)
  {
    if p != [] {
      ActOne(p[1..], taps);
      PadStep(p, taps);
    } else {
      assert Pad(p, |taps|) == Zeros(|taps|);
    }
  }

  lemma ActOneSame(p: Poly, taps: Poly)
    requires |p| == |taps| > 0
    ensures Act(p, One(|taps|), taps) == p
  {
    ActOne(p, taps);
    assert Pad(p, |taps|) == p;
  }

  /** The product of two residues. */
  function Mul(a: Poly, b: Poly, taps: Poly): (c: Poly)
    requires |a| == |b| == |taps| > 0
    ensures |c| == |a|
  {
    Act(a, b, taps)
  }

  lemma MulCommutes(a: Poly, b: Poly, taps: Poly)
    requires |a| == |b| == |taps| > 0
    ensures Mul(a, b, taps) == Mul(b, a, taps)
  {
    var e := One(|taps|);
    ActOneSame(a, taps);
    ActOneSame(b, taps);
    ActCommutes(a, b, e, taps);
  }

  lemma MulAssociates(a: Poly, b: Poly, c: Poly, taps: Poly)
    requires |a| == |b| == |c| == |taps| > 0
    ensures Mul(Mul(a, b, taps), c, taps) == Mul(a, Mul(b, c, taps), taps)
  {
    MulCommutes(Mul(a, b, taps), c, taps);
    ActCommutes(c, a, b, taps);
    MulCommutes(c, b, taps);
  }

  lemma MulDistributes(a: Poly, b: Poly, c: Poly, taps: Poly)
    requires |a| == |b| == |c| == |taps| > 0
    ensures Mul(Xor(a, b), c, taps) == Xor(Mul(a, c, taps), Mul(b, c, taps))
    ensures Mul(c, Xor(a, b), taps) == Xor(Mul(c, a, taps), Mul(c, b, taps))
  {
    ActXorLeft(a, b, c, taps);
    ActXor(c, a, b, taps);
  }

  // ---------------------------------------------------------------- the product is the remainder of the product

  /** Coefficient i, zero beyond the end. */
  predicate Coeff(p: Poly, i: int) { 0 <= i < |p| && p[i] }

  /** Sum of polynomials of any lengths. */
  function Add(p: Poly, q: Poly): (r: Poly)
    ensures |r| == if |p| >= |q| then |p| else |q|
    ensures forall i :: 0 <= i < |r| ==> r[i] == (Coeff(p, i) != Coeff(q, i))
  {
    seq(if |p| >= |q| then |p| else |q|, i requires 0 <= i => Coeff(p, i) != Coeff(q, i))
  }

  /** The schoolbook product: no modulus anywhere. */
  function Product(p: Poly, q: Poly): Poly {
    if p == [] then [] else Add(Scale(p[0], q), [false] + Product(p[1..], q))
  }

  /** The same polynomial up to leading zeros. */
  ghost predicate Same(p: Poly, q: Poly) {
    forall i: int :: Coeff(p, i) == Coeff(q, i)
  }

  /** The modulus x^n + taps itself. */
  function Modulus(taps: Poly): Poly { taps + [true] }

  /** r is the remainder of p on division by the modulus. */
  ghost predicate IsRemainder(p: Poly, r: Poly, taps: Poly) {
    |r| == |taps| && exists q: Poly :: Same(p, Add(r, Product(q, Modulus(taps))))
  }

  lemma CoeffAdd(p: Poly, q: Poly)
    ensures forall i: int :: Coeff(Add(p, q), i) == (Coeff(p, i) != Coeff(q, i))
  {}

  lemma CoeffShift(p: Poly)
    ensures forall i: int :: Coeff([false] + p, i) == Coeff(p, i - 1)
  {}

  lemma CoeffProduct(p: Poly, q: Poly)
    requires p != []
    ensures forall i: int :: Coeff(Product(p, q), i) == ((p[0] && Coeff(q, i)) != Coeff(Product(p[1..], q), i - 1))
  {
    CoeffAdd(Scale(p[0], q), [false] + Product(p[1..], q));
    CoeffShift(Product(p[1..], q));
    forall i: int
      ensures Coeff(Product(p, q), i) == ((p[0] && Coeff(q, i)) != Coeff(Product(p[1..], q), i - 1))
    {
      assert Coeff(Scale(p[0], q), i) == (p[0] && Coeff(q, i));
    }
  }

  /** Horner's rule modulo x^n + taps differs from the schoolbook product by a multiple of the
      modulus; `q` is the quotient, one coefficient a step. */
  lemma {:induction false} ActIsRemainder(p: Poly, v: Poly, taps: Poly) returns (q: Poly)
    requires |v| == |taps| > 0
    ensures Same(Product(p, v), Add(Act(p, v, taps), Product(q, Modulus(taps))))
  {
    var n := |taps|;
    if p == [] {
      q := [];
    } else {
      var q1 := ActIsRemainder(p[1..], v, taps);
      var a := Act(p[1..], v, taps);
      var top := a[n - 1];
      q := [top] + q1;
      assert q[1..] == q1;
      CoeffProduct(p, v);
      CoeffProduct(q, Modulus(taps));
      var m1 := Product(q1, Modulus(taps));
      CoeffAdd(a, m1);
      CoeffAdd(Act(p, v, taps), Product(q, Modulus(taps)));
      forall i: int
        ensures Coeff(Product(p, v), i) == (Coeff(Act(p, v, taps), i) != Coeff(Product(q, Modulus(taps)), i))
      {
        assert Coeff(Product(p[1..], v), i - 1) == (Coeff(a, i - 1) != Coeff(m1, i - 1));
        TimesCoeff(a, taps, i);
        assert Coeff(Act(p, v, taps), i) == (Coeff(Scale(p[0], v), i) != Coeff(Times(a, taps), i));
        assert Coeff(Scale(p[0], v), i) == (p[0] && Coeff(v, i));
      }
    }
  }

  /** Times(a) is x * a, less the modulus when the top coefficient overflows. */
  lemma TimesCoeff(a: Poly, taps: Poly, i: int)
    requires |a| == |taps| > 0
    ensures Coeff(Times(a, taps), i) == (Coeff(a, i - 1) != (a[|a| - 1] && Coeff(Modulus(taps), i)))
  {}

  /** Mul is multiplication modulo x^n + taps in the usual sense. */
  lemma MulIsRemainder(a: Poly, b: Poly, taps: Poly)
    requires |a| == |b| == |taps| > 0
    ensures IsRemainder(Product(a, b), Mul(a, b, taps), taps)
  {
    var q := ActIsRemainder(a, b, taps);
  }

  // ---------------------------------------------------------------- remainders are unique

  /** A product with the modulus that is shorter than it is zero. */
  lemma {:induction false} SmallMultiple(q: Poly, taps: Poly)
    requires forall i: int :: i >= |taps| ==> !Coeff(Product(q, Modulus(taps)), i)
    ensures forall i: int :: !Coeff(q, i) && !Coeff(Product(q, Modulus(taps)), i)
    decreases |q|
  {
    var n := |taps|;
    if q != [] {
      var m := Product(q[1..], Modulus(taps));
      CoeffProduct(q, Modulus(taps));
      forall i: int | i >= n
        ensures !Coeff(m, i)
      {
        assert !Coeff(Product(q, Modulus(taps)), i + 1);
        assert !Coeff(Modulus(taps), i + 1);
      }
      SmallMultiple(q[1..], taps);
      assert Coeff(Modulus(taps), n);
      assert !Coeff(Product(q, Modulus(taps)), n);
      assert !Coeff(m, n - 1);
      assert !q[0];
      forall i: int
        ensures !Coeff(q, i)
      {
        assert !Coeff(q[1..], i - 1);
      }
    }
  }

  lemma {:induction false} ProductAddLeft(p: Poly, q: Poly, m: Poly)
    ensures Same(Product(Add(p, q), m), Add(Product(p, m), Product(q, m)))
    decreases |p| + |q|
  {
    if p == [] || q == [] {
      assert Add(p, q) == if p == [] then q else p;
    } else {
      var s := Add(p, q);
      assert s[1..] == Add(p[1..], q[1..]) by {
        assert forall i :: 0 <= i < |s| - 1 ==> Coeff(p, i + 1) == Coeff(p[1..], i) && Coeff(q, i + 1) == Coeff(q[1..], i);
      }
      ProductAddLeft(p[1..], q[1..], m);
      CoeffProduct(s, m);
      CoeffProduct(p, m);
      CoeffProduct(q, m);
      CoeffAdd(Product(p[1..], m), Product(q[1..], m));
      CoeffAdd(Product(p, m), Product(q, m));
    }
  }

  /** At most one residue is the remainder, so IsRemainder pins Mul down. */
  lemma RemainderUnique(p: Poly, r: Poly, s: Poly, taps: Poly)
    requires IsRemainder(p, r, taps) && IsRemainder(p, s, taps)
    ensures r == s
  {
    var m := Modulus(taps);
    var a: Poly :| Same(p, Add(r, Product(a, m)));
    var b: Poly :| Same(p, Add(s, Product(b, m)));
    CoeffAdd(r, Product(a, m));
    CoeffAdd(s, Product(b, m));
    var d := Add(a, b);
    ProductAddLeft(a, b, m);
    CoeffAdd(Product(a, m), Product(b, m));
    forall i: int | i >= |taps|
      ensures !Coeff(Product(d, m), i)
    {
      assert Coeff(p, i) == Coeff(Product(a, m), i);
      assert Coeff(p, i) == Coeff(Product(b, m), i);
    }
    SmallMultiple(d, taps);
    forall i | 0 <= i < |taps|
      ensures r[i] == s[i]
    {
      assert !Coeff(Product(d, m), i);
      assert Coeff(p, i) == (Coeff(r, i) != Coeff(Product(a, m), i));
    }
  }
}
