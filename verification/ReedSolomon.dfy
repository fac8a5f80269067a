/** The Reed-Solomon generator of main/ui/qrcode.c (section 7.5 of ISO/IEC 18004:2015): the error
    correction bytes of a block complete it to a multiple of (x - 2^0)(x - 2^1)...(x - 2^(d-1)). */
module ReedSolomon {
  import opened Bytes
  import opened Gf256
  import opened Polynomials
  import opened Strided
  import F = BinaryField

  /** GF(2^8)/0x11D. */
  function Gf(): Field<Elem> { Field(Zero(), One(), Plus, Mul) }

  lemma GfLaws()
    ensures Laws(Gf())
  {
    forall a: Elem, b: Elem, c: Elem {:trigger At(a, b, c)} | At(a, b, c)
      ensures && Plus(a, b) == Plus(b, a)
              && Plus(Plus(a, b), c) == Plus(a, Plus(b, c))
              && Plus(a, Zero()) == a && Plus(Zero(), a) == a && Plus(a, a) == Zero()
              && Mul(a, b) == Mul(b, a)
              && Mul(Mul(a, b), c) == Mul(a, Mul(b, c))
              && Mul(Plus(a, b), c) == Plus(Mul(a, c), Mul(b, c))
              && Mul(a, Zero()) == Zero() && Mul(Zero(), a) == Zero()
              && Mul(One(), a) == a && Mul(a, One()) == a
    {
      PlusLaws(a, b, c);
      MulLaws(a, b, c);
      MulUnits(a);
    }
  }

  /** 2^i in the field. */
  function Alpha(i: nat): Elem {
    if i == 0 then One() else F.Times(Alpha(i - 1), Taps())
  }

  function Roots(d: nat): (r: seq<Elem>)
    ensures |r| == d && forall i :: 0 <= i < d ==> r[i] == Alpha(i)
  {
    seq(d, i requires 0 <= i => Alpha(i))
  }

  /** (x - 2^0)(x - 2^1)...(x - 2^(d-1)). */
  function Generator(d: nat): (g: seq<Elem>)
    ensures |g| == d + 1
  {
    FromRoots(Gf(), Roots(d))
  }

  // ---------------------------------------------------------------- rs_init

  /** The generator after i factors, as rs_init keeps it: the coefficients of x^(d-1) ... x^0. */
  ghost predicate HoldsGenerator(coeff: seq<Byte>, i: nat) {
    forall j {:trigger coeff[j]} :: 0 <= j < |coeff| ==>
      coeff[j] == Coef(Gf(), Generator(i), |coeff| - 1 - j)
  }

  lemma GeneratorStep(i: nat, k: int)
    ensures Coef(Gf(), Generator(i + 1), k) ==
            Plus(Mul(Coef(Gf(), Generator(i), k), Alpha(i)), Coef(Gf(), Generator(i), k - 1))
  {
    GfLaws();
    assert Roots(i + 1)[..i] == Roots(i);
    CoefLinear(Gf(), Generator(i), Alpha(i), k);
  }

  const TWO: Elem := [false, true, false, false, false, false, false, false]
  const THREE: Elem := [true, true, false, false, false, false, false, false]

  /** The first generators of Annex A of ISO/IEC 18004:2015: x + 1 and x^2 + 3 x + 2. */
  lemma GeneratorsAre()
    ensures Generator(1) == [One(), One()] && Generator(2) == [One(), THREE, TWO]
  {
    hide F.Times, FromRoots, Coef, Mul, Plus, Generator;
    FirstPowers();
    Sums();
    FirstGenerator();
    GfLaws();
    PlusLaws(One(), One(), One());
    PlusLaws(TWO, TWO, TWO);
    MulUnits(One());
    MulUnits(TWO);
    GeneratorStep(0, 0);
    GeneratorStep(0, 1);
    GeneratorStep(0, -1);
    GeneratorStep(1, 0);
    GeneratorStep(1, 1);
    GeneratorStep(1, 2);
    CoefsOf(Generator(1));
    CoefsOf(Generator(2));
  }

  lemma FirstPowers()
    ensures Alpha(0) == One() && Alpha(1) == TWO
  {}

  lemma Sums()
    ensures Plus(TWO, One()) == THREE
  {}

  lemma FirstGenerator()
    ensures Coef(Gf(), Generator(0), 0) == One() && Coef(Gf(), Generator(0), -1) == Zero() && Coef(Gf(), Generator(0), 1) == Zero()
  {}

  lemma CoefsOf(g: seq<Elem>)
    ensures forall i :: 0 <= i < |g| ==> g[i] == Coef(Gf(), g, |g| - 1 - i)
    ensures Coef(Gf(), g, -1) == Zero() && Coef(Gf(), g, |g|) == Zero()
  {}

  /** rs_init: coeff becomes the generator polynomial without its leading 1. */
  method RsInit(degree: nat, coeff: array<Byte>)
    requires degree == coeff.Length > 0
    modifies coeff
    ensures [One()] + coeff[..] == Generator(degree)
  {
    hide HoldsGenerator, F.Times;
    for j := 0 to degree
      invariant forall k :: 0 <= k < j ==> coeff[k] == Zero()
    {
      coeff[j] := Zero();
    }
    coeff[degree - 1] := One();
    HoldsOne(coeff[..]);
    var root := One();
    for i := 0 to degree
      invariant HoldsGenerator(coeff[..], i)
      invariant root == Alpha(i)
    {
      MultiplyByRoot(coeff, i, root);
      root := Double(root);
    }
    HoldsAll(coeff[..]);
  }

  /** No factor yet: the polynomial 1. */
  lemma HoldsOne(coeff: seq<Byte>)
    requires coeff != [] && coeff[|coeff| - 1] == One() && forall k :: 0 <= k < |coeff| - 1 ==> coeff[k] == Zero()
    ensures HoldsGenerator(coeff, 0)
  {
    assert Roots(0) == [];
    assert Generator(0) == [One()];
  }

  /** All factors: everything but the leading 1. */
  lemma HoldsAll(coeff: seq<Byte>)
    requires HoldsGenerator(coeff, |coeff|)
    ensures [One()] + coeff == Generator(|coeff|)
  {
    hide Generator;
    GeneratorMonic(|coeff|);
    var g := [One()] + coeff;
    forall j | 0 <= j < |g|
      ensures g[j] == Generator(|coeff|)[j]
    {
      if j > 0 {
        assert g[j] == coeff[j - 1];
      }
    }
  }

  /** The factor x - 2^i moves the leading coefficient up. */
  lemma TopStep(i: nat)
    ensures Coef(Gf(), Generator(i + 1), i + 1) == Coef(Gf(), Generator(i), i)
  {
    hide Mul, Plus, Coef, Generator, Zero, One, Gf;
    var top := Coef(Gf(), Generator(i), i);
    GeneratorStep(i, i + 1);
    NoCoefAbove(Generator(i), i + 1);
    MulUnits(Alpha(i));
    PlusLaws(top, top, top);
  }

  lemma {:induction false} GeneratorMonic(i: nat)
    ensures Generator(i)[0] == One()
  {
    if i > 0 {
      hide Coef, Generator, Gf, One;
      GeneratorMonic(i - 1);
      TopStep(i - 1);
      TopCoef(Generator(i), i);
      TopCoef(Generator(i - 1), i - 1);
    }
  }

  lemma TopCoef(g: seq<Byte>, d: nat)
    requires |g| == d + 1
    ensures Coef(Gf(), g, d) == g[0]
  {}

  lemma NoCoefAbove(g: seq<Byte>, k: nat)
    requires |g| <= k
    ensures Coef(Gf(), g, k) == Zero()
  {}

  /** The body of that loop: coefficient j times the root, plus its right neighbour if there is one. */
  method OneCoefficient(coeff: seq<Byte>, j: nat, root: Byte) returns (c: Byte)
    requires j < |coeff|
    ensures c == Plus(Mul(coeff[j], root), if j + 1 < |coeff| then coeff[j + 1] else Zero())
  {
    c := RsMultiply(coeff[j], root);
    PlusLaws(c, Zero(), Zero());
    if j + 1 < |coeff| {
      c := XorByte(c, coeff[j + 1]);
    }
  }

  /** The inner loop of rs_init: one factor more. */
  method MultiplyByRoot(coeff: array<Byte>, ghost i: nat, root: Byte)
    requires HoldsGenerator(coeff[..], i) && root == Alpha(i)
    modifies coeff
    ensures HoldsGenerator(coeff[..], i + 1)
  {
    hide Mul, Plus, F.Times, Generator;
    var degree := coeff.Length;
    for j := 0 to degree
      invariant forall k :: 0 <= k < j ==> coeff[k] == Coef(Gf(), Generator(i + 1), degree - 1 - k)
      invariant forall k :: j <= k < degree ==> coeff[k] == Coef(Gf(), Generator(i), degree - 1 - k)
    {
      GeneratorStep(i, degree - 1 - j);
      coeff[j] := OneCoefficient(coeff[..], j, root);
    }
  }

  // ---------------------------------------------------------------- rs_getRemainder

  /** Nothing but the strided slots changed. */
  twostate predicate OnlySlots(result: array<Byte>, start: nat, stride: nat, n: nat)
    reads result
  {
    forall k :: 0 <= k < result.Length && !OnSlot(k, start, stride, n) ==> result[k] == old(result[k])
  }

  /** result[j * stride] = b, seen from the register. */
  method WriteSlot(result: array<Byte>, start: nat, stride: nat, ghost degree: nat, j: nat, b: Byte)
    requires Fits(result.Length, start, stride, degree) && j < degree
    modifies result
    ensures Gather(result[..], start, stride, degree) == old(Gather(result[..], start, stride, degree))[j := b]
    ensures OnlySlots(result, start, stride, degree)
  {
    GatherWrite(result[..], start, stride, degree, j, b);
    assert OnSlot(Slot(start, stride, j), start, stride, degree);
    ghost var before := result[..];
    result[Slot(start, stride, j)] := b;
    assert result[..] == before[Slot(start, stride, j) := b];
  }

  method ReadSlot(result: array<Byte>, start: nat, stride: nat, ghost degree: nat, j: nat) returns (b: Byte)
    requires Fits(result.Length, start, stride, degree) && j < degree
    ensures b == Gather(result[..], start, stride, degree)[j]
  {
    GatherWrite(result[..], start, stride, degree, j, ZeroByte());
    b := result[Slot(start, stride, j)];
  }

  /** The register moves up one place; a zero comes in at the end. */
  method ShiftDown(degree: nat, result: array<Byte>, start: nat, stride: nat)
    requires degree > 0 && Fits(result.Length, start, stride, degree)
    modifies result
    ensures Gather(result[..], start, stride, degree)
            == old(Gather(result[..], start, stride, degree))[1..] + [Zero()]
    ensures OnlySlots(result, start, stride, degree)
  {
    hide Slot, Gather, Fits, Moved, OnSlot;
    ghost var r := Gather(result[..], start, stride, degree);
    MovedNone(r);
    for j := 1 to degree
      invariant Gather(result[..], start, stride, degree) == Moved(r, j)
      invariant OnlySlots(result, start, stride, degree)
    {
      MovedOne(r, j);
      var b := ReadSlot(result, start, stride, degree, j);
      WriteSlot(result, start, stride, degree, j - 1, b);
    }
    MovedAll(r);
    WriteSlot(result, start, stride, degree, degree - 1, Zero());
  }

  /** The register with its first j - 1 places moved up. */
  function Moved(r: seq<Byte>, j: nat): (m: seq<Byte>)
    requires 1 <= j <= |r|
    ensures |m| == |r|
  {
    r[1..j] + r[j - 1..]
  }

  lemma MovedNone(r: seq<Byte>)
    requires r != []
    ensures Moved(r, 1) == r
  {}

  lemma MovedOne(r: seq<Byte>, j: nat)
    requires 1 <= j < |r|
    ensures Moved(r, j)[j] == r[j] && Moved(r, j)[j - 1 := r[j]] == Moved(r, j + 1)
  {}

  lemma MovedAll(r: seq<Byte>)
    requires r != []
    ensures Moved(r, |r|)[|r| - 1 := Zero()] == r[1..] + [Zero()]
  {}

  /** The register takes in a multiple of the generator's lower coefficients. */
  method AddMultiple(coeff: array<Byte>, factor: Byte, result: array<Byte>, start: nat, stride: nat)
    requires coeff != result && Fits(result.Length, start, stride, coeff.Length)
    modifies result
    ensures Gather(result[..], start, stride, coeff.Length) ==
            PlusAll(Gf(), old(Gather(result[..], start, stride, coeff.Length)), Scaled(Gf(), factor, coeff[..]))
    ensures OnlySlots(result, start, stride, coeff.Length)
  {
    hide Slot, Mul, Plus, Gf, Gather, Zero, One;
    var degree := coeff.Length;
    ghost var r := Gather(result[..], start, stride, degree);
    ghost var sum := PlusAll(Gf(), r, Scaled(Gf(), factor, coeff[..]));
    for j := 0 to degree
      invariant Gather(result[..], start, stride, degree) == sum[..j] + r[j..]
      invariant OnlySlots(result, start, stride, degree)
    {
      var b := ReadSlot(result, start, stride, degree, j);
      b := AddProduct(b, coeff[j], factor);
      SumAt(r, factor, coeff[..], j);
      Advance(sum, r, j);
      WriteSlot(result, start, stride, degree, j, b);
    }
  }

  lemma Advance<T>(done: seq<T>, todo: seq<T>, j: nat)
    requires j < |done| == |todo|
    ensures (done[..j] + todo[j..])[j] == todo[j]
    ensures (done[..j] + todo[j..])[j := done[j]] == done[..j + 1] + todo[j + 1..]
  {}

  lemma SumAt(r: seq<Byte>, factor: Byte, low: seq<Byte>, j: nat)
    requires j < |r| == |low|
    ensures PlusAll(Gf(), r, Scaled(Gf(), factor, low))[j] == Plus(r[j], Mul(factor, low[j]))
  {
    hide Mul, Plus;
  }

  /** b ^ rs_multiply(c, factor). */
  method AddProduct(b: Byte, c: Byte, factor: Byte) returns (s: Byte)
    ensures s == Plus(b, Mul(factor, c))
  {
    var product := RsMultiply(c, factor);
    MulLaws(c, factor, c);
    s := XorByte(b, product);
  }

  /** One round of rs_getRemainder: the register takes in the data byte c. */
  method TakeIn(coeff: array<Byte>, c: Byte, result: array<Byte>, start: nat, stride: nat)
    requires coeff.Length > 0 && coeff != result
    requires Fits(result.Length, start, stride, coeff.Length)
    modifies result
    ensures Gather(result[..], start, stride, coeff.Length)
            == Shift(Gf(), coeff[..], old(Gather(result[..], start, stride, coeff.Length)), c)
    ensures OnlySlots(result, start, stride, coeff.Length)
  {
    var degree := coeff.Length;
    ghost var r := Gather(result[..], start, stride, degree);
    GatherWrite(result[..], start, stride, degree, 0, Zero());
    assert Slot(start, stride, 0) == start;
    var factor := XorByte(c, result[start]);
    ShiftDown(degree, result, start, stride);
    AddMultiple(coeff, factor, result, start, stride);
    ShiftAsSum(coeff[..], r, c);
  }

  lemma ShiftAsSum(low: seq<Byte>, r: seq<Byte>, c: Byte)
    requires |r| == |low| > 0
    ensures Shift(Gf(), low, r, c) == PlusAll(Gf(), r[1..] + [Zero()], Scaled(Gf(), Plus(c, r[0]), low))
  {
    hide Mul, Plus;
    GfLaws();
    var factor := Gf().plus(c, r[0]);
    forall j | 0 <= j < |r|
      ensures Shift(Gf(), low, r, c)[j] == Gf().plus((r[1..] + [Zero()])[j], Gf().mul(factor, low[j]))
    {
      assert At(low[j], factor, factor);
    }
  }

  /** rs_getRemainder: the strided slots, zero before, hold the remainder afterwards. */
  method RsGetRemainder(coeff: array<Byte>, data: seq<Byte>, result: array<Byte>, start: nat, stride: nat)
    requires coeff.Length > 0 && coeff != result
    requires Fits(result.Length, start, stride, coeff.Length)
    requires Gather(result[..], start, stride, coeff.Length) == Nulls(Gf(), coeff.Length)
    modifies result
    ensures Gather(result[..], start, stride, coeff.Length) == Remainder(Gf(), coeff[..], data)
    ensures OnlySlots(result, start, stride, coeff.Length)
  {
    for i := 0 to |data|
      invariant Gather(result[..], start, stride, coeff.Length) == Remainder(Gf(), coeff[..], data[..i])
      invariant OnlySlots(result, start, stride, coeff.Length)
    {
      assert data[..i + 1][..i] == data[..i];
      TakeIn(coeff, data[i], result, start, stride);
    }
    assert data[..|data|] == data;
  }

  /** What the remainder is for: the block followed by it is a codeword of the generator, and so
      vanishes at 2^0, ..., 2^(d-1). */
  lemma BlockIsCodeword(d: nat, coeff: seq<Byte>, data: seq<Byte>)
    requires d > 0 && [One()] + coeff == Generator(d)
    ensures Divides(Gf(), Generator(d), data + Remainder(Gf(), coeff, data))
    ensures forall i :: 0 <= i < d ==>
              Eval(Gf(), data + Remainder(Gf(), coeff, data), Alpha(i)) == Zero()
  {
    GfLaws();
    var q := RemainderCompletes(Gf(), coeff, data);
    var word := data + Remainder(Gf(), coeff, data);
    forall i | 0 <= i < d
      ensures Eval(Gf(), word, Alpha(i)) == Zero()
    {
      MultipleVanishes(Gf(), Roots(d), word, i);
    }
  }
}
