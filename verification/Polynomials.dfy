/** Polynomials over any field of characteristic two, coefficients in order of descending powers. */
module Polynomials {

  datatype Field<!E> = Field(zero: E, one: E, plus: (E, E) -> E, mul: (E, E) -> E)

  /** Names the elements an instance of the field laws is wanted for. */
  predicate At<E>(a: E, b: E, c: E) { true }

  ghost predicate Laws<E(!new)>(f: Field<E>) {
    forall a: E, b: E, c: E {:trigger At(a, b, c)} ::
      At(a, b, c) ==>
      && f.plus(a, b) == f.plus(b, a)
      && f.plus(f.plus(a, b), c) == f.plus(a, f.plus(b, c))
      && f.plus(a, f.zero) == a && f.plus(f.zero, a) == a && f.plus(a, a) == f.zero
      && f.mul(a, b) == f.mul(b, a)
      && f.mul(f.mul(a, b), c) == f.mul(a, f.mul(b, c))
      && f.mul(f.plus(a, b), c) == f.plus(f.mul(a, c), f.mul(b, c))
      && f.mul(a, f.zero) == f.zero && f.mul(f.zero, a) == f.zero
      && f.mul(f.one, a) == a && f.mul(a, f.one) == a
  }

  function Nulls<E>(f: Field<E>, n: nat): (p: seq<E>)
    ensures |p| == n && forall i :: 0 <= i < n ==> p[i] == f.zero
  {
    seq(n, i => f.zero)
  }

  function PlusAll<E>(f: Field<E>, p: seq<E>, q: seq<E>): (r: seq<E>)
    requires |p| == |q|
    ensures |r| == |p| && forall i :: 0 <= i < |p| ==> r[i] == f.plus(p[i], q[i])
  {
    seq(|p|, i requires 0 <= i < |p| => f.plus(p[i], q[i]))
  }

  function Scaled<E>(f: Field<E>, c: E, p: seq<E>): (r: seq<E>)
    ensures |r| == |p| && forall i :: 0 <= i < |p| ==> r[i] == f.mul(c, p[i])
  {
    seq(|p|, i requires 0 <= i < |p| => f.mul(c, p[i]))
  }

  /** The value of a polynomial at x. */
  function Eval<E>(f: Field<E>, p: seq<E>, x: E): E {
    if p == [] then f.zero else f.plus(f.mul(Eval(f, p[..|p| - 1], x), x), p[|p| - 1])
  }

  /** The product of two polynomials. */
  function Times<E>(f: Field<E>, p: seq<E>, g: seq<E>): (r: seq<E>)
    requires g != []
    ensures |r| == |p| + |g| - 1
  {
    if p == [] then Nulls(f, |g| - 1)
    else
      var n := |p| - 1;
      PlusAll(f, Times(f, p[..n], g) + [f.zero], Nulls(f, n) + Scaled(f, p[n], g))
  }

  ghost predicate Divides<E(!new)>(f: Field<E>, g: seq<E>, p: seq<E>)
    requires g != []
  {
    exists q: seq<E> :: p == Times(f, q, g)
  }

  // ---------------------------------------------------------------- evaluation is a homomorphism

  lemma EvalSnoc<E>(f: Field<E>, p: seq<E>, c: E, x: E)
    ensures Eval(f, p + [c], x) == f.plus(f.mul(Eval(f, p, x), x), c)
  {
    assert (p + [c])[..|p|] == p;
  }

  lemma {:induction false} EvalPlus<E(!new)>(f: Field<E>, p: seq<E>, q: seq<E>, x: E)
    requires Laws(f) && |p| == |q|
    ensures Eval(f, PlusAll(f, p, q), x) == f.plus(Eval(f, p, x), Eval(f, q, x))
  {
    if p == [] {
      assert At(f.zero, f.zero, f.zero);
    } else {
      var n := |p| - 1;
      EvalPlus(f, p[..n], q[..n], x);
      assert PlusAll(f, p, q)[..n] == PlusAll(f, p[..n], q[..n]);
      var a, b := Eval(f, p[..n], x), Eval(f, q[..n], x);
      assert At(a, b, x);
      PlusSwap(f, f.mul(a, x), f.mul(b, x), p[n], q[n]);
    }
  }

  lemma PlusSwap<E(!new)>(f: Field<E>, a: E, b: E, c: E, d: E)
    requires Laws(f)
    ensures f.plus(f.plus(a, b), f.plus(c, d)) == f.plus(f.plus(a, c), f.plus(b, d))
  {
    assert At(a, b, f.plus(c, d)) && At(b, c, d) && At(c, b, d) && At(a, c, f.plus(b, d));
  }

  lemma {:induction false} EvalScaled<E(!new)>(f: Field<E>, c: E, p: seq<E>, x: E)
    requires Laws(f)
    ensures Eval(f, Scaled(f, c, p), x) == f.mul(c, Eval(f, p, x))
  {
    if p == [] {
      assert At(c, c, c);
    } else {
      var n := |p| - 1;
      var e := Eval(f, p[..n], x);
      EvalScaled(f, c, p[..n], x);
      assert Scaled(f, c, p)[..n] == Scaled(f, c, p[..n]);
      assert At(c, e, x) && At(f.mul(e, x), p[n], c);
      assert At(c, f.plus(f.mul(e, x), p[n]), c) && At(f.mul(e, x), c, c) && At(p[n], c, c);
    }
  }

  lemma {:induction false} EvalPadded<E(!new)>(f: Field<E>, n: nat, p: seq<E>, x: E)
    requires Laws(f)
    ensures Eval(f, Nulls(f, n) + p, x) == Eval(f, p, x)
    decreases n + |p|
  {
    var w := Nulls(f, n) + p;
    if p != [] {
      assert w[..|w| - 1] == Nulls(f, n) + p[..|p| - 1];
      EvalPadded(f, n, p[..|p| - 1], x);
    } else if n > 0 {
      assert w[..|w| - 1] == Nulls(f, n - 1) + [];
      EvalPadded(f, n - 1, [], x);
      assert At(x, x, x) && At(f.zero, x, x);
    }
  }

  lemma {:induction false} EvalTimes<E(!new)>(f: Field<E>, p: seq<E>, g: seq<E>, x: E)
    requires Laws(f) && g != []
    ensures Eval(f, Times(f, p, g), x) == f.mul(Eval(f, p, x), Eval(f, g, x))
  {
    var ge := Eval(f, g, x);
    if p == [] {
      assert Nulls(f, |g| - 1) == Nulls(f, |g| - 1) + [];
      EvalPadded(f, |g| - 1, [], x);
      assert At(ge, ge, ge);
    } else {
      var n := |p| - 1;
      var t, e := Times(f, p[..n], g), Eval(f, p[..n], x);
      EvalTimes(f, p[..n], g, x);
      EvalPlus(f, t + [f.zero], Nulls(f, n) + Scaled(f, p[n], g), x);
      EvalSnoc(f, t, f.zero, x);
      EvalPadded(f, n, Scaled(f, p[n], g), x);
      EvalScaled(f, p[n], g, x);
      assert At(f.mul(f.mul(e, ge), x), x, x);
      assert At(e, ge, x) && At(ge, x, e) && At(e, x, ge);
      assert At(f.mul(e, x), p[n], ge);
    }
  }

  // ---------------------------------------------------------------- polynomials with given roots

  /** The product of (x - r) over the given roots; leading coefficient one. */
  function FromRoots<E>(f: Field<E>, roots: seq<E>): (g: seq<E>)
    ensures |g| == |roots| + 1
  {
    if roots == [] then [f.one]
    else
      var n := |roots| - 1;
      Times(f, FromRoots(f, roots[..n]), [f.one, roots[n]])
  }

  lemma {:induction false} FromRootsVanishes<E(!new)>(f: Field<E>, roots: seq<E>, i: nat)
    requires Laws(f) && i < |roots|
    ensures Eval(f, FromRoots(f, roots), roots[i]) == f.zero
  {
    hide Eval, Times;
    var n := |roots| - 1;
    var rest, linear := FromRoots(f, roots[..n]), [f.one, roots[n]];
    EvalTimes(f, rest, linear, roots[i]);
    if i < n {
      FromRootsVanishes(f, roots[..n], i);
      assert At(Eval(f, linear, roots[i]), f.zero, f.zero);
    } else {
      LinearVanishes(f, roots[n]);
      assert At(Eval(f, rest, roots[n]), f.zero, f.zero);
    }
  }

  lemma LinearVanishes<E(!new)>(f: Field<E>, r: E)
    requires Laws(f)
    ensures Eval(f, [f.one, r], r) == f.zero
  {
    EvalSnoc(f, [], f.one, r);
    assert [] + [f.one] == [f.one];
    EvalSnoc(f, [f.one], r, r);
    assert [f.one] + [r] == [f.one, r];
    assert At(r, r, r) && At(f.one, f.one, f.one) && At(f.zero, r, r);
  }

  /** A multiple of the polynomial vanishes at every root of it. */
  lemma MultipleVanishes<E(!new)>(f: Field<E>, roots: seq<E>, p: seq<E>, i: nat)
    requires Laws(f) && i < |roots|
    requires Divides(f, FromRoots(f, roots), p)
    ensures Eval(f, p, roots[i]) == f.zero
  {
    var g := FromRoots(f, roots);
    var q: seq<E> :| p == Times(f, q, g);
    EvalTimes(f, q, g, roots[i]);
    FromRootsVanishes(f, roots, i);
    assert At(Eval(f, q, roots[i]), f.zero, f.zero);
  }

  // ---------------------------------------------------------------- division by a monic polynomial

  /** One step of the shift register: r is the remainder so far, c the next coefficient of the
      dividend, and `low` the divisor without its leading one. */
  function Shift<E>(f: Field<E>, low: seq<E>, r: seq<E>, c: E): (r': seq<E>)
    requires |r| == |low| > 0
    ensures |r'| == |r|
  {
    var factor := f.plus(c, r[0]);
    seq(|r|, j requires 0 <= j < |r| =>
      f.plus(if j + 1 < |r| then r[j + 1] else f.zero, f.mul(low[j], factor)))
  }

  /** What the shift register holds after the whole dividend has gone through. */
  function Remainder<E>(f: Field<E>, low: seq<E>, p: seq<E>): (r: seq<E>)
    requires low != []
    ensures |r| == |low|
  {
    if p == [] then Nulls(f, |low|) else Shift(f, low, Remainder(f, low, p[..|p| - 1]), p[|p| - 1])
  }

  /** Times, one coefficient: a shift of the shorter product, and the last coefficient's row. */
  lemma TimesAt<E>(f: Field<E>, p: seq<E>, g: seq<E>, j: nat)
    requires p != [] && g != [] && j < |p| + |g| - 1
    ensures Times(f, p, g)[j] ==
            (var n, t0 := |p| - 1, Times(f, p[..|p| - 1], g);
             f.plus(if j < |t0| then t0[j] else f.zero, if j < n then f.zero else f.mul(p[n], g[j - n])))
  {}

  /** The dividend and its remainder against the product with the quotient, place by place: c is the last
      coefficient of the dividend, and the rest of it with its remainder r is t0. */
  lemma CompletesAt<E(!new)>(f: Field<E>, low: seq<E>, rest: seq<E>, c: E, r: seq<E>, k: nat)
    requires Laws(f) && |r| == |low| > 0 && k <= |rest| + |low|
    ensures var factor, g, t0, n := f.plus(c, r[0]), [f.one] + low, rest + r, |rest|;
            (rest + [c] + Shift(f, low, r, c))[k] ==
            f.plus(if k < |t0| then t0[k] else f.zero, if k < n then f.zero else f.mul(factor, g[k - n]))
  {
    var factor := f.plus(c, r[0]);
    if k < |rest| {
      assert At(rest[k], f.zero, f.zero);
    } else if k == |rest| {
      assert At(factor, c, r[0]) && At(r[0], c, c) && At(c, r[0], r[0]) && At(r[0], r[0], c);
    } else {
      assert At(factor, low[k - |rest| - 1], f.zero);
    }
  }

  /** The dividend followed by its remainder is a multiple of the divisor. */
  lemma {:induction false} RemainderCompletes<E(!new)>(f: Field<E>, low: seq<E>, p: seq<E>) returns (q: seq<E>)
    requires Laws(f) && low != []
    ensures |q| == |p| && p + Remainder(f, low, p) == Times(f, q, [f.one] + low)
  {
    hide Laws, Shift;
    var g := [f.one] + low;
    if p == [] {
      q := [];
      assert [] + Nulls(f, |low|) == Nulls(f, |low|);
    } else {
      var n := |p| - 1;
      var q0 := RemainderCompletes(f, low, p[..n]);
      var r := Remainder(f, low, p[..n]);
      q := q0 + [f.plus(p[n], r[0])];
      assert q[..n] == q0 && p == p[..n] + [p[n]];
      var s, t := p[..n] + [p[n]] + Shift(f, low, r, p[n]), Times(f, q, g);
      hide Times, Remainder;
      forall k | 0 <= k < |t|
        ensures s[k] == t[k]
      {
        TimesAt(f, q, g, k);
        CompletesAt(f, low, p[..n], p[n], r, k);
      }
    }
  }

  // ---------------------------------------------------------------- coefficients

  /** The coefficient of x^k, zero outside the polynomial. */
  function Coef<E>(f: Field<E>, p: seq<E>, k: int): E {
    if 0 <= k < |p| then p[|p| - 1 - k] else f.zero
  }

  /** The product with (x - r), place by place. */
  lemma LinearAt<E(!new)>(f: Field<E>, p: seq<E>, r: E, j: nat)
    requires Laws(f) && p != [] && j <= |p|
    ensures var n, t, t0 := |p| - 1, Times(f, p, [f.one, r]), Times(f, p[..|p| - 1], [f.one, r]);
            t[j] == if j == n + 1 then f.mul(p[n], r) else if j == n then f.plus(t0[n], p[n]) else t0[j]
  {
    hide Times, Laws;
    var g := [f.one, r];
    TimesAt(f, p, g, j);
    if j == |p| {
      Units(f, f.mul(p[|p| - 1], r));
    } else if j == |p| - 1 {
      Units(f, p[|p| - 1]);
    } else {
      Units(f, Times(f, p[..|p| - 1], g)[j]);
    }
  }

  /** The coefficients of p * (x - r), from those of the product with p's last coefficient left off. */
  lemma LinearStep<E(!new)>(f: Field<E>, p: seq<E>, r: E, k: int)
    requires Laws(f) && p != []
    ensures var c, t, t0 := p[|p| - 1], Times(f, p, [f.one, r]), Times(f, p[..|p| - 1], [f.one, r]);
            Coef(f, t, k) == if k == 0 then f.mul(c, r) else if k == 1 then f.plus(Coef(f, t0, 0), c) else Coef(f, t0, k - 1)
  {
    hide Times, Laws;
    if 0 <= k <= |p| {
      LinearAt(f, p, r, |p| - k);
    }
  }

  lemma Units<E(!new)>(f: Field<E>, a: E)
    requires Laws(f)
    ensures f.plus(a, f.zero) == a && f.plus(f.zero, a) == a && f.mul(a, f.one) == a
  {
    assert At(a, a, a);
  }

  lemma CoefOfInit<E>(f: Field<E>, p: seq<E>, k: int)
    requires p != []
    ensures Coef(f, p, k) == if k == 0 then p[|p| - 1] else Coef(f, p[..|p| - 1], k - 1)
  {}

  /** Multiplying by (x - r), coefficient by coefficient. */
  lemma {:induction false} CoefLinear<E(!new)>(f: Field<E>, p: seq<E>, r: E, k: int)
    requires Laws(f)
    ensures Coef(f, Times(f, p, [f.one, r]), k) == f.plus(f.mul(Coef(f, p, k), r), Coef(f, p, k - 1))
    decreases |p|
  {
    assert At(r, r, r) && At(f.zero, f.zero, f.zero);
    if p != [] {
      hide Times, Coef;
      var n, c := |p| - 1, p[|p| - 1];
      LinearStep(f, p, r, k);
      CoefOfInit(f, p, k);
      CoefOfInit(f, p, k - 1);
      CoefLinear(f, p[..n], r, k - 1);
      NoCoef(f, p[..n], -1);
      NoCoef(f, p[..n], -2);
      NoCoef(f, Times(f, p[..n], [f.one, r]), -1);
      assert At(c, c, c) && At(f.mul(c, r), f.zero, c) && At(f.mul(Coef(f, p[..n], 0), r), f.zero, c);
    }
  }

  lemma NoCoef<E>(f: Field<E>, p: seq<E>, k: int)
    ensures k < 0 ==> Coef(f, p, k) == f.zero
  {}
}
