/** Numbers as bit strings, most significant bit first, and facts about products. */
module Numbers {

  /** A uint8_t as a number. */
  type Octet = n: nat | n < 256

  function Pow2(n: nat): (p: nat)
    ensures p > 0
  {
    if n == 0 then 1 else 2 * Pow2(n - 1)
  }

  /** The low n bits of v, most significant first. */
  function Bin(v: nat, n: nat): (bits: seq<bool>)
    ensures |bits| == n
  {
    if n == 0 then [] else Bin(v / 2, n - 1) + [v % 2 == 1]
  }

  /** The number a bit string spells, most significant bit first. */
  function Num(bits: seq<bool>): nat {
    if bits == [] then 0 else 2 * Num(bits[..|bits| - 1]) + (if bits[|bits| - 1] then 1 else 0)
  }

  lemma {:induction false} NumBin(v: nat, n: nat)
    requires v < Pow2(n)
    ensures Num(Bin(v, n)) == v
  {
    if n > 0 {
      NumBin(v / 2, n - 1);
      assert Bin(v, n)[..n - 1] == Bin(v / 2, n - 1);
    }
  }

  /** Only the low n bits of v matter: a sign-extended char appends as its byte. */
  lemma {:induction false} BinLowBits(v: nat, k: nat, n: nat)
    ensures Bin(v + k * Pow2(n), n) == Bin(v, n)
  {
    if n > 0 {
      var p := k * Pow2(n - 1);
      assert k * Pow2(n) == 2 * p;
      assert (v + 2 * p) / 2 == v / 2 + p && (v + 2 * p) % 2 == v % 2;
      BinLowBits(v / 2, k, n - 1);
    }
  }

  /** v >> i. */
  function Shr(v: nat, i: nat): nat {
    if i == 0 then v else Shr(v, i - 1) / 2
  }

  // ---------------------------------------------------------------- products and quotients

  lemma {:induction false} MulGrows(k: nat, m: nat)
    requires k > 0
    ensures k * m >= m
  {
    if k > 1 {
      MulGrows(k - 1, m);
      assert k * m == (k - 1) * m + m;
    }
  }

  lemma Scale256(q: nat, p: nat)
    ensures q * (256 * p) == 256 * (q * p)
  {}

  lemma SameQuotient(n: nat, q: int, r: int, q': int, r': int)
    requires q * n + r == q' * n + r' && 0 <= r < n && 0 <= r' < n
    ensures q == q' && r == r'
  {
    assert (q' - q) * n == q' * n - q * n;
    assert (q - q') * n == q * n - q' * n;
    if q < q' {
      MulGrows(q' - q, n);
    } else if q' < q {
      MulGrows(q - q', n);
    }
  }

  /** Quotient and remainder, by repeated subtraction. */
  function Quot(k: nat, n: nat): nat
    requires n > 0
  {
    if k < n then 0 else 1 + Quot(k - n, n)
  }

  function Rem(k: nat, n: nat): (r: nat)
    requires n > 0
    ensures r < n
  {
    if k < n then k else Rem(k - n, n)
  }

  lemma {:induction false} QuotRem(k: nat, n: nat)
    requires n > 0
    ensures k == Quot(k, n) * n + Rem(k, n)
  {
    if k >= n {
      QuotRem(k - n, n);
      assert Quot(k, n) * n == Quot(k - n, n) * n + n;
    }
  }

  lemma QuotRemUnique(n: nat, q: nat, r: nat)
    requires r < n
    ensures Quot(q * n + r, n) == q && Rem(q * n + r, n) == r
  {
    var k := q * n + r;
    QuotRem(k, n);
    SameQuotient(n, Quot(k, n), Rem(k, n), q, r);
  }
}
