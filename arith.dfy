/** Powers and Euclidean division facts the address arithmetic needs. */
module Arith {

  function Pow(base: nat, exp: nat): (r: nat)
    ensures base > 0 ==> r > 0
  {
    if exp == 0 then 1 else base * Pow(base, exp - 1)
  }

  lemma {:induction false} PowMonotone(e1: nat, e2: nat)
    requires e1 <= e2
    ensures Pow(2, e1) <= Pow(2, e2)
  {
    if e1 < e2 {
      PowMonotone(e1, e2 - 1);
    }
  }

  lemma {:induction false} PowAdd(base: nat, e1: nat, e2: nat)
    ensures Pow(base, e1 + e2) == Pow(base, e1) * Pow(base, e2)
  {
    if e1 > 0 {
      PowAdd(base, e1 - 1, e2);
      assert Pow(base, e1 + e2) == base * Pow(base, e1 - 1 + e2);
    }
  }

  lemma MulSign(p: int, d: int)
    requires p >= 0
    ensures d >= 1 ==> p * d >= p
    ensures d <= -1 ==> p * d <= -p
  {
    assert p * d == p * (d - 1) + p;
    assert p * d == p * (d + 1) - p;
  }

  /** Quotient and remainder are the only pair that recombines to `x`. */
  lemma DivModUnique(x: int, p: int, q: int, m: int)
    requires p > 0 && 0 <= m < p && x == p * q + m
    ensures x / p == q && x % p == m
  {
    var q', m' := x / p, x % p;
    assert x == p * q' + m';
    MulSign(p, q - q');
    assert p * (q - q') == m' - m;
  }

  lemma MulDiv(p: nat, r: nat)
    requires p > 0
    ensures (p * r) / p == r && (p * r) % p == 0
  {
    DivModUnique(p * r, p, r, 0);
  }

  /** Dividing out an exact factor of at least two leaves a smaller positive quotient. */
  lemma DivExact(x: int, p: int)
    requires p >= 2 && x > 0 && x % p == 0
    ensures x == p * (x / p) && 0 < x / p < x
  {
    assert x == p * (x / p) + x % p;
  }

  /** A block of `size` aligned to `size` that starts inside `size * m`
      ends inside it too. */
  lemma AlignedBlockFits(a: int, size: int, m: int)
    requires size > 0 && 0 <= a < size * m && a % size == 0
    ensures a + size <= size * m
  {
    var q := a / size;
    assert a == size * q;
    assert size * (m - q) == size * m - a;
    MulSign(size, m - q);
  }
}
