/** Powers of two and facts about products and quotients. */
module Arithmetic {

  function Pow2(n: nat): (p: nat)
    ensures p > 0
  {
    if n == 0 then 1 else 2 * Pow2(n - 1)
  }

  lemma {:induction false} Pow2Add(m: nat, n: nat)
    ensures Pow2(m + n) == Pow2(m) * Pow2(n)
  {
    if m > 0 {
      Pow2Add(m - 1, n);
      assert Pow2(m) == 2 * Pow2(m - 1);
      assert Pow2(m + n) == 2 * Pow2(m - 1 + n);
    }
  }

  lemma ProductGrows(m: int, x: int, y: int)
    requires m > 0
    ensures x <= y ==> m * x <= m * y
  {
  }

  lemma DivisionIsUnique(a: nat, d: nat, q: nat, r: nat)
    requires d > 0 && a == d * q + r && r < d
    ensures a / d == q && a % d == r
  {
    var e := a / d - q;
    assert d * e == r - a % d;
    ProductGrows(d, 1, e);
    ProductGrows(d, e, -1);
  }
}
