/** Facts about quotients and remainders that several components rely on. */
module Arithmetic {

  const TWO_32 := 0x1_0000_0000
  const TWO_64 := 0x1_0000_0000_0000_0000

  function Max(a: nat, b: nat): nat { if a < b then b else a }
  function Min(a: nat, b: nat): nat { if a < b then a else b }

  function Pow2(k: nat): (p: nat)
    ensures p > 0
  {
    if k == 0 then 1 else 2 * Pow2(k - 1)
  }

  predicate PowerOfTwo(n: nat) { n == 1 || (n > 1 && n % 2 == 0 && PowerOfTwo(n / 2)) }

  lemma {:induction false} MulNonNegative(x: nat, d: nat)
    ensures x * d >= 0
  {
    if x > 0 {
      MulNonNegative(x - 1, d);
      assert x * d == (x - 1) * d + d;
    }
  }

  lemma MulGap(a: int, b: int, d: int)
    requires d > 0 && a > b
    ensures a * d >= b * d + d
  {
    MulNonNegative(a - b - 1, d);
    assert (a - b - 1) * d == a * d - b * d - d;
  }

  lemma ModUnique(x: int, d: int, q: int, r: int)
    requires d > 0 && x == q * d + r && 0 <= r < d
    ensures x % d == r && x / d == q
  {
    var q2, r2 := x / d, x % d;
    assert x == q2 * d + r2;
    if q > q2 { MulGap(q, q2, d); }
    if q2 > q { MulGap(q2, q, d); }
  }

  lemma ModShift(x: int, d: int, q: int)
    requires d > 0
    ensures (x + q * d) % d == x % d
  {
    var a := x / d;
    assert x == a * d + x % d;
    assert x + q * d == (a + q) * d + x % d;
    ModUnique(x + q * d, d, a + q, x % d);
  }

  lemma DivMod(x: int, d: int)
    requires d > 0
    ensures x == (x / d) * d + x % d && 0 <= x % d < d
  {
  }

  lemma MulTwice(q: int, p: int)
    ensures q * (2 * p) == 2 * (q * p)
  {
  }
}
