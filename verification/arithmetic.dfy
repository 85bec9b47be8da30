/** Facts about Euclidean division used by the counting lemmas, and 32-bit wrap-around. */
module Arithmetic {

  lemma DivStep(m: nat, a: int)
    requires a > 0
    ensures (m + 1) / a == m / a + (if (m + 1) % a == 0 then 1 else 0)
  {
    var q := m / a;
    var r := m % a;
    if r + 1 == a {
      assert m + 1 == (q + 1) * a + 0;
      DivUnique(m + 1, a, q + 1, 0);
    } else {
      assert m + 1 == q * a + (r + 1);
      DivUnique(m + 1, a, q, r + 1);
    }
  }

  lemma DivUnique(x: int, a: int, q: int, r: int)
    requires a > 0 && 0 <= r < a && x == q * a + r
    ensures x / a == q && x % a == r
  {
    var d := q - x / a;
    assert d * a == x % a - r;
    MulAwayFromZero(d, a);
  }

  lemma MulAwayFromZero(d: int, a: int)
    requires a > 0
    ensures d >= 1 ==> d * a >= a
    ensures d <= -1 ==> d * a <= -a
  {
    if d >= 1 {
      assert d * a == (d - 1) * a + a;
    }
    if d <= -1 {
      assert d * a == (d + 1) * a - a;
    }
  }

  lemma DivShift(n: nat, size: nat)
    requires size > 0
    ensures (n + size) / size == n / size + 1
  {
    DivUnique(n + size, size, n / size + 1, n % size);
  }

  /** Adding a multiple of the modulus does not change the remainder. */
  lemma ModShift(x: int, k: int, m: int)
    requires m > 0
    ensures (x + k * m) % m == x % m
  {
    assert x + k * m == (x / m + k) * m + x % m;
    DivUnique(x + k * m, m, x / m + k, x % m);
  }

  const TwoTo31: int := 0x8000_0000
  const TwoTo32: int := 0x1_0000_0000

  /** The value a C# `int` (32-bit, unchecked) holds after storing the mathematical value `x`. */
  function WrapInt32(x: int): (r: int)
    ensures -TwoTo31 <= r < TwoTo31
    ensures (r - x) % TwoTo32 == 0
    ensures -TwoTo31 <= x < TwoTo31 ==> r == x
  {
    var w := (x + TwoTo31) % TwoTo32 - TwoTo31;
    assert w - x == -((x + TwoTo31) / TwoTo32) * TwoTo32;
    ModShift(0, -((x + TwoTo31) / TwoTo32), TwoTo32);
    if -TwoTo31 <= x < TwoTo31 then
      DivUnique(x + TwoTo31, TwoTo32, 0, x + TwoTo31);
      w
    else w
  }

  /** Wrapping after every addition gives the wrap of the exact sum. */
  lemma WrapAbsorbs(a: int, b: int)
    ensures WrapInt32(WrapInt32(a) + b) == WrapInt32(a + b)
  {
    var k := -((a + TwoTo31) / TwoTo32);
    assert WrapInt32(a) == a + k * TwoTo32;
    ModShift(a + b + TwoTo31, k, TwoTo32);
    assert WrapInt32(a) + b + TwoTo31 == (a + b + TwoTo31) + k * TwoTo32;
  }
}
