/** Powers of two and integer division, as several components use them. */
module Arithmetic {

  function Pow2(k: nat): (p: nat)
    ensures p > 0
  {
    if k == 0 then 1 else 2 * Pow2(k - 1)
  }

  lemma TimesAssoc(x: int, y: int, z: int)
    ensures x * y * z == x * (y * z)
  {
  }

  lemma DivMod(v: int, d: int)
    requires d > 0
    ensures v == v / d * d + v % d && 0 <= v % d < d
    ensures v >= 0 ==> v / d >= 0
  {
    assert v == d * (v / d) + v % d;
  }

  lemma Zero(e: int, d: int)
    requires -d < e * d < d
    ensures e == 0
  {
  }

  /** Quotient and remainder are determined by what they satisfy. */
  lemma DivUnique(n: int, d: int, q: int, r: int)
    requires 0 <= r < d && n == q * d + r
    ensures n / d == q && n % d == r
  {
    DivMod(n, d);
    assert (n / d - q) * d == n / d * d - q * d;
    Zero(n / d - q, d);
  }

  lemma MulMono(a: nat, a': nat, b: nat, b': nat)
    requires a <= a' && b <= b'
    ensures a * b <= a' * b'
  {
    assert a * b <= a' * b;
    assert a' * b <= a' * b';
  }

  lemma DivDiv(a: nat, b: nat, c: nat)
    requires b > 0 && c > 0
    ensures b * c > 0 && a / b / c == a / (b * c)
  {
    var q, r, t := a / b / c, a / b % c, a % b;
    assert a == b * (c * q + r) + t;
    assert b * (c * q + r) == (b * c) * q + b * r;
    MulMono(r + 1, c, b, b);
    assert b * (r + 1) == b * r + b;
    DivUnique(a, b * c, q, b * r + t);
  }
}
