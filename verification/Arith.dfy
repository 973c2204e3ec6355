/** Facts about quotients that the solver needs in small steps. */
module Arith {

  lemma ProductSize(c: int, m: int)
    requires m > 0
    ensures c >= 1 ==> c * m >= m
    ensures c <= -1 ==> c * m <= -m
  {
  }

  lemma ModUnique(x: int, m: int, a: int, b: int)
    requires m > 0 && x == a * m + b && 0 <= b < m
    ensures x % m == b && x / m == a
  {
    var c := x / m - a;
    assert c * m == b - x % m;
    ProductSize(c, m);
  }

  lemma HalveQuotient(x: nat, b: nat)
    requires b > 0
    ensures x / (2 * b) == x / b / 2
  {
    var c, r := x / (2 * b), x % (2 * b);
    assert x == c * (2 * b) + r;
    if r < b {
      ModUnique(x, b, 2 * c, r);
    } else {
      ModUnique(x, b, 2 * c + 1, r - b);
    }
  }

  lemma Regroup(q: nat, b: nat, r: nat, a: nat)
    ensures (q * b + r) * a == q * (a * b) + r * a
  {
  }

  lemma Mixed(r: nat, b: nat, t: nat, a: nat)
    requires r < b && t < a
    ensures r * a + t < a * b
  {
    assert (r + 1) * a <= b * a;
  }

  lemma Positive(a: nat, b: nat)
    requires a > 0 && b > 0
    ensures a * b > 0
  {
  }

  lemma Parts(n: nat, d: nat)
    requires d > 0
    ensures n == n / d * d + n % d
  {
  }

  lemma DivDiv(n: nat, a: nat, b: nat, c: nat)
    requires a > 0 && b > 0 && c == a * b
    ensures c > 0 && n / c == n / a / b
  {
    Positive(a, b);
    Parts(n, a);
    Parts(n / a, b);
    Regroup(n / a / b, b, n / a % b, a);
    Mixed(n / a % b, b, n % a, a);
    ModUnique(n, c, n / a / b, n / a % b * a + n % a);
  }
}
