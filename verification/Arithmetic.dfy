/** Quotients and products, kept apart from the proofs that use them. */
module Arithmetic {

  /** C's integer division: towards zero. */
  function CDiv(a: int, b: int): int
    requires b > 0
  {
    if a >= 0 then a / b else -((-a) / b)
  }

  /** How many of n numbers pass the test. */
  function CountIf(n: nat, test: nat -> bool): nat {
    if n == 0 then 0 else CountIf(n - 1, test) + if test(n - 1) then 1 else 0
  }

  lemma NonNegative(a: nat, b: nat)
    ensures a * b >= 0
  {
  }

  lemma MultipleBeyond(d: int, e: int)
    requires d > 0
    ensures e >= 1 ==> d * e >= d
    ensures e <= -1 ==> d * e <= -d
  {
  }

  /** The multiple of d that x lies at or just above is its quotient. */
  lemma Quotient(x: int, d: int, k: int)
    requires d > 0 && d * k <= x < d * k + d
    ensures x / d == k && x % d == x - d * k
  {
    var e := x / d - k;
    assert d * (x / d) == d * k + d * e;
    MultipleBeyond(d, e);
  }

  lemma DivideBack(q: nat, d: nat, r: nat)
    requires r < d
    ensures q * d + r >= 0 && (q * d + r) / d == q && (q * d + r) % d == r
  {
    NonNegative(q, d);
    Quotient(q * d + r, d, q);
  }

  lemma ProductOfSum(a: int, b: int, c: int)
    ensures (a + b) * c == a * c + b * c
  {
  }

  lemma ProductAssociates(a: int, b: int, c: int)
    ensures a * (b * c) == (a * b) * c
  {
  }

  lemma DivideTwice(m: int, a: int, b: int)
    requires m >= 0 && a > 0 && b > 0
    ensures m / a / b == m / (a * b)
  {
    var q, r := m / a, m % a;
    var q2, r2 := q / b, q % b;
    ProductOfSum(b * q2, r2, a);
    ProductAssociates(a, b, q2);
    assert m == (a * b) * q2 + (a * r2 + r);
    ScaledRemainder(a, b, r, r2);
    Quotient(m, a * b, q2);
  }

  lemma ScaledRemainder(a: int, b: int, r: int, r2: int)
    requires 0 <= r < a && 0 <= r2 < b
    ensures 0 <= a * r2 + r < a * b
  {
    assert a * r2 <= a * (b - 1);
  }
}
