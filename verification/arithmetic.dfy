/**
 Products and quotients of variables, in steps the verifier can take.
 */
module Arithmetic {
  lemma Distribute(a: int, b: int, d: int)
    ensures (a + b) * d == a * d + b * d
  {
  }

  lemma NotNegative(a: nat, d: nat)
    ensures a * d >= 0
  {
  }

  lemma MoreTimes(a: int, b: int, d: nat)
    ensures a < b ==> a * d + d <= b * d
  {
    if a < b {
      Distribute(a + 1, b - a - 1, d);
      Distribute(a, 1, d);
      NotNegative(b - a - 1, d);
    }
  }

  lemma QuotientIs(x: nat, d: nat, q: nat, rest: nat)
    requires x == q * d + rest && rest < d
    ensures x / d == q && x % d == rest
  {
    MoreTimes(q, x / d, d);
    MoreTimes(x / d, q, d);
  }

  lemma DivideTwice(x: nat, a: nat, b: nat)
    requires a > 0 && b > 0
    ensures a * b > 0 && x / a / b == x / (a * b)
  {
    var q := x / a;
    var h, rest := q / b, q % b;
    MoreTimes(rest, b, a);
    NotNegative(rest, a);
    Distribute(h * b, rest, a);
    assert h * b * a == h * (a * b);
    assert x == h * (a * b) + (rest * a + x % a);
    assert b * a == a * b;
    QuotientIs(x, a * b, h, rest * a + x % a);
  }
}
