/** Division of natural numbers. */
module Arithmetic {

  lemma MulMonotone(a: nat, b: nat, d: nat)
    requires a <= b
    ensures a * d <= b * d
  {
  }

  lemma DivModUnique(n: nat, d: nat, q: nat, r: nat)
    requires d > 0 && n == q * d + r && r < d
    ensures n / d == q && n % d == r
  {
    var q', r' := n / d, n % d;
    assert n == q' * d + r';
    if q' < q {
      MulMonotone(q' + 1, q, d);
    } else if q < q' {
      MulMonotone(q + 1, q', d);
    }
  }

  lemma DivBetween(n: nat, d: nat, q: nat)
    requires d > 0
    ensures n / d == q <==> q * d <= n < (q + 1) * d
  {
    var q', r' := n / d, n % d;
    assert n == q' * d + r';
    if q' < q {
      MulMonotone(q' + 1, q, d);
    } else if q < q' {
      MulMonotone(q + 1, q', d);
    }
  }

  lemma DivAtMost(n: nat, d: nat, k: nat)
    requires d >= k > 0
    ensures k * (n / d) <= n
  {
    var q := n / d;
    assert n == q * d + n % d;
    MulMonotone(k, d, q);
  }

  lemma DivZero(n: nat, d: nat)
    requires d > 0
    ensures n / d == 0 <==> n < d
  {
    DivBetween(n, d, 0);
  }

  lemma DivAbove(n: nat, d: nat, k: nat)
    requires d > 0
    ensures n / d <= k <==> n < (k + 1) * d
  {
    var q, r := n / d, n % d;
    assert n == q * d + r;
    if q <= k {
      MulMonotone(q + 1, k + 1, d);
    } else {
      MulMonotone(k + 1, q, d);
    }
  }

  lemma DivTwice(n: nat, b: nat, c: nat)
    requires b > 0 && c > 0
    ensures b * c > 0 && n / b / c == n / (b * c)
  {
    var m, s := n / b, n % b;
    var q, r := m / c, m % c;
    var rest := Digits(r, b, s);
    DigitsBelow(r, b, c, s);
    assert n == Digits(m, b, s) && m == Digits(q, c, r);
    DigitsTwice(q, c, r, b, s);
    hide Digits;
    DivModUnique(n, b * c, q, rest);
  }

  function Digits(high: nat, base: nat, low: nat): nat { high * base + low }

  lemma DigitsBelow(r: nat, b: nat, c: nat, s: nat)
    requires r < c && s < b
    ensures b * c > 0 && Digits(r, b, s) < b * c
  {
    MulMonotone(r + 1, c, b);
    assert (r + 1) * b == r * b + b;
  }

  lemma DigitsTwice(q: nat, c: nat, r: nat, b: nat, s: nat)
    ensures Digits(Digits(q, c, r), b, s) == q * (b * c) + Digits(r, b, s)
  {
    assert (q * c + r) * b == (q * c) * b + r * b;
    assert (q * c) * b == q * (b * c);
  }
}
