/** Facts about Euclidean division on naturals, used to relate the floor/mod arithmetic of
    the result-value display to a count of hundredths. */
module Arithmetic {

  /** Division is determined by the quotient–remainder equation. */
  lemma DivModUnique(a: int, b: int, q: int, r: int)
    requires b > 0 && 0 <= r < b && a == b * q + r
    ensures a / b == q && a % b == r
  {
    var q', r' := a / b, a % b;
    assert a == b * q' + r';
    if q' > q {
      MulMono(b, q + 1, q');
    } else if q' < q {
      MulMono(b, q' + 1, q);
    }
  }

  lemma MulMono(b: int, x: int, y: int)
    requires b > 0 && x <= y
    ensures b * x <= b * y
  {
  }

  lemma AddMultiple(a: nat, d: nat, m: nat)
    requires d > 0
    ensures (d * m + a) / d == m + a / d
  {
    DivModUnique(d * m + a, d, m + a / d, a % d);
  }

  lemma DivBelow(a: nat, d: nat, m: nat)
    requires d > 0 && a < d * m
    ensures a / d < m
  {
    if a / d >= m {
      MulMono(d, m, a / d);
    }
  }

  /** With `c = floor(100 n / d)`, splitting `c` at `100 k` is splitting `n / d` at `k`:
      the quotient is `floor(n / (k d))` and the remainder is `floor(100 (n mod k d) / d)`. */
  lemma ScaleSplit(n: nat, d: nat, k: nat)
    requires d > 0 && k > 0
    ensures (100 * n / d) / (100 * k) == n / (k * d)
    ensures (100 * n / d) % (100 * k) == 100 * (n % (k * d)) / d
  {
    var q, r := n / (k * d), n % (k * d);
    assert n == k * d * q + r;
    var s := 100 * r / d;
    assert 100 * n == d * (100 * k * q) + 100 * r;
    AddMultiple(100 * r, d, 100 * k * q);
    assert s < 100 * k by {
      assert 100 * r < d * (100 * k);
      DivBelow(100 * r, d, 100 * k);
    }
    DivModUnique(100 * n / d, 100 * k, q, s);
  }

  /** A remainder by a multiple of `b` keeps the remainder by `b`. */
  lemma ModOfMod(c: nat, b: nat, m: nat)
    requires b > 0 && m > 0
    ensures (c % (b * m)) % b == c % b
  {
    var r := c % (b * m);
    assert c == b * (m * (c / (b * m)) + r / b) + r % b;
    DivModUnique(c, b, m * (c / (b * m)) + r / b, r % b);
  }
}
