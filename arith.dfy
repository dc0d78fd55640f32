/** Facts about integer multiplication and Euclidean division used by the size computations. */
module Arith {

  lemma MulMono(a: int, b: int, c: nat)
    requires a <= b
    ensures a * c <= b * c
  {
    assert b * c - a * c == (b - a) * c;
  }

  /** Euclidean division has one quotient. */
  lemma DivUnique(n: int, d: int, q: int, r: int)
    requires d > 0 && 0 <= r < d && n == q * d + r
    ensures n / d == q && n % d == r
  {
    var q', r' := n / d, n % d;
    assert n == q' * d + r';
    if q' < q {
      MulMono(q' + 1, q, d);
    } else if q < q' {
      MulMono(q + 1, q', d);
    }
  }

  /** Adding one then reducing is the same as reducing, adding one, and reducing again. */
  lemma ModSucc(a: int, n: int)
    requires n > 0
    ensures (a % n + 1) % n == (a + 1) % n
  {
    var q, r := a / n, a % n;
    assert a == q * n + r;
    if r == n - 1 {
      assert a + 1 == (q + 1) * n + 0;
      DivUnique(a + 1, n, q + 1, 0);
      DivUnique(r + 1, n, 1, 0);
    } else {
      DivUnique(a + 1, n, q, r + 1);
      DivUnique(r + 1, n, 0, r + 1);
    }
  }

  lemma CancelFactor(a: nat, b: nat)
    requires a > 0
    ensures a * b / a == b
  {
    DivUnique(a * b, a, b, 0);
  }
}
