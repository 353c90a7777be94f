// Facts about integer division that the calendar and the field parser rely on, stated
// once with explicit witnesses so that no proof has to rediscover them.
module Arith {

  /** Division by a positive `b` is determined by any quotient and remainder that fit. */
  lemma DivModUnique(a: int, b: int, q: int, r: int)
    requires b > 0 && a == q * b + r && 0 <= r < b
    ensures a / b == q && a % b == r
  {
    var q', r' := a / b, a % b;
    assert a == q' * b + r';
    assert (q - q') * b == r' - r;
    OnlyZeroBelow(q - q', b);
  }

  /** The only multiple of `b` strictly between `-b` and `b` is zero. */
  lemma OnlyZeroBelow(n: int, b: int)
    requires b > 0 && -b < n * b < b
    ensures n == 0
  {
    if n >= 1 {
      MulAtLeast(n, b);
    } else if n <= -1 {
      MulAtLeast(-n, b);
    }
  }

  lemma {:induction false} MulAtLeast(n: int, b: int)
    requires n >= 1 && b > 0
    ensures n * b >= b
    decreases n
  {
    if n > 1 {
      MulAtLeast(n - 1, b);
      assert n * b == (n - 1) * b + b;
    }
  }

  /** Going from `y - 1` to `y`, the quotient by `k` grows exactly when `k` divides `y`. */
  lemma DivStep(y: int, k: int)
    requires k > 0
    ensures y / k - (y - 1) / k == (if y % k == 0 then 1 else 0)
  {
    var q, r := (y - 1) / k, (y - 1) % k;
    assert y - 1 == q * k + r && 0 <= r < k;
    if r == k - 1 {
      assert y == (q + 1) * k + 0;
      DivModUnique(y, k, q + 1, 0);
    } else {
      DivModUnique(y, k, q, r + 1);
    }
  }
}
