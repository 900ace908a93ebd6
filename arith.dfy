/** Facts about integer division and multiplication that the solver does not find alone. */
module Arith {

  lemma DivModUnique(a: int, n: int, q: int, r: int)
    requires n > 0 && a == q * n + r && 0 <= r < n
    ensures a / n == q && a % n == r
  {
    var q', r' := a / n, a % n;
    assert a == q' * n + r';
    if q > q' {
      MulDistance(q, q', n);
      assert false;
    } else if q < q' {
      MulDistance(q', q, n);
      assert false;
    }
  }

  /** Two multiples of n with different factors are at least n apart. */
  lemma {:induction false} MulDistance(x: int, y: int, n: int)
    requires x > y && n > 0
    ensures x * n >= y * n + n
    decreases x - y
  {
    if x > y + 1 {
      MulDistance(x - 1, y, n);
      assert x * n == (x - 1) * n + n;
    } else {
      assert x * n == y * n + n;
    }
  }

  lemma MulLe(x: int, y: int, n: nat)
    requires x <= y
    ensures x * n <= y * n
  {
    if x < y && n > 0 {
      MulDistance(y, x, n);
    }
  }

  lemma Distribute(x: int, y: int, n: int)
    ensures (x + y) * n == x * n + y * n
  {
  }

  /** A product of three factors, regrouped. */
  lemma Regroup(x: int, y: int, z: int)
    ensures x * y * z == x * (y * z) == (x * z) * y
  {
  }
}
