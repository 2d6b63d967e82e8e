/** Facts about integer multiplication and floor division used by the proofs. */
module Arith {

  lemma MulMonotone(a: int, b: int, c: nat)
    requires a <= b
    ensures a * c <= b * c
  {
  }

  /** Row j < n of a table w wide ends within the first n rows. */
  lemma RowEndWithin(w: nat, j: nat, n: nat)
    requires j < n
    ensures 0 <= w * j && w * j + w <= w * n
  {
    MulMonotone(j + 1, n, w);
  }

  lemma MulPositive(a: int, b: int)
    requires 0 < a && 0 < b
    ensures 0 < a * b
  {
  }

  /** q · c <= n implies q <= n / c. */
  lemma FloorDivAtLeast(q: int, n: int, c: int)
    requires 0 < c && q * c <= n
    ensures q <= n / c
  {
    assert n < (n / c + 1) * c;
    if n / c + 1 <= q {
      MulMonotone(n / c + 1, q, c);
    }
  }

  /** n < q · c implies n / c < q. */
  lemma FloorDivBelow(q: int, n: int, c: int)
    requires 0 < c && n < q * c
    ensures n / c < q
  {
  }

  lemma DivModUnique(n: int, c: int, q: int, r: int)
    requires 0 < c && 0 <= r < c && n == q * c + r
    ensures n / c == q && n % c == r
  {
    var q', r' := n / c, n % c;
    assert q' * c + r' == q * c + r;
    assert (q - q') * c == r' - r;
    if q - q' >= 1 {
      MulMonotone(1, q - q', c);
    } else if q' - q >= 1 {
      MulMonotone(1, q' - q, c);
    }
  }
}
