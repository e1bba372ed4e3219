/** Facts about non-negative integer division by a positive divisor. For these operands
    the truncating `/` and `%` of C# agree with Dafny's Euclidean ones. */
module DivMod {
  lemma {:induction false} MulMonotone(c: int, a: int, b: int)
    requires c >= 0 && a <= b
    ensures c * a <= c * b
    decreases b - a
  {
    if a < b {
      MulMonotone(c, a, b - 1);
      assert c * b == c * (b - 1) + c;
    }
  }

  /** Quotient and remainder are determined by `x == c * q + r` with `0 <= r < c`. */
  lemma DivModUnique(x: int, c: int, q: int, r: int)
    requires c >= 1 && 0 <= r < c && x == c * q + r
    ensures x / c == q && x % c == r
  {
    var q', r' := x / c, x % c;
    assert x == c * q' + r' && 0 <= r' < c;
    if q' < q {
      assert c * (q' + 1) == c * q' + c;
      MulMonotone(c, q' + 1, q);
    } else if q < q' {
      assert c * (q + 1) == c * q + c;
      MulMonotone(c, q + 1, q');
    }
  }

  /** Writing `x` back from its quotient and remainder. */
  lemma DivModSplit(x: int, c: int)
    requires c >= 1
    ensures x == c * (x / c) + x % c && 0 <= x % c < c
  {
  }

  /** A non-negative number has a positive quotient exactly when it reaches the divisor. */
  lemma DivPositive(x: int, c: int)
    requires x >= 0 && c >= 1
    ensures x / c > 0 <==> x >= c
  {
    if x >= c {
      DivModUnique(x, c, (x - c) / c + 1, (x - c) % c);
    } else {
      DivModUnique(x, c, 0, x);
    }
  }

  /** The quotient of a non-negative number is non-negative. */
  lemma DivNonNegative(x: int, c: int)
    requires x >= 0 && c >= 1
    ensures x / c >= 0
  {
    DivPositive(x, c);
    if x < c {
      DivModUnique(x, c, 0, x);
    }
  }

  lemma Distribute(c: int, q: int)
    ensures c * (q + 1) == c * q + c && c * (q - 1) == c * q - c
  {
  }
}
