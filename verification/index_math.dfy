/**
 * Arithmetic behind the two nested `for` loops of the pipeline (the tile
 * grid and the pixel walk): position `k` of an x-outer, y-inner enumeration
 * with `n` inner steps is the pair `(k / n, k % n)`.
 */
module IndexMath {

  /** Euclidean division is determined by its quotient/remainder decomposition. */
  lemma DivModUnique(k: int, n: int, q: int, r: int)
    requires n > 0 && 0 <= r < n && k == q * n + r
    ensures k / n == q && k % n == r
  {
    var q' := k / n;
    var r' := k % n;
    assert k == q' * n + r';
    assert (q - q') * n == r' - r;
    if q > q' {
      assert (q - q') * n >= n by {
        MulAtLeast(q - q', n);
      }
    } else if q < q' {
      assert (q' - q) * n >= n by {
        MulAtLeast(q' - q, n);
      }
    }
  }

  lemma MulAtLeast(a: int, n: int)
    requires a >= 1 && n > 0
    ensures a * n >= n
  {
  }

  /** Row-major positions `i * n + j` with `j < n` stay below `m * n` while `i < m`. */
  lemma PositionBelow(i: int, j: int, m: int, n: int)
    requires 0 <= i < m && 0 <= j < n
    ensures 0 <= i * n + j < m * n
  {
    assert i * n + j < i * n + n == (i + 1) * n;
    assert (i + 1) * n <= m * n by {
      MulMonotone(i + 1, m, n);
    }
  }

  lemma MulMonotone(a: int, b: int, n: int)
    requires a <= b && n >= 0
    ensures a * n <= b * n
  {
    assert b * n - a * n == (b - a) * n;
  }

  /** Positions in increasing order visit pairs in lexicographic order. */
  lemma PositionOrder(k1: int, k2: int, n: int)
    requires n > 0 && 0 <= k1 < k2
    ensures k1 / n < k2 / n || (k1 / n == k2 / n && k1 % n < k2 % n)
  {
    var q1, r1 := k1 / n, k1 % n;
    var q2, r2 := k2 / n, k2 % n;
    if q1 > q2 {
      MulMonotone(q2 + 1, q1, n);
      assert false;
    } else if q1 == q2 {
      assert r1 < r2;
    }
  }
}
