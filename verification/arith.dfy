/** Integer facts about the block grid: anchors are multiples of the block
    size and block indices come from floor division. */
module Arith {

  lemma MulMonotone(a: int, c: int, b: int)
    requires a <= c && b >= 0
    ensures a * b <= c * b
  {
    assert c * b - a * b == (c - a) * b;
  }

  /** Stepping an anchor by one block: `(q + 1) * n == q * n + n`. */
  lemma MulSucc(q: int, n: int)
    ensures (q + 1) * n == q * n + n
  {
  }

  /** Euclidean division is unique: `q*n + r` with `0 <= r < n` splits back into `q` and `r`. */
  lemma DivModUnique(k: int, q: int, r: int, n: int)
    requires n >= 1 && 0 <= r < n && k == q * n + r
    ensures k / n == q && k % n == r
  {
    var q', r' := k / n, k % n;
    assert k == q' * n + r';
    if q' < q {
      MulMonotone(q' + 1, q, n);
      assert false;
    } else if q' > q {
      MulMonotone(q + 1, q', n);
      assert false;
    }
  }

  /** A multiple of `n` that fits below `k` has a quotient no larger than `k / n`. */
  lemma MulLeDiv(q: int, n: int, k: int)
    requires n >= 1 && q * n <= k
    ensures q <= k / n
  {
    var d := k / n;
    assert k == d * n + k % n;
    if q > d {
      MulMonotone(d + 1, q, n);
      assert false;
    }
  }

  /** `k / n` blocks of size `n` fit inside `k`. */
  lemma DivMulLe(k: int, n: int)
    requires n >= 1 && k >= 0
    ensures (k / n) * n <= k && k / n >= 0
  {
    assert k == (k / n) * n + k % n;
  }
}
