/** Facts about multiples and remainders that the file store and the scheduler share. */
module Division {

  lemma NextMultiple(m: nat, b: int, c: int)
    requires b < c
    ensures b * m + m <= c * m
  {
    assert (c - b - 1) * m >= 0;
  }

  /** A number has one quotient and one remainder. */
  lemma SamePosition(m: nat, b: int, o: int, c: int, i: int)
    requires 0 <= o < m && 0 <= i < m && b * m + o == c * m + i
    ensures b == c && o == i
  {
    if b < c {
      NextMultiple(m, b, c);
    } else if c < b {
      NextMultiple(m, c, b);
    }
  }

  lemma QuotientAndRemainder(m: nat, v: nat, q: nat, r: nat)
    requires r < m && v == r + m * q
    ensures v / m == q && v % m == r
  {
    var q', r' := v / m, v % m;
    assert v == q' * m + r' && m * q == q * m;
    SamePosition(m, q, r, q', r');
  }

  /** Counting up by one either counts up the remainder or wraps it to zero. */
  lemma NextRemainder(k: nat, n: nat)
    requires n > 0
    ensures (k + 1) % n == if k % n + 1 == n then 0 else k % n + 1
  {
    var q, r := k / n, k % n;
    var q', r' := (k + 1) / n, (k + 1) % n;
    assert k == q * n + r && k + 1 == q' * n + r';
    if r + 1 == n {
      assert (q + 1) * n + 0 == q * n + n;
      SamePosition(n, q', r', q + 1, 0);
    } else {
      SamePosition(n, q', r', q, r + 1);
    }
  }
}
