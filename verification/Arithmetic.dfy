/** Products and quotients. Everything rests on the induction in Grows. */
module Arithmetic {

  lemma {:induction false} Grows(a: nat, b: nat, m: nat)
    requires a <= b
    ensures a * m <= b * m
    decreases b - a
  {
    if a == b {
    } else {
      Grows(a + 1, b, m);
      OneMore(a, m);
    }
  }

  lemma OneMore(n: nat, m: nat)
    ensures (n + 1) * m == n * m + m
  {}

  lemma Associate(a: nat, b: nat, c: nat)
    ensures a * b * c == a * (b * c)
  {}

  lemma MulPositive(a: nat, b: nat)
    requires a > 0 && b > 0
    ensures a * b > 0
  {
    Grows(1, a, b);
  }

  lemma Division(i: nat, n: nat)
    requires n > 0
    ensures i == i % n + n * (i / n) && i % n < n && i / n >= 0
  {}

  /** Row `i` of `n` rows of length `m` ends within them. */
  lemma RowFits(i: nat, n: nat, m: nat)
    requires i < n
    ensures i * m + m <= n * m
  {
    OneMore(i, m);
    Grows(i + 1, n, m);
  }

  lemma QuotientOf(q: nat, n: nat, r: nat)
    requires r < n
    ensures (q * n + r) / n == q && (q * n + r) % n == r
  {
    var t := q * n + r;
    var k := t / n;
    Division(t, n);
    if k > q {
      RowFits(q, k, n);
    } else if k < q {
      RowFits(k, q, n);
    }
  }

  lemma QuotientBelow(i: nat, j: nat, n: nat)
    requires n > 0 && i < j * n
    ensures i / n < j
  {
    Division(i, n);
    if i / n >= j {
      Grows(j, i / n, n);
    }
  }
}
