/** Products and remainders with a variable divisor, one small step at a time. */
module Arith {

  lemma MulStep(n: int, b: int)
    ensures (n + 1) * b == n * b + b
  {}

  lemma {:induction false} MulGap(p: nat, q: nat, n: nat)
    requires p < q
    ensures q * n >= p * n + n
  {
    MulStep(q - 1, n);
    if p < q - 1 {
      MulGap(p, q - 1, n);
    }
  }

  lemma ModIs(x: nat, n: nat, q: nat, r: nat)
    requires n > 0 && r < n && x == q * n + r
    ensures x % n == r
  {
    var p := x / n;
    assert x == p * n + x % n;
    if p < q {
      MulGap(p, q, n);
    } else if q < p {
      MulGap(q, p, n);
    }
  }

  /** Adding less than `n` either stays below `n` or wraps once. */
  lemma ModShift(v: nat, k: nat, n: nat)
    requires n > 0 && v < n
    ensures (v + k) % n == if v + k % n < n then v + k % n else v + k % n - n
  {
    var q, r := k / n, k % n;
    assert k == q * n + r;
    if v + r < n {
      ModIs(v + k, n, q, v + r);
    } else {
      MulStep(q, n);
      ModIs(v + k, n, q + 1, v + r - n);
    }
  }
}
