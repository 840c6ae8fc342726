// Remainders by a variable divisor.
module Arithmetic {
  lemma Remainder(q: nat, r: nat, n: nat)
    requires r < n
    ensures (q * n + r) % n == r
  {
    var m := q * n + r;
    Scale(q - m / n, n);
    assert (q - m / n) * n == m % n - r;
  }

  lemma Scale(k: int, m: int)
    requires m > 0
    ensures k >= 1 ==> k * m >= m
    ensures k <= -1 ==> k * m <= -m
  {
  }
}
