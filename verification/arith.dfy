/** The 64-bit machine word the hash helpers compute in, and facts about multiplication and
    Euclidean division that the address and hex-digit proofs lean on. */
module Arith {
  /** A `uint64_t`: arithmetic on it wraps modulo 2^64. */
  type Word = bv64

  lemma MulAtLeast(k: int, d: int)
    requires k >= 1 && d > 0
    ensures k * d >= d
  {
  }

  lemma Distrib(a: int, b: int, d: int)
    ensures a * d - b * d == (a - b) * d
  {
  }

  lemma MulMono(x: int, y: int, d: int)
    requires x <= y && d >= 0
    ensures x * d <= y * d
  {
  }

  lemma MulCancel(x: int, y: int, d: int)
    requires d > 0 && x * d < y * d
    ensures x < y
  {
    if x >= y {
      MulMono(y, x, d);
    }
  }

  /** Division by `d` undoes `q * d + m` for a remainder `m` below `d`. */
  lemma DivMod(q: nat, d: nat, m: nat)
    requires m < d
    ensures (q * d + m) / d == q && (q * d + m) % d == m
  {
    var n := q * d + m;
    var q', m' := n / d, n % d;
    assert n == q' * d + m';
    Distrib(q', q, d);
    if q' > q {
      MulAtLeast(q' - q, d);
    } else if q' < q {
      MulAtLeast(q - q', d);
      Distrib(q, q', d);
    }
  }

  /** The quotient and remainder of a natural number recompose it. */
  lemma Recompose(n: nat, d: nat)
    requires d > 0
    ensures n / d >= 0 && 0 <= n % d < d && n == n / d * d + n % d
  {
  }

  lemma DivMonotone(a: nat, b: nat, d: nat)
    requires a <= b && d > 0
    ensures a / d <= b / d
  {
    var qa, qb := a / d, b / d;
    assert qa * d <= a;
    assert b < (qb + 1) * d;
    MulCancel(qa, qb + 1, d);
  }

  /** Splitting off the last base-16 digit: `n mod 16k` is `n / 16 mod k` shifted left one digit,
      plus `n`'s last digit. */
  lemma ModSplit16(n: nat, k: nat)
    requires k > 0
    ensures n % (16 * k) == (n / 16 % k) * 16 + n % 16
  {
    var q, r := n / 16, n % 16;
    Recompose(n, 16);
    Recompose(q, k);
    var hi, lo := q / k, q % k;
    assert n == hi * (16 * k) + (lo * 16 + r);
    MulMono(lo + 1, k, 16);
    DivMod(hi, 16 * k, lo * 16 + r);
  }
}
