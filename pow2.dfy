/**
 * Powers of two and the alignment arithmetic the buddy tree rests on.
 * Block sizes, window widths and slot alignments in the allocator are all
 * powers of two; these lemmas carry the few non-linear facts about them.
 */
module Pow2 {

  /** n is one of 1, 2, 4, 8, ... */
  predicate IsPow2(n: int)
    decreases if n > 0 then n else 0
  {
    n == 1 || (n >= 2 && n % 2 == 0 && IsPow2(n / 2))
  }

  /** 2 to the power k. */
  function Exp2(k: nat): (p: int)
    ensures p >= 1 && IsPow2(p)
  {
    if k == 0 then 1 else 2 * Exp2(k - 1)
  }

  /** Division and remainder are determined by any representation x == m*q + r with 0 <= r < m. */
  lemma DivModUnique(x: int, m: int, q: int, r: int)
    requires m > 0 && 0 <= r < m && x == m * q + r
    ensures x / m == q && x % m == r
  {
    var d, e := x / m, x % m;
    assert m * d + e == m * q + r;
    assert m * (d - q) == r - e;
    MulBound(m, d - q);
  }

  /** Zero is a multiple of every positive m. */
  lemma ZeroMod(m: int)
    requires m > 0
    ensures 0 % m == 0
  {
    DivModUnique(0, m, 0, 0);
  }

  /** A positive factor m scales any non-zero integer k to at least m in size. */
  lemma MulBound(m: int, k: int)
    requires m > 0
    ensures k >= 1 ==> m * k >= m
    ensures k <= -1 ==> m * k <= -m
  {
  }

  /** Adding a multiple of m does not change the remainder modulo m. */
  lemma ModAddMultiple(a: int, b: int, m: int)
    requires m > 0 && b % m == 0
    ensures (a + b) % m == a % m
  {
    DivModUnique(a + b, m, a / m + b / m, a % m);
  }

  /** Twice a multiple of m is a multiple of m. */
  lemma ModDouble(b: int, m: int)
    requires m > 0 && b % m == 0
    ensures (2 * b) % m == 0
  {
    ModAddMultiple(b, b, m);
  }

  /** A smaller power of two is at most half of a larger one. */
  lemma {:induction false} Below(m: int, n: int)
    requires IsPow2(m) && IsPow2(n) && m < n
    ensures 2 * m <= n
    decreases n
  {
    if m != 1 {
      Below(m / 2, n / 2);
    }
  }

  /** A power of two divides every power of two that is at least as large. */
  lemma {:induction false} Divides(m: int, n: int)
    requires IsPow2(m) && IsPow2(n) && m <= n
    ensures n % m == 0
    decreases n
  {
    if m < n {
      Below(m, n);
      var h := n / 2;
      assert n == 2 * h && IsPow2(h);
      Divides(m, h);
      ModDouble(h, m);
    } else {
      Positive(m);
      DivModUnique(n, m, 1, 0);
    }
  }

  /** A power of two other than 1 is twice a power of two. */
  lemma Halve(n: int) returns (h: int)
    requires IsPow2(n) && n >= 2
    ensures n == 2 * h && IsPow2(h) && h >= 1
  {
    h := n / 2;
  }

  /** Doubling a power of two gives a power of two. */
  lemma Double(k: int)
    requires IsPow2(k)
    ensures IsPow2(2 * k)
  {
    DivModUnique(2 * k, 2, k, 0);
  }

  /** Powers of two are positive. */
  lemma Positive(n: int)
    requires IsPow2(n)
    ensures n >= 1
  {
  }

  /**
   * If a window of width w starts at an offset x that is a multiple of w, and
   * x lies before h (another multiple of w), the whole window fits before h.
   */
  lemma AlignedFits(x: int, w: int, h: int)
    requires w > 0 && 0 <= x < h && x % w == 0 && h % w == 0
    ensures x + w <= h
  {
    var qx, qh := x / w, h / w;
    assert x == w * qx;
    assert h == w * qh;
    assert qx < qh;
    assert w * (qx + 1) <= w * qh;
  }

  /** x is a multiple of 2k exactly when it is a multiple of k with an even quotient. */
  lemma EvenQuotient(x: int, k: int)
    requires k > 0 && x % k == 0
    ensures (x / k) % 2 == 0 <==> x % (2 * k) == 0
    ensures (x / k) % 2 == 0 ==> x / (2 * k) == (x / k) / 2
    ensures (x / k) % 2 == 1 ==> (x - k) % (2 * k) == 0
  {
    var q := x / k;
    var p := q / 2;
    assert x == k * q;
    assert q == 2 * p + q % 2;
    if q % 2 == 0 {
      calc {
        x;
        k * q;
        k * (2 * p);
        (2 * k) * p;
      }
      DivModUnique(x, 2 * k, p, 0);
    } else {
      calc {
        x;
        k * q;
        k * (2 * p + 1);
        (2 * k) * p + k;
      }
      DivModUnique(x, 2 * k, p, k);
      DivModUnique(x - k, 2 * k, p, 0);
    }
  }

  /** A non-negative multiple of k with an odd quotient is at least k. */
  lemma OddQuotientBound(x: int, k: int)
    requires k > 0 && x >= 0 && x % k == 0 && (x / k) % 2 == 1
    ensures x >= k
  {
    assert x == k * (x / k);
    MulBound(k, x / k);
  }

  /** Scaling numerator and divisor by two leaves a quotient unchanged. */
  lemma ScaledQuotient(x: int, k: int)
    requires k > 0 && x >= 0
    ensures (2 * x) / (2 * k) == x / k
  {
    DivModUnique(2 * x, 2 * k, x / k, 2 * (x % k));
  }
}
