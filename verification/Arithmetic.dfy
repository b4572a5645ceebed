/** Facts about multiples and powers of two. */
module Arithmetic {

  lemma MulLe(a: int, b: int, m: nat)
    requires a <= b
    ensures a * m <= b * m
  {
  }

  lemma MulLt(a: int, b: int, m: nat)
    requires a < b && m > 0
    ensures a * m < b * m
    ensures a * m + m <= b * m
  {
    MulLe(a + 1, b, m);
    assert (a + 1) * m == a * m + m;
  }

  lemma MulAtLeast(a: nat, m: nat)
    requires m > 0
    ensures a <= a * m
  {
    MulLe(1, m, a);
  }

  lemma ModUnique(q: int, m: nat, r: int)
    requires 0 <= r < m
    ensures (q * m + r) % m == r
    ensures (q * m + r) / m == q
  {
    var x := q * m + r;
    assert x == (x / m) * m + x % m;
    if x / m < q {
      MulLt(x / m, q, m);
    } else if x / m > q {
      MulLt(q, x / m, m);
    }
  }

  lemma InBlock(x: nat, p: nat, m: nat)
    requires m > 0
    ensures p * m <= x < p * m + m <==> p == x / m
  {
    var q := x / m;
    assert q * m <= x < q * m + m;
    if p < q {
      MulLt(p, q, m);
    } else if q < p {
      MulLt(q, p, m);
    }
  }

  /** Below a multiple of `c`, every aligned range of length `c` ends by that multiple. */
  lemma RangeBelowMultiple(x: nat, c: nat, d: nat)
    requires c > 0 && x < d * c
    ensures 0 <= x - x % c <= x < x - x % c + c <= d * c
  {
    var q := x / c;
    assert x == q * c + x % c;
    if q < d {
      MulLt(q, d, c);
    } else {
      MulLe(d, q, c);
    }
  }

  /** `p * m` as repeated addition: specifications use it to keep products out of proofs that do not need them. */
  ghost function Times(p: nat, m: nat): (n: nat) {
    if p == 0 then 0 else Times(p - 1, m) + m
  }

  lemma {:induction false} TimesIsProduct(p: nat, m: nat)
    ensures Times(p, m) == p * m
  {
    if p > 0 {
      TimesIsProduct(p - 1, m);
      assert p * m == (p - 1) * m + m;
    }
  }

  lemma {:induction false} TimesGrows(p: nat, q: nat, m: nat)
    requires p < q
    ensures Times(p, m) + m <= Times(q, m)
  {
    if p < q - 1 {
      TimesGrows(p, q - 1, m);
    }
  }

  /** How many blocks of `m` it takes to hold `n`. */
  ghost function Chunks(n: nat, m: nat): (c: nat)
    requires m > 0
    decreases n
  {
    if n == 0 then 0 else if n <= m then 1 else 1 + Chunks(n - m, m)
  }

  lemma {:induction false} ChunksCount(n: nat, m: nat, p: nat)
    requires m > 0
    ensures p < Chunks(n, m) <==> Times(p, m) < n
    decreases n
  {
    if p > 0 && n > m {
      ChunksCount(n - m, m, p - 1);
    }
  }

  /** One more is held by the same blocks, unless `n` filled them all. */
  lemma {:induction false} ChunksStep(n: nat, m: nat)
    requires m > 0
    ensures Chunks(n + 1, m) == Chunks(n, m) + if n % m == 0 then 1 else 0
    ensures n % m == 0 ==> Times(Chunks(n, m), m) == n
    decreases n
  {
    if n >= m {
      ChunksStep(n - m, m);
      assert n == (n / m - 1) * m + n % m + m;
      ModUnique(n / m - 1, m, n % m);
    }
  }

  function Pow2(n: nat): (p: nat)
    ensures p > 0
  {
    if n == 0 then 1 else 2 * Pow2(n - 1)
  }

  lemma {:induction false} Pow2Sum(a: nat, b: nat)
    ensures Pow2(a + b) == Pow2(a) * Pow2(b)
  {
    if a > 0 {
      Pow2Sum(a - 1, b);
      assert Pow2(a + b) == 2 * Pow2(a - 1 + b);
    }
  }

  lemma Pow2Values()
    ensures Pow2(30) == 0x4000_0000
    ensures Pow2(32) == 0x1_0000_0000
  {
    assert Pow2(8) == 0x100;
    Pow2Sum(8, 8);
    Pow2Sum(16, 14);
    Pow2Sum(8, 6);
    Pow2Sum(16, 16);
  }

  lemma Pow2Bound(s: nat)
    requires s <= 30
    ensures Pow2(s) <= 0x4000_0000
  {
    Pow2Sum(s, 30 - s);
    Pow2Values();
    MulAtLeast(Pow2(s), Pow2(30 - s));
  }
}
