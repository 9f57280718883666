/**
  The two integer helpers of the game, `clamp` and `rand`, and the arithmetic
  facts their contracts rest on.

  `Math.random()` is a number in [0, 1); here one such value is an exact
  fraction `num / den` (a `RandomDraw`) supplied by the caller.
 */
module Helpers {

  function Min(a: int, b: int): int { if a <= b then a else b }

  function Max(a: int, b: int): int { if a >= b then a else b }

  /** `clamp(n, lo, hi)` is `Math.max(lo, Math.min(hi, n))`. */
  function Clamp(n: int, lo: int, hi: int): (r: int)
    ensures lo <= hi ==> lo <= r <= hi
    ensures lo <= n <= hi ==> r == n
    ensures lo <= hi && n < lo ==> r == lo
    ensures lo <= hi && hi < n ==> r == hi
    ensures hi < lo ==> r == lo
  {
    Max(lo, Min(hi, n))
  }

  /** A fraction `num / den`; as a `RandomDraw` it lies in [0, 1). */
  datatype Fraction = Fraction(num: nat, den: nat)

  /** One value of `Math.random()`. */
  type RandomDraw = f: Fraction | f.num < f.den witness Fraction(0, 1)

  /**
    `rand(min, max)` is `Math.floor(u * (max - min + 1)) + min` for the draw `u`.
    With a positive divisor Dafny's `/` rounds down, exactly as `Math.floor` does.
   */
  function Rand(min: int, max: int, u: RandomDraw): (r: int)
    ensures min <= max ==> min <= r <= max
  {
    ScaledFloorBound(u.num, u.den, max - min + 1);
    (u.num * (max - min + 1)) / u.den + min
  }

  /** Every value of `[min, max]` is drawn by some `u`: no cell or jitter is unreachable. */
  lemma RandCoversRange(min: int, max: int, v: int)
    requires min <= v <= max
    ensures Rand(min, max, Fraction(v - min, max - min + 1)) == v
  {
    var n := max - min + 1;
    DivUnique((v - min) * n, n, v - min, 0);
  }

  /** The numerator `j` of a draw over `den` makes `rand(min, max)` return `v`. */
  predicate Hits(min: int, max: int, den: nat, j: int, v: int)
  {
    0 <= j < den && Rand(min, max, Fraction(j, den)) == v
  }

  /**
    `rand` is uniform: when the denominator of the draw is `m` times the size
    of the range, each value of `[min, max]` is hit by exactly `m` of the
    `n * m` equally likely numerators.
   */
  lemma RandUniform(min: int, max: int, m: nat, den: nat, v: int)
    requires min <= v <= max && 0 < m && den == (max - min + 1) * m
    ensures |set j | 0 <= j < den && Hits(min, max, den, j, v)| == m
  {
    var n := max - min + 1;
    var c := v - min;
    assert c * m + m <= den by { MulLeq(c + 1, n, m); }
    forall j | 0 <= j < den
      ensures Hits(min, max, den, j, v) <==> InBand(j, c * m, c * m + m)
    {
      ScaleCancels(j, n, m);
      DivBand(j, m, c);
    }
    SameBand(den, c * m, c * m + m, min, max, v);
    BandCard(den, c * m, c * m + m);
  }

  lemma SameBand(den: nat, lo: nat, hi: nat, min: int, max: int, v: int)
    requires forall j :: 0 <= j < den ==> (Hits(min, max, den, j, v) <==> InBand(j, lo, hi))
    ensures (set j | 0 <= j < den && Hits(min, max, den, j, v)) == (set j | 0 <= j < den && InBand(j, lo, hi))
  {
  }

  /** `floor(num * n / den)` is in `[0, n)` when `num < den` and `n` is positive. */
  lemma ScaledFloorBound(num: nat, den: nat, n: int)
    requires num < den
    ensures 1 <= n ==> 0 <= (num * n) / den < n
  {
  }

  lemma MulLess(a: int, b: int, n: int)
    requires a < b && 0 < n
    ensures a * n < b * n
  {
    assert b * n - a * n == (b - a) * n;
  }

  lemma MulLeq(a: int, b: int, n: int)
    requires a <= b && 0 <= n
    ensures a * n <= b * n
  {
    assert b * n - a * n == (b - a) * n;
  }

  /** Division is determined by any quotient/remainder pair with `0 <= r < d`. */
  lemma DivUnique(a: int, d: int, q: int, r: int)
    requires 0 < d && a == q * d + r && 0 <= r < d
    ensures a / d == q
  {
    var q' := a / d;
    assert a == q' * d + a % d;
    if q' < q {
      MulLeq(q' + 1, q, d);
      assert false;
    } else if q < q' {
      MulLeq(q + 1, q', d);
      assert false;
    }
  }

  /** `j / m == c` exactly on the band `[c * m, c * m + m)`. */
  lemma DivBand(j: int, m: int, c: int)
    requires 0 < m
    ensures j / m == c <==> c * m <= j < c * m + m
  {
    if c * m <= j < c * m + m {
      DivUnique(j, m, c, j - c * m);
    }
    if j / m == c {
      assert j == c * m + j % m;
    }
  }

  /** Scaling the numerator and the denominator by `n` leaves the quotient alone. */
  lemma ScaleCancels(j: nat, n: int, m: int)
    requires 0 < n && 0 < m
    ensures (j * n) / (n * m) == j / m
  {
    var q, r := j / m, j % m;
    assert j == q * m + r;
    assert j * n == q * (n * m) + r * n;
    MulLess(r, m, n);
    DivUnique(j * n, n * m, q, r * n);
  }

  predicate InBand(j: int, lo: int, hi: int) { lo <= j < hi }

  /** Of the integers `[0, n)`, exactly `min(n, hi) - min(n, lo)` lie in `[lo, hi)`. */
  lemma {:induction false} BandCard(n: nat, lo: nat, hi: nat)
    requires lo <= hi
    ensures |set j | 0 <= j < n && InBand(j, lo, hi)| == Min(n, hi) - Min(n, lo)
  {
    if n > 0 {
      BandCard(n - 1, lo, hi);
      var below := set j | 0 <= j < n - 1 && InBand(j, lo, hi);
      if InBand(n - 1, lo, hi) {
        assert (set j | 0 <= j < n && InBand(j, lo, hi)) == below + {n - 1};
      } else {
        assert (set j | 0 <= j < n && InBand(j, lo, hi)) == below;
      }
    } else {
      assert (set j | 0 <= j < n && InBand(j, lo, hi)) == {};
    }
  }
}
