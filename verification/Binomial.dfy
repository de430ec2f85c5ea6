/** Finite sums and binomial coefficients: the identities behind the exact tests. */
module Binomial {

  // ---- finite sums over lo <= x < hi --------------------------------------------

  function Sum(f: int -> real, lo: int, hi: int): real
    decreases hi - lo
  {
    if hi <= lo then 0.0 else Sum(f, lo, hi - 1) + f(hi - 1)
  }

  lemma {:induction false} SumMonotone(f: int -> real, g: int -> real, lo: int, hi: int)
    requires forall x :: lo <= x < hi ==> f(x) <= g(x)
    ensures Sum(f, lo, hi) <= Sum(g, lo, hi)
    decreases hi - lo
  {
    if lo < hi { SumMonotone(f, g, lo, hi - 1); }
  }

  lemma SumEqual(f: int -> real, g: int -> real, lo: int, hi: int)
    requires forall x :: lo <= x < hi ==> f(x) == g(x)
    ensures Sum(f, lo, hi) == Sum(g, lo, hi)
  {
    SumMonotone(f, g, lo, hi);
    SumMonotone(g, f, lo, hi);
  }

  lemma {:induction false} SumAdd(f: int -> real, g: int -> real, h: int -> real, lo: int, hi: int)
    requires forall x :: lo <= x < hi ==> h(x) == f(x) + g(x)
    ensures Sum(h, lo, hi) == Sum(f, lo, hi) + Sum(g, lo, hi)
    decreases hi - lo
  {
    if lo < hi { SumAdd(f, g, h, lo, hi - 1); }
  }

  lemma {:induction false} SumScale(f: int -> real, g: int -> real, c: real, lo: int, hi: int)
    requires forall x :: lo <= x < hi ==> g(x) == c * f(x)
    ensures Sum(g, lo, hi) == c * Sum(f, lo, hi)
    decreases hi - lo
  {
    if lo < hi { SumScale(f, g, c, lo, hi - 1); }
  }

  lemma {:induction false} SumSplit(f: int -> real, lo: int, mid: int, hi: int)
    requires lo <= mid <= hi
    ensures Sum(f, lo, hi) == Sum(f, lo, mid) + Sum(f, mid, hi)
    decreases hi - mid
  {
    if mid < hi { SumSplit(f, lo, mid, hi - 1); }
  }

  lemma {:induction false} SumZero(f: int -> real, lo: int, hi: int)
    requires forall x :: lo <= x < hi ==> f(x) == 0.0
    ensures Sum(f, lo, hi) == 0.0
    decreases hi - lo
  {
    if lo < hi { SumZero(f, lo, hi - 1); }
  }

  lemma SumLast(f: int -> real, lo: int, hi: int)
    requires lo < hi
    ensures Sum(f, lo, hi) == Sum(f, lo, hi - 1) + f(hi - 1)
  {
  }

  /** Summing a sequence delayed by one place. */
  lemma {:induction false} SumDelayed(f: int -> real, g: int -> real, hi: int)
    requires hi >= 1 && forall x :: 0 <= x < hi ==> g(x) == f(x - 1)
    ensures Sum(g, 0, hi) == f(-1) + Sum(f, 0, hi - 1)
    decreases hi
  {
    SumLast(g, 0, hi);
    if hi > 1 {
      SumDelayed(f, g, hi - 1);
      SumLast(f, 0, hi - 1);
    }
  }

  /** Summing over the range read backwards through x -> k - x. */
  lemma {:induction false} SumMirror(f: int -> real, g: int -> real, lo: int, hi: int, k: int)
    requires lo <= hi
    requires forall x :: lo <= x < hi ==> g(k - x) == f(x)
    ensures Sum(g, k - hi + 1, k - lo + 1) == Sum(f, lo, hi)
    decreases hi - lo
  {
    if lo < hi {
      SumMirror(f, g, lo, hi - 1, k);
      SumSplit(g, k - hi + 1, k - hi + 2, k - lo + 1);
      assert g(k - (hi - 1)) == f(hi - 1);
      assert Sum(g, k - hi + 1, k - hi + 2) == Sum(g, k - hi + 1, k - hi + 1) + g(k - hi + 1);
    }
  }

  // ---- binomial coefficients ----------------------------------------------------

  /** `math.comb`, by Pascal's rule: zero when k > n. */
  function Comb(n: nat, k: nat): nat {
    if k == 0 then 1
    else if n == 0 then 0
    else Comb(n - 1, k - 1) + Comb(n - 1, k)
  }

  function Factorial(n: nat): (r: nat)
    ensures r >= 1
  {
    if n == 0 then 1 else n * Factorial(n - 1)
  }

  lemma {:induction false} CombBeyond(n: nat, k: nat)
    requires k > n
    ensures Comb(n, k) == 0
  {
    if n > 0 {
      CombBeyond(n - 1, k - 1);
      CombBeyond(n - 1, k);
    }
  }

  lemma {:induction false} CombPositive(n: nat, k: nat)
    requires k <= n
    ensures Comb(n, k) >= 1
  {
    if 0 < k { CombPositive(n - 1, k - 1); }
  }

  /** The multiplicative form: Comb(n, k) counts n! / (k! (n-k)!). */
  lemma {:induction false} CombFactorial(n: nat, k: nat)
    requires k <= n
    ensures Comb(n, k) * (Factorial(k) * Factorial(n - k)) == Factorial(n)
  {
    if k == 0 {
    } else if k == n {
      CombFactorial(n - 1, n - 1);
      CombBeyond(n - 1, n);
      assert Factorial(n - 1 - (n - 1)) == 1 && Factorial(n - n) == 1;
      assert Comb(n - 1, n - 1) * Factorial(n - 1) == Factorial(n - 1);
      FactorialCancel(Comb(n - 1, n - 1), Factorial(n - 1));
    } else {
      CombFactorial(n - 1, k - 1);
      CombFactorial(n - 1, k);
      var f, g := Factorial(k - 1), Factorial(n - 1 - k);
      PascalStep(Comb(n - 1, k - 1), Comb(n - 1, k), f, g, k, n - k, Factorial(n - 1));
    }
  }

  lemma FactorialCancel(c: nat, f: nat)
    requires f >= 1 && c * f == f
    ensures c == 1
  {
    assert (c - 1) * f == 0;
  }

  /** One Pascal step in factorial form, with k and j the two parts of n. */
  lemma PascalStep(left: nat, right: nat, f: nat, g: nat, k: nat, j: nat, whole: nat)
    requires left * (f * (j * g)) == whole && right * ((k * f) * g) == whole
    ensures (left + right) * ((k * f) * (j * g)) == (k + j) * whole
  {
    assert left * ((k * f) * (j * g)) == k * (left * (f * (j * g)));
    assert right * ((k * f) * (j * g)) == j * (right * ((k * f) * g));
  }

  lemma CombSymmetric(n: nat, k: nat)
    requires k <= n
    ensures Comb(n, k) == Comb(n, n - k)
  {
    CombFactorial(n, k);
    CombFactorial(n, n - k);
    var d := Factorial(k) * Factorial(n - k);
    assert Factorial(n - k) * Factorial(n - (n - k)) == d;
    assert d >= 1 by { MulPositive(Factorial(k), Factorial(n - k)); }
    Cancel(Comb(n, k), Comb(n, n - k), d);
  }

  lemma MulPositive(x: nat, y: nat)
    requires x >= 1 && y >= 1
    ensures x * y >= 1
  {
  }

  lemma Cancel(x: int, y: int, d: int)
    requires d >= 1 && x * d == y * d
    ensures x == y
  {
    assert (x - y) * d == 0;
  }

  // ---- Vandermonde ----------------------------------------------------------------

  /** Ways to draw x of the first row and col1 - x of the second; zero outside 0..col1. */
  function Weight(row1: nat, row2: nat, col1: nat, x: int): nat {
    if 0 <= x <= col1 then Comb(row1, x) * Comb(row2, col1 - x) else 0
  }

  function WeightAt(row1: nat, row2: nat, col1: nat): int -> real {
    x => Weight(row1, row2, col1, x) as real
  }

  lemma WeightPascal(r: nat, row2: nat, c: nat, x: int)
    requires c > 0
    ensures Weight(r + 1, row2, c, x) == Weight(r, row2, c, x) + Weight(r, row2, c - 1, x - 1)
  {
    if 1 <= x <= c {
      assert Comb(r + 1, x) == Comb(r, x - 1) + Comb(r, x);
      assert c - 1 - (x - 1) == c - x;
      assert (Comb(r, x - 1) + Comb(r, x)) * Comb(row2, c - x)
          == Comb(r, x - 1) * Comb(row2, c - x) + Comb(r, x) * Comb(row2, c - x);
    }
  }

  /** The first and the only term of a sum whose other terms vanish. */
  lemma SumFirst(f: int -> real, hi: int)
    requires hi >= 1 && forall x :: 1 <= x < hi ==> f(x) == 0.0
    ensures Sum(f, 0, hi) == f(0)
  {
    SumSplit(f, 0, 1, hi);
    SumZero(f, 1, hi);
    assert Sum(f, 0, 1) == Sum(f, 0, 0) + f(0);
  }

  lemma {:induction false} Vandermonde(row1: nat, row2: nat, c: nat)
    ensures Sum(WeightAt(row1, row2, c), 0, c + 1) == Comb(row1 + row2, c) as real
    decreases row1
  {
    var w := WeightAt(row1, row2, c);
    if row1 == 0 || c == 0 {
      forall x | 1 <= x < c + 1 ensures w(x) == 0.0 { CombBeyond(0, x); }
      SumFirst(w, c + 1);
    } else {
      Vandermonde(row1 - 1, row2, c);
      Vandermonde(row1 - 1, row2, c - 1);
      VandermondeStep(row1 - 1, row2, c);
    }
  }

  lemma VandermondeStep(r: nat, row2: nat, c: nat)
    requires c > 0
    ensures Sum(WeightAt(r + 1, row2, c), 0, c + 1)
         == Sum(WeightAt(r, row2, c), 0, c + 1) + Sum(WeightAt(r, row2, c - 1), 0, c)
  {
    var w, same, less := WeightAt(r + 1, row2, c), WeightAt(r, row2, c), WeightAt(r, row2, c - 1);
    var moved := (x: int) => less(x - 1);
    forall x | 0 <= x < c + 1 ensures w(x) == same(x) + moved(x) { WeightPascal(r, row2, c, x); }
    SumAdd(same, moved, w, 0, c + 1);
    SumDelayed(less, moved, c + 1);
  }

  // ---- rows of Pascal's triangle ---------------------------------------------------

  function Pow2(n: nat): (r: nat)
    ensures r >= 1
  {
    if n == 0 then 1 else 2 * Pow2(n - 1)
  }

  function CombAt(n: nat): int -> real {
    k => if 0 <= k then Comb(n, k) as real else 0.0
  }

  lemma PascalRow(n: nat, x: int)
    requires n > 0
    ensures CombAt(n)(x) == CombAt(n - 1)(x) + CombAt(n - 1)(x - 1)
  {
  }

  /** Adding a finite sequence to itself, delayed by one place, doubles its sum. */
  lemma DoubledSum(f: int -> real, g: int -> real, n: int)
    requires n >= 1 && g(-1) == 0.0 && g(n) == 0.0
    requires forall x :: 0 <= x < n + 1 ==> f(x) == g(x) + g(x - 1)
    ensures Sum(f, 0, n + 1) == 2.0 * Sum(g, 0, n)
  {
    var moved := (x: int) => g(x - 1);
    SumAdd(g, moved, f, 0, n + 1);
    SumLast(g, 0, n + 1);
    SumDelayed(g, moved, n + 1);
  }

  /** The row with number n sums to 2^n. */
  lemma {:induction false} RowSum(n: nat)
    ensures Sum(CombAt(n), 0, n + 1) == Pow2(n) as real
  {
    if n == 0 {
      SumFirst(CombAt(0), 1);
    } else {
      RowSum(n - 1);
      forall x | 0 <= x < n + 1 ensures CombAt(n)(x) == CombAt(n - 1)(x) + CombAt(n - 1)(x - 1) { PascalRow(n, x); }
      CombBeyond(n - 1, n);
      DoubledSum(CombAt(n), CombAt(n - 1), n);
    }
  }
}
