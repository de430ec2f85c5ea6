/** The two-sided Fisher exact test on a 2x2 table, over exact reals. */
module Fisher {
  import opened Binomial
  import opened Ordering

  /** The relative tolerance that keeps an equally likely mirrored table in the tail. */
  const TOLERANCE: real := 1.0 + 0.000000001

  function Max(x: int, y: int): int { if x < y then y else x }

  /** Hypergeometric probability of x in the top left cell. */
  function Probability(row1: nat, row2: nat, col1: nat, x: int): real
    requires col1 <= row1 + row2
  {
    CombPositive(row1 + row2, col1);
    Weight(row1, row2, col1, x) as real / Comb(row1 + row2, col1) as real
  }

  function ProbabilityAt(row1: nat, row2: nat, col1: nat): int -> real
    requires col1 <= row1 + row2
  {
    x => Probability(row1, row2, col1, x)
  }

  /** One summand of the tail: the tables no likelier than the observed one. */
  function TailAt(row1: nat, row2: nat, col1: nat, observed: real): int -> real
    requires col1 <= row1 + row2
  {
    x => var p := Probability(row1, row2, col1, x); if p <= observed * TOLERANCE then p else 0.0
  }

  function Tail(row1: nat, row2: nat, col1: nat, observed: real): real
    requires col1 <= row1 + row2
  {
    Sum(TailAt(row1, row2, col1, observed), Max(0, col1 - row2), Min(row1, col1) + 1)
  }

  function FisherExact(a: nat, b: nat, c: nat, d: nat): real {
    if a + b + c + d == 0 then 1.0
    else
      var total := Tail(a + b, c + d, a + c, Probability(a + b, c + d, a + c, a));
      if total < 1.0 then total else 1.0
  }

  // ---- a probability distribution -----------------------------------------------

  lemma SupportIsNonempty(row1: nat, row2: nat, col1: nat)
    requires col1 <= row1 + row2
    ensures Max(0, col1 - row2) <= Min(row1, col1)
  {
  }

  lemma WeightPositive(row1: nat, row2: nat, col1: nat, x: int)
    requires col1 <= row1 + row2 && Max(0, col1 - row2) <= x <= Min(row1, col1)
    ensures Weight(row1, row2, col1, x) >= 1
    ensures Probability(row1, row2, col1, x) > 0.0
  {
    CombPositive(row1, x);
    CombPositive(row2, col1 - x);
    MulPositive(Comb(row1, x), Comb(row2, col1 - x));
    CombPositive(row1 + row2, col1);
  }

  /** The weights over the summed range add up to comb(n, col1): nothing lies outside it. */
  lemma WeightsSumToComb(row1: nat, row2: nat, col1: nat)
    requires col1 <= row1 + row2
    ensures Sum(WeightAt(row1, row2, col1), Max(0, col1 - row2), Min(row1, col1) + 1)
         == Comb(row1 + row2, col1) as real
  {
    var w := WeightAt(row1, row2, col1);
    var low, high := Max(0, col1 - row2), Min(row1, col1) + 1;
    forall x | 0 <= x < low ensures w(x) == 0.0 { CombBeyond(row2, col1 - x); }
    forall x | high <= x < col1 + 1 ensures w(x) == 0.0 { CombBeyond(row1, x); }
    SumZero(w, 0, low);
    SumZero(w, high, col1 + 1);
    SumSplit(w, 0, low, col1 + 1);
    SumSplit(w, low, high, col1 + 1);
    Vandermonde(row1, row2, col1);
  }

  lemma DivideIsScale(x: real, n: real)
    requires n > 0.0
    ensures x / n == (1.0 / n) * x
  {
  }

  /** Weights divided by their total sum to one. */
  lemma Normalised(w: int -> real, p: int -> real, lo: int, hi: int, n: real)
    requires n > 0.0 && Sum(w, lo, hi) == n
    requires forall x :: lo <= x < hi ==> p(x) == w(x) / n
    ensures Sum(p, lo, hi) == 1.0
  {
    forall x | lo <= x < hi ensures p(x) == (1.0 / n) * w(x) { DivideIsScale(w(x), n); }
    SumScale(w, p, 1.0 / n, lo, hi);
    DivideIsScale(n, n);
  }

  lemma ProbabilitiesSumToOne(row1: nat, row2: nat, col1: nat)
    requires col1 <= row1 + row2
    ensures Sum(ProbabilityAt(row1, row2, col1), Max(0, col1 - row2), Min(row1, col1) + 1) == 1.0
  {
    CombPositive(row1 + row2, col1);
    WeightsSumToComb(row1, row2, col1);
    Normalised(WeightAt(row1, row2, col1), ProbabilityAt(row1, row2, col1),
               Max(0, col1 - row2), Min(row1, col1) + 1, Comb(row1 + row2, col1) as real);
  }

  lemma {:induction false} SumAtLeastTerm(f: int -> real, lo: int, hi: int, k: int)
    requires lo <= k < hi && forall x :: lo <= x < hi ==> f(x) >= 0.0
    ensures Sum(f, lo, hi) >= f(k)
    decreases hi - lo
  {
    if k < hi - 1 {
      SumAtLeastTerm(f, lo, hi - 1, k);
    } else {
      SumZero(x => 0.0, lo, hi - 1);
      SumMonotone(x => 0.0, f, lo, hi - 1);
    }
  }

  /** The p-value is a probability, it is at least that of the observed table, and the cap
      at one is never what produces it. */
  lemma FisherBounds(a: nat, b: nat, c: nat, d: nat)
    ensures 0.0 < Probability(a + b, c + d, a + c, a) <= FisherExact(a, b, c, d) <= 1.0
    ensures FisherExact(a, b, c, d) == Tail(a + b, c + d, a + c, Probability(a + b, c + d, a + c, a))
  {
    var row1, row2, col1 := a + b, c + d, a + c;
    var observed := Probability(row1, row2, col1, a);
    var low, high := Max(0, col1 - row2), Min(row1, col1) + 1;
    var f := TailAt(row1, row2, col1, observed);
    var p := ProbabilityAt(row1, row2, col1);
    forall x | low <= x < high ensures 0.0 <= f(x) <= p(x) { WeightPositive(row1, row2, col1, x); }
    WeightPositive(row1, row2, col1, a);
    assert f(a) == observed;
    SumAtLeastTerm(f, low, high, a);
    SumMonotone(f, p, low, high);
    ProbabilitiesSumToOne(row1, row2, col1);
  }

  lemma TailMonotone(row1: nat, row2: nat, col1: nat, p: real, q: real)
    requires col1 <= row1 + row2 && p <= q
    ensures Tail(row1, row2, col1, p) <= Tail(row1, row2, col1, q)
  {
    var f, g := TailAt(row1, row2, col1, p), TailAt(row1, row2, col1, q);
    var low, high := Max(0, col1 - row2), Min(row1, col1) + 1;
    forall x | low <= x < high ensures f(x) <= g(x) { WeightPositive(row1, row2, col1, x); }
    SumMonotone(f, g, low, high);
  }

  /** Among tables with the same margins, a likelier table never has a smaller p-value. */
  lemma FisherMonotone(a: nat, b: nat, c: nat, d: nat, shift: int)
    requires a + shift >= 0 && b - shift >= 0 && c - shift >= 0 && d + shift >= 0
    requires Probability(a + b, c + d, a + c, a) <= Probability(a + b, c + d, a + c, a + shift)
    ensures FisherExact(a, b, c, d) <= FisherExact(a + shift, b - shift, c - shift, d + shift)
  {
    var row1, row2, col1 := a + b, c + d, a + c;
    assert (a + shift) + (b - shift) == row1 && (c - shift) + (d + shift) == row2;
    assert (a + shift) + (c - shift) == col1;
    TailMonotone(row1, row2, col1, Probability(row1, row2, col1, a), Probability(row1, row2, col1, a + shift));
  }

  // ---- which tables count ----------------------------------------------------------------

  lemma {:induction false} SumGap(f: int -> real, g: int -> real, lo: int, hi: int, k: int)
    requires lo <= k < hi && forall x :: lo <= x < hi ==> f(x) <= g(x)
    ensures Sum(g, lo, hi) - Sum(f, lo, hi) >= g(k) - f(k)
    decreases hi - lo
  {
    if k < hi - 1 {
      SumGap(f, g, lo, hi - 1, k);
    } else {
      SumMonotone(f, g, lo, hi - 1);
    }
  }

  /** What the p-value leaves out: the probabilities of the tables with these margins that exceed
      the observed one by more than a billionth of it. */
  lemma FisherLeavesOutTheLikelier(a: nat, b: nat, c: nat, d: nat, row1: nat, row2: nat, col1: nat, likelier: int -> real)
    requires row1 == a + b && row2 == c + d && col1 == a + c
    requires forall x :: likelier(x) == var p := Probability(row1, row2, col1, x);
                         if p > Probability(row1, row2, col1, a) * 1.000000001 then p else 0.0
    ensures 1.0 - FisherExact(a, b, c, d)
         == Sum(likelier, if col1 > row2 then col1 - row2 else 0, (if row1 < col1 then row1 else col1) + 1)
  {
    var f, p := TailAt(row1, row2, col1, Probability(row1, row2, col1, a)), ProbabilityAt(row1, row2, col1);
    var low, high := Max(0, col1 - row2), Min(row1, col1) + 1;
    FisherBounds(a, b, c, d);
    ProbabilitiesSumToOne(row1, row2, col1);
    SumAdd(f, likelier, p, low, high);
  }

  lemma NothingLikelier(p: int -> real, likelier: int -> real, line: real, lo: int, hi: int)
    requires forall x :: lo <= x < hi ==> p(x) > 0.0 && likelier(x) == if p(x) > line then p(x) else 0.0
    ensures Sum(likelier, lo, hi) == 0.0 <==> forall x :: lo <= x < hi ==> p(x) <= line
  {
    var zero := (x: int) => 0.0;
    SumZero(zero, lo, hi);
    if x :| lo <= x < hi && p(x) > line {
      SumGap(zero, likelier, lo, hi, x);
    } else {
      SumZero(likelier, lo, hi);
    }
  }

  /** The p-value is one exactly when no table with these margins is likelier by more than that. */
  lemma FisherIsOneIff(a: nat, b: nat, c: nat, d: nat, row1: nat, row2: nat, col1: nat)
    requires row1 == a + b && row2 == c + d && col1 == a + c
    ensures FisherExact(a, b, c, d) == 1.0 <==>
      forall x :: Max(0, col1 - row2) <= x <= Min(row1, col1) ==>
        Probability(row1, row2, col1, x) <= Probability(row1, row2, col1, a) * 1.000000001
  {
    var p, line := ProbabilityAt(row1, row2, col1), Probability(row1, row2, col1, a) * 1.000000001;
    var likelier := (x: int) => if p(x) > line then p(x) else 0.0;
    var low, high := Max(0, col1 - row2), Min(row1, col1) + 1;
    forall x: int ensures p(x) == Probability(row1, row2, col1, x) {}
    FisherLeavesOutTheLikelier(a, b, c, d, row1, row2, col1, likelier);
    forall x | low <= x < high ensures p(x) > 0.0 { WeightPositive(row1, row2, col1, x); }
    NothingLikelier(p, likelier, line, low, high);
  }

  /** Among tables with the same margins, one likelier by more than that has the larger p-value. */
  lemma FisherStrictlyMonotone(a: nat, b: nat, c: nat, d: nat, shift: int)
    requires a + shift >= 0 && b - shift >= 0 && c - shift >= 0 && d + shift >= 0
    requires Probability(a + b, c + d, a + c, a) * 1.000000001 < Probability(a + b, c + d, a + c, a + shift)
    ensures FisherExact(a, b, c, d) + Probability(a + b, c + d, a + c, a + shift)
         <= FisherExact(a + shift, b - shift, c - shift, d + shift)
    ensures FisherExact(a, b, c, d) < FisherExact(a + shift, b - shift, c - shift, d + shift)
  {
    var row1, row2, col1 := a + b, c + d, a + c;
    assert (a + shift) + (b - shift) == row1 && (c - shift) + (d + shift) == row2;
    assert (a + shift) + (c - shift) == col1;
    var p, q := Probability(row1, row2, col1, a), Probability(row1, row2, col1, a + shift);
    var low, high := Max(0, col1 - row2), Min(row1, col1) + 1;
    WeightPositive(row1, row2, col1, a);
    WeightPositive(row1, row2, col1, a + shift);
    TailGap(row1, row2, col1, p, q, a + shift);
    FisherBounds(a, b, c, d);
    FisherBounds(a + shift, b - shift, c - shift, d + shift);
  }

  lemma TailGap(row1: nat, row2: nat, col1: nat, p: real, q: real, k: int)
    requires col1 <= row1 + row2 && Max(0, col1 - row2) <= k <= Min(row1, col1)
    requires 0.0 < p && p * 1.000000001 < q == Probability(row1, row2, col1, k)
    ensures Tail(row1, row2, col1, p) + q <= Tail(row1, row2, col1, q)
  {
    var f, g := TailAt(row1, row2, col1, p), TailAt(row1, row2, col1, q);
    var low, high := Max(0, col1 - row2), Min(row1, col1) + 1;
    forall x | low <= x < high ensures f(x) <= g(x) { WeightPositive(row1, row2, col1, x); }
    SumGap(f, g, low, high, k);
  }

  /** p n! a! b! c! d! = row1! row2! col1! col2!, in parts. */
  ghost predicate Balances(p: real, n: nat, cells: nat, margins: nat) {
    p * (n * cells) as real == margins as real
  }

  function Products(a: nat, b: nat, c: nat, d: nat): nat {
    (a * b) * (c * d)
  }

  /** The probability of a table is row1! row2! col1! col2! over n! and the factorials of its cells. */
  lemma ProbabilityIsHypergeometric(row1: nat, row2: nat, col1: nat, x: nat)
    requires col1 <= row1 + row2 && Max(0, col1 - row2) <= x <= Min(row1, col1)
    ensures Balances(Probability(row1, row2, col1, x), Factorial(row1 + row2),
                     Products(Factorial(x), Factorial(row1 - x), Factorial(col1 - x), Factorial(row2 - (col1 - x))),
                     Products(Factorial(row1), Factorial(row2), Factorial(col1), Factorial(row1 + row2 - col1)))
  {
    CombFactorial(row1, x);
    CombFactorial(row2, col1 - x);
    CombFactorial(row1 + row2, col1);
    CombPositive(row1 + row2, col1);
    HypergeometricAlgebra(
      Comb(row1, x), Comb(row2, col1 - x), Comb(row1 + row2, col1), Factorial(x), Factorial(row1 - x), Factorial(col1 - x),
      Factorial(row2 - (col1 - x)), Factorial(col1), Factorial(row1 + row2 - col1),
      Factorial(row1), Factorial(row2), Factorial(row1 + row2), Probability(row1, row2, col1, x));
  }

  lemma HypergeometricAlgebra(x: nat, y: nat, m: nat, a: nat, b: nat, c: nat, d: nat, col1: nat, col2: nat,
                              row1: nat, row2: nat, n: nat, p: real)
    requires m > 0 && x * (a * b) == row1 && y * (c * d) == row2 && m * (col1 * col2) == n && p == (x * y) as real / m as real
    ensures Balances(p, n, Products(a, b, c, d), Products(row1, row2, col1, col2))
  {
    var xs, ys, ms := a * b, c * d, col1 * col2;
    TwoCells(x, y, xs, ys);
    ScaledQuotient(x * y, m, xs * ys, ms, n, row1 * row2, p);
  }

  lemma TwoCells(x: nat, y: nat, p: nat, q: nat)
    ensures (x * y) * (p * q) == (x * p) * (y * q)
  {
  }

  lemma ScaledQuotient(w: nat, m: nat, inner: nat, ms: nat, n: nat, rows: nat, p: real)
    requires m > 0 && p == w as real / m as real && w * inner == rows && m * ms == n
    ensures p * (n * inner) as real == (rows * ms) as real
  {
    var rest, scaled := ms * inner, n * inner;
    Reassociate(m, ms, inner);
    assert scaled == m * rest;
    assert p * m as real == w as real;
    QuotientTimes(p, w, m, rest, scaled);
    Reassociate(w, inner, ms);
    Commute(inner, ms);
  }

  lemma Reassociate(x: nat, y: nat, z: nat)
    ensures (x * y) * z == x * (y * z)
  {
  }

  lemma Commute(x: nat, y: nat)
    ensures x * y == y * x
  {
  }

  lemma QuotientTimes(p: real, w: nat, m: nat, rest: nat, scaled: nat)
    requires p * m as real == w as real && scaled == m * rest
    ensures p * scaled as real == (w * rest) as real
  {
    assert scaled as real == m as real * rest as real;
    assert p * (m as real * rest as real) == (p * m as real) * rest as real;
    assert (w * rest) as real == w as real * rest as real;
  }

  // ---- symmetries ---------------------------------------------------------------------

  /** Tails agree when one distribution is the other one read through x -> k - x. */
  lemma MirroredTails(r1: nat, r2: nat, c1: nat, s1: nat, s2: nat, e1: nat, k: int, observed: real)
    requires c1 <= r1 + r2 && e1 <= s1 + s2
    requires k - Min(r1, c1) == Max(0, e1 - s2) && k - Max(0, c1 - r2) == Min(s1, e1)
    requires forall x :: Max(0, c1 - r2) <= x <= Min(r1, c1) ==>
      Probability(s1, s2, e1, k - x) == Probability(r1, r2, c1, x)
    ensures Tail(r1, r2, c1, observed) == Tail(s1, s2, e1, observed)
  {
    var f, g := TailAt(r1, r2, c1, observed), TailAt(s1, s2, e1, observed);
    var lo, hi := Max(0, c1 - r2), Min(r1, c1) + 1;
    SupportIsNonempty(r1, r2, c1);
    forall x | lo <= x < hi ensures g(k - x) == f(x) {
      assert Probability(s1, s2, e1, k - x) == Probability(r1, r2, c1, x);
    }
    SumMirror(f, g, lo, hi, k);
  }

  lemma MirrorRows(row1: nat, row2: nat, col1: nat, x: int)
    requires col1 <= row1 + row2 && 0 <= x <= col1
    ensures Probability(row2, row1, col1, col1 - x) == Probability(row1, row2, col1, x)
  {
    assert Weight(row2, row1, col1, col1 - x) == Weight(row1, row2, col1, x) by {
      assert col1 - (col1 - x) == x;
    }
    assert row2 + row1 == row1 + row2;
  }

  lemma FisherSwapRows(a: nat, b: nat, c: nat, d: nat)
    ensures FisherExact(c, d, a, b) == FisherExact(a, b, c, d)
  {
    if a + b + c + d > 0 {
      var row1, row2, col1 := a + b, c + d, a + c;
      MirrorRows(row1, row2, col1, a);
      forall x | Max(0, col1 - row2) <= x <= Min(row1, col1)
        ensures Probability(row2, row1, col1, col1 - x) == Probability(row1, row2, col1, x)
      {
        MirrorRows(row1, row2, col1, x);
      }
      MirroredTails(row1, row2, col1, row2, row1, col1, col1, Probability(row1, row2, col1, a));
      assert c + a == col1 && col1 - a == c;
    }
  }

  lemma MirrorColumns(row1: nat, row2: nat, col1: nat, x: int)
    requires col1 <= row1 + row2 && Max(0, col1 - row2) <= x <= Min(row1, col1)
    ensures Probability(row1, row2, row1 + row2 - col1, row1 - x) == Probability(row1, row2, col1, x)
  {
    var col2 := row1 + row2 - col1;
    CombSymmetric(row1, x);
    CombSymmetric(row2, col1 - x);
    CombSymmetric(row1 + row2, col1);
    assert col2 - (row1 - x) == row2 - (col1 - x);
    assert row1 + row2 - col1 == col2;
  }

  lemma FisherSwapColumns(a: nat, b: nat, c: nat, d: nat)
    ensures FisherExact(b, a, d, c) == FisherExact(a, b, c, d)
  {
    if a + b + c + d > 0 {
      var row1, row2, col1 := a + b, c + d, a + c;
      var col2 := row1 + row2 - col1;
      MirrorColumns(row1, row2, col1, a);
      forall x | Max(0, col1 - row2) <= x <= Min(row1, col1)
        ensures Probability(row1, row2, col2, row1 - x) == Probability(row1, row2, col1, x)
      {
        MirrorColumns(row1, row2, col1, x);
      }
      MirroredTails(row1, row2, col1, row1, row2, col2, row1, Probability(row1, row2, col1, a));
      assert b + a == row1 && d + c == row2 && b + d == col2 && row1 - a == b;
    }
  }

  /** Both readings of a cell equal row1! row2! col1! col2! / (n! x! ...): neither margin is special. */
  lemma TransposeWeights(row1: nat, row2: nat, col1: nat, x: nat)
    requires col1 <= row1 + row2 && Max(0, col1 - row2) <= x <= Min(row1, col1)
    ensures Weight(row1, row2, col1, x) * Comb(row1 + row2, row1)
         == Weight(col1, row1 + row2 - col1, row1, x) * Comb(row1 + row2, col1)
  {
    var n, col2 := row1 + row2, row1 + row2 - col1;
    var i, j, k := row1 - x, col1 - x, row2 - (col1 - x);
    assert col2 - i == k;
    CombFactorial(row1, x);
    CombFactorial(row2, j);
    CombFactorial(col1, x);
    CombFactorial(col2, i);
    CombFactorial(n, row1);
    CombFactorial(n, col1);
    assert n - row1 == row2 && n - col1 == col2;
    CrossProducts(
      Comb(row1, x), Comb(row2, j), Comb(n, row1), Comb(col1, x), Comb(col2, i), Comb(n, col1),
      Factorial(x), Factorial(i), Factorial(j), Factorial(k),
      Factorial(row1), Factorial(row2), Factorial(col1), Factorial(col2), Factorial(n));
  }

  lemma CrossProducts(cr1: nat, cr2: nat, cnr: nat, cc1: nat, cc2: nat, cnc: nat,
                      x: nat, i: nat, j: nat, k: nat,
                      r1: nat, r2: nat, c1: nat, c2: nat, n: nat)
    requires x >= 1 && i >= 1 && j >= 1 && k >= 1 && r1 >= 1 && r2 >= 1 && c1 >= 1 && c2 >= 1
    requires cr1 * (x * i) == r1 && cr2 * (j * k) == r2 && cnr * (r1 * r2) == n
    requires cc1 * (x * j) == c1 && cc2 * (i * k) == c2 && cnc * (c1 * c2) == n
    ensures cr1 * cr2 * cnr == cc1 * cc2 * cnc
  {
    var d := (x * i) * (j * k);
    TwoCells(x, j, i, k);
    assert d == (x * j) * (i * k);
    PairOfCells(cr1, cr2, cnr, x * i, j * k, r1, r2, n, d);
    PairOfCells(cc1, cc2, cnc, x * j, i * k, c1, c2, n, d);
    MulPositive(x, i);
    MulPositive(j, k);
    MulPositive(x * i, j * k);
    Cancel(cr1 * cr2 * cnr, cc1 * cc2 * cnc, d);
  }

  lemma PairOfCells(x: nat, y: nat, z: nat, xs: nat, ys: nat, row1: nat, row2: nat, n: nat, d: nat)
    requires x * xs == row1 && y * ys == row2 && z * (row1 * row2) == n && d == xs * ys
    ensures (x * y * z) * d == n
  {
    TwoCells(x, y, xs, ys);
    Commute(x * y, z);
    Reassociate(z, x * y, d);
  }

  lemma EqualFractions(x: nat, y: nat, p: nat, q: nat)
    requires p >= 1 && q >= 1 && x * q == y * p
    ensures x as real / p as real == y as real / q as real
  {
    assert (x as real) * (q as real) == (y as real) * (p as real);
  }

  lemma TransposeProbability(row1: nat, row2: nat, col1: nat, x: nat)
    requires col1 <= row1 + row2 && Max(0, col1 - row2) <= x <= Min(row1, col1)
    ensures Probability(row1, row2, col1, x) == Probability(col1, row1 + row2 - col1, row1, x)
  {
    TransposeWeights(row1, row2, col1, x);
    CombPositive(row1 + row2, col1);
    CombPositive(row1 + row2, row1);
    EqualFractions(Weight(row1, row2, col1, x), Weight(col1, row1 + row2 - col1, row1, x),
                   Comb(row1 + row2, col1), Comb(row1 + row2, row1));
    assert col1 + (row1 + row2 - col1) == row1 + row2;
  }

  lemma TransposeTails(row1: nat, row2: nat, col1: nat, observed: real)
    requires col1 <= row1 + row2
    ensures Tail(row1, row2, col1, observed) == Tail(col1, row1 + row2 - col1, row1, observed)
  {
    var low, high := Max(0, col1 - row2), Min(row1, col1) + 1;
    var f, g := TailAt(row1, row2, col1, observed), TailAt(col1, row1 + row2 - col1, row1, observed);
    forall x | low <= x < high ensures f(x) == g(x) { TransposeProbability(row1, row2, col1, x); }
    SumEqual(f, g, low, high);
  }

  /** Which margin is called the rows does not matter. */
  lemma FisherTranspose(a: nat, b: nat, c: nat, d: nat)
    ensures FisherExact(a, c, b, d) == FisherExact(a, b, c, d)
  {
    if a + b + c + d > 0 {
      var row1, row2, col1 := a + b, c + d, a + c;
      assert row1 + row2 - col1 == b + d;
      TransposeProbability(row1, row2, col1, a);
      TransposeTails(row1, row2, col1, Probability(row1, row2, col1, a));
    }
  }
}
