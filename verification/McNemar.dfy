/** The exact two-sided McNemar test on the two discordant pair counts. */
module McNemar {
  import opened Binomial
  import opened Ordering

  function Gap(b: nat, c: nat): nat { if b < c then c - b else b - c }

  /** Half of the two-sided mass: at most `smaller` successes in n fair trials. */
  function LowerTail(n: nat, smaller: nat): real {
    Sum(CombAt(n), 0, smaller + 1) / Pow2(n) as real
  }

  function McNemarExact(b: nat, c: nat): real {
    if b + c == 0 then 1.0
    else
      var p := 2.0 * LowerTail(b + c, Min(b, c));
      if p < 1.0 then p else 1.0
  }

  lemma McNemarSymmetric(b: nat, c: nat)
    ensures McNemarExact(b, c) == McNemarExact(c, b)
  {
    assert b + c == c + b;
  }

  lemma SymmetricTails(f: int -> real, n: nat, s: nat)
    requires s <= n && forall x :: 0 <= x <= n ==> f(n - x) == f(x)
    ensures Sum(f, n - s, n + 1) == Sum(f, 0, s + 1)
  {
    SumMirror(f, f, 0, s + 1, n);
    assert n - (s + 1) + 1 == n - s && n - 0 + 1 == n + 1;
  }

  /** The upper tail read backwards is the lower tail. */
  lemma UpperTailMirrors(n: nat, s: nat)
    requires s <= n
    ensures Sum(CombAt(n), n - s, n + 1) == Sum(CombAt(n), 0, s + 1)
  {
    forall x | 0 <= x <= n ensures CombAt(n)(n - x) == CombAt(n)(x) { CombSymmetric(n, x); }
    SymmetricTails(CombAt(n), n, s);
  }

  /** The lower tail with s < n - s and its mirror leave the middle of the row uncounted. */
  lemma TwoTails(n: nat, s: nat)
    requires 2 * s < n
    ensures 2.0 * Sum(CombAt(n), 0, s + 1) + Sum(CombAt(n), s + 1, n - s) == Pow2(n) as real
  {
    RowSum(n);
    UpperTailMirrors(n, s);
    SumSplit(CombAt(n), 0, s + 1, n + 1);
    SumSplit(CombAt(n), s + 1, n - s, n + 1);
  }

  lemma SumPositive(f: int -> real, lo: int, hi: int)
    requires lo < hi && forall x :: lo <= x < hi ==> f(x) > 0.0
    ensures Sum(f, lo, hi) > 0.0
    decreases hi - lo
  {
    SumLast(f, lo, hi);
    if lo < hi - 1 { SumPositive(f, lo, hi - 1); }
  }

  lemma RowPositive(n: nat, lo: nat, hi: nat)
    requires lo < hi <= n + 1
    ensures Sum(CombAt(n), lo, hi) > 0.0
  {
    forall x | lo <= x < hi ensures CombAt(n)(x) > 0.0 { CombPositive(n, x); }
    SumPositive(CombAt(n), lo, hi);
  }

  lemma DivideKeepsOrder(x: real, y: real, d: real)
    requires d > 0.0
    ensures x < y ==> x / d < y / d
    ensures x == y ==> x / d == y / d
    ensures d / d == 1.0
    ensures 2.0 * (x / d) == (2.0 * x) / d
  {
  }

  lemma TiedTailIsLarge(n: nat, s: nat)
    requires n == 2 * s && n > 0
    ensures 2.0 * LowerTail(n, s) > 1.0
  {
    var d, tail := Pow2(n) as real, Sum(CombAt(n), 0, s + 1);
    RowSum(n);
    UpperTailMirrors(n, s);
    SumSplit(CombAt(n), 0, s, n + 1);
    SumSplit(CombAt(n), 0, s, s + 1);
    RowPositive(n, s, s + 1);
    assert 2.0 * tail > d;
    DivideKeepsOrder(d, 2.0 * tail, d);
    DivideKeepsOrder(tail, tail, d);
  }

  lemma UntiedTail(n: nat, s: nat)
    requires 2 * s < n
    ensures n - s == s + 1 ==> 2.0 * LowerTail(n, s) == 1.0
    ensures n - s > s + 1 ==> 2.0 * LowerTail(n, s) < 1.0
  {
    var d, tail := Pow2(n) as real, Sum(CombAt(n), 0, s + 1);
    TwoTails(n, s);
    if n - s > s + 1 { RowPositive(n, s + 1, n - s); }
    DivideKeepsOrder(2.0 * tail, d, d);
    DivideKeepsOrder(tail, tail, d);
  }

  /** With more than one pair between the tails the doubled tail is below one: the cap binds
      only at b = c, where it does. */
  lemma CapBindsOnlyAtATie(b: nat, c: nat)
    requires b + c > 0
    ensures b == c ==> 2.0 * LowerTail(b + c, Min(b, c)) > 1.0 && McNemarExact(b, c) == 1.0
    ensures b != c && Gap(b, c) == 1 ==> 2.0 * LowerTail(b + c, Min(b, c)) == 1.0
    ensures Gap(b, c) >= 2 ==> 2.0 * LowerTail(b + c, Min(b, c)) < 1.0
    ensures McNemarExact(b, c) == 1.0 <==> Gap(b, c) <= 1
  {
    if b == c {
      TiedTailIsLarge(b + c, Min(b, c));
    } else {
      UntiedTail(b + c, Min(b, c));
    }
  }

  lemma McNemarBounds(b: nat, c: nat)
    ensures 0.0 < McNemarExact(b, c) <= 1.0
  {
    if b + c > 0 {
      RowPositive(b + c, 0, Min(b, c) + 1);
      var d := Pow2(b + c) as real;
      DivideKeepsOrder(0.0, Sum(CombAt(b + c), 0, Min(b, c) + 1), d);
    }
  }

  /** Away from a tie the p-value is the mass of both tails: at most min, or at least max. */
  lemma McNemarIsBothTails(b: nat, c: nat)
    requires b != c
    ensures var n, s, l := b + c, Min(b, c), b + c - Min(b, c);
      McNemarExact(b, c) == (Sum(CombAt(n), 0, s + 1) + Sum(CombAt(n), l, n + 1)) / Pow2(n) as real
  {
    var n, s := b + c, Min(b, c);
    UpperTailMirrors(n, s);
    CapBindsOnlyAtATie(b, c);
    var tail := Sum(CombAt(n), 0, s + 1);
    DivideKeepsOrder(tail, tail, Pow2(n) as real);
  }

  /** For a fixed number of discordant pairs, a wider split is strictly more significant;
      the two narrowest splits, of gap at most one, share the value one. */
  lemma McNemarDecreases(b: nat, c: nat, b': nat, c': nat)
    requires b + c == b' + c' && Gap(b, c) < Gap(b', c')
    ensures McNemarExact(b', c') < McNemarExact(b, c)
  {
    var n, s, s' := b + c, Min(b, c), Min(b', c');
    assert s' < s && Gap(b', c') >= 2;
    CapBindsOnlyAtATie(b', c');
    McNemarBounds(b, c);
    SumSplit(CombAt(n), 0, s' + 1, s + 1);
    RowPositive(n, s' + 1, s + 1);
    var narrow, wide := Sum(CombAt(n), 0, s + 1), Sum(CombAt(n), 0, s' + 1);
    var d := Pow2(n) as real;
    DivideKeepsOrder(wide, narrow, d);
  }
}
