/** The Wilson score interval over the reals. The square root is the argument `root`:
    a nonnegative number whose square is the radicand. */
module Wilson {
  import opened Models
  import opened RealAlgebra

  datatype Outcome = Ok(interval: Interval) | NoObservations | SuccessesOutOfRange

  function PHat(successes: int, n: int): real
    requires n > 0
  {
    successes as real / n as real
  }

  function Denominator(n: int, z: real): real
    requires n > 0
  {
    1.0 + Square(z) / n as real
  }

  function Variance(p: real): real { p * (1.0 - p) }
  function Square(x: real): real { x * x }

  lemma SquareNonnegative(z: real)
    ensures Square(z) >= 0.0
  {
    Product(z, z, Square(z));
    Product(-z, -z, Square(z));
  }

  lemma SquarePositive(m: real)
    requires m > 0.0
    ensures Square(m) > 0.0
  {
    Product(m, m, Square(m));
  }

  lemma DivideNonnegative(s: real, m: real)
    requires s >= 0.0 && m > 0.0
    ensures s / m >= 0.0
  {
    MulKeepsOrder(0.0, s / m, m, 0.0, s);
  }

  function Radicand(successes: int, n: int, z: real): real
    requires n > 0
  {
    SquarePositive(n as real);
    Variance(PHat(successes, n)) / n as real + Square(z) / (4.0 * Square(n as real))
  }

  ghost predicate IsRoot(root: real, x: real) {
    root >= 0.0 && root * root == x
  }

  lemma DenominatorPositive(n: int, z: real)
    requires n > 0
    ensures Square(z) / n as real >= 0.0 && Denominator(n, z) >= 1.0
  {
    SquareNonnegative(z);
    DivideNonnegative(Square(z), n as real);
  }

  function Center(successes: int, n: int, z: real): real
    requires n > 0
  {
    DenominatorPositive(n, z);
    (PHat(successes, n) + Square(z) / (2.0 * n as real)) / Denominator(n, z)
  }

  function Half(n: int, z: real, root: real): real
    requires n > 0
  {
    DenominatorPositive(n, z);
    z / Denominator(n, z) * root
  }

  function WilsonInterval(successes: int, n: int, z: real, root: real): Outcome {
    if n <= 0 then NoObservations
    else if !(0 <= successes <= n) then SuccessesOutOfRange
    else
      var center, half := Center(successes, n, z), Half(n, z, root);
      Ok(Interval(MaxReal(0.0, center - half), MinReal(1.0, center + half)))
  }

  // ---- the algebra, free of divisions -----------------------------------------------

  /** h <= p + w/2 when h^2 = w u + w^2/4 and u = p (1-p). */
  lemma BelowNumerator(p: real, u: real, w: real, h: real, pp: real, ww: real, wu: real, hh: real)
    requires p >= 0.0 && w >= 0.0 && h >= 0.0
    requires pp == p * p && ww == w * w && u == p - pp && wu == w * u && hh == h * h && hh == wu + ww / 4.0
    ensures h <= p + w / 2.0
  {
    var a, wp, wpp := p + w / 2.0, w * p, w * pp;
    Distribute(w, p, -pp, u);
    Product(p, p, pp);
    Product(w, pp, wpp);
    var aa := a * a;
    assert aa == pp + wp + ww / 4.0;
    SquareOrder(h, a, hh, aa);
  }

  /** w (1/2 - p) <= h under the same conditions. */
  lemma AboveOffset(p: real, u: real, w: real, h: real, pp: real, ww: real, wu: real, hh: real)
    requires 0.0 <= p <= 1.0 && w >= 0.0 && h >= 0.0
    requires pp == p * p && ww == w * w && u == p - pp && wu == w * u && hh == h * h && hh == wu + ww / 4.0
    ensures w / 2.0 - w * p <= h
  {
    var t, q := 0.5 - p, 1.0 - p;
    var b, tt, wwu := w * t, t * t, ww * u;
    assert p * q == u;
    Product(p, q, u);
    assert tt == 0.25 - u;
    var bb := b * b;
    SquareOfProduct(w, t, b, ww, tt);
    Distribute(ww, 0.25, -u, tt);
    Product(w, w, ww);
    Product(w, u, wu);
    Product(ww, u, wwu);
    if b >= 0.0 { SquareOrder(b, h, bb, hh); }
    Distribute(w, 0.5, -p, t);
  }

  /** The numerator p + w/2 - h of the lower end stays between zero and p (1 + w). */
  lemma LowerEnd(p: real, u: real, w: real, h: real, wu: real, ww: real, hh: real, d: real, pd: real)
    requires 0.0 <= p <= 1.0 && w >= 0.0 && h >= 0.0 && u == Variance(p)
    requires wu == w * u && ww == w * w && hh == h * h && hh == wu + ww / 4.0 && d == 1.0 + w && pd == p * d
    ensures 0.0 <= p + w / 2.0 - h && p + w / 2.0 - h <= pd
  {
    var pp := p * p;
    Distribute(p, 1.0, -p, 1.0 - p);
    assert u == p - pp;
    BelowNumerator(p, u, w, h, pp, ww, wu, hh);
    AboveOffset(p, u, w, h, pp, ww, wu, hh);
    Distribute(p, 1.0, w, d);
  }

  /** The interval's parts in the shape the algebra wants. */
  lemma Scaled(successes: int, n: int, z: real, root: real)
      returns (p: real, u: real, w: real, h: real, wu: real, ww: real, hh: real)
    requires n > 0 && 0 <= successes <= n && IsRoot(root, Radicand(successes, n, z))
    ensures p == PHat(successes, n) && 0.0 <= p <= 1.0 && u == Variance(p)
    ensures w == Square(z) / n as real && w >= 0.0 && Denominator(n, z) == 1.0 + w
    ensures h == z * root && hh == h * h && wu == w * u && ww == w * w && hh == wu + ww / 4.0
    ensures Center(successes, n, z) == (p + w / 2.0) / Denominator(n, z)
    ensures Half(n, z, root) == h / Denominator(n, z)
  {
    var m := n as real;
    p, w, h := PHat(successes, n), Square(z) / m, z * root;
    u := Variance(p);
    hh, wu, ww := h * h, w * u, w * w;
    DenominatorPositive(n, z);
    DivideBounds(successes as real, 0.0, 1.0, m, 0.0, m);
    HalfQuotient(Square(z), m);
    SquarePositive(m);
    SquaredHalf(u, m, z, root, Square(z), root * root, w, h, hh, wu, ww);
    DivideScales(z, root, Denominator(n, z), h);
  }

  lemma HalfQuotient(s: real, m: real)
    requires m > 0.0
    ensures s / (2.0 * m) == s / m / 2.0
    ensures Square(m) > 0.0 && s / (4.0 * Square(m)) == s / m / m / 4.0
  {
    var x := s / m;
    var y := x / m;
    var half, quarter, mm := x / 2.0, y / 4.0, Square(m);
    SquarePositive(m);
    assert half * (2.0 * m) == x * m;
    Quotient(s, 2.0 * m, half);
    FourthQuotient(s, m, x, y, quarter, mm);
    Quotient(s, 4.0 * mm, quarter);
  }

  lemma FourthQuotient(s: real, m: real, x: real, y: real, quarter: real, mm: real)
    requires x * m == s && y * m == x && quarter == y / 4.0 && mm == Square(m)
    ensures quarter * (4.0 * mm) == s
  {
    assert quarter * (4.0 * mm) == y * mm;
    assert y * mm == y * m * m;
  }

  /** (z root)^2 when root^2 = u/m + z^2/(4 m^2) and w = z^2/m. */
  lemma SquaredHalf(u: real, m: real, z: real, root: real, s: real, v: real,
                    w: real, h: real, hh: real, wu: real, ww: real)
    requires m > 0.0 && Square(m) > 0.0 && s == Square(z) && v == root * root && w == s / m && h == z * root
    requires hh == h * h && wu == w * u && ww == w * w && v == u / m + s / (4.0 * Square(m))
    ensures hh == wu + ww / 4.0
  {
    HalfQuotient(s, m);
    SquareOfProduct(z, root, h, s, v);
    var um, wm := u / m, w / m;
    Distribute(s, um, wm / 4.0, v);
    var su, sw := s * u, s * w;
    DivideScales(u, s, m, su);
    DivideScales(s, u, m, su);
    DivideScales(w, s, m, sw);
    DivideScales(s, w, m, sw);
    assert s * (wm / 4.0) == (s * wm) / 4.0;
  }

  /** The interval brackets the observed rate inside [0, 1], and neither clamp ever binds. */
  lemma WilsonBracketsRate(successes: int, n: int, z: real, root: real)
    requires n > 0 && 0 <= successes <= n && z >= 0.0 && IsRoot(root, Radicand(successes, n, z))
    ensures WilsonInterval(successes, n, z, root)
         == Ok(Interval(Center(successes, n, z) - Half(n, z, root), Center(successes, n, z) + Half(n, z, root)))
    ensures 0.0 <= Center(successes, n, z) - Half(n, z, root) <= PHat(successes, n)
         <= Center(successes, n, z) + Half(n, z, root) <= 1.0
  {
    var p, u, w, h, wu, ww, hh := Scaled(successes, n, z, root);
    Product(z, root, h);
    BothEnds(p, u, w, h, wu, ww, hh, Denominator(n, z));
  }

  lemma BothEnds(p: real, u: real, w: real, h: real, wu: real, ww: real, hh: real, d: real)
    requires 0.0 <= p <= 1.0 && u == Variance(p) && w >= 0.0 && h >= 0.0 && d == 1.0 + w
    requires hh == h * h && wu == w * u && ww == w * w && hh == wu + ww / 4.0
    ensures 0.0 <= (p + w / 2.0) / d - h / d <= p <= (p + w / 2.0) / d + h / d <= 1.0
  {
    var pd := p * d;
    BothNumerators(p, 1.0 - p, u, w, h, wu, ww, hh, d, pd);
    DividedEnds(p, w, h, d, pd, p + w / 2.0 - h, p + w / 2.0 + h);
  }

  /** The upper end is the lower end of the reflected proportion. */
  lemma BothNumerators(p: real, q: real, u: real, w: real, h: real, wu: real, ww: real, hh: real, d: real, pd: real)
    requires 0.0 <= p <= 1.0 && q == 1.0 - p && u == Variance(p) && w >= 0.0 && h >= 0.0 && d == 1.0 + w && pd == p * d
    requires hh == h * h && wu == w * u && ww == w * w && hh == wu + ww / 4.0
    ensures 0.0 <= p + w / 2.0 - h <= pd <= p + w / 2.0 + h <= d
  {
    var qd := q * d;
    VarianceSymmetric(p, q);
    LowerEnd(p, u, w, h, wu, ww, hh, d, pd);
    LowerEnd(q, u, w, h, wu, ww, hh, d, qd);
    Distribute(d, 1.0, -p, q);
    assert qd == d - pd;
  }

  lemma DividedEnds(p: real, w: real, h: real, d: real, pd: real, low: real, high: real)
    requires d >= 1.0 && pd == p * d && low == p + w / 2.0 - h && high == p + w / 2.0 + h
    requires 0.0 <= low <= pd <= high <= d
    ensures 0.0 <= (p + w / 2.0) / d - h / d <= p <= (p + w / 2.0) / d + h / d <= 1.0
  {
    DivideBounds(low, 0.0, p, d, 0.0, pd);
    DivideBounds(high, p, 1.0, d, pd, d);
    DivideAdds(p + w / 2.0, h, d);
  }

  lemma VarianceSymmetric(p: real, q: real)
    requires q == 1.0 - p
    ensures Variance(q) == Variance(p)
  {
  }

  lemma ComplementRate(successes: int, n: int)
    requires n > 0
    ensures PHat(n - successes, n) == 1.0 - PHat(successes, n)
  {
    var m := n as real;
    DivideAdds(m, successes as real, m);
    Quotient(m, m, 1.0);
    assert (n - successes) as real == m - successes as real;
  }

  /** Counting failures instead of successes reflects the interval about one half. */
  lemma WilsonReflects(successes: int, n: int, z: real, root: real)
    requires n > 0 && 0 <= successes <= n && z >= 0.0 && IsRoot(root, Radicand(successes, n, z))
    ensures IsRoot(root, Radicand(n - successes, n, z))
    ensures WilsonInterval(n - successes, n, z, root).Ok?
    ensures var i, j := WilsonInterval(successes, n, z, root).interval, WilsonInterval(n - successes, n, z, root).interval;
      j.low == 1.0 - i.high && j.high == 1.0 - i.low
  {
    ComplementRate(successes, n);
    VarianceSymmetric(PHat(successes, n), PHat(n - successes, n));
    var p, u, w, h, wu, ww, hh := Scaled(successes, n, z, root);
    var p', u', w', h', wu', ww', hh' := Scaled(n - successes, n, z, root);
    WilsonBracketsRate(successes, n, z, root);
    WilsonBracketsRate(n - successes, n, z, root);
    var d, x := Denominator(n, z), p + w / 2.0;
    DivideAdds(d, x, d);
    Quotient(d, d, 1.0);
    assert d - x == p' + w / 2.0;
  }

  // ---- the score equation ------------------------------------------------------------------

  /** The squared distance of a rate e from the observed one, against z squared times the variance
      of e over n: the equation that defines the score interval. */
  ghost predicate SolvesScore(p: real, w: real, e: real) {
    Square(p - e) == w * Variance(e)
  }

  /** With d e the numerator of an end, the equation is a quadratic in that numerator. */
  lemma NumeratorSolves(p: real, w: real, x: real, h: real, hh: real, y: real)
    requires x == p + w / 2.0 && hh == h * h && hh == w * Variance(p) + w * w / 4.0 && (y == x - h || y == x + h)
    ensures y * y - 2.0 * (x * y) + p * p * (1.0 + w) == 0.0
  {
    var g := y - x;
    assert g * g == hh;
    assert y * y - 2.0 * (x * y) == g * g - x * x by { assert g * g == y * y - 2.0 * (x * y) + x * x; }
    var pp, pw := p * p, p * w;
    var ppw := pp * w;
    assert x * x == pp + pw + w * w / 4.0;
    assert w * Variance(p) == pw - ppw by { assert Variance(p) == p - pp; assert w * (p - pp) == w * p - w * pp; }
    assert p * p * (1.0 + w) == pp + ppw;
  }

  lemma ScaledSquare(e: real, d: real, y: real, ee: real, dee: real)
    requires y == e * d && ee == e * e && dee == d * ee
    ensures y * y == dee * d
  {
    SquareOfProduct(e, d, y, ee, d * d);
    assert ee * (d * d) == (d * ee) * d;
  }

  lemma ScaledProduct(x: real, e: real, d: real, y: real, xe: real)
    requires y == e * d && xe == x * e
    ensures x * y == xe * d
  {
    assert x * (e * d) == (x * e) * d;
  }

  lemma ScaledSum(a: real, b: real, c: real, d: real, q: real)
    requires q == a - 2.0 * b + c
    ensures q * d == a * d - 2.0 * (b * d) + c * d
  {
  }

  lemma QuadraticOfEnd(p: real, w: real, d: real, x: real, e: real, y: real)
    requires d == 1.0 + w && d > 0.0 && x == p + w / 2.0 && y == e * d
    requires y * y - 2.0 * (x * y) + p * p * d == 0.0
    ensures d * (e * e) - 2.0 * (x * e) + p * p == 0.0
  {
    var ee, xe, pp := e * e, x * e, p * p;
    var dee := d * ee;
    var q := dee - 2.0 * xe + pp;
    ScaledSquare(e, d, y, ee, dee);
    ScaledProduct(x, e, d, y, xe);
    ScaledSum(dee, xe, pp, d, q);
    Quotient(0.0, d, q);
  }

  lemma ScoreFromQuadratic(p: real, w: real, x: real, e: real)
    requires x == p + w / 2.0 && (1.0 + w) * (e * e) - 2.0 * (x * e) + p * p == 0.0
    ensures SolvesScore(p, w, e)
  {
    var ee, pe, we := e * e, p * e, w * e;
    var wee := w * ee;
    assert (1.0 + w) * ee == ee + wee;
    assert x * e == pe + we / 2.0 by { assert (p + w / 2.0) * e == p * e + (w * e) / 2.0; }
    assert Square(p - e) == p * p - 2.0 * pe + ee;
    assert w * Variance(e) == we - wee by { assert Variance(e) == e - ee; assert w * (e - ee) == w * e - w * ee; }
  }

  /** Both ends solve (rate - e)^2 = (z^2 / n) e (1 - e): they are the rates the score test just
      accepts. */
  lemma EndsSolveScoreEquation(successes: int, n: int, z: real, root: real)
    requires n > 0 && 0 <= successes <= n && z >= 0.0 && IsRoot(root, Radicand(successes, n, z))
    ensures WilsonInterval(successes, n, z, root).Ok?
    ensures var i := WilsonInterval(successes, n, z, root).interval;
      SolvesScore(PHat(successes, n), Square(z) / n as real, i.low) && SolvesScore(PHat(successes, n), Square(z) / n as real, i.high)
  {
    var p, u, w, h, wu, ww, hh := Scaled(successes, n, z, root);
    var d, x := Denominator(n, z), p + w / 2.0;
    WilsonBracketsRate(successes, n, z, root);
    DivideAdds(x, h, d);
    OneEnd(p, w, wu, ww, h, hh, d, x, x - h, Center(successes, n, z) - Half(n, z, root));
    OneEnd(p, w, wu, ww, h, hh, d, x, x + h, Center(successes, n, z) + Half(n, z, root));
  }

  lemma OneEnd(p: real, w: real, wu: real, ww: real, h: real, hh: real, d: real, x: real, y: real, e: real)
    requires x == p + w / 2.0 && hh == h * h && (y == x - h || y == x + h)
    requires wu == w * Variance(p) && ww == w * w && hh == wu + ww / 4.0
    requires d == 1.0 + w && w >= 0.0 && e == y / d
    ensures SolvesScore(p, w, e)
  {
    assert e * d == y;
    NumeratorSolves(p, w, x, h, hh, y);
    QuadraticOfEnd(p, w, d, x, e, y);
    ScoreFromQuadratic(p, w, x, e);
  }
}
