/** Small steps of real arithmetic. Each product is handed over under a name of its own. */
module RealAlgebra {

  lemma Product(x: real, y: real, p: real)
    requires p == x * y
    ensures x >= 0.0 && y >= 0.0 ==> p >= 0.0
    ensures x > 0.0 && y > 0.0 ==> p > 0.0
  {
  }

  lemma MulKeepsOrder(x: real, y: real, d: real, xd: real, yd: real)
    requires d > 0.0 && xd == x * d && yd == y * d
    ensures x <= y <==> xd <= yd
    ensures x == y <==> xd == yd
  {
    var e := y - x;
    var ed := e * d;
    assert ed == yd - xd;
    Product(e, d, ed);
    Product(-e, d, -ed);
  }

  lemma Quotient(x: real, d: real, y: real)
    requires d > 0.0 && y * d == x
    ensures x / d == y
  {
    MulKeepsOrder(x / d, y, d, x, x);
  }

  lemma DivideBounds(x: real, lo: real, hi: real, d: real, lod: real, hid: real)
    requires d > 0.0 && lod == lo * d && hid == hi * d && lod <= x <= hid
    ensures lo <= x / d <= hi
  {
    MulKeepsOrder(lo, x / d, d, lod, x);
    MulKeepsOrder(x / d, hi, d, x, hid);
  }

  lemma DivideAdds(x: real, y: real, d: real)
    requires d > 0.0
    ensures (x + y) / d == x / d + y / d && (x - y) / d == x / d - y / d
  {
    var a, b := x / d, y / d;
    assert a * d == x && b * d == y;
    assert (a + b) * d == a * d + b * d && (a - b) * d == a * d - b * d;
    Quotient(x + y, d, a + b);
    Quotient(x - y, d, a - b);
  }

  /** y (x / d) = (y x) / d, whichever way it is written. */
  lemma DivideScales(x: real, y: real, d: real, yx: real)
    requires d > 0.0 && yx == y * x
    ensures y * (x / d) == yx / d && (x / d) * y == yx / d
  {
    var a := x / d;
    assert a * d == x;
    var ya := y * a;
    assert ya * d == y * (a * d);
    Quotient(yx, d, ya);
  }

  lemma SquareOrder(x: real, y: real, xx: real, yy: real)
    requires xx == x * x && yy == y * y && xx <= yy && x >= 0.0 && y >= 0.0
    ensures x <= y
  {
    var d := x - y;
    var dx, dy := d * x, d * y;
    assert dx == xx - x * y;
    assert dy == x * y - yy;
    Product(d, x, dx);
    Product(d, y, dy);
  }

  lemma SquareOfProduct(x: real, y: real, b: real, xx: real, yy: real)
    requires b == x * y && xx == x * x && yy == y * y
    ensures b * b == xx * yy
  {
    assert b * b == b * (x * y) == (x * x) * (y * y);
  }

  lemma Distribute(x: real, y: real, z: real, d: real)
    requires d == y + z
    ensures x * d == x * y + x * z
  {
  }

  /** k / n, or zero where there is nothing to divide by. */
  function Rate(k: nat, n: nat): real {
    if n == 0 then 0.0 else k as real / n as real
  }

  ghost predicate Increasing(s: seq<real>) {
    forall i, j :: 0 <= i < j < |s| ==> s[i] <= s[j]
  }

  function MaxReal(x: real, y: real): real { if y > x then y else x }

  function MinReal(x: real, y: real): real { if y < x then y else x }

  predicate RealLe(x: real, y: real) { x <= y }

  function Abs(x: real): real { if x < 0.0 then -x else x }
}
