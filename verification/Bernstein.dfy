/** Quadratic polynomials on [0, 1], given by their three Bernstein coefficients, and when they are not
    negative there. */
module Bernstein {
  predicate Unit(x: real) {
    0.0 <= x <= 1.0
  }

  function Quad(u: real, p0: real, p1: real, p2: real): real {
    (1.0 - u) * (1.0 - u) * p0 + 2.0 * ((1.0 - u) * u) * p1 + u * u * p2
  }

  predicate NotNegative(p0: real, p1: real, p2: real) {
    p0 >= 0.0 && p2 >= 0.0 && (p1 >= 0.0 || p1 * p1 <= p0 * p2)
  }

  // ---- products ----

  lemma Product(x: real, y: real)
    requires x >= 0.0 && y >= 0.0
    ensures x * y >= 0.0
  {
  }

  lemma Square(x: real)
    ensures x * x >= 0.0
  {
  }

  lemma Positive(x: real, y: real, bound: real)
    requires x > 0.0 && y > 0.0 && x * y <= bound
    ensures bound > 0.0
  {
  }

  /** The sign of a factor. */
  lemma SignOf(x: real, y: real)
    requires x > 0.0
    ensures (x * y < 0.0 <==> y < 0.0) && (x * y > 0.0 <==> y > 0.0)
  {
  }

  lemma Less(x: real, y: real, l: real)
    requires x <= y && l >= 0.0
    ensures x * l <= y * l
  {
    Product(y - x, l);
  }

  // ---- where the condition holds ----

  lemma AllNotNegative(u: real, p0: real, p1: real, p2: real)
    requires Unit(u) && p0 >= 0.0 && p1 >= 0.0 && p2 >= 0.0
    ensures Quad(u, p0, p1, p2) >= 0.0
  {
    Product(1.0 - u, u);
    Square(1.0 - u);
    Square(u);
    Product((1.0 - u) * (1.0 - u), p0);
    Product((1.0 - u) * u, p1);
    Product(u * u, p2);
  }

  /** Completing the square, from either end. */
  lemma Squares(u: real, p0: real, d: real, p2: real)
    ensures var less := p0 * p2 - d * d;
      && p0 * Quad(u, p0, -d, p2) == ((1.0 - u) * p0 - u * d) * ((1.0 - u) * p0 - u * d) + (u * u) * less
      && p2 * Quad(u, p0, -d, p2)
         == (u * p2 - (1.0 - u) * d) * (u * p2 - (1.0 - u) * d) + ((1.0 - u) * (1.0 - u)) * less
  {
  }

  /** A number whose positive multiple is a square plus a multiple of a square. */
  lemma FromSquares(a: real, value: real, x: real, y: real, less: real)
    requires a > 0.0 && a * value == x * x + (y * y) * less
    ensures less >= 0.0 ==> value >= 0.0
    ensures less < 0.0 && x == 0.0 && y > 0.0 ==> value < 0.0
  {
    Square(x);
    Square(y);
    SignOf(a, value);
    if less >= 0.0 {
      Product(y * y, less);
    } else if x == 0.0 && y > 0.0 {
      var z := y * y;
      Positive(y, y, z);
      SignOf(z, less);
    }
  }

  lemma Discriminant(p0: real, p1: real, p2: real, d: real)
    requires NotNegative(p0, p1, p2) && d == -p1 > 0.0
    ensures p0 > 0.0 && p0 * p2 - d * d >= 0.0
  {
    assert p1 * p1 == d * d;
    Positive(d, d, p0 * p2);
  }

  lemma QuadNotNegative(u: real, p0: real, p1: real, p2: real)
    requires Unit(u) && NotNegative(p0, p1, p2)
    ensures Quad(u, p0, p1, p2) >= 0.0
  {
    if p1 >= 0.0 {
      AllNotNegative(u, p0, p1, p2);
    } else {
      var d := -p1;
      Discriminant(p0, p1, p2, d);
      Squares(u, p0, d, p2);
      FromSquares(p0, Quad(u, p0, p1, p2), (1.0 - u) * p0 - u * d, u, p0 * p2 - d * d);
    }
  }

  // ---- where it fails ----

  /** The place that divides [0, 1] in the ratio of two numbers. */
  lemma Share(x: real, y: real) returns (u: real)
    requires x > 0.0 && y > 0.0
    ensures 0.0 < u < 1.0 && (1.0 - u) * x - u * y == 0.0 && u * y - (1.0 - u) * x == 0.0
  {
    u := x / (x + y);
    assert u * (x + y) == x && (1.0 - u) * (x + y) == y;
    SignOf(x + y, u);
    SignOf(x + y, 1.0 - u);
  }

  lemma BelowLeft(u: real, p0: real, d: real, p2: real, x: real, less: real)
    requires p0 > 0.0 && u > 0.0 && x == (1.0 - u) * p0 - u * d && x == 0.0
    requires less == p0 * p2 - d * d && less < 0.0
    ensures Quad(u, p0, -d, p2) < 0.0
  {
    Squares(u, p0, d, p2);
    FromSquares(p0, Quad(u, p0, -d, p2), x, u, less);
  }

  lemma BelowRight(u: real, p0: real, d: real, p2: real, x: real, less: real)
    requires p2 > 0.0 && u < 1.0 && x == u * p2 - (1.0 - u) * d && x == 0.0
    requires less == p0 * p2 - d * d && less < 0.0
    ensures Quad(u, p0, -d, p2) < 0.0
  {
    Squares(u, p0, d, p2);
    FromSquares(p2, Quad(u, p0, -d, p2), x, 1.0 - u, less);
  }

  lemma BelowInside(p0: real, p2: real, d: real) returns (u: real)
    requires p0 >= 0.0 && p2 >= 0.0 && d > 0.0 && d * d > p0 * p2
    ensures 0.0 < u < 1.0 && Quad(u, p0, -d, p2) < 0.0
  {
    var less := p0 * p2 - d * d;
    if p0 > 0.0 {
      u := Share(p0, d);
      BelowLeft(u, p0, d, p2, (1.0 - u) * p0 - u * d, less);
    } else if p2 > 0.0 {
      u := Share(d, p2);
      BelowRight(u, p0, d, p2, u * p2 - (1.0 - u) * d, less);
    } else {
      u := 0.5;
      HalfOnly(d);
    }
  }

  lemma HalfOnly(d: real)
    ensures Quad(0.5, 0.0, -d, 0.0) == -d / 2.0
  {
  }

  /** Where the condition fails the polynomial is negative somewhere. */
  lemma BelowSomewhere(p0: real, p1: real, p2: real) returns (u: real)
    requires !NotNegative(p0, p1, p2)
    ensures Unit(u) && Quad(u, p0, p1, p2) < 0.0
  {
    if p0 < 0.0 {
      u := 0.0;
    } else if p2 < 0.0 {
      u := 1.0;
    } else {
      var d := -p1;
      assert p1 * p1 == d * d;
      u := BelowInside(p0, p2, d);
    }
  }

  // ---- around such a place ----

  function Abs(x: real): real {
    if x < 0.0 then -x else x
  }

  /** How fast the polynomial can change. */
  function Bend(p0: real, p1: real, p2: real): real {
    2.0 * Abs(p1 - p0) + 2.0 * Abs(p0 - 2.0 * p1 + p2)
  }

  lemma AbsProduct(x: real, y: real, l: real)
    requires Abs(y) <= l
    ensures x * y <= Abs(x) * l
  {
    if x >= 0.0 {
      Product(x, l - y);
    } else {
      Product(-x, l + y);
    }
  }

  lemma QuadNear(u: real, v: real, p0: real, p1: real, p2: real)
    requires Unit(u) && Unit(v)
    ensures Quad(v, p0, p1, p2) <= Quad(u, p0, p1, p2) + Abs(v - u) * Bend(p0, p1, p2)
  {
    QuadDifference(u, v, p0, p1, p2);
    RiseBound(v - u, u + v, p1 - p0, p0 - 2.0 * p1 + p2);
  }

  lemma RiseBound(d: real, s: real, a: real, y: real)
    requires 0.0 <= s <= 2.0
    ensures d * (2.0 * a + s * y) <= Abs(d) * (2.0 * Abs(a) + 2.0 * Abs(y))
  {
    AtMostTwice(s, y);
    SlopeBound(a, s * y, y);
    AbsProduct(d, 2.0 * a + s * y, 2.0 * Abs(a) + 2.0 * Abs(y));
  }

  lemma SlopeBound(a: real, z: real, y: real)
    requires Abs(z) <= 2.0 * Abs(y)
    ensures Abs(2.0 * a + z) <= 2.0 * Abs(a) + 2.0 * Abs(y)
  {
  }

  lemma QuadDifference(u: real, v: real, p0: real, p1: real, p2: real)
    ensures Quad(v, p0, p1, p2) - Quad(u, p0, p1, p2)
         == (v - u) * (2.0 * (p1 - p0) + (u + v) * (p0 - 2.0 * p1 + p2))
  {
  }

  lemma AtMostTwice(s: real, y: real)
    requires 0.0 <= s <= 2.0
    ensures Abs(s * y) <= 2.0 * Abs(y)
  {
    if y >= 0.0 {
      Product(2.0 - s, y);
      Product(s, y);
    } else {
      Product(2.0 - s, -y);
      Product(s, -y);
    }
  }

  lemma SmallStep(e: real, l: real) returns (h: real)
    requires e > 0.0 && l >= 0.0
    ensures 0.0 < h <= 0.5 && h * l < e
  {
    var n := 2.0 * (l + 1.0 + e);
    h := e / n;
    assert h * n == e;
    SignOf(n, h);
    SignOf(n, 0.5 - h);
    Product(h, l + 2.0 + 2.0 * e);
    assert h * n == h * l + h * (l + 2.0 + 2.0 * e);
    SignOf(h, l + 2.0 + 2.0 * e);
  }

  lemma BelowNear(u: real, v: real, h: real, p0: real, p1: real, p2: real)
    requires Unit(u) && Unit(v) && Abs(v - u) <= h && h * Bend(p0, p1, p2) < -Quad(u, p0, p1, p2)
    ensures Quad(v, p0, p1, p2) < 0.0
  {
    QuadNear(u, v, p0, p1, p2);
    Less(Abs(v - u), h, Bend(p0, p1, p2));
  }

  /** The polynomial is negative on a whole interval. */
  lemma BelowAround(u: real, p0: real, p1: real, p2: real) returns (s: real, t: real)
    requires Unit(u) && Quad(u, p0, p1, p2) < 0.0
    ensures 0.0 <= s < t <= 1.0 && Quad(s, p0, p1, p2) < 0.0 && Quad(t, p0, p1, p2) < 0.0
    ensures Quad((s + t) / 2.0, p0, p1, p2) < 0.0
  {
    var h := SmallStep(-Quad(u, p0, p1, p2), Bend(p0, p1, p2));
    if u <= 0.5 { s, t := u, u + h; } else { s, t := u - h, u; }
    BelowNear(u, s, h, p0, p1, p2);
    BelowNear(u, (s + t) / 2.0, h, p0, p1, p2);
    BelowNear(u, t, h, p0, p1, p2);
  }

  /** A quadratic polynomial is not negative on [0, 1] exactly if its outer coefficients are not negative
      and the middle one is not too far below zero for their product. */
  lemma NotNegativeIff(p0: real, p1: real, p2: real)
    ensures (forall u :: Unit(u) ==> Quad(u, p0, p1, p2) >= 0.0) <==> NotNegative(p0, p1, p2)
  {
    if NotNegative(p0, p1, p2) {
      forall u | Unit(u)
        ensures Quad(u, p0, p1, p2) >= 0.0
      {
        QuadNotNegative(u, p0, p1, p2);
      }
    } else {
      var u := BelowSomewhere(p0, p1, p2);
    }
  }
}
