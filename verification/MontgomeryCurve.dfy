// The two formulas of the ladder are the tangent and the chord of the curve
// y^2 = x^3 + 486662 x^2 + x over the integers modulo any m, and so modulo 2^255-19.
module MontgomeryCurve {
  import opened Limbs
  import opened MontgomeryLadder

  predicate Same(m: nat, a: int, b: int)
    requires m > 0
  {
    a % m == b % m
  }

  /** The right side of the curve's equation. */
  function Cubic(x: int): int { x * (Sq(x) + A * x + 1) }

  predicate OnCurve(m: nat, x: int, y: int)
    requires m > 0
  {
    Same(m, Sq(y), Cubic(x))
  }

  /** The line of this slope through the points with x coordinates a and b meets
      the curve a third time over c. */
  predicate ThirdPoint(m: nat, slope: int, a: int, b: int, c: int)
    requires m > 0
  {
    Same(m, c, Sq(slope) - A - a - b)
  }

  lemma SameTimes(m: nat, a: int, b: int, c: int)
    requires m > 0 && Same(m, a, b)
    ensures Same(m, a * c, b * c) && Same(m, c * a, c * b)
  {
    ModMul(a, c, m);
    ModMul(b, c, m);
    Commutes(a, c);
    Commutes(b, c);
  }

  lemma Commutes(a: int, b: int)
    ensures a * b == b * a
  {
  }

  lemma SameProducts(m: nat, a: int, b: int, c: int, d: int)
    requires m > 0 && Same(m, a, b) && Same(m, c, d)
    ensures Same(m, a * c, b * d)
  {
    SameTimes(m, a, b, c);
    SameTimes(m, c, d, b);
  }

  lemma SameSums(m: nat, a: int, b: int, c: int, d: int)
    requires m > 0 && Same(m, a, b) && Same(m, c, d)
    ensures Same(m, a + c, b + d) && Same(m, a - c, b - d)
  {
    ModAdd(a, c, m);
    ModAdd(b, d, m);
    ModSub(a, c, m);
    ModSub(b, d, m);
  }

  lemma Reduced(m: nat, a: int)
    requires m > 0
    ensures Same(m, a % m, a)
  {
    ModTwice(a, m);
  }

  // ------------------------------------------------------------------
  // Doubling
  // ------------------------------------------------------------------

  lemma SquareOfSum(a: int, b: int)
    ensures (a + b) * (a + b) == a * a + 2 * (a * b) + b * b
  {
  }

  lemma Distributes(a: int, b: int, c: int)
    ensures a * (b + c) == a * b + a * c
  {
  }

  lemma TangentIdentity(x: int)
    ensures Sq(3 * Sq(x) + 2 * (A * x) + 1) - (A + x + x) * (4 * Cubic(x)) == Sq(Sq(x) - 1)
  {
    var s, m := Sq(x), A * x;
    var n := s + m + 1;
    TwiceAndMore(n, s - 1);
    assert 3 * s + 2 * m + 1 == 2 * n + (s - 1);
    TimesFour(A + x + x, x, n);
    Distributes(x, A, x + x);
    Commutes(x, A);
    Distributes(x, x, x);
    Commutes(A + x + x, x);
    assert (A + x + x) * x == m + 2 * s == n + (s - 1);
    Distributes(n, n, s - 1);
    Commutes(n, n + (s - 1));
  }

  lemma TwiceAndMore(n: int, r: int)
    ensures Sq(2 * n + r) == 4 * (n * n) + 4 * (n * r) + r * r
  {
    SquareOfSum(2 * n, r);
    assert 2 * n * (2 * n) == 4 * (n * n);
    assert 2 * n * r == 2 * (n * r);
  }

  lemma TimesFour(a: int, x: int, n: int)
    ensures a * (4 * (x * n)) == 4 * (a * x * n)
  {
    assert a * (4 * (x * n)) == 4 * (a * (x * n));
  }

  // The slope's denominator cleared.
  lemma TangentCleared(m: nat, c: int, l: int, t: int, q: int, g: int, f: int, e: int)
    requires m > 0 && Same(m, l * t, g) && Same(m, c, l * l - q) && Same(m, t * t, f) && g * g - q * f == e
    ensures Same(m, c * f, e)
  {
    SameProducts(m, l * t, g, l * t, g);
    SameProducts(m, l * l, l * l, t * t, f);
    SquareOfProduct(l, t);
    assert Same(m, l * l * f, g * g);
    SameTimes(m, c, l * l - q, f);
    Expand(l * l, q, f);
    SameSums(m, l * l * f, g * g, q * f, q * f);
  }

  lemma Expand(a: int, b: int, f: int)
    ensures (a - b) * f == a * f - b * f
  {
  }

  /** The tangent at a point meets the curve again over the double's x coordinate. */
  lemma DoubleIsTangent(m: nat, x: int, y: int, slope: int, c: int)
    requires m > 0 && OnCurve(m, x, y) &&
             Same(m, slope * (2 * y), 3 * Sq(x) + 2 * (A * x) + 1) && ThirdPoint(m, slope, x, x, c)
    ensures var d := DoubleOver(m, Ratio(x, 1)); Same(m, c * d.z, d.x)
  {
    SameTimes(m, Sq(y), Cubic(x), 4);
    SquareOfTwice(2 * y, y);
    TangentIdentity(x);
    TangentCleared(m, c, slope, 2 * y, A + x + x, 3 * Sq(x) + 2 * (A * x) + 1, 4 * Cubic(x), Sq(Sq(x) - 1));
    DoubleOfPoint(m, x);
    var d := DoubleOver(m, Ratio(x, 1));
    SameTimes(m, d.z, 4 * Cubic(x), c);
  }

  lemma DoubleOfPoint(m: nat, x: int)
    requires m > 0
    ensures var d := DoubleOver(m, Ratio(x, 1)); Same(m, d.x, Sq(Sq(x) - 1)) && Same(m, d.z, 4 * Cubic(x))
  {
    PointParts(x);
    Reduced(m, 4 * Cubic(x));
    Reduced(m, Sq(Sq(x) - 1));
  }

  lemma PointParts(x: int)
    ensures Sq(1) == 1 && x * 1 == x && 4 * (x * 1) * (Sq(x) + A * (x * 1) + Sq(1)) == 4 * Cubic(x)
  {
    var n := Sq(x) + A * x + 1;
    Grouped(x, n);
  }

  lemma Grouped(x: int, n: int)
    ensures 4 * x * n == 4 * (x * n)
  {
  }

  // ------------------------------------------------------------------
  // Differential addition
  // ------------------------------------------------------------------

  // (1 + p)^2 q^2, with m standing for A * p.
  lemma FirstSquare(m: int, p: int, q: int)
    ensures Sq(2 * m + q * (1 + p)) == 4 * (m * m) + 4 * (m * q + m * (p * q)) + (q * q) * (1 + 2 * p + p * p)
  {
    var r := q * (1 + p);
    SquareOfSum(2 * m, r);
    assert 2 * m * (2 * m) == 4 * (m * m);
    assert 2 * m * r == 2 * (m * r);
    assert r == q + p * q by { Distributes(q, 1, p); }
    Distributes(m, q, p * q);
    SquareOfProduct(q, 1 + p);
    SquareOfSum(1, p);
  }

  lemma LastProduct(p: int, s: int)
    ensures Sq(p - 1) * (s - 4 * p) == s * (1 + 2 * p + p * p) - 4 * (p * s) - 4 * (p * (p * p)) + 8 * (p * p) - 4 * p
  {
    var e := p * p;
    assert Sq(p - 1) == e - 2 * p + 1;
    Distributes(e - 2 * p + 1, s, -4 * p);
    assert (e - 2 * p + 1) * s == s * (1 + 2 * p + e) - 4 * (p * s) by {
      Distributes(s, 1 + 2 * p + e, -4 * p);
      Commutes(s, p);
      Commutes(e - 2 * p + 1, s);
    }
    assert (e - 2 * p + 1) * (-4 * p) == -4 * (p * e) + 8 * (p * p) - 4 * p by {
      Distributes(-4 * p, e, -2 * p + 1);
      Distributes(-4 * p, -2 * p, 1);
    }
  }

  // The product of the cubics at two points.
  lemma CubicProduct(a: int, b: int)
    ensures var p, q := a * b, a + b;
            Cubic(a) * Cubic(b) == p * (p * p + A * (p * q) + (q * q - 2 * p) + A * A * p + A * q + 1)
  {
    var s, t, m, n := Sq(a), Sq(b), A * a, A * b;
    FourFactors(a, b, s + m + 1, t + n + 1);
    Nine(s, m, t, n);
    var p, q := a * b, a + b;
    SquareOfProduct(a, b);
    SquareOfSum(a, b);
    assert s * t == p * p;
    assert s + t == q * q - 2 * p;
    assert m * n == A * A * p by { FourFactors(A, A, a, b); FourFactors(A, a, A, b); }
    assert s * n + m * t == A * (p * q) by { Mixed(A, a, b); }
    assert m + n == A * q by { Distributes(A, a, b); }
  }

  lemma FourFactors(a: int, b: int, c: int, d: int)
    ensures (a * c) * (b * d) == a * b * (c * d)
  {
    assert a * c * (b * d) == a * (c * (b * d)) == a * (b * (c * d));
  }

  lemma Nine(s: int, m: int, t: int, n: int)
    ensures (s + m + 1) * (t + n + 1) == s * t + (s * n + m * t) + (s + t) + m * n + (m + n) + 1
  {
  }

  lemma Mixed(c: int, a: int, b: int)
    ensures Sq(a) * (c * b) + c * a * Sq(b) == c * (a * b * (a + b))
  {
    Distributes(a * b, a, b);
    assert Sq(a) * (c * b) == c * (a * b * a) by { Reorder(a, c, b); }
    assert c * a * Sq(b) == c * (a * b * b) by { Reorder2(c, a, b); }
    Distributes(c, a * b * a, a * b * b);
  }

  lemma Reorder(a: int, c: int, b: int)
    ensures Sq(a) * (c * b) == c * (a * b * a)
  {
    assert a * a * (c * b) == a * (a * (c * b)) == a * (c * (a * b)) == c * (a * (a * b));
  }

  lemma Reorder2(c: int, a: int, b: int)
    ensures c * a * Sq(b) == c * (a * b * b)
  {
    assert c * a * (b * b) == c * (a * (b * b));
  }

  lemma ProductParts(p: int, q: int, pp: int, pq: int, qq: int)
    requires pp == p * p && pq == p * q
    ensures p * (pp + A * pq + (qq - 2 * p) + A * A * p + A * q + 1) ==
            p * pp + (A * p) * pq + p * qq - 2 * pp + (A * p) * (A * p) + (A * p) * q + p
  {
    Seven(p, pp, A * pq, qq - 2 * p, A * A * p, A * q);
    assert p * (A * pq) == (A * p) * pq;
    assert p * (qq - 2 * p) == p * qq - 2 * pp;
    assert p * (A * A * p) == (A * p) * (A * p);
    assert p * (A * q) == (A * p) * q;
  }

  lemma Seven(p: int, a: int, b: int, c: int, d: int, e: int)
    ensures p * (a + b + c + d + e + 1) == p * a + p * b + p * c + p * d + p * e + p
  {
  }

  // The two cubics less the part both chords share.
  lemma SumOfCubics(a: int, b: int)
    ensures Cubic(a) + Cubic(b) - (A + a + b) * Sq(b - a) == 2 * (A * (a * b)) + (a + b) * (1 + a * b)
  {
    var s, t, p := Sq(a), Sq(b), a * b;
    CubicParts(a);
    CubicParts(b);
    assert Sq(b - a) == s - 2 * p + t;
    Distributes(s - 2 * p + t, A, a + b);
    Commutes(s - 2 * p + t, A + (a + b));
    Distributes(A, s - 2 * p, t);
    Distributes(A, s, -2 * p);
    SumTimesSquares(a, b);
    Distributes(a + b, 1, p);
  }

  lemma CubicParts(x: int)
    ensures Cubic(x) == x * Sq(x) + A * Sq(x) + x
  {
    Distributes(x, Sq(x) + A * x, 1);
    Distributes(x, Sq(x), A * x);
    assert x * (A * x) == A * Sq(x);
  }

  lemma SumTimesSquares(a: int, b: int)
    ensures (Sq(a) - 2 * (a * b) + Sq(b)) * (a + b) == a * Sq(a) + b * Sq(b) - (a + b) * (a * b)
  {
    var s, t, p := Sq(a), Sq(b), a * b;
    Distributes(s - 2 * p + t, a, b);
    assert (s - 2 * p + t) * a == a * s - 2 * (a * p) + a * t;
    assert (s - 2 * p + t) * b == b * s - 2 * (b * p) + b * t;
    assert a * t == b * p && b * s == a * p by {
      assert a * (b * b) == b * (a * b) && b * (a * a) == a * (a * b);
    }
    Distributes(p, a, b);
    Commutes(p, a + b);
  }

  // k is the part the chords share, u and v the two y coordinates.
  lemma ChordsTimes(u: int, v: int, k: int)
    ensures (Sq(v - u) - k) * (Sq(-v - u) - k) == Sq(Sq(u) + Sq(v) - k) - 4 * (Sq(u) * Sq(v))
  {
    var h, m := Sq(u) + Sq(v) - k, u * v;
    assert Sq(v - u) == Sq(u) - 2 * m + Sq(v) && Sq(-v - u) == Sq(u) + 2 * m + Sq(v);
    assert (h - 2 * m) * (h + 2 * m) == Sq(h) - 4 * (m * m);
    SquareOfProduct(u, v);
  }

  // A chord with its slope's denominator cleared; i is the inverse of t.
  lemma ChordCleared(m: nat, i: int, t: int, y: int, q: int, c: int)
    requires m > 0 && Same(m, i * t, 1) && Same(m, c, Sq(i * y) - q)
    ensures Same(m, c * Sq(t), Sq(y) - q * Sq(t))
  {
    SameTimes(m, c, Sq(i * y) - q, Sq(t));
    Expand(Sq(i * y), q, Sq(t));
    SquareOfProduct(i * y, t);
    SquareOfProduct(i * t, y);
    assert i * y * t == i * t * y;
    SameProducts(m, i * t, 1, i * t, 1);
    SameTimes(m, Sq(i * t), 1, Sq(y));
    SameSums(m, Sq(i * t) * Sq(y), Sq(y), q * Sq(t), q * Sq(t));
  }

  // A square factor that can be inverted is cancelled.
  lemma Cancelled(m: nat, i: int, t: int, c: int, d: int, e: int)
    requires m > 0 && Same(m, i * t, 1) && Same(m, (c * Sq(t)) * (d * Sq(t)), e * Sq(t))
    ensures Same(m, c * (d * Sq(t)), e)
  {
    var w, j := Sq(t), Sq(i);
    SquareOfProduct(i, t);
    SameProducts(m, i * t, 1, i * t, 1);
    assert Same(m, j * w, 1);
    SameTimes(m, (c * w) * (d * w), e * w, j);
    assert j * ((c * w) * (d * w)) == (j * w) * (c * (d * w));
    assert j * (e * w) == (j * w) * e;
    SameTimes(m, j * w, 1, c * (d * w));
    SameTimes(m, j * w, 1, e);
  }

  // The cubics stand for the squares of the y coordinates.
  lemma SquaresReplaced(m: nat, x: int, f: int, y: int, g: int, k: int)
    requires m > 0 && Same(m, x, f) && Same(m, y, g)
    ensures Same(m, Sq(x + y - k) - 4 * (x * y), Sq(f + g - k) - 4 * (f * g))
  {
    SameSums(m, x, f, y, g);
    SameSums(m, x + y, f + g, k, k);
    SameProducts(m, x + y - k, f + g - k, x + y - k, f + g - k);
    SameProducts(m, x, f, y, g);
    SameTimes(m, x * y, f * g, 4);
    SameSums(m, Sq(x + y - k), Sq(f + g - k), 4 * (x * y), 4 * (f * g));
  }

  lemma SquaredGap(a: int, b: int)
    ensures (a + b) * (a + b) - 4 * (a * b) == Sq(b - a) && Sq(b - a) == Sq(a - b)
  {
  }

  lemma ChordsTogether(m: nat, a: int, u: int, b: int, v: int, i: int, c: int, d: int)
    requires m > 0 && OnCurve(m, a, u) && OnCurve(m, b, v) && Same(m, i * (b - a), 1)
    requires ThirdPoint(m, i * (v - u), a, b, c) && ThirdPoint(m, i * (-v - u), a, b, d)
    ensures Same(m, c * (d * Sq(b - a)), Sq(a * b - 1))
  {
    var t, q := b - a, A + a + b;
    ChordCleared(m, i, t, v - u, q, c);
    ChordCleared(m, i, t, -v - u, q, d);
    SameProducts(m, c * Sq(t), Sq(v - u) - q * Sq(t), d * Sq(t), Sq(-v - u) - q * Sq(t));
    // The cubics for the squares of the y coordinates, then all in the product and the sum
    // of the x coordinates.
    var k := q * Sq(t);
    ChordsTimes(u, v, k);
    SquaresReplaced(m, Sq(u), Cubic(a), Sq(v), Cubic(b), k);
    SumOfCubics(a, b);
    CubicProduct(a, b);
    var p, s := a * b, a + b;
    FirstSquare(A * p, p, s);
    LastProduct(p, s * s);
    ProductParts(p, s, p * p, p * s, s * s);
    SquaredGap(a, b);
    Cancelled(m, i, t, c, d, Sq(a * b - 1));
  }

  /** For two points that differ in their x coordinates, with i inverting the gap: the
      chords through the second point and through its opposite meet the curve again
      over the sum and the difference, and the formula gives one from the other. */
  lemma SumIsChord(m: nat, a: int, u: int, b: int, v: int, i: int, c: int, d: int)
    requires m > 0 && OnCurve(m, a, u) && OnCurve(m, b, v) && Same(m, i * (b - a), 1)
    requires ThirdPoint(m, i * (v - u), a, b, c) && ThirdPoint(m, i * (-v - u), a, b, d)
    ensures var s := SumOver(m, d, Ratio(a, 1), Ratio(b, 1)); Same(m, c * s.z, s.x)
  {
    ChordsTogether(m, a, u, b, v, i, c, d);
    SumOfPoints(m, a, b, d);
    FourTimes(m, c, d * Sq(b - a), Sq(a * b - 1), SumOver(m, d, Ratio(a, 1), Ratio(b, 1)));
  }

  lemma FourTimes(m: nat, c: int, w: int, e: int, s: Ratio)
    requires m > 0 && Same(m, c * w, e) && Same(m, s.z, 4 * w) && Same(m, s.x, 4 * e)
    ensures Same(m, c * s.z, s.x)
  {
    SameTimes(m, c * w, e, 4);
    SameTimes(m, s.z, 4 * w, c);
    assert c * (4 * w) == c * w * 4;
  }

  lemma SumOfPoints(m: nat, a: int, b: int, d: int)
    requires m > 0
    ensures var s := SumOver(m, d, Ratio(a, 1), Ratio(b, 1));
            Same(m, s.x, 4 * Sq(a * b - 1)) && Same(m, s.z, 4 * (d * Sq(b - a)))
  {
    SquaredGap(a, b);
    Grouped(d, Sq(b - a));
    assert a * 1 == a && 1 * b == b;
    Reduced(m, 4 * Sq(a * b - 1));
    Reduced(m, 4 * (d * Sq(b - a)));
  }
}
