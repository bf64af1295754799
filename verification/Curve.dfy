/**
 The short Weierstrass curve y^2 = x^3 - 3x + b in Jacobian coordinates (x/z^2, y/z^3), over
 residues modulo p. This is what the P-256 code computes once its limbs are read out of
 Montgomery form. Nothing below needs p to be prime.
 */
module Curve {
  import opened Radix

  datatype Point = Point(x: int, y: int, z: int)

  const Infinity := Point(0, 0, 0)

  /** How far a point is from satisfying the projective curve equation. */
  ghost function Defect(q: Point, b: int): int {
    q.y * q.y - q.x * q.x * q.x + 3 * q.x * (q.z * q.z) * (q.z * q.z) - b * (q.z * q.z) * (q.z * q.z) * (q.z * q.z)
  }

  ghost predicate OnCurve(q: Point, b: int, p: int)
    requires p > 0
  {
    Defect(q, b) % p == 0
  }

  function Reduce(q: Point, p: int): Point
    requires p > 0
  {
    Point(q.x % p, q.y % p, q.z % p)
  }

  // ----- formulas over the integers

  /** Doubling for a = -3. */
  function DoubleFormula(q: Point): Point {
    var delta, gamma := q.z * q.z, q.y * q.y;
    var beta := q.x * gamma;
    var alpha := 3 * ((q.x - delta) * (q.x + delta));
    var x3 := alpha * alpha - 8 * beta;
    Point(x3, alpha * (4 * beta - x3) - 8 * (gamma * gamma), 2 * (q.y * q.z))
  }

  /** u1, u2, s1, s2: both points brought to the common denominator z1*z2. */
  datatype Common = Common(u1: int, s1: int, u2: int, s2: int, w: int)

  function Align(q: Point, r: Point): Common {
    Common(q.x * (r.z * r.z), q.y * r.z * (r.z * r.z), r.x * (q.z * q.z), r.y * q.z * (q.z * q.z), q.z * r.z)
  }

  function AddFormula(c: Common): Point {
    var h := c.u2 - c.u1;
    var m := 2 * (c.s2 - c.s1);
    var i := (2 * h) * (2 * h);
    var j := h * i;
    var v := c.u1 * i;
    var x3 := m * m - j - 2 * v;
    Point(x3, m * (v - x3) - 2 * (c.s1 * j), 2 * c.w * h)
  }

  // ----- the identities behind them

  /** Doubling multiplies the defect by 64 y^6. */
  lemma DoubleDefect(q: Point, b: int)
    ensures Defect(DoubleFormula(q), b) == 64 * Cube(q.y * q.y) * Defect(q, b)
  {
    hide Defect, Cube;
    var X, D, G := q.x, q.z * q.z, q.y * q.y;
    var A := 3 * ((X - D) * (X + D));
    var T := X * G;
    var r, zz := DoubleFormula(q), 4 * (G * D);
    DoubleSquare(q.y, q.z);
    DefectIs(q, b, D);
    DefectIs(r, b, zz);
    DoubleIdentity(X, D, G, A, T);
    CubeOfFour(b, G * D);
    CubeOfProduct(G, D);
    CubeTimes(b, D);
    DoubleCollect(Cube(G), G - X * X * X + 3 * X * D * D, b, Cube(D));
  }

  function Cube(x: int): int { x * x * x }

  lemma DefectIs(q: Point, b: int, zz: int)
    requires zz == q.z * q.z
    ensures Defect(q, b) == q.y * q.y - q.x * q.x * q.x + 3 * q.x * zz * zz - b * zz * zz * zz
  {}

  lemma DoubleSquare(y: int, z: int)
    ensures (2 * (y * z)) * (2 * (y * z)) == 4 * ((y * y) * (z * z))
  {
    assert (y * z) * (y * z) == (y * y) * (z * z);
  }

  lemma CubeTimes(b: int, x: int)
    ensures b * Cube(x) == b * x * x * x
  {}

  lemma DoubleCollect(g: int, e: int, b: int, d: int)
    ensures 64 * g * e - 64 * b * (g * d) == 64 * g * (e - b * d)
  {}

  lemma CubeOfFour(b: int, g: int)
    ensures b * (4 * g) * (4 * g) * (4 * g) == 64 * b * Cube(g)
  {}

  lemma CubeOfProduct(x: int, y: int)
    ensures Cube(x * y) == Cube(x) * Cube(y)
  {
    var xx, yy := x * x, y * y;
    assert (x * y) * (x * y) == xx * yy;
    assert (xx * yy) * (x * y) == (xx * x) * (yy * y);
  }

  /** The part of the doubling identity that does not involve b. */
  lemma DoubleIdentity(X: int, D: int, G: int, A: int, T: int)
    requires A == 3 * ((X - D) * (X + D)) && T == X * G
    ensures var x3, zz := A * A - 8 * T, 4 * (G * D);
            var y3 := A * (4 * T - x3) - 8 * (G * G);
            y3 * y3 - x3 * x3 * x3 + 3 * x3 * zz * zz == 64 * Cube(G) * (G - X * X * X + 3 * X * D * D)
  {
    var P, X2, D2, G2 := A * A, X * X, D * D, G * G;
    DoubleLeft(A, P, T, G2);
    DoubleMiddle(P, T, G, D);
    SubstituteT(P, X, G, T);
    Collect(P, A, T, X2, D2, G2);
    RightSide(X, D, G, T, X2, D2, G2);
  }

  lemma DoubleLeft(A: int, P: int, T: int, G2: int)
    requires P == A * A
    ensures var x3, v := P - 8 * T, 12 * T - P;
            var y3 := A * v - 8 * G2;
            y3 * y3 - x3 * x3 * x3 == 512 * (T * T * T) - 48 * (P * T * T) - 16 * (G2 * (A * v)) + 64 * (G2 * G2)
  {
    var v := 12 * T - P;
    SquareY(A, v, P, G2);
    CubeX(P, T);
    SquareV(P, T);
  }

  lemma SquareV(P: int, T: int)
    ensures P * (12 * T - P) * (12 * T - P) == 144 * (P * T * T) - 24 * (P * P * T) + P * P * P
  {}

  lemma DoubleMiddle(P: int, T: int, G: int, D: int)
    ensures var x3, zz := P - 8 * T, 4 * (G * D);
            3 * x3 * zz * zz == 48 * ((G * G) * (D * D) * P) - 384 * ((G * G) * (D * D) * T)
  {
    var x3, zz, w := P - 8 * T, 4 * (G * D), (G * G) * (D * D);
    assert zz * zz == 16 * w;
    assert 3 * x3 * zz * zz == 3 * x3 * (16 * w);
  }

  lemma SubstituteT(P: int, X: int, G: int, T: int)
    requires T == X * G
    ensures P * T * T == P * ((X * X) * (G * G)) && T * T * T == (X * X) * (G * G) * T
  {
    assert T * T == (X * X) * (G * G);
  }

  lemma SquareY(A: int, v: int, P: int, G2: int)
    requires P == A * A
    ensures (A * v - 8 * G2) * (A * v - 8 * G2) == P * v * v - 16 * (G2 * (A * v)) + 64 * (G2 * G2)
  {
    var u := A * v;
    assert u * u == P * v * v;
  }

  lemma CubeX(P: int, T: int)
    ensures (P - 8 * T) * (P - 8 * T) * (P - 8 * T)
         == P * P * P - 24 * (P * P * T) + 192 * (P * T * T) - 512 * (T * T * T)
  {}

  lemma Collect(P: int, A: int, T: int, X2: int, D2: int, G2: int)
    requires A == 3 * (X2 - D2)
    ensures -48 * (P * (X2 * G2)) + 512 * (X2 * G2 * T) - 16 * (G2 * (A * (12 * T - P))) + 64 * (G2 * G2)
              + 48 * (G2 * D2 * P) - 384 * (G2 * D2 * T)
         == G2 * T * (192 * D2 - 64 * X2) + 64 * (G2 * G2)
  {
    assert G2 * (A * (12 * T - P)) == 36 * (G2 * X2 * T) - 36 * (G2 * D2 * T) - 3 * (G2 * X2 * P) + 3 * (G2 * D2 * P);
  }

  lemma RightSide(X: int, D: int, G: int, T: int, X2: int, D2: int, G2: int)
    requires T == X * G && G2 == G * G && X2 == X * X && D2 == D * D
    ensures 64 * Cube(G) * (G - X * X * X + 3 * X * D * D) == G2 * T * (192 * D2 - 64 * X2) + 64 * (G2 * G2)
  {
    hide Cube;
    var k, w := G2 * G, G2 * T;
    CubeIs(G);
    MulAssoc(G2, G, X);
    MulAssoc(k, X, X2);
    MulAssoc(k, X, D2);
    MulAssoc(G2, G, G);
    MulAssoc(X, X, X);
    MulAssoc(X, D, D);
    RightCollect(k, G, X * X2, X * D2);
    RightFactor(w, D2, X2);
    assert 64 * Cube(G) * (G - X * X * X + 3 * X * D * D) == 64 * k * (G - X * X2 + 3 * (X * D2));
  }

  lemma RightCollect(k: int, g: int, a: int, b: int)
    ensures 64 * k * (g - a + 3 * b) == 64 * (k * g) - 64 * (k * a) + 192 * (k * b)
  {}

  lemma RightFactor(w: int, a: int, b: int)
    ensures w * (192 * a - 64 * b) == 192 * (w * a) - 64 * (w * b)
  {}

  // The addition identity, on points brought to a common denominator.

  ghost function CommonDefect(u: int, s: int, c: int, d: int): int {
    s * s - u * u * u - c * u - d
  }

  /** x-coordinate, y-coordinate of the sum up to the scale factors 4 and 8. */
  function SumX(U: int, H: int, M: int): int { M * M - Cube(H) - 2 * (U * (H * H)) }

  function SumY(U: int, S: int, H: int, M: int): int { M * (U * (H * H) - SumX(U, H, M)) - S * Cube(H) }

  /** The defect of the sum is a combination of the defects of the two points added. */
  lemma AddIdentity(U: int, S: int, H: int, M: int, c: int, d: int, E1: int, E2: int)
    requires E1 == CommonDefect(U, S, c, d) && E2 == CommonDefect(U + H, S + M, c, d)
    ensures var x, y, h3 := SumX(U, H, M), SumY(U, S, H, M), Cube(H);
            y * y - Cube(x) - c * (H * h3) * x - d * (h3 * h3)
              == E1 * (h3 * h3) - (U * (H * H) - x) * (h3 * (E2 - E1))
  {
    var h3, a, x := Cube(H), U * (H * H), SumX(U, H, M);
    var t := a - x;
    var MM, MS, k := M * M, M * S, SecantCubic(U, H);
    DefectDifference(U, S, H, M, c, d);
    SquareSum(M, t, S, h3);
    CubeDifference(a, x);
    CubeOfScaled(U, H);
    SecantCubicScaled(U, H);
    Bracket(a, x, h3, MM);
    Expand(E1, U, S, c, d, h3 * h3);
    LinearTerm(U, H, c, x);
    ScaledDifference(t, h3, MM, MS, k, c * H);
    FactorOut(t, a, x, MM, h3, k);
  }

  lemma ScaledDifference(t: int, h3: int, MM: int, MS: int, k: int, cH: int)
    ensures t * (h3 * (MM + 2 * MS - k - cH)) == t * (h3 * MM) + 2 * (t * (h3 * MS)) - t * (h3 * k) - t * (h3 * cH)
  {
    assert h3 * (MM + 2 * MS - k - cH) == h3 * MM + 2 * (h3 * MS) - h3 * k - h3 * cH;
  }

  lemma LinearTerm(U: int, H: int, c: int, x: int)
    ensures var h3 := Cube(H);
            c * U * (h3 * h3) - c * (H * h3) * x == (U * (H * H) - x) * (h3 * (c * H))
  {
    var h3 := Cube(H);
    assert (U * (H * H)) * (h3 * (c * H)) == c * U * (h3 * h3);
    assert x * (h3 * (c * H)) == c * (H * h3) * x;
  }

  lemma FactorOut(t: int, a: int, x: int, MM: int, h3: int, k: int)
    requires MM * t + a * a + a * x + x * x == h3 * k - h3 * MM
    ensures MM * t * t + t * (a * a + a * x + x * x) == t * (h3 * k) - t * (h3 * MM)
  {
    assert t * (MM * t + (a * a + a * x + x * x)) == MM * t * t + t * (a * a + a * x + x * x);
    assert t * (h3 * k - h3 * MM) == t * (h3 * k) - t * (h3 * MM);
  }

  function SecantCubic(U: int, H: int): int { 3 * (U * U * H) + 3 * (U * H * H) + H * H * H }

  lemma DefectDifference(U: int, S: int, H: int, M: int, c: int, d: int)
    ensures CommonDefect(U + H, S + M, c, d) - CommonDefect(U, S, c, d)
         == M * M + 2 * (M * S) - SecantCubic(U, H) - c * H
  {
    assert (S + M) * (S + M) == S * S + 2 * (M * S) + M * M;
    assert (U + H) * (U + H) * (U + H) == U * U * U + SecantCubic(U, H);
  }

  lemma SquareSum(M: int, t: int, S: int, h3: int)
    ensures (M * t - S * h3) * (M * t - S * h3) == (M * M) * t * t - 2 * (t * (h3 * (M * S))) + (S * S) * (h3 * h3)
  {
    var u, v := M * t, S * h3;
    assert u * u == (M * M) * t * t && v * v == (S * S) * (h3 * h3) && u * v == t * (h3 * (M * S));
  }

  lemma CubeDifference(a: int, x: int)
    ensures Cube(a) - Cube(x) == (a - x) * (a * a + a * x + x * x)
  {}

  lemma CubeOfScaled(U: int, H: int)
    ensures Cube(U * (H * H)) == Cube(U) * (Cube(H) * Cube(H))
  {
    CubeOfProduct(U, H * H);
    CubeOfProduct(H, H);
  }

  lemma SecantCubicScaled(U: int, H: int)
    ensures var a, h3 := U * (H * H), Cube(H);
            h3 * SecantCubic(U, H) == 3 * (a * a) + 3 * (a * h3) + h3 * h3
  {
    var a, h3 := U * (H * H), Cube(H);
    assert h3 * (U * U * H) == a * a;
    assert h3 * (U * H * H) == a * h3;
  }

  lemma Bracket(a: int, x: int, h3: int, MM: int)
    requires MM == x + h3 + 2 * a
    ensures MM * (a - x) + a * a + a * x + x * x == 3 * (a * a) + 3 * (a * h3) + h3 * h3 - h3 * MM
  {}

  lemma Expand(E1: int, U: int, S: int, c: int, d: int, h6: int)
    requires E1 == CommonDefect(U, S, c, d)
    ensures (S * S) * h6 == E1 * h6 + Cube(U) * h6 + c * U * h6 + d * h6
  {
    assert S * S == E1 + Cube(U) + c * U + d;
  }

  lemma AddDefect(g: Common, b: int)
    ensures var w4 := (g.w * g.w) * (g.w * g.w);
            var c, d := -3 * w4, b * (w4 * (g.w * g.w));
            var E1, E2 := CommonDefect(g.u1, g.s1, c, d), CommonDefect(g.u2, g.s2, c, d);
            var H, M := g.u2 - g.u1, g.s2 - g.s1;
            Defect(AddFormula(g), b) == 64 * (E1 * (Cube(H) * Cube(H))
                                              - (g.u1 * (H * H) - SumX(g.u1, H, M)) * (Cube(H) * (E2 - E1)))
  {
    var w2 := g.w * g.w;
    var w4 := w2 * w2;
    var c, d := -3 * w4, b * (w4 * w2);
    var H, M := g.u2 - g.u1, g.s2 - g.s1;
    AddIdentity(g.u1, g.s1, H, M, c, d, CommonDefect(g.u1, g.s1, c, d), CommonDefect(g.u2, g.s2, c, d));
    AddScale(g, SumX(g.u1, H, M), SumY(g.u1, g.s1, H, M), H, M);
    DefectScale(SumX(g.u1, H, M), SumY(g.u1, g.s1, H, M), H, w2, b, (2 * g.w * H) * (2 * g.w * H));
  }

  lemma AddScale(g: Common, x: int, y: int, H: int, M: int)
    requires H == g.u2 - g.u1 && M == g.s2 - g.s1
    requires x == SumX(g.u1, H, M) && y == SumY(g.u1, g.s1, H, M)
    ensures AddFormula(g) == Point(4 * x, 8 * y, 2 * g.w * H)
    ensures (2 * g.w * H) * (2 * g.w * H) == 4 * ((g.w * g.w) * (H * H))
  {
    hide Cube, SumX;
    var i := (2 * H) * (2 * H);
    ScaleIJV(g.u1, H);
    ScaleX(g.u1, H, M);
    ScaleY(M, g.u1 * (H * H), x, g.s1, Cube(H));
    ScaleZ(g.w, H);
  }

  lemma ScaleIJV(u: int, H: int)
    ensures var i := (2 * H) * (2 * H);
            H * i == 4 * Cube(H) && u * i == 4 * (u * (H * H))
  {}

  lemma ScaleZ(w: int, H: int)
    ensures (2 * w * H) * (2 * w * H) == 4 * ((w * w) * (H * H))
  {
    assert (w * H) * (w * H) == (w * w) * (H * H);
  }

  lemma ScaleX(u: int, H: int, M: int)
    ensures (2 * M) * (2 * M) - 4 * Cube(H) - 2 * (4 * (u * (H * H))) == 4 * SumX(u, H, M)
  {}

  lemma ScaleY(M: int, a: int, x: int, s: int, h3: int)
    ensures (2 * M) * (4 * a - 4 * x) - 2 * (s * (4 * h3)) == 8 * (M * (a - x) - s * h3)
  {
    assert (2 * M) * (4 * a - 4 * x) == 8 * (M * (a - x));
  }

  lemma DefectScale(x: int, y: int, H: int, w2: int, b: int, zz: int)
    requires zz == 4 * (w2 * (H * H))
    ensures (8 * y) * (8 * y) - (4 * x) * (4 * x) * (4 * x) + 3 * (4 * x) * zz * zz - b * zz * zz * zz
         == 64 * (y * y - Cube(x) - (-3 * (w2 * w2)) * (H * Cube(H)) * x - (b * (w2 * w2 * w2)) * (Cube(H) * Cube(H)))
  {
    hide Cube;
    var g, h3 := w2 * (H * H), Cube(H);
    ScaleSquare(w2, H);
    ScaleLinear(x, g, zz);
    CubeOfFour(b, g);
    CubeOfProduct(w2, H * H);
    CubeOfProduct(H, H);
    CubeIs(w2);
    CubeOfFourTimes(x);
    ScaleCollect(y, Cube(x), w2 * w2, H * h3, x, b, Cube(w2), h3 * h3);
  }

  lemma ScaleSquare(w2: int, H: int)
    ensures (w2 * (H * H)) * (w2 * (H * H)) == (w2 * w2) * (H * Cube(H))
  {
    assert H * Cube(H) == (H * H) * (H * H);
  }

  lemma ScaleLinear(x: int, g: int, zz: int)
    requires zz == 4 * g
    ensures 3 * (4 * x) * zz * zz == 192 * ((g * g) * x)
  {
    assert zz * zz == 16 * (g * g);
    assert 3 * (4 * x) * zz * zz == 12 * (x * (zz * zz));
  }

  lemma CubeOfFourTimes(x: int)
    ensures (4 * x) * (4 * x) * (4 * x) == 64 * Cube(x)
  {}

  lemma ScaleCollect(y: int, xxx: int, w4: int, h4: int, x: int, b: int, w6: int, h6: int)
    ensures (8 * y) * (8 * y) - 64 * xxx + 192 * ((w4 * h4) * x) - 64 * b * (w6 * h6)
         == 64 * (y * y - xxx - (-3 * w4) * h4 * x - (b * w6) * h6)
  {
    assert (-3 * w4) * h4 * x == -3 * ((w4 * h4) * x);
    assert b * (w6 * h6) == (b * w6) * h6;
  }

  /** Bringing a point to the denominator z1*z2 multiplies its defect by the other z^6. */
  lemma AlignDefect(x: int, y: int, z: int, o: int, b: int)
    ensures var w2 := (z * o) * (z * o);
            CommonDefect(x * (o * o), y * o * (o * o), -3 * (w2 * w2), b * (w2 * w2 * w2))
              == Cube(o * o) * Defect(Point(x, y, z), b)
  {
    hide Defect, CommonDefect, Cube;
    var zz, oo := z * z, o * o;
    var w2 := zz * oo;
    AlignDenominator(z, o);
    CommonDefectIs(x * oo, y * o * oo, -3 * (w2 * w2), b * (w2 * w2 * w2));
    DefectIs(Point(x, y, z), b, zz);
    AlignSquare(y, o);
    CubeOfProduct(x, oo);
    AlignLinear(x, zz, oo);
    CubeOfProduct(zz, oo);
    CubeIs(w2);
    CubeIs(x);
    CubeTimes(b, zz);
    AlignCollect(b, Cube(oo), y * y, Cube(x), x * zz * zz, Cube(zz));
    AlignTerms(w2, x * oo, x, zz, Cube(oo));
  }

  lemma CommonDefectIs(u: int, s: int, c: int, d: int)
    ensures CommonDefect(u, s, c, d) == s * s - Cube(u) - c * u - d
  {}

  lemma AlignTerms(w2: int, u: int, x: int, zz: int, k: int)
    requires (w2 * w2) * u == k * (x * zz * zz)
    ensures (-3 * (w2 * w2)) * u == -3 * (k * (x * zz * zz)) && 3 * x * zz * zz == 3 * (x * zz * zz)
  {
    assert (-3 * (w2 * w2)) * u == -3 * ((w2 * w2) * u);
  }

  lemma AlignSquare(y: int, o: int)
    ensures (y * o * (o * o)) * (y * o * (o * o)) == Cube(o * o) * (y * y)
  {
    var k := o * (o * o);
    assert k * k == Cube(o * o);
    assert (y * k) * (y * k) == (k * k) * (y * y);
  }

  lemma AlignDenominator(z: int, o: int)
    ensures (z * o) * (z * o) == (z * z) * (o * o)
  {}

  lemma AlignLinear(x: int, zz: int, oo: int)
    ensures ((zz * oo) * (zz * oo)) * (x * oo) == Cube(oo) * (x * zz * zz)
  {
    assert (zz * oo) * (zz * oo) == (zz * zz) * (oo * oo);
  }

  lemma AlignCollect(b: int, k: int, yy: int, xxx: int, xz: int, z6: int)
    ensures k * (yy - xxx + 3 * xz - b * z6) == k * yy - xxx * k + 3 * (k * xz) - b * (z6 * k)
  {}

  // ----- the group operations on residues

  /** 2q; the point at infinity (z = 0) is returned as it stands. */
  function Double(q: Point, p: int): Point
    requires p > 0
  {
    if q.z == 0 then q else Reduce(DoubleFormula(q), p)
  }

  /** q + r with all four special cases. */
  function Add(q: Point, r: Point, p: int): Point
    requires p > 0
  {
    if q.z == 0 then r
    else if r.z == 0 then q
    else
      var g := Align(q, r);
      if (g.u2 - g.u1) % p == 0 then
        if (g.s2 - g.s1) % p == 0 then Double(q, p) else Infinity
      else Reduce(AddFormula(g), p)
  }

  /** k * q by double-and-add from the top bit of k. */
  function Multiply(k: nat, q: Point, p: int): Point
    requires p > 0
  {
    if k == 0 then Infinity
    else
      var r := Double(Multiply(k / 2, q, p), p);
      if k % 2 == 1 then Add(r, q, p) else r
  }

  lemma ReduceOnCurve(q: Point, b: int, p: int)
    requires p > 0
    ensures OnCurve(Reduce(q, p), b, p) == OnCurve(q, b, p)
  {
    hide Cong;
    var x, y, z := q.x % p, q.y % p, q.z % p;
    CongMod(q.x, p);
    CongMod(q.y, p);
    CongMod(q.z, p);
    CongMul(z, q.z, z, q.z, p);
    CongMul(y, q.y, y, q.y, p);
    CongMul(x, q.x, x, q.x, p);
    CongMul(x * x, q.x * q.x, x, q.x, p);
    CongMultiple(3, 3, 0, p);
    CongMul(3, 3, x, q.x, p);
    CongMul(3 * x, 3 * q.x, z * z, q.z * q.z, p);
    CongMul(3 * x * (z * z), 3 * q.x * (q.z * q.z), z * z, q.z * q.z, p);
    CongMultiple(b, b, 0, p);
    CongMul(b, b, z * z, q.z * q.z, p);
    CongMul(b * (z * z), b * (q.z * q.z), z * z, q.z * q.z, p);
    CongMul(b * (z * z) * (z * z), b * (q.z * q.z) * (q.z * q.z), z * z, q.z * q.z, p);
    CongSub(y * y, q.y * q.y, x * x * x, q.x * q.x * q.x, p);
    CongAdd(y * y - x * x * x, q.y * q.y - q.x * q.x * q.x,
            3 * x * (z * z) * (z * z), 3 * q.x * (q.z * q.z) * (q.z * q.z), p);
    CongSub(y * y - x * x * x + 3 * x * (z * z) * (z * z),
            q.y * q.y - q.x * q.x * q.x + 3 * q.x * (q.z * q.z) * (q.z * q.z),
            b * (z * z) * (z * z) * (z * z), b * (q.z * q.z) * (q.z * q.z) * (q.z * q.z), p);
    CongMeansEqualResidues(Defect(Reduce(q, p), b), Defect(q, b), p);
  }

  lemma CongMeansEqualResidues(a: int, b: int, p: int)
    requires p > 0 && Cong(a, b, p)
    ensures a % p == b % p
  {}

  lemma MultipleOfDefect(k: int, e: int, p: int)
    requires p > 0 && e % p == 0
    ensures (k * e) % p == 0
  {
    var q := e / p;
    assert k * (p * q) == (k * q) * p;
    DivModUnique(k * e, k * q, 0, p);
  }

  /** Doubling stays on the curve. */
  lemma DoubleOnCurve(q: Point, b: int, p: int)
    requires p > 0 && OnCurve(q, b, p)
    ensures OnCurve(Double(q, p), b, p)
  {
    hide Defect, DoubleFormula, Cube;
    DoubleDefect(q, b);
    MultipleOfDefect(64 * Cube(q.y * q.y), Defect(q, b), p);
    ReduceOnCurve(DoubleFormula(q), b, p);
  }

  /** Addition stays on the curve, in every branch. */
  lemma AddOnCurve(q: Point, r: Point, b: int, p: int)
    requires p > 0 && OnCurve(q, b, p) && OnCurve(r, b, p)
    ensures OnCurve(Add(q, r, p), b, p)
  {
    hide Defect, DoubleFormula, AddFormula;
    DoubleOnCurve(q, b, p);
    InfinityOnCurve(b, p);
    AddFormulaOnCurve(q, r, b, p);
    ReduceOnCurve(AddFormula(Align(q, r)), b, p);
  }

  lemma InfinityOnCurve(b: int, p: int)
    requires p > 0
    ensures OnCurve(Infinity, b, p)
  {
    assert Defect(Infinity, b) == 0;
  }

  lemma AddFormulaOnCurve(q: Point, r: Point, b: int, p: int)
    requires p > 0 && OnCurve(q, b, p) && OnCurve(r, b, p)
    ensures OnCurve(AddFormula(Align(q, r)), b, p)
  {
    hide Defect, AddFormula, Cube, SumX, CommonDefect;
    var g := Align(q, r);
    var w4 := (g.w * g.w) * (g.w * g.w);
    var c, d := -3 * w4, b * (w4 * (g.w * g.w));
    AlignDefect(q.x, q.y, q.z, r.z, b);
    AlignDefect(r.x, r.y, r.z, q.z, b);
    assert r.z * q.z == q.z * r.z;
    var E1, E2 := CommonDefect(g.u1, g.s1, c, d), CommonDefect(g.u2, g.s2, c, d);
    MultipleOfDefect(Cube(r.z * r.z), Defect(q, b), p);
    MultipleOfDefect(Cube(q.z * q.z), Defect(r, b), p);
    AddDefect(g, b);
    var H, M := g.u2 - g.u1, g.s2 - g.s1;
    Combination(E1, E2, Cube(H) * Cube(H), g.u1 * (H * H) - SumX(g.u1, H, M), Cube(H), p);
  }

  lemma Combination(E1: int, E2: int, k: int, t: int, h: int, p: int)
    requires p > 0 && E1 % p == 0 && E2 % p == 0
    ensures (64 * (E1 * k - t * (h * (E2 - E1)))) % p == 0
  {
    var a, c := E1 / p, E2 / p;
    assert E1 == p * a && E2 == p * c;
    var q := 64 * (a * k - t * (h * (c - a)));
    assert E1 * k == p * (a * k);
    assert h * (E2 - E1) == p * (h * (c - a));
    assert t * (p * (h * (c - a))) == p * (t * (h * (c - a)));
    assert 64 * (E1 * k - t * (h * (E2 - E1))) == p * q;
    DivModUnique(64 * (E1 * k - t * (h * (E2 - E1))), q, 0, p);
  }

  /** Hence every intermediate and final point of a scalar multiplication is on the curve. */
  lemma {:induction false} MultiplyOnCurve(k: nat, q: Point, b: int, p: int)
    requires p > 0 && OnCurve(q, b, p)
    ensures OnCurve(Multiply(k, q, p), b, p)
  {
    hide Defect, DoubleFormula, AddFormula;
    if k == 0 {
      InfinityOnCurve(b, p);
    } else {
      MultiplyOnCurve(k / 2, q, b, p);
      DoubleOnCurve(Multiply(k / 2, q, p), b, p);
      AddOnCurve(Double(Multiply(k / 2, q, p), p), q, b, p);
    }
  }

  // ----- the chord and the tangent

  /**
   r is the third point of the affine chord-and-tangent rule for slope n/d through
   (u1/w^2, s1/w^3) and (u2/w^2, .), denominators cleared:
   x3 = slope^2 - x1 - x2 and y3 = slope * (x1 - x3) - y1.
   */
  ghost predicate ThirdPoint(n: int, d: int, u1: int, u2: int, s1: int, w: int, r: Point) {
    && r.x * (d * d) * (w * w) == (r.z * r.z) * ((n * n) * (w * w) - (d * d) * (u1 + u2))
    && r.y * d * (w * w * w) == n * (u1 * w * Cube(r.z) - r.x * r.z * (w * w * w)) - s1 * d * Cube(r.z)
  }

  lemma AddIsChord(g: Common)
    ensures var d := g.w * (g.u2 - g.u1);
            AddFormula(g).z == 2 * d && ThirdPoint(g.s2 - g.s1, d, g.u1, g.u2, g.s1, g.w, AddFormula(g))
  {
    var h, n := g.u2 - g.u1, g.s2 - g.s1;
    var r := AddFormula(g);
    AddScale(g, SumX(g.u1, h, n), SumY(g.u1, g.s1, h, n), h, n);
    ChordX(n, g.w, h, g.u1, g.u2, r.x);
    ChordY(n, g.w, h, g.u1, g.s1, r.x, r.y);
  }

  lemma ChordX(n: int, w: int, h: int, u1: int, u2: int, x3: int)
    requires h == u2 - u1 && x3 == 4 * SumX(u1, h, n)
    ensures var d := w * h;
            x3 * (d * d) * (w * w) == ((2 * d) * (2 * d)) * ((n * n) * (w * w) - (d * d) * (u1 + u2))
  {
    hide SumX;
    var d := w * h;
    AlignDenominator(w, h);
    SumXIs(u1, h, n);
    SquareOfTwice(d);
    ChordXCollect(n * n, h * h, u1 + u2, d * d, w * w);
  }

  lemma SumXIs(U: int, H: int, M: int)
    ensures SumX(U, H, M) == M * M - (H * H) * (U + (U + H))
  {
    assert (H * H) * (U + (U + H)) == Cube(H) + 2 * (U * (H * H));
  }

  lemma SquareOfTwice(d: int)
    ensures (2 * d) * (2 * d) == 4 * (d * d)
  {}

  lemma ChordXCollect(nn: int, hh: int, us: int, dd: int, ww: int)
    requires dd == ww * hh
    ensures 4 * (nn - hh * us) * dd * ww == (4 * dd) * (nn * ww - dd * us)
  {
    assert (4 * dd) * (ww * hh * us) == 4 * (hh * us) * dd * ww;
  }

  lemma ChordY(n: int, w: int, h: int, u1: int, s1: int, x3: int, y3: int)
    requires x3 == 4 * SumX(u1, h, n) && y3 == 8 * SumY(u1, s1, h, n)
    ensures var d := w * h;
            y3 * d * (w * w * w) == n * (u1 * w * Cube(2 * d) - x3 * (2 * d) * (w * w * w)) - s1 * d * Cube(2 * d)
  {
    var d, w3 := w * h, w * w * w;
    CubeOfProduct(w, h);
    var t, h3 := u1 * (h * h), Cube(h);
    assert Cube(2 * d) == 8 * (w3 * h3);
    assert u1 * w * (w3 * h3) == t * d * w3;
    ChordYCollect(n, d, w3, t, h3, s1, SumX(u1, h, n));
  }

  lemma ChordYCollect(n: int, d: int, w3: int, t: int, h3: int, s1: int, x: int)
    ensures 8 * (n * (t - x) - s1 * h3) * d * w3
         == n * (8 * (t * d * w3) - (4 * x) * (2 * d) * w3) - s1 * d * (8 * (w3 * h3))
  {
    var k := d * w3;
    assert n * ((t - x) * k) == n * (t * k) - n * (x * k);
    assert 8 * (n * (t - x) - s1 * h3) * k == 8 * (n * ((t - x) * k)) - 8 * (s1 * h3 * k);
  }

  lemma DoubleIsTangent(q: Point)
    ensures var d := 2 * (q.y * q.z);
            DoubleFormula(q).z == d
            && ThirdPoint(3 * (q.x * q.x - (q.z * q.z) * (q.z * q.z)), d, q.x, q.x, q.y, q.z, DoubleFormula(q))
  {
    var n := 3 * (q.x * q.x - (q.z * q.z) * (q.z * q.z));
    assert n == 3 * ((q.x - q.z * q.z) * (q.x + q.z * q.z));
    var x3 := n * n - 8 * (q.x * (q.y * q.y));
    TangentX(n, q.x, q.y, q.z, x3);
    TangentY(n, q.x, q.y, q.z, x3);
  }

  lemma TangentX(n: int, x: int, y: int, z: int, x3: int)
    requires x3 == n * n - 8 * (x * (y * y))
    ensures var d := 2 * (y * z);
            x3 * (d * d) * (z * z) == (d * d) * ((n * n) * (z * z) - (d * d) * (x + x))
  {
    var d, zz := 2 * (y * z), z * z;
    var dd := d * d;
    assert dd * (x + x) == 8 * (x * (y * y)) * zz;
    assert (n * n) * zz - 8 * (x * (y * y)) * zz == x3 * zz;
  }

  lemma TangentY(n: int, x: int, y: int, z: int, x3: int)
    ensures var d, g := 2 * (y * z), y * y;
            (n * (4 * (x * g) - x3) - 8 * (g * g)) * d * (z * z * z)
              == n * (x * z * Cube(d) - x3 * d * (z * z * z)) - y * d * Cube(d)
  {
    hide Cube;
    var d, g, z3 := 2 * (y * z), y * y, z * z * z;
    CubeOfProduct(y, z);
    CubeIs(z);
    CubeOfTwo(y * z);
    TangentYFirst(x, y, z, z3);
    TangentYLast(y, d, z3);
    TangentYCollect(n, x * g, x3, g * g, d, z3, x * z * Cube(d), y * d * Cube(d));
  }

  lemma CubeIs(z: int)
    ensures Cube(z) == z * z * z
  {}

  lemma CubeOfTwo(t: int)
    ensures Cube(2 * t) == 8 * Cube(t)
  {}

  lemma TangentYFirst(x: int, y: int, z: int, z3: int)
    ensures x * z * (8 * (Cube(y) * z3)) == 4 * (x * (y * y)) * (2 * (y * z) * z3)
  {
    var g := y * y;
    assert Cube(y) == g * y;
    assert (x * z) * (g * y * z3) == (x * g) * ((y * z) * z3);
  }

  lemma TangentYLast(y: int, d: int, z3: int)
    ensures y * d * (8 * (Cube(y) * z3)) == 8 * ((y * y) * (y * y)) * (d * z3)
  {
    var c := Cube(y);
    assert y * c == (y * y) * (y * y);
    assert (y * d) * (c * z3) == (y * c) * (d * z3);
  }

  lemma TangentYCollect(n: int, b: int, x3: int, g4: int, d: int, z3: int, F: int, L: int)
    requires F == 4 * b * (d * z3) && L == 8 * g4 * (d * z3)
    ensures (n * (4 * b - x3) - 8 * g4) * d * z3 == n * (F - x3 * d * z3) - L
  {
    var k := d * z3;
    assert n * (4 * b - x3) * k == n * ((4 * b - x3) * k);
    assert (n * (4 * b - x3) - 8 * g4) * d * z3 == (n * (4 * b - x3) - 8 * g4) * k;
  }
}
