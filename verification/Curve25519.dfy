/**
 What the ladder of RFC 7748 computes, on the curve y^2 = x^3 + 486662x^2 + x of section 4.1: the x-coordinate of a
 multiple, by the chord-and-tangent law.
 */
module Curve25519 {
  import opened Radix
  import opened Rfc7748
  import opened CurveGroup
  import Fermat

  ghost function Cubic(x: int): int {
    x * x * x + 486662 * (x * x) + x
  }

  ghost predicate OnMontgomery(a: Affine, p: int)
    requires p > 0
  {
    Within(a, p) && (a.At? ==> Cong(a.y * a.y, Cubic(a.x), p))
  }

  /** The third point on the line of a slope through (x, y) and a point with abscissa x', mirrored. */
  ghost function Mirrored(slope: int, x: int, y: int, x': int, p: int): Affine
    requires p > 0
  {
    var u := (slope * slope - 486662 - x - x') % p;
    At(u, (slope * (x - u) - y) % p)
  }

  ghost function Plus(a: Affine, b: Affine, p: int): Affine
    requires p > 2
  {
    if a.Zero? then b
    else if b.Zero? then a
    else if a.x != b.x then Mirrored(Quotient(b.y - a.y, b.x - a.x, p), a.x, a.y, b.x, p)
    else if (a.y + b.y) % p == 0 then Zero
    else Mirrored(Quotient(3 * (a.x * a.x) + 973324 * a.x + 1, 2 * a.y, p), a.x, a.y, a.x, p)
  }

  ghost function Minus(a: Affine, p: int): Affine
    requires p > 0
  {
    if a.Zero? then Zero else At(a.x, (0 - a.y) % p)
  }

  // ----- one step, as polynomials

  /** Doubling and differential addition, whatever the constants and intermediate values of the step are. */
  lemma StepIs(s: State, x1: int)
    ensures var t, p := Step(s, x1), Prime();
            && Cong(t.x2, Sq(Sq(s.x2) - Sq(s.z2)), p)
            && Cong(t.z2, 4 * (s.x2 * s.z2) * (Sq(s.x2) + 486662 * (s.x2 * s.z2) + Sq(s.z2)), p)
            && Cong(t.x3, 4 * Sq(s.x2 * s.x3 - s.z2 * s.z3), p)
            && Cong(t.z3, 4 * (x1 * Sq(s.x2 * s.z3 - s.z2 * s.x3)), p)
  {
    hide Prime, Cong, Sq;
    var p := Prime();
    var A, B, C, D := s.x2 + s.z2, s.x2 - s.z2, s.x3 + s.z3, s.x3 - s.z3;
    CongMod(A, p);
    CongMod(B, p);
    CongMod(C, p);
    CongMod(D, p);
    FMulIs(FAdd(s.x2, s.z2), FAdd(s.x2, s.z2), A, A);
    FMulIs(FSub(s.x2, s.z2), FSub(s.x2, s.z2), B, B);
    var AA, BB := FSqr(FAdd(s.x2, s.z2)), FSqr(FSub(s.x2, s.z2));
    FMulIs(AA, BB, A * A, B * B);
    FSubIs(AA, BB, A * A, B * B);
    var E, e := FSub(AA, BB), A * A - B * B;
    CongMultiple(121665, 121665, 0, p);
    FMulIs(121665, E, 121665, e);
    FAddIs(AA, FMul(121665, E), A * A, 121665 * e);
    FMulIs(E, FAdd(AA, FMul(121665, E)), e, A * A + 121665 * e);
    FMulIs(FSub(s.x3, s.z3), FAdd(s.x2, s.z2), D, A);
    FMulIs(FAdd(s.x3, s.z3), FSub(s.x2, s.z2), C, B);
    var DA, CB := FMul(FSub(s.x3, s.z3), FAdd(s.x2, s.z2)), FMul(FAdd(s.x3, s.z3), FSub(s.x2, s.z2));
    FAddIs(DA, CB, D * A, C * B);
    FSubIs(DA, CB, D * A, C * B);
    FMulIs(FAdd(DA, CB), FAdd(DA, CB), D * A + C * B, D * A + C * B);
    FMulIs(FSub(DA, CB), FSub(DA, CB), D * A - C * B, D * A - C * B);
    CongMultiple(x1, x1, 0, p);
    FMulIs(x1, FSqr(FSub(DA, CB)), x1, (D * A - C * B) * (D * A - C * B));
    DoublingTerms(s.x2, s.z2);
    AdditionTerms(s.x2, s.z2, s.x3, s.z3, x1);
  }

  ghost function Sq(x: int): int {
    x * x
  }

  lemma FMulIs(u: int, v: int, a: int, b: int)
    requires Cong(u, a, Prime()) && Cong(v, b, Prime())
    ensures Cong(FMul(u, v), a * b, Prime())
  {
    hide Prime, Cong;
    CongMul(u, a, v, b, Prime());
    CongMod(u * v, Prime());
    CongTrans(FMul(u, v), u * v, a * b, Prime());
  }

  lemma FAddIs(u: int, v: int, a: int, b: int)
    requires Cong(u, a, Prime()) && Cong(v, b, Prime())
    ensures Cong(FAdd(u, v), a + b, Prime())
  {
    hide Prime, Cong;
    CongAdd(u, a, v, b, Prime());
    CongMod(u + v, Prime());
    CongTrans(FAdd(u, v), u + v, a + b, Prime());
  }

  lemma FSubIs(u: int, v: int, a: int, b: int)
    requires Cong(u, a, Prime()) && Cong(v, b, Prime())
    ensures Cong(FSub(u, v), a - b, Prime())
  {
    hide Prime, Cong;
    CongSub(u, a, v, b, Prime());
    CongMod(u - v, Prime());
    CongTrans(FSub(u, v), u - v, a - b, Prime());
  }

  lemma DoublingTerms(x: int, z: int)
    ensures var a, b := x + z, x - z;
            var e := a * a - b * b;
            && (a * a) * (b * b) == Sq(Sq(x) - Sq(z))
            && e * (a * a + 121665 * e) == 4 * (x * z) * (Sq(x) + 486662 * (x * z) + Sq(z))
  {
    var a, b := x + z, x - z;
    assert a * b == x * x - z * z;
    assert (a * a) * (b * b) == (a * b) * (a * b);
    assert a * a == x * x + 2 * (x * z) + z * z;
    assert b * b == x * x - 2 * (x * z) + z * z;
    assert a * a - b * b == 4 * (x * z);
  }

  lemma AdditionTerms(x: int, z: int, x': int, z': int, u: int)
    ensures var a, b, c, d := x + z, x - z, x' + z', x' - z';
            && (d * a + c * b) * (d * a + c * b) == 4 * Sq(x * x' - z * z')
            && u * ((d * a - c * b) * (d * a - c * b)) == 4 * (u * Sq(x * z' - z * x'))
  {
    var a, b, c, d := x + z, x - z, x' + z', x' - z';
    var m, n := x * x' - z * z', x * z' - z * x';
    assert d * a == x * x' + x' * z - x * z' - z * z';
    assert c * b == x * x' - x' * z + x * z' - z * z';
    assert d * a + c * b == 2 * m && d * a - c * b == -2 * n;
    assert (2 * m) * (2 * m) == 4 * (m * m) && (-2 * n) * (-2 * n) == 4 * (n * n);
    assert u * (4 * (n * n)) == 4 * (u * (n * n));
  }

  // ----- x-coordinates of the tangent and the chord

  lemma TangentIdentity(x: int)
    ensures var n := 3 * (x * x) + 973324 * x + 1;
            n * n - 4 * (Cubic(x) * (486662 + x + x)) == Sq(x * x - 1)
  {
    var x2 := x * x;
    var x3, x4 := x * x2, x2 * x2;
    assert x * x3 == x4 && x * x * x == x3;
    assert (3 * x2 + 973324 * x + 1) * (3 * x2 + 973324 * x + 1)
        == 9 * x4 + 5839944 * x3 + (6 + 947359608976) * x2 + 1946648 * x + 1;
    assert Cubic(x) * (486662 + x + x) == 486662 * Cubic(x) + 2 * (x * Cubic(x));
    assert x * Cubic(x) == x4 + 486662 * x3 + x2;
  }

  /** With slope l at (x, y): 4y^2 times the new abscissa is (x^2 - 1)^2. */
  lemma TangentX(l: int, x: int, y: int, p: int)
    requires p > 0 && Cong(l * (2 * y), 3 * (x * x) + 973324 * x + 1, p) && Cong(y * y, Cubic(x), p)
    ensures Cong(4 * (y * y) * (l * l - 486662 - x - x), Sq(x * x - 1), p)
  {
    hide Cong, Cubic;
    var n, t := 3 * (x * x) + 973324 * x + 1, 486662 + x + x;
    CongMul(l * (2 * y), n, l * (2 * y), n, p);
    Times(t, y * y, Cubic(x), p);
    Times(4, (y * y) * t, Cubic(x) * t, p);
    CongSub((l * (2 * y)) * (l * (2 * y)), n * n, 4 * ((y * y) * t), 4 * (Cubic(x) * t), p);
    TangentIdentity(x);
    TangentExpand(l, y, t);
  }

  lemma TangentExpand(l: int, y: int, t: int)
    ensures (l * (2 * y)) * (l * (2 * y)) - 4 * ((y * y) * t) == 4 * (y * y) * (l * l - t)
  {
    assert (l * (2 * y)) * (l * (2 * y)) == 4 * ((y * y) * (l * l));
    assert 4 * (y * y) * (l * l - t) == 4 * ((y * y) * (l * l)) - 4 * ((y * y) * t);
  }

  lemma ChordIdentity(x: int, v: int)
    ensures var f, g, d := Cubic(x), Cubic(v), v - x;
            var q := (486662 + x + v) * (d * d);
            (g - f) * (g - f) - 2 * (q * (f + g)) + q * q == Sq(x * v - 1) * (d * d)
  {
    hide Cubic, Sq;
    var s, m, d := x + v, x * v, v - x;
    var t := 486662 + s;
    var k := s * t - m + 1;
    CubicDifference(x, v);
    CubicSum(x, v);
    SquareOfDifference(x, v);
    BracketIs(s, m, t, d * d);
    ChordCollect(Cubic(x), Cubic(v), d, k, t, Sq(m - 1));
  }

  lemma SquareOfDifference(x: int, v: int)
    ensures (v - x) * (v - x) == (x + v) * (x + v) - 4 * (x * v)
  {}

  lemma CubicDifference(x: int, v: int)
    ensures var s := x + v; Cubic(v) - Cubic(x) == (v - x) * (s * (486662 + s) - x * v + 1)
  {
    var s, c := x + v, v * v + v * x + x * x;
    DifferenceOfCubes(x, v);
    SumOfThree(x, v);
    DistributeThree(v - x, s, c);
  }

  lemma DifferenceOfCubes(x: int, v: int)
    ensures (v - x) * (v * v + v * x + x * x) == v * v * v - x * x * x
    ensures (v - x) * (x + v) == v * v - x * x
  {}

  lemma SumOfThree(x: int, v: int)
    ensures var s := x + v; s * (486662 + s) - x * v == 486662 * s + (v * v + v * x + x * x)
  {}

  lemma DistributeThree(d: int, s: int, c: int)
    ensures d * (486662 * s + c + 1) == 486662 * (d * s) + d * c + d
  {}

  lemma CubicSum(x: int, v: int)
    ensures var s, m := x + v, x * v;
            var t := 486662 + s;
            Cubic(x) + Cubic(v) == (s * s) * t - m * s - 2 * (m * t) + s
  {
    var s, m := x + v, x * v;
    assert x * x + v * v == s * s - 2 * m;
    assert x * x * x + v * v * v == s * (s * s) - 3 * (m * s);
  }

  lemma BracketIs(s: int, m: int, t: int, dd: int)
    requires dd == s * s - 4 * m
    ensures var k, h := s * t - m + 1, (s * s) * t - m * s - 2 * (m * t) + s;
            k * k - 2 * (t * h) + (t * t) * dd == Sq(m - 1)
  {
    var a := s * t;
    BracketSquare(a, m);
    BracketTerms(s, m, t);
    BracketSums(t, (s * s) * t, m * s, m * t, s);
    BracketSums(t * t, s * s, 0, 2 * m, 0);
  }

  lemma BracketSquare(a: int, m: int)
    ensures (a - m + 1) * (a - m + 1) == a * a - 2 * (a * m) + 2 * a + Sq(m - 1)
  {
    assert (a - (m - 1)) * (a - (m - 1)) == a * a - 2 * (a * (m - 1)) + (m - 1) * (m - 1);
  }

  lemma BracketTerms(s: int, m: int, t: int)
    ensures t * ((s * s) * t) == (s * t) * (s * t) == (t * t) * (s * s)
    ensures t * (m * s) == (s * t) * m && t * (m * t) == (t * t) * m && (t * t) * (2 * m) == 2 * ((t * t) * m)
  {
    SquareOfProduct(s, t);
    assert t * ((s * s) * t) == (s * s) * (t * t);
  }

  lemma BracketSums(t: int, a: int, b: int, c: int, d: int)
    ensures t * (a - b - 2 * c + d) == t * a - t * b - 2 * (t * c) + t * d
  {}

  lemma ChordCollect(f: int, g: int, d: int, k: int, t: int, r: int)
    requires g - f == d * k && k * k - 2 * (t * (f + g)) + (t * t) * (d * d) == r
    ensures (g - f) * (g - f) - 2 * ((t * (d * d)) * (f + g)) + (t * (d * d)) * (t * (d * d)) == r * (d * d)
  {
    SquareOfProduct(d, k);
    CollectTerms(d * d, k * k, t, f + g, r);
  }

  lemma CollectTerms(dd: int, kk: int, t: int, h: int, r: int)
    requires kk - 2 * (t * h) + (t * t) * dd == r
    ensures dd * kk - 2 * ((t * dd) * h) + (t * dd) * (t * dd) == r * dd
  {
    assert (t * dd) * h == dd * (t * h);
    assert (t * dd) * (t * dd) == dd * ((t * t) * dd);
    assert dd * (kk - 2 * (t * h) + (t * t) * dd) == dd * kk - 2 * (dd * (t * h)) + dd * ((t * t) * dd);
  }

  /** The two slopes, over a common denominator. */
  lemma ChordProduct(l: int, m: int, d: int, t: int, y: int, w: int, p: int)
    requires p > 0 && Cong(l * d, w - y, p) && Cong(m * d, w + y, p)
    ensures var q := t * (d * d);
            Cong(((l * l - t) * (d * d)) * ((m * m - t) * (d * d)),
                 (w * w - y * y) * (w * w - y * y) - 2 * (q * (y * y + w * w)) + q * q, p)
  {
    hide Cong;
    var q := t * (d * d);
    CongMul(l * d, w - y, l * d, w - y, p);
    CongMul(m * d, w + y, m * d, w + y, p);
    CongMultiple(q, q, 0, p);
    CongSub((l * d) * (l * d), (w - y) * (w - y), q, q, p);
    CongSub((m * d) * (m * d), (w + y) * (w + y), q, q, p);
    CongMul((l * d) * (l * d) - q, (w - y) * (w - y) - q, (m * d) * (m * d) - q, (w + y) * (w + y) - q, p);
    SlopeTerms(l, d, t);
    SlopeTerms(m, d, t);
    ConjugateTerms(y, w, q);
  }

  /** The squares of the ordinates replaced by what the curve says of them. */
  lemma ChordSquares(x: int, y: int, v: int, w: int, p: int)
    requires p > 0 && Cong(y * y, Cubic(x), p) && Cong(w * w, Cubic(v), p)
    ensures var dd := (v - x) * (v - x);
            var q := (486662 + x + v) * dd;
            Cong((w * w - y * y) * (w * w - y * y) - 2 * (q * (y * y + w * w)) + q * q, Sq(x * v - 1) * dd, p)
  {
    hide Cong, Cubic;
    var f, g, q := Cubic(x), Cubic(v), (486662 + x + v) * ((v - x) * (v - x));
    CongSub(w * w, g, y * y, f, p);
    CongMul(w * w - y * y, g - f, w * w - y * y, g - f, p);
    CongAdd(y * y, f, w * w, g, p);
    Times(q, y * y + w * w, f + g, p);
    Times(2, q * (y * y + w * w), q * (f + g), p);
    CongSub((w * w - y * y) * (w * w - y * y), (g - f) * (g - f), 2 * (q * (y * y + w * w)), 2 * (q * (f + g)), p);
    CongMultiple(q * q, q * q, 0, p);
    CongAdd((w * w - y * y) * (w * w - y * y) - 2 * (q * (y * y + w * w)), (g - f) * (g - f) - 2 * (q * (f + g)),
            q * q, q * q, p);
    ChordIdentity(x, v);
  }

  /** The abscissas a and b of the sum and the difference of (x, y) and (v, w): a b (v - x)^2 = (x v - 1)^2. */
  lemma ChordX(l: int, m: int, x: int, y: int, v: int, w: int, p: int)
    requires p > 2 && Fermat.IsPrime(p) && (v - x) % p != 0
    requires Cong(l * (v - x), w - y, p) && Cong(m * (v - x), w + y, p)
    requires Cong(y * y, Cubic(x), p) && Cong(w * w, Cubic(v), p)
    ensures Cong((l * l - 486662 - x - v) * (m * m - 486662 - x - v) * ((v - x) * (v - x)), Sq(x * v - 1), p)
  {
    hide Fermat.IsPrime, Cong, Cubic, Sq;
    var d, t, r := v - x, 486662 + x + v, Sq(x * v - 1);
    var dd, a, b := d * d, l * l - t, m * m - t;
    ChordProduct(l, m, d, t, y, w, p);
    ChordSquares(x, y, v, w, p);
    var q := t * dd;
    CongTrans((a * dd) * (b * dd), (w * w - y * y) * (w * w - y * y) - 2 * (q * (y * y + w * w)) + q * q, r * dd, p);
    NonZero(d, d, p);
    ProductTerms(a, b, dd, r);
    Cancel(dd, a * b * dd, r, p);
  }

  lemma ProductTerms(a: int, b: int, k: int, r: int)
    ensures (a * k) * (b * k) == k * (a * b * k) && r * k == k * r
  {
    assert (a * k) * (b * k) == (a * b) * (k * k);
    assert k * (a * b * k) == (a * b) * (k * k);
  }

  lemma SlopeTerms(l: int, d: int, t: int)
    ensures (l * d) * (l * d) - t * (d * d) == (l * l - t) * (d * d)
  {
    SquareOfProduct(l, d);
  }

  lemma ConjugateTerms(y: int, w: int, q: int)
    ensures ((w - y) * (w - y) - q) * ((w + y) * (w + y) - q)
            == (w * w - y * y) * (w * w - y * y) - 2 * (q * (y * y + w * w)) + q * q
  {
    var e, h := (w - y) * (w - y), (w + y) * (w + y);
    assert (w - y) * (w + y) == w * w - y * y;
    SquareOfProduct(w - y, w + y);
    assert e + h == 2 * (y * y + w * w);
    assert (e - q) * (h - q) == e * h - q * (e + h) + q * q;
  }

  // ----- projective x-coordinates

  /** (x : z) is the x-coordinate of the point; that of infinity is (1 : 0). */
  ghost predicate Shows(x: int, z: int, a: Affine, p: int)
    requires p > 0
  {
    if a.Zero? then z % p == 0 && x % p != 0 else z % p != 0 && Cong(x, a.x * z, p)
  }

  lemma ZeroCong(a: int, p: int)
    requires p > 0
    ensures a % p == 0 <==> Cong(a, 0, p)
  {
    DivModUnique(0, 0, 0, p);
  }

  lemma SmallNonZero(a: int, p: int)
    requires 0 < a < p
    ensures a % p != 0
  {
    DivModUnique(a, 0, a, p);
  }

  lemma SqCong(a: int, b: int, p: int)
    requires p > 0 && Cong(a, b, p)
    ensures Cong(Sq(a), Sq(b), p)
  {
    hide Cong;
    CongMul(a, b, a, b, p);
  }

  lemma SqNonZero(a: int, p: int)
    requires p > 2 && Fermat.IsPrime(p)
    ensures Sq(a) % p != 0 <==> a % p != 0
  {
    hide Fermat.IsPrime;
    NonZero(a, a, p);
  }

  /** 1 and -1 are not abscissas of points of order two. */
  lemma NotOne(x: int, p: int)
    requires p > 486664 && Fermat.IsPrime(p) && Cubic(x) % p == 0
    ensures (x * x - 1) % p != 0
  {
    hide Fermat.IsPrime, Cong;
    if (x * x - 1) % p == 0 {
      var k := x * x - 1;
      assert Cubic(x) == (x + 486662) * k + (2 * x + 486662);
      MultipleOfZero(x + 486662, k, p);
      SumOfZeros(Cubic(x), 0 - (x + 486662) * k, p);
      MultipleOfZero(2 * x - 486662, 2 * x + 486662, p);
      MultipleOfZero(-4, k, p);
      assert (2 * x - 486662) * (2 * x + 486662) - 4 * k == -(486660 * 486664);
      SumOfZeros((2 * x - 486662) * (2 * x + 486662), -4 * k, p);
      MultipleOfZero(-1, -(486660 * 486664), p);
      Fermat.Euclid(486660, 486664, p);
      SmallNonZero(486660, p);
      SmallNonZero(486664, p);
    }
  }

  lemma MultipleOfZero(k: int, a: int, p: int)
    requires p > 0 && a % p == 0
    ensures (k * a) % p == 0 && (0 - k * a) % p == 0
  {
    QuotientAndRest(a, p);
    var q := a / p;
    assert k * (p * q) == (k * q) * p;
    DivModUnique(k * a, k * q, 0, p);
    DivModUnique(0 - k * a, 0 - k * q, 0, p);
  }

  lemma SumOfZeros(a: int, b: int, p: int)
    requires p > 0 && a % p == 0 && b % p == 0
    ensures (a + b) % p == 0
  {
    QuotientAndRest(a, p);
    QuotientAndRest(b, p);
    DivModUnique(a + b, a / p + b / p, 0, p);
  }

  /** The doubled point, from the abscissa of the point. */
  lemma DoubleTerms(X: int, Z: int, x: int, p: int)
    requires p > 0 && Cong(X, x * Z, p)
    ensures var k := Sq(Sq(Z));
            && Cong(Sq(Sq(X) - Sq(Z)), k * Sq(x * x - 1), p)
            && Cong(4 * (X * Z) * (Sq(X) + 486662 * (X * Z) + Sq(Z)), k * (4 * Cubic(x)), p)
  {
    hide Cong, Sq, Cubic;
    SqCong(X, x * Z, p);
    CongMultiple(Sq(Z), Sq(Z), 0, p);
    CongSub(Sq(X), Sq(x * Z), Sq(Z), Sq(Z), p);
    SqCong(Sq(X) - Sq(Z), Sq(x * Z) - Sq(Z), p);
    Times(Z, X, x * Z, p);
    Times(4, X * Z, x * Z * Z, p);
    Times(486662, X * Z, x * Z * Z, p);
    CongAdd(Sq(X), Sq(x * Z), 486662 * (X * Z), 486662 * (x * Z * Z), p);
    CongAdd(Sq(X) + 486662 * (X * Z), Sq(x * Z) + 486662 * (x * Z * Z), Sq(Z), Sq(Z), p);
    CongMul(4 * (X * Z), 4 * (x * Z * Z), Sq(X) + 486662 * (X * Z) + Sq(Z),
            Sq(x * Z) + 486662 * (x * Z * Z) + Sq(Z), p);
    ScaledDouble(x, Z);
  }

  lemma ScaledDouble(x: int, z: int)
    ensures var k := Sq(Sq(z));
            && Sq(Sq(x * z) - Sq(z)) == k * Sq(x * x - 1)
            && 4 * (x * z * z) * (Sq(x * z) + 486662 * (x * z * z) + Sq(z)) == k * (4 * Cubic(x))
  {
    var w, c := z * z, x * x - 1;
    SquareOfProduct(x, z);
    assert (x * x) * w - w == c * w;
    SquareOfProduct(c, w);
    var e := x * x + 486662 * x + 1;
    assert x * z * z == x * w;
    assert (x * x) * w + 486662 * (x * w) + w == e * w;
    assert (4 * (x * w)) * (e * w) == (w * w) * (4 * (x * e));
    assert x * e == Cubic(x);
  }

  lemma DoubleShows(X: int, Z: int, X2: int, Z2: int, a: Affine, p: int)
    requires p > 486664 && Fermat.IsPrime(p) && OnMontgomery(a, p) && Shows(X, Z, a, p)
    requires Cong(X2, Sq(Sq(X) - Sq(Z)), p)
    requires Cong(Z2, 4 * (X * Z) * (Sq(X) + 486662 * (X * Z) + Sq(Z)), p)
    ensures Shows(X2, Z2, Plus(a, a, p), p)
  {
    hide Fermat.IsPrime, Cong, Cubic, Quotient, Sq;
    if a.Zero? {
      DoubleOfZero(X, Z, X2, Z2, p);
    } else {
      var x, y, k := a.x, a.y, Sq(Sq(Z));
      DoubleTerms(X, Z, x, p);
      CongTrans(X2, Sq(Sq(X) - Sq(Z)), k * Sq(x * x - 1), p);
      CongTrans(Z2, 4 * (X * Z) * (Sq(X) + 486662 * (X * Z) + Sq(Z)), k * (4 * Cubic(x)), p);
      SqNonZero(Z, p);
      SqNonZero(Sq(Z), p);
      Times(4, y * y, Cubic(x), p);
      Times(k, 4 * (y * y), 4 * Cubic(x), p);
      CongBack(Z2, k * (4 * Cubic(x)), k * (4 * (y * y)), p);
      SameResidue(Z2, k * (4 * (y * y)), p);
      NonZero(k, 4 * (y * y), p);
      SmallNonZero(4, p);
      SmallNonZero(2, p);
      NonZero(4, y * y, p);
      NonZero(y, y, p);
      NonZero(2, y, p);
      assert y + y == 2 * y;
      if (2 * y) % p == 0 {
        SameResidue(y * y, Cubic(x), p);
        NotOne(x, p);
        SqNonZero(x * x - 1, p);
        NonZero(k, Sq(x * x - 1), p);
        SameResidue(X2, k * Sq(x * x - 1), p);
      } else {
        var l := Quotient(3 * (x * x) + 973324 * x + 1, 2 * y, p);
        QuotientIs(3 * (x * x) + 973324 * x + 1, 2 * y, p);
        TangentX(l, x, y, p);
        NewAbscissa(X2, Z2, k, Sq(x * x - 1), 4 * (y * y), l * l - 486662 - x - x, p);
      }
    }
  }

  lemma DoubleOfZero(X: int, Z: int, X2: int, Z2: int, p: int)
    requires p > 2 && Fermat.IsPrime(p) && Z % p == 0 && X % p != 0
    requires Cong(X2, Sq(Sq(X) - Sq(Z)), p)
    requires Cong(Z2, 4 * (X * Z) * (Sq(X) + 486662 * (X * Z) + Sq(Z)), p)
    ensures Z2 % p == 0 && X2 % p != 0
  {
    hide Fermat.IsPrime, Cong, Sq;
    ZeroCong(Z, p);
    SqCong(Z, 0, p);
    CongMultiple(Sq(X), Sq(X), 0, p);
    CongSub(Sq(X), Sq(X), Sq(Z), Sq(0), p);
    assert Sq(0) == 0 by {
      SqZero();
    }
    SqCong(Sq(X) - Sq(Z), Sq(X), p);
    CongTrans(X2, Sq(Sq(X) - Sq(Z)), Sq(Sq(X)), p);
    SameResidue(X2, Sq(Sq(X)), p);
    SqNonZero(X, p);
    SqNonZero(Sq(X), p);
    var e := Sq(X) + 486662 * (X * Z) + Sq(Z);
    MultipleOfZero(4 * X * e, Z, p);
    assert 4 * (X * Z) * e == (4 * X * e) * Z;
    SameResidue(Z2, 4 * (X * Z) * e, p);
  }

  lemma SqZero()
    ensures Sq(0) == 0
  {}

  /** X = k r and Z = k s with s c = r: the quotient of X and Z is c. */
  lemma NewAbscissa(X: int, Z: int, k: int, r: int, s: int, c: int, p: int)
    requires p > 0 && Cong(X, k * r, p) && Cong(Z, k * s, p) && Cong(s * c, r, p)
    ensures Cong(X, (c % p) * Z, p)
  {
    hide Cong;
    CongMod(c, p);
    CongMul(c % p, c, Z, k * s, p);
    Times(k, s * c, r, p);
    assert c * (k * s) == k * (s * c);
    CongTrans((c % p) * Z, k * (s * c), k * r, p);
    CongBack(X, k * r, (c % p) * Z, p);
  }

  // Differential addition.

  lemma CrossTerms(X: int, Z: int, V: int, W: int, x: int, v: int, u: int, p: int)
    requires p > 0 && Cong(X, x * Z, p) && Cong(V, v * W, p)
    ensures var k := 4 * Sq(Z * W);
            && Cong(4 * Sq(X * V - Z * W), k * Sq(x * v - 1), p)
            && Cong(4 * (u * Sq(X * W - Z * V)), k * (u * Sq(v - x)), p)
  {
    hide Cong, Sq;
    CongMul(X, x * Z, V, v * W, p);
    CongMultiple(Z * W, Z * W, 0, p);
    CongSub(X * V, (x * Z) * (v * W), Z * W, Z * W, p);
    SqCong(X * V - Z * W, (x * Z) * (v * W) - Z * W, p);
    Times(4, Sq(X * V - Z * W), Sq((x * Z) * (v * W) - Z * W), p);
    Times(W, X, x * Z, p);
    Times(Z, V, v * W, p);
    CongSub(X * W, x * Z * W, Z * V, Z * (v * W), p);
    SqCong(X * W - Z * V, x * Z * W - Z * (v * W), p);
    Times(u, Sq(X * W - Z * V), Sq(x * Z * W - Z * (v * W)), p);
    Times(4, u * Sq(X * W - Z * V), u * Sq(x * Z * W - Z * (v * W)), p);
    ScaledCross(Z, W, x, v, u);
  }

  lemma ScaledCross(z: int, w: int, x: int, v: int, u: int)
    ensures var k := 4 * Sq(z * w);
            && 4 * Sq((x * z) * (v * w) - z * w) == k * Sq(x * v - 1)
            && 4 * (u * Sq(x * z * w - z * (v * w))) == k * (u * Sq(v - x))
  {
    var m := z * w;
    assert (x * z) * (v * w) == (x * v) * m;
    assert (x * v) * m - m == (x * v - 1) * m;
    SquareOfProduct(x * v - 1, m);
    assert x * z * w - z * (v * w) == (x - v) * m;
    SquareOfProduct(x - v, m);
    assert (x - v) * (x - v) == (v - x) * (v - x);
    assert 4 * (u * (((x - v) * (x - v)) * (m * m))) == 4 * (m * m) * (u * ((v - x) * (v - x)));
    assert 4 * (((x * v - 1) * (x * v - 1)) * (m * m)) == 4 * (m * m) * ((x * v - 1) * (x * v - 1));
  }

  /** One of the points is infinity: the sum is the other, which the difference has for its abscissa. */
  lemma AddWithZero(X: int, Z: int, V: int, W: int, X3: int, Z3: int, u: int, p: int)
    requires p > 2 && Fermat.IsPrime(p) && u % p != 0 && Z % p == 0 && X % p != 0 && W % p != 0 && Cong(V, u * W, p)
    requires Cong(X3, 4 * Sq(X * V - Z * W), p) && Cong(Z3, 4 * (u * Sq(X * W - Z * V)), p)
    ensures Z3 % p != 0 && Cong(X3, u * Z3, p)
  {
    hide Fermat.IsPrime, Cong, Sq;
    var n := X * W;
    MultipleOfZero(W, Z, p);
    MultipleOfZero(V, Z, p);
    assert W * Z == Z * W && V * Z == Z * V;
    ZeroCong(Z * W, p);
    ZeroCong(Z * V, p);
    Times(X, V, u * W, p);
    CongSub(X * V, X * (u * W), Z * W, 0, p);
    SqCong(X * V - Z * W, X * (u * W), p);
    Times(4, Sq(X * V - Z * W), Sq(X * (u * W)), p);
    CongMultiple(n, n, 0, p);
    CongSub(n, n, Z * V, 0, p);
    SqCong(n - Z * V, n, p);
    Times(u, Sq(n - Z * V), Sq(n), p);
    Times(4, u * Sq(n - Z * V), u * Sq(n), p);
    CongTrans(X3, 4 * Sq(X * V - Z * W), 4 * Sq(X * (u * W)), p);
    CongTrans(Z3, 4 * (u * Sq(n - Z * V)), 4 * (u * Sq(n)), p);
    Times(u, Z3, 4 * (u * Sq(n)), p);
    ScaledSquare(X, W, u);
    CongBack(X3, 4 * Sq(X * (u * W)), u * Z3, p);
    NonZero(X, W, p);
    SqNonZero(n, p);
    NonZero(u, Sq(n), p);
    FourNonZero(p);
    NonZero(4, u * Sq(n), p);
    SameResidue(Z3, 4 * (u * Sq(n)), p);
  }

  lemma ScaledSquare(X: int, W: int, u: int)
    ensures 4 * Sq(X * (u * W)) == u * (4 * (u * Sq(X * W)))
  {
    var n := X * W;
    assert X * (u * W) == u * n;
    SquareOfProduct(u, n);
    assert u * (4 * (u * (n * n))) == 4 * ((u * u) * (n * n));
  }

  lemma FourNonZero(p: int)
    requires p > 2 && Fermat.IsPrime(p)
    ensures 4 % p != 0
  {
    hide Fermat.IsPrime;
    TwoNonZero(p);
    NonZero(2, 2, p);
  }

  /** Two finite points with different abscissas. */
  lemma AddChordShows(X: int, Z: int, V: int, W: int, X3: int, Z3: int, a: Affine, c: Affine, u: int, p: int)
    requires p > 486664 && Fermat.IsPrime(p) && OnMontgomery(a, p) && OnMontgomery(c, p) && a.At? && c.At? && a.x != c.x
    requires Shows(X, Z, a, p) && Shows(V, W, c, p)
    requires Plus(c, Minus(a, p), p).At? && Plus(c, Minus(a, p), p).x == u && u % p != 0
    requires Cong(X3, 4 * Sq(X * V - Z * W), p) && Cong(Z3, 4 * (u * Sq(X * W - Z * V)), p)
    ensures Shows(X3, Z3, Plus(a, c, p), p)
  {
    hide Fermat.IsPrime, Cong, Cubic, Quotient, Sq;
    var x, y, v, w, k := a.x, a.y, c.x, c.y, 4 * Sq(Z * W);
    var l := Quotient(w - y, v - x, p);
    var y' := Minus(a, p).y;
    var m := Quotient(y' - w, x - v, p);
    SmallDifference(x, v, p);
    SmallDifference(v, x, p);
    QuotientIs(w - y, v - x, p);
    QuotientIs(y' - w, x - v, p);
    MirrorSlope(m, x, y, v, w, y', p);
    ChordX(l, m, x, y, v, w, p);
    var e, f := l * l - 486662 - x - v, m * m - 486662 - x - v;
    assert f == m * m - 486662 - v - x;
    CongMod(f, p);
    CrossTerms(X, Z, V, W, x, v, u, p);
    CongTrans(X3, 4 * Sq(X * V - Z * W), k * Sq(x * v - 1), p);
    CongTrans(Z3, 4 * (u * Sq(X * W - Z * V)), k * (u * Sq(v - x)), p);
    UseDifference(e, f, u, v - x, Sq(x * v - 1), p);
    NewAbscissa(X3, Z3, k, Sq(x * v - 1), u * Sq(v - x), e, p);
    CrossNonZero(Z, W, u, v - x, p);
    SameResidue(Z3, k * (u * Sq(v - x)), p);
  }

  lemma CrossNonZero(Z: int, W: int, u: int, d: int, p: int)
    requires p > 2 && Fermat.IsPrime(p) && Z % p != 0 && W % p != 0
    ensures (4 * Sq(Z * W)) % p != 0
    ensures (4 * Sq(Z * W) * (u * Sq(d))) % p != 0 <==> u % p != 0 && d % p != 0
  {
    hide Fermat.IsPrime, Sq;
    NonZero(Z, W, p);
    SqNonZero(Z * W, p);
    FourNonZero(p);
    NonZero(4, Sq(Z * W), p);
    SqNonZero(d, p);
    NonZero(u, Sq(d), p);
    NonZero(4 * Sq(Z * W), u * Sq(d), p);
  }

  /** The slope to the mirrored point. */
  lemma MirrorSlope(m: int, x: int, y: int, v: int, w: int, y': int, p: int)
    requires p > 0 && Cong(m * (x - v), y' - w, p) && y' == (0 - y) % p
    ensures Cong(m * (v - x), w + y, p)
  {
    hide Cong;
    CongMod(0 - y, p);
    CongMultiple(w, w, 0, p);
    CongSub(y', 0 - y, w, w, p);
    CongTrans(m * (x - v), y' - w, 0 - y - w, p);
    Times(-1, m * (x - v), 0 - y - w, p);
    assert -1 * (m * (x - v)) == m * (v - x);
  }

  lemma UseDifference(e: int, f: int, u: int, d: int, r: int, p: int)
    requires p > 0 && Cong(e * f * (d * d), r, p) && u == f % p
    ensures Cong(u * Sq(d) * e, r, p)
  {
    hide Cong;
    CongMod(f, p);
    Times(d * d, u, f, p);
    Times(e, u * (d * d), f * (d * d), p);
    assert f * (d * d) * e == e * f * (d * d);
    CongTrans(u * (d * d) * e, e * f * (d * d), r, p);
  }

  /** Two finite points with one abscissa whose difference is finite are opposite, and not of order two. */
  lemma AreOpposite(x: int, y: int, w: int, y': int, p: int)
    requires p > 2 && Fermat.IsPrime(p) && Cong(y * y, Cubic(x), p) && Cong(w * w, Cubic(x), p)
    requires y' == (0 - y) % p && (w + y') % p != 0
    ensures (y + w) % p == 0 && (2 * w) % p != 0
  {
    hide Fermat.IsPrime, Cong, Cubic;
    CongMod(0 - y, p);
    CongMultiple(w, w, 0, p);
    CongAdd(w, w, y', 0 - y, p);
    SameResidue(w + y', w - y, p);
    CongMeet2(y * y, w * w, Cubic(x), p);
    Divides(w * w, y * y, p);
    assert w * w - y * y == (w - y) * (w + y);
    Fermat.Euclid(w - y, w + y, p);
    if (2 * w) % p == 0 {
      MultipleOfZero(-1, w + y, p);
      SumOfZeros(2 * w, -1 * (w + y), p);
    }
  }

  lemma AddOppositeShows(X: int, Z: int, V: int, W: int, X3: int, Z3: int, a: Affine, c: Affine, u: int, p: int)
    requires p > 486664 && Fermat.IsPrime(p) && OnMontgomery(a, p) && OnMontgomery(c, p) && a.At? && c.At? && a.x == c.x
    requires Shows(X, Z, a, p) && Shows(V, W, c, p)
    requires Plus(c, Minus(a, p), p).At? && Plus(c, Minus(a, p), p).x == u && u % p != 0
    requires Cong(X3, 4 * Sq(X * V - Z * W), p) && Cong(Z3, 4 * (u * Sq(X * W - Z * V)), p)
    ensures Shows(X3, Z3, Plus(a, c, p), p)
  {
    hide Fermat.IsPrime, Cong, Cubic, Quotient, Sq;
    var x, w, k := a.x, c.y, 4 * Sq(Z * W);
    AreOpposite(x, a.y, w, Minus(a, p).y, p);
    NotUnit(x, w, u, p);
    CrossTerms(X, Z, V, W, x, x, u, p);
    CongTrans(X3, 4 * Sq(X * V - Z * W), k * Sq(x * x - 1), p);
    CongTrans(Z3, 4 * (u * Sq(X * W - Z * V)), k * (u * Sq(x - x)), p);
    OppositeResidues(X3, Z3, k, u, x, Z, W, p);
  }

  lemma OppositeResidues(X3: int, Z3: int, k: int, u: int, x: int, Z: int, W: int, p: int)
    requires p > 2 && Fermat.IsPrime(p) && k == 4 * Sq(Z * W) && Z % p != 0 && W % p != 0
    requires Cong(X3, k * Sq(x * x - 1), p) && Cong(Z3, k * (u * Sq(x - x)), p) && Sq(x * x - 1) % p != 0
    ensures Z3 % p == 0 && X3 % p != 0
  {
    hide Fermat.IsPrime, Cong, Sq;
    CrossNonZero(Z, W, u, x - x, p);
    ZeroCong(0, p);
    SameResidue(Z3, k * (u * Sq(x - x)), p);
    SameResidue(X3, k * Sq(x * x - 1), p);
    NonZero(k, Sq(x * x - 1), p);
  }

  lemma CongMeet2(a: int, b: int, c: int, p: int)
    requires p > 0 && Cong(a, c, p) && Cong(b, c, p)
    ensures Cong(b, a, p)
  {}

  /** A point that is doubled to one with another abscissa than 0 has not the abscissa 1 or -1. */
  lemma NotUnit(x: int, w: int, u: int, p: int)
    requires p > 486664 && Fermat.IsPrime(p) && Cong(w * w, Cubic(x), p) && u % p != 0
    requires var l := Quotient(3 * (x * x) + 973324 * x + 1, 2 * w, p);
             u == (l * l - 486662 - x - x) % p && (2 * w) % p != 0
    ensures Sq(x * x - 1) % p != 0
  {
    hide Fermat.IsPrime, Cong, Cubic, Quotient, Sq;
    var n := 3 * (x * x) + 973324 * x + 1;
    var l := Quotient(n, 2 * w, p);
    var f := l * l - 486662 - x - x;
    QuotientIs(n, 2 * w, p);
    TangentX(l, x, w, p);
    CongMod(f, p);
    SameResidue(u, f, p);
    NonZero(2, w, p);
    NonZero(w, w, p);
    FourNonZero(p);
    NonZero(4, w * w, p);
    NonZero(4 * (w * w), f, p);
    SameResidue(4 * (w * w) * f, Sq(x * x - 1), p);
  }

  /** Differential addition: the abscissa of a sum, from those of the points and of their difference. */
  lemma AddShows(X: int, Z: int, V: int, W: int, X3: int, Z3: int, a: Affine, c: Affine, u: int, p: int)
    requires p > 486664 && Fermat.IsPrime(p) && OnMontgomery(a, p) && OnMontgomery(c, p)
    requires Shows(X, Z, a, p) && Shows(V, W, c, p)
    requires Plus(c, Minus(a, p), p).At? && Plus(c, Minus(a, p), p).x == u && u % p != 0
    requires Cong(X3, 4 * Sq(X * V - Z * W), p) && Cong(Z3, 4 * (u * Sq(X * W - Z * V)), p)
    ensures Shows(X3, Z3, Plus(a, c, p), p)
  {
    hide Fermat.IsPrime, Cong, Cubic, Quotient, Sq;
    if a.Zero? {
      AddWithZero(X, Z, V, W, X3, Z3, u, p);
    } else if c.Zero? {
      Exchanged(X, Z, V, W, u);
      AddWithZero(V, W, X, Z, X3, Z3, u, p);
    } else if a.x != c.x {
      AddChordShows(X, Z, V, W, X3, Z3, a, c, u, p);
    } else {
      AddOppositeShows(X, Z, V, W, X3, Z3, a, c, u, p);
    }
  }

  lemma Exchanged(X: int, Z: int, V: int, W: int, u: int)
    ensures Sq(X * V - Z * W) == Sq(V * X - W * Z) && Sq(X * W - Z * V) == Sq(V * Z - W * X)
  {
    var n := X * W - Z * V;
    assert V * Z - W * X == -n;
    assert (-n) * (-n) == n * n;
  }

  // ----- the ladder

  /** The ladder over the n low bits of k: that of the half, one step, and the double or the double and one. */
  ghost function Ladder(k: nat, n: nat, x1: int): State
    decreases n
  {
    if n == 0 then Start(x1) else CSwap(k % 2, Step(CSwap(k % 2, Ladder(k / 2, n - 1, x1)), x1))
  }

  /** The loop over the bits n - 1 to 0 goes from the ladder of k / 2^n to that of k. */
  lemma {:induction false} LoopIsLadder(k: nat, x1: int, n: nat, m: nat)
    ensures Pow(2, n) > 0 && EagerLoop(k, x1, n, Ladder(k / Pow(2, n), m, x1)) == Ladder(k, m + n, x1)
    decreases n
  {
    hide Step, Pow, EagerLoop, Ladder, CSwap;
    if n == 0 {
      ValNil(2);
      LoopNone(k, x1, Ladder(k, m, x1));
    } else {
      PowNext(2, n - 1);
      LoopIsLadder(k, x1, n - 1, m + 1);
      HalfOf(k, Pow(2, n - 1), Pow(2, n));
      LadderNext(k / Pow(2, n - 1), m + 1, x1);
      LoopNext(k, x1, n, Ladder(k / Pow(2, n), m, x1));
    }
  }

  lemma HalfOf(k: nat, w: nat, w2: nat)
    requires w > 0 && w2 == 2 * w
    ensures k / w2 == k / w / 2
  {
    DivDiv(k, w, 2);
  }

  lemma LoopNone(k: nat, x1: int, s: State)
    ensures EagerLoop(k, x1, 0, s) == s
  {}

  lemma LadderNext(h: nat, n: nat, x1: int)
    requires n > 0
    ensures Ladder(h, n, x1) == CSwap(h % 2, Step(CSwap(h % 2, Ladder(h / 2, n - 1, x1)), x1))
  {
    hide Step;
  }

  lemma LoopNext(k: nat, x1: int, n: nat, s: State)
    requires n > 0
    ensures Pow(2, n - 1) > 0
    ensures var b := (k / Pow(2, n - 1)) % 2;
            EagerLoop(k, x1, n, s) == EagerLoop(k, x1, n - 1, CSwap(b, Step(CSwap(b, s), x1)))
  {
    hide Step, Pow;
  }

  /** Points m P of a point P, for every integer m: m + n has the sum of those at m and n, and -m the mirror image. */
  ghost predicate Multiples(points: int -> Affine, p: int)
    requires p > 2
  {
    && points(0) == Zero
    && (forall m: int :: OnMontgomery(points(m), p) && points(0 - m) == Minus(points(m), p))
    && (forall m: int, n: int :: points(m + n) == Plus(points(m), points(n), p))
  }

  ghost predicate ShowsBoth(s: State, a: Affine, c: Affine, p: int)
    requires p > 0
  {
    Shows(s.x2, s.z2, a, p) && Shows(s.x3, s.z3, c, p)
  }

  /** The abscissa of the base point is that of its mirror image. */
  lemma Base(points: int -> Affine, m: int, p: int)
    requires p > 2 && Multiples(points, p) && points(1).At?
    ensures Plus(points(m + 1), Minus(points(m), p), p) == points(1)
    ensures var q := Plus(points(m), Minus(points(m + 1), p), p); q.At? && q.x == points(1).x
    ensures Plus(points(m), points(m), p) == points(2 * m)
    ensures Plus(points(m), points(m + 1), p) == Plus(points(m + 1), points(m), p) == points(2 * m + 1)
  {
    hide Plus, OnMontgomery;
    assert points((m + 1) + (0 - m)) == Plus(points(m + 1), points(0 - m), p);
    assert points(m + (0 - (m + 1))) == Plus(points(m), points(0 - (m + 1)), p);
    assert points(0 - 1) == Minus(points(1), p);
    assert points(m + m) == Plus(points(m), points(m), p);
    assert points(m + (m + 1)) == Plus(points(m), points(m + 1), p);
    assert points((m + 1) + m) == Plus(points(m + 1), points(m), p);
  }

  /** One step takes the abscissas of two points to those of the double of the first and of the sum. */
  lemma StepShows(s: State, u: int, a: Affine, c: Affine)
    requires Fermat.IsPrime(Prime()) && OnMontgomery(a, Prime()) && OnMontgomery(c, Prime())
    requires ShowsBoth(s, a, c, Prime()) && u % Prime() != 0
    requires var d := Plus(c, Minus(a, Prime()), Prime()); d.At? && d.x == u
    ensures ShowsBoth(Step(s, u), Plus(a, a, Prime()), Plus(a, c, Prime()), Prime())
  {
    hide Fermat.IsPrime, Prime, Cong, Shows, Plus, Sq, Step, OnMontgomery;
    var t := Step(s, u);
    StepIs(s, u);
    DoubleShows(s.x2, s.z2, t.x2, t.z2, a, Prime());
    AddShows(s.x2, s.z2, s.x3, s.z3, t.x3, t.z3, a, c, u, Prime());
  }

  lemma StartShows(points: int -> Affine)
    requires Multiples(points, Prime()) && points(1).At?
    ensures ShowsBoth(Start(points(1).x), points(0), points(1), Prime())
  {
    hide Prime, Cong;
    SmallNonZero(1, Prime());
    ZeroCong(0, Prime());
    CongMultiple(points(1).x, points(1).x, 0, Prime());
  }

  lemma {:induction false} LadderShows(points: int -> Affine, k: nat, n: nat)
    requires Fermat.IsPrime(Prime()) && Multiples(points, Prime())
    requires points(1).At? && points(1).x % Prime() != 0 && k < Pow(2, n)
    ensures ShowsBoth(Ladder(k, n, points(1).x), points(k), points(k + 1), Prime())
    decreases n
  {
    hide Fermat.IsPrime, Prime, Multiples, Shows, ShowsBoth, Plus, Step, Start, Ladder, OnMontgomery, Pow;
    var u := points(1).x;
    if n == 0 {
      ValNil(2);
      StartShows(points);
      LadderStart(k, u);
    } else {
      var h := k / 2;
      PowNext(2, n - 1);
      LadderShows(points, h, n - 1);
      LadderNext(k, n, u);
      AreOn(points, h);
      AreOn(points, h + 1);
      Base(points, h, Prime());
      var s := Ladder(h, n - 1, u);
      if k % 2 == 0 {
        StepShows(s, u, points(h), points(h + 1));
      } else {
        Swapped(s, points(h), points(h + 1));
        StepShows(CSwap(1, s), u, points(h + 1), points(h));
        Base(points, h + 1, Prime());
        Swapped(Step(CSwap(1, s), u), points(2 * h + 2), points(2 * h + 1));
      }
    }
  }

  lemma LadderStart(k: nat, x1: int)
    ensures Ladder(k, 0, x1) == Start(x1)
  {}

  lemma AreOn(points: int -> Affine, m: int)
    requires Multiples(points, Prime())
    ensures OnMontgomery(points(m), Prime())
  {
    hide Prime, OnMontgomery;
  }

  lemma Swapped(s: State, a: Affine, c: Affine)
    requires ShowsBoth(s, a, c, Prime())
    ensures ShowsBoth(CSwap(1, s), c, a, Prime())
  {
    hide Prime, Shows;
  }

  /** The affine x-coordinate, and 0 for infinity. */
  ghost function Abscissa(a: Affine): int {
    if a.At? then a.x else 0
  }

  /** x / z is the abscissa. */
  lemma QuotientShows(x: int, z: int, a: Affine)
    requires Fermat.IsPrime(Prime()) && Shows(x, z, a, Prime()) && Within(a, Prime()) && 0 <= z
    ensures FMul(x, FPow(z, Prime() - 2)) == Abscissa(a)
  {
    hide Fermat.IsPrime, Prime, Cong, Pow;
    var p := Prime();
    var i := FPow(z, p - 2);
    Fermat.Inverse(z, p);
    if a.Zero? {
      PowerOfZero(z, p);
      MultipleOfZero(x, i, p);
    } else {
      Times(i, x, a.x * z, p);
      CongMod(z * i, p);
      SmallResidue(p);
      CongTrans(z * i, z * i % p, z * i % p, p);
      OneTimes(x, z, i, a.x, p);
    }
  }

  lemma SmallResidue(p: int)
    requires p > 2
    ensures 1 % p == 1
  {
    DivModUnique(1, 0, 1, p);
  }

  lemma PowerOfZero(z: int, p: int)
    requires p > 2 && z % p == 0
    ensures (Pow(z, p - 2) % p) % p == 0
  {
    hide Pow;
    PowNext(z, p - 3);
    MultipleOfZero(Pow(z, p - 3), z, p);
    assert Pow(z, p - 3) * z == z * Pow(z, p - 3);
    DivModUnique(0, 0, 0, p);
  }

  lemma OneTimes(x: int, z: int, i: int, a: int, p: int)
    requires p > 2 && Cong(x * i, a * z * i, p) && (z * i) % p == 1 && 0 <= a < p
    ensures (x * i) % p == a
  {
    hide Cong;
    SmallResidue(p);
    OneCong(z * i, p);
    Times(a, z * i, 1, p);
    assert a * z * i == a * (z * i);
    CongTrans(x * i, a * (z * i), a * 1, p);
    ResidueOf(x * i, a, p);
  }

  lemma OneCong(a: int, p: int)
    requires p > 2 && a % p == 1
    ensures Cong(a, 1, p)
  {
    SmallResidue(p);
  }

  lemma ResidueOf(a: int, b: int, p: int)
    requires p > 0 && Cong(a, b, p) && 0 <= b < p
    ensures a % p == b
  {
    DivModUnique(b, 0, b, p);
  }

  // The point of order 2, whose x-coordinate is 0.

  ghost predicate Vanishing(s: State, p: int)
    requires p > 0
  {
    (s.x2 % p == 0 || s.z2 % p == 0) && (s.x3 % p == 0 || s.z3 % p == 0)
  }

  lemma StepVanishes(s: State, x1: int)
    requires x1 % Prime() == 0 && Vanishing(s, Prime())
    ensures var t := Step(s, x1); t.z2 % Prime() == 0 && t.z3 % Prime() == 0
  {
    hide Prime, Cong, Step, Sq;
    var t, p := Step(s, x1), Prime();
    var c, d := Sq(s.x2) + 486662 * (s.x2 * s.z2) + Sq(s.z2), Sq(s.x2 * s.z3 - s.z2 * s.x3);
    StepIs(s, x1);
    if s.x2 % p == 0 {
      MultipleOfZero(s.z2, s.x2, p);
      assert s.z2 * s.x2 == s.x2 * s.z2;
    } else {
      MultipleOfZero(s.x2, s.z2, p);
    }
    MultipleOfZero(4, s.x2 * s.z2, p);
    MultipleOfZero(c, 4 * (s.x2 * s.z2), p);
    assert c * (4 * (s.x2 * s.z2)) == 4 * (s.x2 * s.z2) * c;
    SameResidue(t.z2, 4 * (s.x2 * s.z2) * c, p);
    MultipleOfZero(d, x1, p);
    assert d * x1 == x1 * d;
    MultipleOfZero(4, x1 * d, p);
    SameResidue(t.z3, 4 * (x1 * d), p);
  }

  lemma {:induction false} LadderVanishes(k: nat, n: nat, x1: int)
    requires x1 % Prime() == 0
    ensures var s := Ladder(k, n, x1); Vanishing(s, Prime()) && (n > 0 ==> s.z2 % Prime() == 0)
    decreases n
  {
    hide Prime, Step, Ladder;
    if n == 0 {
      LadderStart(k, x1);
      ZeroIsZero(Prime());
    } else {
      LadderNext(k, n, x1);
      LadderVanishes(k / 2, n - 1, x1);
      StepVanishes(CSwap(k % 2, Ladder(k / 2, n - 1, x1)), x1);
    }
  }

  lemma ZeroIsZero(p: int)
    requires p > 0
    ensures 0 % p == 0
  {
    DivModUnique(0, 0, 0, p);
  }

  /** Its multiples are itself and infinity. */
  lemma {:induction false} AxisMultiples(points: int -> Affine, k: nat, p: int)
    requires p > 2 && Fermat.IsPrime(p) && Multiples(points, p) && points(1).At? && points(1).x == 0
    ensures points(k) == Zero || points(k) == At(0, 0)
  {
    hide Fermat.IsPrime;
    var y := points(1).y;
    assert OnMontgomery(points(1), p);
    ZeroIsZero(p);
    assert Cubic(0) == 0;
    NonZero(y, y, p);
    CongSmallZero(y, p);
    if k > 0 {
      AxisMultiples(points, k - 1, p);
      assert points((k - 1) + 1) == Plus(points(k - 1), points(1), p);
    }
  }

  // ----- the function

  /** The deferred swaps and the order of the loop leave the quotient of the ladder. */
  lemma AsLadder(k: nat, u: int)
    requires k < Pow(2, 255)
    ensures var s := Ladder(k, 255, u % Prime());
            s.z2 >= 0 && Rfc7748.X25519(k, u) == FMul(s.x2, FPow(s.z2, Prime() - 2))
  {
    hide Prime, Step, Ladder, EagerLoop, RfcLoop, Pow, FMul, FPow;
    var x1 := u % Prime();
    DivModUnique(k, 0, k, Pow(2, 255));
    LoopIsLadder(k, x1, 255, 0);
    LadderStart(0, x1);
    DeferredSwap(k, x1, 255, Start(x1), 0);
    LadderRange(k, 255, x1);
  }

  /** On the axis the result is 0, whatever the scalar. */
  lemma AxisIsZero(k: nat, u: int)
    requires k < Pow(2, 255) && u % Prime() == 0
    ensures Rfc7748.X25519(k, u) == 0
  {
    hide Prime, Ladder, Pow, FMul, FPow;
    var s := Ladder(k, 255, u % Prime());
    AsLadder(k, u);
    Unreduced(u);
    LadderVanishes(k, 255, u % Prime());
    OverZero(s.x2, s.z2);
  }

  lemma OverZero(x: int, z: int)
    requires z >= 0 && z % Prime() == 0
    ensures FMul(x, FPow(z, Prime() - 2)) == 0
  {
    hide Prime, Pow;
    PowerOfZero(z, Prime());
    MultipleOfZero(x, FPow(z, Prime() - 2), Prime());
  }

  /**
   X25519(k, u) is the x-coordinate of k P for every point P of the curve with the x-coordinate u, whose multiples obey
   the chord-and-tangent law; 0 stands for infinity.
   */
  lemma LadderIsMultiple(points: int -> Affine, k: nat, u: int)
    requires Fermat.IsPrime(Prime()) && Multiples(points, Prime()) && k < Pow(2, 255)
    requires points(1).At? && points(1).x == u % Prime()
    ensures Rfc7748.X25519(k, u) == Abscissa(points(k))
  {
    hide Fermat.IsPrime, Prime, Multiples, Shows, OnMontgomery, Step, Ladder, Pow, FMul, FPow;
    if u % Prime() == 0 {
      AxisIsZero(k, u);
      AxisMultiples(points, k, Prime());
    } else {
      AsLadder(k, u);
      Unreduced(u);
      LadderShows(points, k, 255);
      AreOn(points, k);
      OnWithin(points(k));
      var s := Ladder(k, 255, u % Prime());
      QuotientShows(s.x2, s.z2, points(k));
    }
  }

  lemma Unreduced(u: int)
    ensures (u % Prime()) % Prime() == u % Prime()
  {
    hide Prime;
    DivModUnique(u % Prime(), 0, u % Prime(), Prime());
  }

  lemma OnWithin(a: Affine)
    requires OnMontgomery(a, Prime())
    ensures Within(a, Prime())
  {
    hide Prime;
  }

  lemma LadderRange(k: nat, n: nat, x1: int)
    requires x1 >= 0
    ensures Ladder(k, n, x1).z2 >= 0 && Ladder(k, n, x1).z3 >= 0
  {
    hide Prime;
    if n > 0 {
      var s := CSwap(k % 2, Ladder(k / 2, n - 1, x1));
      assert Step(s, x1).z2 >= 0 && Step(s, x1).z3 >= 0;
    }
  }

  /** A decoded scalar has bit 254 as its highest, and is a multiple of 8. */
  lemma ScalarRange(k: seq<int>)
    requires |k| == 32
    ensures Pow(2, 254) <= DecodeScalar(k) < Pow(2, 255) && DecodeScalar(k) % 8 == 0
  {
    hide Pow, Val;
    PowNext(2, 254);
    PowAdd(2, 3, 251);
    SmallPowers();
    var h, v := Pow(2, 251), Val(256, k) % Pow(2, 254);
    assert DecodeScalar(k) == 8 * (h + v / 8) + 0;
    DivModUnique(DecodeScalar(k), h + v / 8, 0, 8);
  }
}
