/**
 The chord-and-tangent law on affine points with a point at infinity, modulo a prime, and that the Jacobian operations
 compute it in every branch. The law itself names no formula of the program.
 */
module CurveGroup {
  import opened Radix
  import opened Curve
  import Fermat

  /** Residues below p, or the point at infinity. */
  datatype Affine = Zero | At(x: int, y: int)

  ghost function Inv(a: int, p: int): int
    requires p > 2
  {
    Pow(a % p, p - 2) % p
  }

  ghost function Quotient(n: int, d: int, p: int): int
    requires p > 2
  {
    n * Inv(d, p)
  }

  /** The third point on the line of a slope through (x, y) and a point with abscissa x', mirrored. */
  ghost function Third(slope: int, x: int, y: int, x': int, p: int): Affine
    requires p > 0
  {
    var u := (slope * slope - x - x') % p;
    At(u, (slope * (x - u) - y) % p)
  }

  /** The sum of two points of y^2 = x^3 - 3x + b. */
  ghost function Sum(a: Affine, b: Affine, p: int): Affine
    requires p > 2
  {
    if a.Zero? then b
    else if b.Zero? then a
    else if a.x != b.x then Third(Quotient(b.y - a.y, b.x - a.x, p), a.x, a.y, b.x, p)
    else if (a.y + b.y) % p == 0 then Zero
    else Third(Quotient(3 * (a.x * a.x) - 3, 2 * a.y, p), a.x, a.y, a.x, p)
  }

  ghost predicate Within(a: Affine, p: int) {
    a.At? ==> 0 <= a.x < p && 0 <= a.y < p
  }

  /** The Jacobian point stands for the affine one. */
  ghost predicate Stands(q: Point, a: Affine, p: int)
    requires p > 0
  {
    && Within(a, p) && (a.Zero? <==> q.z % p == 0)
    && (a.At? ==> Cong(q.x, a.x * (q.z * q.z), p) && Cong(q.y, a.y * Cube(q.z), p))
  }

  ghost predicate Reduced(q: Point, p: int) {
    0 <= q.x < p && 0 <= q.y < p && 0 <= q.z < p
  }

  // ----- arithmetic modulo a prime

  lemma {:induction false} InvIs(a: int, p: int)
    requires p > 2 && Fermat.IsPrime(p) && a % p != 0
    ensures Cong(a * Inv(a, p), 1, p)
  {
    hide Pow, Fermat.IsPrime;
    QuotientAndRest(a, p);
    CongMod(a, p);
    CongSmall(a % p, a % p % p, p);
    Fermat.Inverse(a % p, p);
    var i := Inv(a, p);
    ModMul(a, i, p);
    DivModUnique(1, 0, 1, p);
  }

  lemma QuotientIs(n: int, d: int, p: int)
    requires p > 2 && Fermat.IsPrime(p) && d % p != 0
    ensures Cong(Quotient(n, d, p) * d, n, p)
  {
    hide Fermat.IsPrime, Inv, Cong;
    InvIs(d, p);
    var i := Inv(d, p);
    CongMultiple(n, n, 0, p);
    CongMul(n, n, d * i, 1, p);
    assert n * (d * i) == n * i * d;
  }

  lemma Divides(a: int, b: int, p: int)
    requires p > 0 && Cong(a, b, p)
    ensures (a - b) % p == 0
  {
    var k := CongWitness(a, b, p);
    DivModUnique(a - b, k, 0, p);
  }

  lemma Congruent(a: int, b: int, p: int)
    requires p > 0 && (a - b) % p == 0
    ensures Cong(a, b, p)
  {
    var k := (a - b) / p;
    assert a - b == p * k;
    CongMultiple(a, b, k, p);
  }

  /** A factor that the prime does not divide can be cancelled. */
  lemma Cancel(k: int, a: int, b: int, p: int)
    requires p > 2 && Fermat.IsPrime(p) && k % p != 0 && Cong(k * a, k * b, p)
    ensures Cong(a, b, p)
  {
    hide Fermat.IsPrime, Cong;
    Divides(k * a, k * b, p);
    assert k * a - k * b == k * (a - b);
    Fermat.Euclid(k, a - b, p);
    Congruent(a, b, p);
  }

  lemma NonZero(a: int, b: int, p: int)
    requires p > 2 && Fermat.IsPrime(p)
    ensures (a * b) % p != 0 <==> a % p != 0 && b % p != 0
  {
    if (a * b) % p == 0 {
      Fermat.Euclid(a, b, p);
    }
    if a % p == 0 {
      MultipleOfDefect(b, a, p);
    }
    if b % p == 0 {
      MultipleOfDefect(a, b, p);
    }
  }

  lemma TwoNonZero(p: int)
    requires p > 2
    ensures 2 % p != 0
  {
    DivModUnique(2, 0, 2, p);
  }

  lemma SameResidue(a: int, b: int, p: int)
    requires p > 0 && Cong(a, b, p)
    ensures a % p == 0 <==> b % p == 0
  {}

  lemma Times(c: int, a: int, b: int, p: int)
    requires p > 0 && Cong(a, b, p)
    ensures Cong(c * a, c * b, p) && Cong(a * c, b * c, p)
  {
    hide Cong;
    CongMultiple(c, c, 0, p);
    CongMul(c, c, a, b, p);
    CongMul(a, b, c, c, p);
  }

  // ----- the third point

  /** The abscissa: cancel d^2 w^2 from the rule with denominators cleared. */
  lemma ThirdX(n: int, d: int, u1: int, u2: int, w: int, x: int, z: int, l: int, a: int, b: int, p: int)
    requires p > 2 && Fermat.IsPrime(p) && d % p != 0 && w % p != 0
    requires x * (d * d) * (w * w) == (z * z) * ((n * n) * (w * w) - (d * d) * (u1 + u2))
    requires Cong(n, l * d, p) && Cong(u1, a * (w * w), p) && Cong(u2, b * (w * w), p)
    ensures Cong(x, (l * l - a - b) * (z * z), p)
  {
    hide Fermat.IsPrime, Cong;
    var D, W, c := d * d, w * w, l * l - a - b;
    CongMul(n, l * d, n, l * d, p);
    SquareOfProduct(l, d);
    Times(W, n * n, (l * l) * D, p);
    CongAdd(u1, a * W, u2, b * W, p);
    Times(D, u1 + u2, a * W + b * W, p);
    CongSub((n * n) * W, (l * l) * D * W, D * (u1 + u2), D * (a * W + b * W), p);
    Times(z * z, (n * n) * W - D * (u1 + u2), (l * l) * D * W - D * (a * W + b * W), p);
    XCollect(l * l, D, W, a, b, z * z, x);
    NonZero(d, d, p);
    NonZero(w, w, p);
    NonZero(D, W, p);
    Cancel(D * W, x, c * (z * z), p);
  }

  lemma SquareOfProduct(l: int, d: int)
    ensures (l * d) * (l * d) == (l * l) * (d * d)
  {
    AlignDenominator(l, d);
  }

  lemma XCollect(ll: int, D: int, W: int, a: int, b: int, zz: int, x: int)
    ensures zz * (ll * D * W - D * (a * W + b * W)) == (D * W) * ((ll - a - b) * zz)
    ensures x * D * W == (D * W) * x
  {
    assert D * (a * W + b * W) == (D * W) * (a + b);
    assert ll * D * W == (D * W) * ll;
    assert (D * W) * ll - (D * W) * (a + b) == (D * W) * (ll - a - b);
    assert zz * ((D * W) * (ll - a - b)) == (D * W) * ((ll - a - b) * zz);
  }

  /** The ordinate: cancel d w^3. */
  lemma ThirdY(n: int, d: int, u1: int, s1: int, w: int, x: int, y: int, z: int, l: int, a: int, e: int, c: int, p: int)
    requires p > 2 && Fermat.IsPrime(p) && d % p != 0 && w % p != 0
    requires y * d * (w * w * w) == n * (u1 * w * Cube(z) - x * z * (w * w * w)) - s1 * d * Cube(z)
    requires Cong(n, l * d, p) && Cong(u1, a * (w * w), p) && Cong(s1, e * (w * w * w), p)
    requires Cong(x, c * (z * z), p)
    ensures Cong(y, (l * (a - c) - e) * Cube(z), p)
  {
    hide Fermat.IsPrime, Cong, Cube;
    var V, Z := w * w * w, Cube(z);
    CubeIs(z);
    Times(w, u1, a * (w * w), p);
    MulAssoc(a, w * w, w);
    Times(Z, u1 * w, a * V, p);
    Times(z, x, c * (z * z), p);
    MulAssoc(c, z * z, z);
    Times(V, x * z, c * Z, p);
    CongSub(u1 * w * Z, a * V * Z, x * z * V, c * Z * V, p);
    CongMul(n, l * d, u1 * w * Z - x * z * V, a * V * Z - c * Z * V, p);
    Times(d, s1, e * V, p);
    Times(Z, s1 * d, e * V * d, p);
    CongSub(n * (u1 * w * Z - x * z * V), (l * d) * (a * V * Z - c * Z * V), s1 * d * Z, e * V * d * Z, p);
    YCollect(l, d, a, V, Z, c, e, y);
    NonZero(w, w, p);
    NonZero(w * w, w, p);
    NonZero(d, V, p);
    Cancel(d * V, y, (l * (a - c) - e) * Z, p);
  }

  lemma YCollect(l: int, d: int, a: int, V: int, Z: int, c: int, e: int, y: int)
    ensures (l * d) * (a * V * Z - c * Z * V) - e * V * d * Z == (d * V) * ((l * (a - c) - e) * Z)
    ensures y * d * V == (d * V) * y
  {
    var k := V * Z;
    assert a * V * Z - c * Z * V == (a - c) * k;
    assert (l * d) * ((a - c) * k) == (d * k) * (l * (a - c));
    assert e * V * d * Z == (d * k) * e;
    assert (d * V) * ((l * (a - c) - e) * Z) == (d * k) * (l * (a - c) - e);
    assert (d * k) * (l * (a - c)) - (d * k) * e == (d * k) * (l * (a - c) - e);
  }

  /** Both together: a point that obeys the rule stands for the third point. */
  lemma ThirdStands(n: int, d: int, u1: int, u2: int, s1: int, w: int, r: Point, l: int, a: Affine, b: int, p: int)
    requires p > 2 && Fermat.IsPrime(p) && a.At? && d % p != 0 && w % p != 0 && r.z % p != 0
    requires ThirdPoint(n, d, u1, u2, s1, w, r)
    requires Cong(n, l * d, p) && Cong(u1, a.x * (w * w), p) && Cong(u2, b * (w * w), p)
    requires Cong(s1, a.y * (w * w * w), p)
    ensures Stands(r, Third(l, a.x, a.y, b, p), p)
  {
    hide Fermat.IsPrime, Cong, Cube;
    var c := (l * l - a.x - b) % p;
    ThirdX(n, d, u1, u2, w, r.x, r.z, l, a.x, b, p);
    CongMod(l * l - a.x - b, p);
    Times(r.z * r.z, c, l * l - a.x - b, p);
    CongBack(r.x, (l * l - a.x - b) * (r.z * r.z), c * (r.z * r.z), p);
    ThirdY(n, d, u1, s1, w, r.x, r.y, r.z, l, a.x, a.y, c, p);
    var f := l * (a.x - c) - a.y;
    CongMod(f, p);
    Times(Cube(r.z), f % p, f, p);
    CongBack(r.y, f * Cube(r.z), (f % p) * Cube(r.z), p);
  }

  lemma CongBack(a: int, b: int, c: int, p: int)
    requires p > 0 && Cong(a, b, p) && Cong(c, b, p)
    ensures Cong(a, c, p)
  {}

  // ----- the operations

  lemma ReduceStands(q: Point, a: Affine, p: int)
    requires p > 0 && Stands(q, a, p)
    ensures Stands(Reduce(q, p), a, p)
  {
    hide Cong, Cube;
    var r := Reduce(q, p);
    CongMod(q.x, p);
    CongMod(q.y, p);
    CongMod(q.z, p);
    SameResidue(r.z, q.z, p);
    if a.At? {
      CongMul(r.z, q.z, r.z, q.z, p);
      CongMul(r.z * r.z, q.z * q.z, r.z, q.z, p);
      CubeIs(r.z);
      CubeIs(q.z);
      Times(a.x, r.z * r.z, q.z * q.z, p);
      Times(a.y, Cube(r.z), Cube(q.z), p);
      CongTrans(r.x, q.x, a.x * (q.z * q.z), p);
      CongBack(r.x, a.x * (q.z * q.z), a.x * (r.z * r.z), p);
      CongTrans(r.y, q.y, a.y * Cube(q.z), p);
      CongBack(r.y, a.y * Cube(q.z), a.y * Cube(r.z), p);
    }
  }

  /** Doubling a point that stands for an affine one. */
  lemma DoubleStands(q: Point, a: Affine, p: int)
    requires p > 2 && Fermat.IsPrime(p) && Stands(q, a, p) && 0 <= q.z < p
    ensures Stands(Double(q, p), Sum(a, a, p), p)
  {
    hide Fermat.IsPrime, Cong, Cube, DoubleFormula, ThirdPoint, Third, Quotient;
    CongSmallZero(q.z, p);
    if a.At? {
      var w, f := q.z, DoubleFormula(q);
      DoubleIsTangent(q);
      TwoNonZero(p);
      NonZero(q.y, w, p);
      NonZero(2, q.y * w, p);
      OrdinateZero(q, a, p);
      if a.y == 0 {
        CongSmallZero(0, p);
      } else {
        CongSmallZero(a.y, p);
        NonZero(2, a.y, p);
        var l := Quotient(3 * (a.x * a.x) - 3, 2 * a.y, p);
        TangentSlope(q, a, l, p);
        TangentOrdinate(q, a, p);
        ThirdStands(3 * (q.x * q.x - (w * w) * (w * w)), f.z, q.x, q.x, q.y, w, f, l, a, a.x, p);
      }
      ReduceStands(f, Sum(a, a, p), p);
    }
  }

  lemma CongSmallZero(a: int, p: int)
    requires p > 0 && 0 <= a < p
    ensures a % p == a
  {
    DivModUnique(a, 0, a, p);
  }

  /** On the axis exactly where the affine point is. */
  lemma OrdinateZero(q: Point, a: Affine, p: int)
    requires p > 2 && Fermat.IsPrime(p) && Stands(q, a, p) && a.At?
    ensures q.y % p == 0 <==> a.y == 0
  {
    hide Fermat.IsPrime, Cong, Cube;
    SameResidue(q.y, a.y * Cube(q.z), p);
    CubeIs(q.z);
    NonZero(q.z, q.z, p);
    NonZero(q.z * q.z, q.z, p);
    NonZero(a.y, Cube(q.z), p);
    CongSmallZero(a.y, p);
  }

  lemma TangentOrdinate(q: Point, a: Affine, p: int)
    requires p > 2 && Stands(q, a, p) && a.At?
    ensures Cong(q.y, a.y * (q.z * q.z * q.z), p)
  {
    CubeIs(q.z);
  }

  /** The tangent's slope: 3(x^2 - z^4) over 2yz is (3x^2 - 3) over 2y. */
  lemma TangentSlope(q: Point, a: Affine, l: int, p: int)
    requires p > 2 && Fermat.IsPrime(p) && Stands(q, a, p) && a.At? && (2 * a.y) % p != 0
    requires l == Quotient(3 * (a.x * a.x) - 3, 2 * a.y, p)
    ensures Cong(3 * (q.x * q.x - (q.z * q.z) * (q.z * q.z)), l * (2 * (q.y * q.z)), p)
  {
    hide Fermat.IsPrime, Cong, Cube, Quotient;
    var w := q.z;
    var W := w * w;
    var n, d := 3 * (a.x * a.x) - 3, 2 * a.y;
    QuotientIs(n, d, p);
    CubeIs(w);
    CongMul(q.x, a.x * W, q.x, a.x * W, p);
    CongMultiple(W * W, W * W, 0, p);
    CongSub(q.x * q.x, (a.x * W) * (a.x * W), W * W, W * W, p);
    Times(3, q.x * q.x - W * W, (a.x * W) * (a.x * W) - W * W, p);
    Times(w, q.y, a.y * Cube(w), p);
    Times(2, q.y * w, a.y * Cube(w) * w, p);
    Times(l, 2 * (q.y * w), 2 * (a.y * Cube(w) * w), p);
    Times(W * W, l * d, n, p);
    TangentTerms(a.x, a.y, w, W, l);
    CongTrans(l * (2 * (q.y * w)), l * d * (W * W), n * (W * W), p);
    CongBack(3 * (q.x * q.x - W * W), n * (W * W), l * (2 * (q.y * w)), p);
  }

  lemma TangentTerms(x: int, y: int, w: int, W: int, l: int)
    requires W == w * w
    ensures 3 * ((x * W) * (x * W) - W * W) == (3 * (x * x) - 3) * (W * W)
    ensures l * (2 * (y * Cube(w) * w)) == l * (2 * y) * (W * W)
  {
    assert (x * W) * (x * W) == (x * x) * (W * W);
    assert Cube(w) * w == W * W;
    assert y * Cube(w) * w == y * (W * W);
  }

  // Both points at the common denominator.

  lemma AlignStands(x: int, y: int, z: int, o: int, a: Affine, p: int)
    requires p > 0 && a.At? && Cong(x, a.x * (z * z), p) && Cong(y, a.y * Cube(z), p)
    ensures var w := z * o;
            Cong(x * (o * o), a.x * (w * w), p) && Cong(y * o * (o * o), a.y * (w * w * w), p)
  {
    hide Cong, Cube;
    Times(o * o, x, a.x * (z * z), p);
    Times(o, y, a.y * Cube(z), p);
    Times(o * o, y * o, a.y * Cube(z) * o, p);
    AlignTerms3(a.x, a.y, z, o);
  }

  lemma AlignTerms3(x: int, y: int, z: int, o: int)
    ensures x * (z * z) * (o * o) == x * ((z * o) * (z * o))
    ensures y * Cube(z) * o * (o * o) == y * ((z * o) * (z * o) * (z * o))
  {
    AlignDenominator(z, o);
    CubeOfProduct(z, o);
    assert Cube(o) == o * (o * o);
    assert y * Cube(z) * o * (o * o) == y * (Cube(z) * Cube(o));
  }

  /** The aligned coordinates differ exactly where the affine ones do. */
  lemma Differ(u: int, v: int, a: int, b: int, k: int, p: int)
    requires p > 2 && Fermat.IsPrime(p) && k % p != 0 && 0 <= a < p && 0 <= b < p
    requires Cong(u, a * k, p) && Cong(v, b * k, p)
    ensures (v - u) % p == 0 <==> a == b
    ensures Cong(v - u, (b - a) * k, p)
  {
    hide Fermat.IsPrime, Cong;
    CongSub(v, b * k, u, a * k, p);
    assert b * k - a * k == (b - a) * k;
    SameResidue(v - u, (b - a) * k, p);
    NonZero(b - a, k, p);
    SmallDifference(a, b, p);
  }

  lemma SmallDifference(a: int, b: int, p: int)
    requires p > 0 && 0 <= a < p && 0 <= b < p
    ensures (b - a) % p == 0 <==> a == b
  {
    if b > a {
      DivModUnique(b - a, 0, b - a, p);
    } else if a > b {
      DivModUnique(b - a, -1, b - a + p, p);
    }
  }

  /** The chord's slope. */
  lemma ChordSlope(n: int, h: int, w: int, e: int, f: int, l: int, p: int)
    requires p > 2 && Fermat.IsPrime(p) && f % p != 0 && l == Quotient(e, f, p)
    requires Cong(n, e * (w * w * w), p) && Cong(h, f * (w * w), p)
    ensures Cong(n, l * (w * h), p)
  {
    hide Fermat.IsPrime, Cong, Quotient;
    QuotientIs(e, f, p);
    var V := w * w * w;
    Times(V, l * f, e, p);
    Times(w, h, f * (w * w), p);
    Times(l, w * h, w * (f * (w * w)), p);
    assert w * (f * (w * w)) == f * V && l * (f * V) == l * f * V;
    CongTrans(l * (w * h), l * f * V, e * V, p);
    CongBack(n, e * V, l * (w * h), p);
  }

  /** Two points of the curve with one abscissa are equal or opposite. */
  lemma Opposite(q: Point, r: Point, a: Affine, c: Affine, b: int, p: int)
    requires p > 2 && Fermat.IsPrime(p) && Stands(q, a, p) && Stands(r, c, p) && a.At? && c.At?
    requires OnCurve(q, b, p) && OnCurve(r, b, p) && a.x == c.x && a.y != c.y
    ensures (a.y + c.y) % p == 0
  {
    hide Fermat.IsPrime, Cong, Cube, Defect, CommonDefect;
    var w := q.z * r.z;
    var g := Align(q, r);
    var w4 := (w * w) * (w * w);
    var d := b * (w4 * (w * w));
    AlignDefect(q.x, q.y, q.z, r.z, b);
    AlignDefect(r.x, r.y, r.z, q.z, b);
    assert r.z * q.z == w;
    MultipleOfDefect(Cube(r.z * r.z), Defect(q, b), p);
    MultipleOfDefect(Cube(q.z * q.z), Defect(r, b), p);
    AlignStands(q.x, q.y, q.z, r.z, a, p);
    AlignStands(r.x, r.y, r.z, q.z, c, p);
    NonZero(q.z, r.z, p);
    NonZero(w, w, p);
    NonZero(w * w, w, p);
    Differ(g.u1, g.u2, a.x, c.x, w * w, p);
    Differ(g.s1, g.s2, a.y, c.y, w * w * w, p);
    SquaresAgree(g.u1, g.s1, g.u2, g.s2, -3 * w4, d, p);
    Fermat.Euclid(g.s2 - g.s1, g.s2 + g.s1, p);
    CongAdd(g.s2, c.y * (w * w * w), g.s1, a.y * (w * w * w), p);
    assert c.y * (w * w * w) + a.y * (w * w * w) == (a.y + c.y) * (w * w * w);
    SameResidue(g.s2 + g.s1, (a.y + c.y) * (w * w * w), p);
    NonZero(a.y + c.y, w * w * w, p);
  }

  lemma SquaresAgree(u: int, s: int, v: int, t: int, c: int, d: int, p: int)
    requires p > 0 && CommonDefect(u, s, c, d) % p == 0 && CommonDefect(v, t, c, d) % p == 0 && (v - u) % p == 0
    ensures ((t - s) * (t + s)) % p == 0
  {
    hide Cong, CommonDefect;
    Congruent(v, u, p);
    CongMul(v, u, v, u, p);
    CongMul(v * v, u * u, v, u, p);
    CongMultiple(c, c, 0, p);
    CongMul(c, c, v, u, p);
    CongAdd(v * v * v, u * u * u, c * v, c * u, p);
    var e, f := CommonDefect(u, s, c, d), CommonDefect(v, t, c, d);
    BothZero(e, f, p);
    CongAdd(f, e, v * v * v + c * v, u * u * u + c * u, p);
    DefectSquare(u, s, c, d);
    DefectSquare(v, t, c, d);
    CongMultiple(d, d, 0, p);
    CongAdd(f + (v * v * v + c * v), e + (u * u * u + c * u), d, d, p);
    Divides(t * t, s * s, p);
    assert (t - s) * (t + s) == t * t - s * s;
  }

  lemma BothZero(e: int, f: int, p: int)
    requires p > 0 && e % p == 0 && f % p == 0
    ensures Cong(f, e, p)
  {}

  lemma DefectSquare(u: int, s: int, c: int, d: int)
    ensures s * s == CommonDefect(u, s, c, d) + (u * u * u + c * u) + d
  {}

  /** The addition of the program is the chord-and-tangent sum, in every branch. */
  lemma AddStands(q: Point, r: Point, a: Affine, c: Affine, b: int, p: int)
    requires p > 2 && Fermat.IsPrime(p) && Stands(q, a, p) && Stands(r, c, p)
    requires OnCurve(q, b, p) && OnCurve(r, b, p) && Reduced(q, p) && Reduced(r, p)
    ensures Stands(Add(q, r, p), Sum(a, c, p), p)
  {
    hide Fermat.IsPrime, Cong, Cube, Defect, DoubleFormula, AddFormula, ThirdPoint, Third, Quotient, Double, OnCurve;
    CongSmallZero(q.z, p);
    CongSmallZero(r.z, p);
    if a.At? && c.At? {
      var g := Align(q, r);
      var w := g.w;
      AlignStands(q.x, q.y, q.z, r.z, a, p);
      AlignStands(r.x, r.y, r.z, q.z, c, p);
      assert r.z * q.z == w;
      NonZero(q.z, r.z, p);
      NonZero(w, w, p);
      NonZero(w * w, w, p);
      Differ(g.u1, g.u2, a.x, c.x, w * w, p);
      Differ(g.s1, g.s2, a.y, c.y, w * w * w, p);
      if a.x != c.x {
        AddChordStands(q, r, a, c, p);
      } else if a.y == c.y {
        DoubleStands(q, a, p);
      } else {
        Opposite(q, r, a, c, b, p);
        CongSmallZero(0, p);
      }
    }
  }

  lemma AddChordStands(q: Point, r: Point, a: Affine, c: Affine, p: int)
    requires p > 2 && Fermat.IsPrime(p) && Stands(q, a, p) && Stands(r, c, p) && a.At? && c.At? && a.x != c.x
    ensures Stands(Reduce(AddFormula(Align(q, r)), p), Sum(a, c, p), p)
  {
    hide Fermat.IsPrime, Cong, Cube, AddFormula, ThirdPoint, Third, Quotient;
    var g := Align(q, r);
    var w, h, n := g.w, g.u2 - g.u1, g.s2 - g.s1;
    AlignStands(q.x, q.y, q.z, r.z, a, p);
    AlignStands(r.x, r.y, r.z, q.z, c, p);
    assert r.z * q.z == w;
    NonZero(q.z, r.z, p);
    NonZero(w, w, p);
    NonZero(w * w, w, p);
    Differ(g.u1, g.u2, a.x, c.x, w * w, p);
    Differ(g.s1, g.s2, a.y, c.y, w * w * w, p);
    SmallDifference(a.x, c.x, p);
    var l := Quotient(c.y - a.y, c.x - a.x, p);
    ChordSlope(n, h, w, c.y - a.y, c.x - a.x, l, p);
    AddIsChord(g);
    NonZero(w, h, p);
    TwoNonZero(p);
    NonZero(2, w * h, p);
    ThirdStands(n, w * h, g.u1, g.u2, g.s1, w, AddFormula(g), l, a, c.x, p);
    ReduceStands(AddFormula(g), Sum(a, c, p), p);
  }

  // ----- the laws of the special cases, for any modulus

  /** Infinity is neutral on both sides, and a point added to itself is doubled. */
  lemma AddSpecial(q: Point, r: Point, p: int)
    requires p > 0
    ensures q.z == 0 ==> Add(q, r, p) == r
    ensures r.z == 0 && q.z != 0 ==> Add(q, r, p) == q
    ensures Add(q, q, p) == Double(q, p)
  {
    hide Double, DoubleFormula, AddFormula;
    CongSmallZero(0, p);
    var g := Align(q, q);
    assert g.u2 - g.u1 == 0 && g.s2 - g.s1 == 0;
    if q.z == 0 {
      assert Double(q, p) == q by {
        DoubleInfinity(q, p);
      }
    }
  }

  lemma DoubleInfinity(q: Point, p: int)
    requires p > 0 && q.z == 0
    ensures Double(q, p) == q
  {
    hide DoubleFormula;
  }

  lemma MultiplyOne(q: Point, p: int)
    requires p > 0
    ensures Multiply(0, q, p).z == 0 && Multiply(1, q, p) == q && Multiply(2, q, p) == Double(q, p)
  {
    hide DoubleFormula, AddFormula;
    assert Double(Infinity, p) == Infinity;
    assert Multiply(0, q, p) == Infinity;
    assert Multiply(1, q, p) == Add(Infinity, q, p);
  }

  // ----- opposite points

  /** The point mirrored in the axis. */
  ghost function Mirror(q: Point, p: int): Point
    requires p > 0
  {
    Point(q.x, (0 - q.y) % p, q.z)
  }

  ghost function Opposed(a: Affine, p: int): Affine
    requires p > 0
  {
    if a.Zero? then Zero else At(a.x, (0 - a.y) % p)
  }

  lemma MirrorStands(q: Point, a: Affine, p: int)
    requires p > 0 && Stands(q, a, p)
    ensures Stands(Mirror(q, p), Opposed(a, p), p)
  {
    hide Cong, Cube;
    if a.At? {
      var Z := Cube(q.z);
      CongMod(0 - q.y, p);
      CongMod(0 - a.y, p);
      CongMultiple(0, 0, 0, p);
      CongSub(0, 0, q.y, a.y * Z, p);
      Times(Z, (0 - a.y) % p, 0 - a.y, p);
      assert (0 - a.y) * Z == 0 - a.y * Z;
      CongTrans((0 - q.y) % p, 0 - q.y, 0 - a.y * Z, p);
      CongBack((0 - q.y) % p, 0 - a.y * Z, ((0 - a.y) % p) * Z, p);
    }
  }

  lemma MirrorOnCurve(q: Point, b: int, p: int)
    requires p > 0 && OnCurve(q, b, p)
    ensures OnCurve(Mirror(q, p), b, p)
  {
    hide Cong;
    var m := Point(q.x, 0 - q.y, q.z);
    assert (0 - q.y) * (0 - q.y) == q.y * q.y;
    assert Defect(m, b) == Defect(q, b);
    ReduceOnCurve(m, b, p);
    ReduceOnCurve(Mirror(q, p), b, p);
    ModMod(q, p);
  }

  lemma ModMod(q: Point, p: int)
    requires p > 0
    ensures Reduce(Mirror(q, p), p) == Reduce(Point(q.x, 0 - q.y, q.z), p)
  {
    CongSmallZero((0 - q.y) % p, p);
  }

  lemma OpposedSum(a: Affine, p: int)
    requires p > 2 && Within(a, p)
    ensures Sum(a, Opposed(a, p), p) == Zero
  {
    if a.At? {
      var y := (0 - a.y) % p;
      QuotientAndRest(0 - a.y, p);
      var k := (0 - a.y) / p;
      assert a.y + y == p * (0 - k);
      DivModUnique(a.y + y, 0 - k, 0, p);
    }
  }

  /** A point of the curve and its mirror image add up to infinity. */
  lemma AddMirror(q: Point, b: int, p: int)
    requires p > 2 && Fermat.IsPrime(p) && OnCurve(q, b, p) && Reduced(q, p)
    ensures Add(q, Mirror(q, p), p).z == 0
  {
    hide Fermat.IsPrime, OnCurve, Add, Sum, Cong;
    var a := StandsFor(q, p);
    MirrorStands(q, a, p);
    MirrorOnCurve(q, b, p);
    AddStands(q, Mirror(q, p), a, Opposed(a, p), b, p);
    OpposedSum(a, p);
    AddReduced(q, Mirror(q, p), p);
    CongSmallZero(Add(q, Mirror(q, p), p).z, p);
  }

  // ----- multiples

  lemma DoubleReduced(q: Point, p: int)
    requires p > 0 && Reduced(q, p)
    ensures Reduced(Double(q, p), p)
  {
    hide DoubleFormula;
  }

  lemma AddReduced(q: Point, r: Point, p: int)
    requires p > 0 && Reduced(q, p) && Reduced(r, p)
    ensures Reduced(Add(q, r, p), p)
  {
    hide Double, AddFormula, Align;
    DoubleReduced(q, p);
  }

  lemma {:induction false} MultiplyReduced(k: nat, q: Point, p: int)
    requires p > 0 && Reduced(q, p)
    ensures Reduced(Multiply(k, q, p), p)
  {
    hide Double, Add;
    if k > 0 {
      MultiplyReduced(k / 2, q, p);
      DoubleReduced(Multiply(k / 2, q, p), p);
      AddReduced(Double(Multiply(k / 2, q, p), p), q, p);
    }
  }

  /** Doubling and adding from the top bit, with the chord-and-tangent sum. */
  ghost function Multiple(k: nat, a: Affine, p: int): Affine
    requires p > 2
  {
    if k == 0 then Zero
    else
      var h := Multiple(k / 2, a, p);
      if k % 2 == 1 then Sum(Sum(h, h, p), a, p) else Sum(h, h, p)
  }

  lemma ZeroStands(p: int)
    requires p > 0
    ensures Stands(Infinity, Zero, p)
  {
    CongSmallZero(0, p);
  }

  /** Scalar multiplication computes that multiple. */
  lemma {:induction false} MultiplyStands(k: nat, q: Point, a: Affine, b: int, p: int)
    requires p > 2 && Fermat.IsPrime(p) && Stands(q, a, p) && OnCurve(q, b, p) && Reduced(q, p)
    ensures Stands(Multiply(k, q, p), Multiple(k, a, p), p)
  {
    hide Fermat.IsPrime, Stands, OnCurve, Reduced, Double, Add, Sum;
    if k == 0 {
      ZeroStands(p);
    } else {
      var h := Multiply(k / 2, q, p);
      MultiplyStands(k / 2, q, a, b, p);
      MultiplyReduced(k / 2, q, p);
      MultiplyOnCurve(k / 2, q, b, p);
      DoubleOfReduced(h, Multiple(k / 2, a, p), p);
      DoubleOnCurve(h, b, p);
      DoubleReduced(h, p);
      AddStands(Double(h, p), q, Sum(Multiple(k / 2, a, p), Multiple(k / 2, a, p), p), a, b, p);
    }
  }

  lemma DoubleOfReduced(q: Point, a: Affine, p: int)
    requires p > 2 && Fermat.IsPrime(p) && Stands(q, a, p) && Reduced(q, p)
    ensures Stands(Double(q, p), Sum(a, a, p), p)
  {
    hide Fermat.IsPrime, Stands, Double, Sum;
    DoubleStands(q, a, p);
  }

  /** For any sequence of points in which m + n always has the sum of those at m and n, it is the point at k. */
  lemma {:induction false} MultipleIs(points: nat -> Affine, k: nat, p: int)
    requires p > 2 && points(0) == Zero
    requires forall m: nat, n: nat :: points(m + n) == Sum(points(m), points(n), p)
    ensures Multiple(k, points(1), p) == points(k)
  {
    hide Sum;
    if k > 0 {
      var h := k / 2;
      MultipleIs(points, h, p);
      assert points(h + h) == Sum(points(h), points(h), p);
      if k % 2 == 1 {
        assert points((h + h) + 1) == Sum(points(h + h), points(1), p);
      }
    }
  }

  // ----- every point stands for exactly one affine point

  lemma StandsUnique(q: Point, a: Affine, c: Affine, p: int)
    requires p > 2 && Fermat.IsPrime(p) && Stands(q, a, p) && Stands(q, c, p)
    ensures a == c
  {
    hide Fermat.IsPrime, Cong, Cube;
    if a.At? && c.At? {
      var w := q.z;
      NonZero(w, w, p);
      CubeIs(w);
      NonZero(w * w, w, p);
      SameCoordinate(w * w, q.x, a.x, c.x, p);
      SameCoordinate(Cube(w), q.y, a.y, c.y, p);
    }
  }

  lemma SameCoordinate(k: int, x: int, a: int, c: int, p: int)
    requires p > 2 && Fermat.IsPrime(p) && k % p != 0 && 0 <= a < p && 0 <= c < p
    requires Cong(x, a * k, p) && Cong(x, c * k, p)
    ensures a == c
  {
    hide Fermat.IsPrime, Cong;
    CongMeet(x, a * k, c * k, p);
    assert a * k == k * a && c * k == k * c;
    Cancel(k, a, c, p);
    CongSmall(a, c, p);
  }

  lemma CongMeet(a: int, b: int, c: int, p: int)
    requires p > 0 && Cong(a, b, p) && Cong(a, c, p)
    ensures Cong(b, c, p)
  {}

  lemma StandsFor(q: Point, p: int) returns (a: Affine)
    requires p > 2 && Fermat.IsPrime(p)
    ensures Stands(q, a, p)
  {
    hide Fermat.IsPrime, Cong, Inv, Cube;
    if q.z % p == 0 {
      a := Zero;
    } else {
      var i := Inv(q.z, p);
      InvIs(q.z, p);
      PowersOfOne(q.z, i, p);
      a := At((q.x * (i * i)) % p, (q.y * Cube(i)) % p);
      CongMod(q.x * (i * i), p);
      CongMod(q.y * Cube(i), p);
      Undone(q.x, i * i, q.z * q.z, a.x, p);
      Undone(q.y, Cube(i), Cube(q.z), a.y, p);
    }
  }

  lemma PowersOfOne(z: int, i: int, p: int)
    requires p > 0 && Cong(z * i, 1, p)
    ensures Cong((z * z) * (i * i), 1, p) && Cong(Cube(z) * Cube(i), 1, p)
  {
    hide Cong, Cube;
    CongMul(z * i, 1, z * i, 1, p);
    SquareOfProduct(z, i);
    CongMul((z * i) * (z * i), 1, z * i, 1, p);
    CubeOfProduct(z, i);
    CubeIs(z * i);
  }

  /** x * k * l with k * l = 1. */
  lemma Undone(x: int, k: int, l: int, a: int, p: int)
    requires p > 0 && Cong(l * k, 1, p) && Cong(a, x * k, p)
    ensures Cong(x, a * l, p)
  {
    hide Cong;
    Times(l, a, x * k, p);
    Times(x, l * k, 1, p);
    assert x * k * l == x * (l * k) && x * 1 == x;
    CongTrans(a * l, x * k * l, x, p);
  }
}
