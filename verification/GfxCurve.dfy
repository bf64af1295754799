/**
 Integer square root and ellipses. The unsigned 32-bit products are written out as U32.
 */
module GfxCurve {
  import opened Gfx

  function U32(v: int): (r: int)
    ensures 0 <= r < 0x1_0000_0000
    ensures 0 <= v < 0x1_0000_0000 ==> r == v
  {
    v % 0x1_0000_0000
  }

  // ----- square root

  /** The square root of v, rounded down. */
  ghost predicate IsRoot(v: int, r: int) {
    r >= 0 && r * r <= v < (r + 1) * (r + 1)
  }

  lemma RootUnique(v: int, r: int, r': int)
    requires IsRoot(v, r) && IsRoot(v, r')
    ensures r == r'
  {
    if r < r' {
      SquareMono(r + 1, r');
    } else if r' < r {
      SquareMono(r' + 1, r);
    }
  }

  /** A number is at most the root iff its square is at most v. */
  lemma RootBounds(v: int, r: int, x: int)
    requires IsRoot(v, r) && x >= 0
    ensures x <= r <==> x * x <= v
  {
    if x <= r {
      SquareMono(x, r);
    } else {
      SquareMono(r + 1, x);
    }
  }

  /**
   Where the digit-by-digit method stands: s is the part of the root found so far, c the weight of the next
   binary digit, b its square, r twice their product, and v what is left of the input w.
   */
  ghost predicate Digits(w: int, v: int, r: int, b: int, s: int, c: int) {
    && c >= 1 && s >= 0 && b == c * c && r == 2 * (s * c) && w == v + s * s && v >= 0
    && w < (s + 2 * c) * (s + 2 * c) && s + 2 * c <= 0x1_0000
  }

  lemma DigitsFit(w: int, v: int, r: int, b: int, s: int, c: int)
    requires Digits(w, v, r, b, s, c)
    ensures 0 < b < 0x1_0000_0000 && 0 <= r && r + b < 0x1_0000_0000
    ensures v >= r + b <==> (s + c) * (s + c) <= w
  {
    assert (s + c) * (s + c) == s * s + 2 * (s * c) + c * c;
    SquareMono(s + c, 0x1_0000 - c);
    Small(c, s);
  }

  lemma Small(c: int, s: int)
    requires c >= 1 && s >= 0 && s + 2 * c <= 0x1_0000
    ensures (s + c) * (s + c) < 0x1_0000_0000 && c * c > 0 && s * c >= 0 && s * s >= 0
  {
    SquareMono(s + c, 0xFFFF);
    SquareMono(1, c);
  }

  /** Deciding one digit. */
  lemma DigitsTaken(w: int, v: int, r: int, b: int, s: int, c: int)
    requires Digits(w, v, r, b, s, c)
    ensures var take := v >= r + b;
            var s' := if take then s + c else s;
            && (if take then r / 2 + b else r / 2) == s' * c && w == (if take then v - (r + b) else v) + s' * s'
            && w < (s' + c) * (s' + c) && s' + c <= 0x1_0000
  {
    assert (s + c) * (s + c) == s * s + 2 * (s * c) + c * c;
    assert (s + c) * c == s * c + c * c;
  }

  lemma Halves(s: int, c: int)
    requires c >= 2 && c % 2 == 0
    ensures (c * c) / 4 == (c / 2) * (c / 2) && s * c == 2 * (s * (c / 2))
  {
    var h := c / 2;
    assert c * c == 4 * (h * h);
    assert s * c == 2 * (s * h);
  }

  /** One digit; the weights of the next one are halves, exactly. */
  lemma DigitsNext(w: int, v: int, r: int, b: int, s: int, c: int)
    requires Digits(w, v, r, b, s, c) && (c == 1 || c % 2 == 0)
    ensures var take := v >= r + b;
            var v', r' := if take then v - (r + b) else v, if take then r / 2 + b else r / 2;
            if c == 1 then b / 4 == 0 && IsRoot(w, r')
            else b / 4 > 0 && Digits(w, v', r', b / 4, if take then s + c else s, c / 2)
  {
    DigitsTaken(w, v, r, b, s, c);
    if c > 1 {
      Halves(if v >= r + b then s + c else s, c);
      SquareMono(1, c / 2);
    }
  }

  /** A leading digit that is zero. */
  lemma DigitsSkip(w: int, b: int, c: int)
    requires Digits(w, w, 0, b, 0, c) && (c == 1 || c % 2 == 0) && b > w
    ensures if c == 1 then b / 4 == 0 && w == 0 else b / 4 > 0 && Digits(w, w, 0, b / 4, 0, c / 2)
  {
    if c > 1 {
      Halves(0, c);
      SquareMono(1, c / 2);
      assert 2 * (c / 2) == c;
    }
  }

  ghost function Two(k: nat): int {
    if k == 0 then 1 else 2 * Two(k - 1)
  }

  lemma {:induction false} TwoHalf(k: nat)
    ensures Two(k) >= 1 && (Two(k) == 1 || Two(k) % 2 == 0) && (Two(k) == 1 <==> k == 0)
    ensures k > 0 ==> Two(k) / 2 == Two(k - 1)
  {
    if k > 0 {
      TwoHalf(k - 1);
      Doubled(Two(k - 1));
    }
  }

  lemma Doubled(x: int)
    ensures (2 * x) % 2 == 0 && (2 * x) / 2 == x
  {}

  lemma FirstDigit(w: int)
    requires 0 <= w < 0x1_0000_0000
    ensures Digits(w, w, 0, 0x4000_0000, 0, Two(15))
  {
    assert Two(3) == 8;
    assert Two(7) == 128;
    assert Two(11) == 0x800;
    assert Two(15) == 0x8000;
  }

  method Isqrt32(w: nat) returns (root: nat)
    requires w < 0x1_0000_0000
    ensures IsRoot(w, root)
  {
    hide Digits, IsRoot, Two, U32;
    var v, r, b := w, 0, 0x4000_0000;
    ghost var k, s := 15, 0;
    FirstDigit(w);
    while b > v
      invariant b >= 0 && k >= 0
      invariant if b == 0 then w == 0 else Digits(w, v, 0, b, 0, Two(k))
      decreases b
    {
      TwoHalf(k);
      DigitsSkip(w, b, Two(k));
      b := b / 4;
      k := if k == 0 then 0 else k - 1;
    }
    ZeroRoot();
    while b != 0
      invariant b >= 0 && r >= 0 && k >= 0
      invariant if b == 0 then IsRoot(w, r) else Digits(w, v, r, b, s, Two(k))
      decreases b
    {
      TwoHalf(k);
      DigitsFit(w, v, r, b, s, Two(k));
      DigitsNext(w, v, r, b, s, Two(k));
      var rb := U32(r + b);
      s := if v >= rb then s + Two(k) else s;
      if v >= rb {
        v := v - rb;
        r := U32(r / 2 + b);
      } else {
        r := r / 2;
      }
      b := b / 4;
      k := if k == 0 then 0 else k - 1;
    }
    root := r;
  }

  lemma ZeroRoot()
    ensures IsRoot(0, 0)
  {}

  // ----- ellipses

  function Sq(v: int): int {
    v * v
  }

  /** The offset (a, b) is inside the ellipse with these radii, boundary included. */
  ghost predicate Inside(rx: int, ry: int, a: int, b: int) {
    Abs(a) <= rx && Abs(b) <= ry && Sq(a * ry) + Sq(b * rx) <= Sq(rx * ry)
  }

  /** x is the greatest abscissa inside the ellipse in row y. */
  ghost predicate RowEnd(rx: int, ry: int, y: int, x: int) {
    0 <= x <= rx && forall a :: 0 <= a ==> (a <= x <==> Sq(a * ry) + Sq(y * rx) <= Sq(rx * ry))
  }

  lemma SqProduct(a: int, b: int)
    ensures Sq(a * b) == (a * a) * (b * b)
  {
    assert (a * b) * (a * b) == a * (b * (a * b)) == a * (a * (b * b));
    assert (a * a) * (b * b) == a * (a * (b * b));
  }

  /** What the quotient in ell_x_at_y compares. */
  lemma Quotient(a2: int, rx2: int, ry2: int, y2: int)
    requires ry2 > 0
    ensures a2 <= (rx2 * (ry2 - y2)) / ry2 <==> a2 * ry2 + y2 * rx2 <= rx2 * ry2
  {
    var n := rx2 * (ry2 - y2);
    assert n == rx2 * ry2 - y2 * rx2;
    var q := n / ry2;
    assert n == ry2 * q + n % ry2;
    if a2 <= q {
      assert a2 * ry2 <= q * ry2;
    } else {
      assert a2 * ry2 >= (q + 1) * ry2;
    }
  }

  lemma ProductFits(rx: int, ry: int, y: int)
    requires 0 <= y < ry && 0 <= rx && rx < 0x1_0000 && ry < 0x1_0000
    ensures 0 <= rx * rx < 0x1_0000_0000 && 0 < ry * ry < 0x1_0000_0000 && 0 <= y * y < ry * ry
    ensures 0 <= (rx * rx) * (ry * ry - y * y) <= Sq(rx * ry)
    ensures rx * ry < 0x1_0000 ==> (rx * rx) * (ry * ry - y * y) < 0x1_0000_0000
  {
    SquareMono(rx, 0xFFFF);
    SquareMono(ry, 0xFFFF);
    SquareMono(1, ry);
    SquareMono(y + 1, ry);
    assert (y + 1) * (y + 1) == y * y + 2 * y + 1;
    SqProduct(rx, ry);
    Within(rx * rx, ry * ry - y * y, ry * ry);
    if rx * ry < 0x1_0000 {
      Within(rx, 0, ry);
      SquareMono(rx * ry, 0xFFFF);
    }
  }

  lemma Within(a: int, b: int, c: int)
    requires a >= 0 && 0 <= b <= c
    ensures 0 <= a * b <= a * c
  {}

  /** In the last row, and below it, only the axis is left. */
  lemma LastRow(rx: int, ry: int)
    requires rx >= 0 && ry > 0
    ensures RowEnd(rx, ry, ry, 0)
  {
    forall a | 0 <= a
      ensures a <= 0 <==> Sq(a * ry) + Sq(ry * rx) <= Sq(rx * ry)
    {
      assert ry * rx == rx * ry;
      if a > 0 {
        Within(ry, 1, a);
        SquareMono(1, a * ry);
      }
    }
  }

  lemma RowEndIs(rx: int, ry: int, y: int, x: int)
    requires 0 <= y < ry && rx >= 0 && IsRoot((rx * rx) * (ry * ry - y * y) / (ry * ry), x) && ry * ry > 0
    ensures RowEnd(rx, ry, y, x)
  {
    hide IsRoot, Sq;
    var q := (rx * rx) * (ry * ry - y * y) / (ry * ry);
    forall a | 0 <= a
      ensures a <= x <==> Sq(a * ry) + Sq(y * rx) <= Sq(rx * ry)
    {
      RootBounds(q, x, a);
      Quotient(a * a, rx * rx, ry * ry, y * y);
      SqProduct(a, ry);
      SqProduct(y, rx);
      SqProduct(rx, ry);
    }
    RootSign(q, x);
    if x > rx {
      RootBounds(q, x, rx + 1);
      Quotient((rx + 1) * (rx + 1), rx * rx, ry * ry, y * y);
      Beyond(rx, ry, y);
    }
  }

  lemma RootSign(v: int, r: int)
    requires IsRoot(v, r)
    ensures r >= 0
  {}

  lemma Beyond(rx: int, ry: int, y: int)
    requires rx >= 0 && ry > 0
    ensures (rx + 1) * (rx + 1) * (ry * ry) + (y * y) * (rx * rx) > (rx * rx) * (ry * ry)
  {
    SquareMono(1, ry);
    assert (rx + 1) * (rx + 1) == rx * rx + (2 * rx + 1);
    assert (rx * rx + (2 * rx + 1)) * (ry * ry) == (rx * rx) * (ry * ry) + (2 * rx + 1) * (ry * ry);
    Within(2 * rx + 1, 1, ry * ry);
    assert y * y >= 0 by {
      if y < 0 {
        SquareMono(0, -y);
      }
    }
    Within(y * y, 0, rx * rx);
    assert rx * rx >= 0;
  }

  /** The product of the squares that ell_x_at_y divides, without wrapping around. */
  function Product(rx: int, ry: int, y: int): int {
    (rx * rx) * (ry * ry - y * y)
  }

  /** A wrapped product only makes the row narrower. */
  lemma WrappedRoot(rx: int, ry: int, y: int, x: int)
    requires 0 <= y < ry < 0x1_0000 && 0 <= rx < 0x1_0000 && ry * ry > 0
    requires IsRoot(U32(Product(rx, ry, y)) / (ry * ry), x)
    ensures 0 <= x <= rx
  {
    hide U32, IsRoot;
    ProductFits(rx, ry, y);
    SqProduct(rx, ry);
    U32Below(Product(rx, ry, y));
    QuotientBelow(U32(Product(rx, ry, y)), ry * ry, rx * rx);
    RootSign(U32(Product(rx, ry, y)) / (ry * ry), x);
    assert (rx + 1) * (rx + 1) == rx * rx + 2 * rx + 1;
    if x > rx {
      RootBounds(U32(Product(rx, ry, y)) / (ry * ry), x, rx + 1);
    }
  }

  lemma U32Below(v: int)
    ensures v >= 0 ==> U32(v) <= v
    ensures v >= 0x1_0000_0000 ==> U32(v) < v
  {}

  lemma QuotientBelow(a: int, b: int, c: int)
    requires b > 0 && a >= 0
    ensures a <= c * b ==> a / b <= c
    ensures a < c * b ==> a / b < c
  {
    var q := a / b;
    assert a == b * q + a % b;
    if q > c {
      Within(b, 1, q - c);
      assert b * (q - c) == b * q - c * b;
    }
  }

  /** When the whole product wraps around, the middle row does get narrower. */
  lemma NarrowMiddle(rx: int, ry: int, x: int)
    requires 0 < rx < 0x1_0000 && 0 < ry < 0x1_0000 && rx * ry >= 0x1_0000 && ry * ry > 0
    requires IsRoot(U32(Product(rx, ry, 0)) / (ry * ry), x)
    ensures x < rx
  {
    hide U32, IsRoot;
    SqProduct(rx, ry);
    SquareMono(0x1_0000, rx * ry);
    U32Below(Product(rx, ry, 0));
    QuotientBelow(U32(Product(rx, ry, 0)), ry * ry, rx * rx);
    if x >= rx {
      RootBounds(U32(Product(rx, ry, 0)) / (ry * ry), x, rx);
    }
  }

  /**
   The width of the ellipse in row y, for rows of either sign folded to y >= 0. It is right where the product fits;
   a wide row wraps around in the cast.
   */
  method EllXAtY(rx: nat, ry: nat, y: nat) returns (x: int)
    requires rx < 0x1_0000 && ry < 0x1_0000 && y < 0x1_0000
    ensures y >= ry ==> x == 0
    ensures y < ry && Product(rx, ry, y) < 0x1_0000_0000 ==> forall e :: RowEnd(rx, ry, y, e) ==> x == I16(e)
    ensures 0 < ry && y <= ry && rx < 0x8000 && Product(rx, ry, y) < 0x1_0000_0000 ==> RowEnd(rx, ry, y, x)
    ensures rx < 0x8000 ==> 0 <= x <= rx
    ensures 0 < rx < 0x8000 && 0 < ry && y == 0 && rx * ry >= 0x1_0000 ==> x < rx
  {
    hide RowEnd, U32, I16, IsRoot;
    if y >= ry {
      if ry > 0 {
        LastRow(rx, ry);
      }
      return 0;
    }
    ProductFits(rx, ry, y);
    var rx2 := U32(rx * rx);
    var ry2 := U32(ry * ry);
    var dy2 := U32(y * y);
    var numer := U32(rx2 * (ry2 - dy2));
    QuotientFits(numer, ry2);
    var root := Isqrt32(numer / ry2);
    WrappedRoot(rx, ry, y, root);
    if rx > 0 && y == 0 && rx * ry >= 0x1_0000 {
      NarrowMiddle(rx, ry, root);
    }
    if Product(rx, ry, y) < 0x1_0000_0000 {
      RowEndIs(rx, ry, y, root);
      RowEndUnique(rx, ry, y, root);
    }
    x := I16(root);
  }

  lemma RowEndUnique(rx: int, ry: int, y: int, x: int)
    requires RowEnd(rx, ry, y, x)
    ensures forall e :: RowEnd(rx, ry, y, e) ==> e == x
  {
    hide RowEnd;
    forall e | RowEnd(rx, ry, y, e)
      ensures e == x
    {
      RowEndAt(rx, ry, y, x, e + 1);
      RowEndAt(rx, ry, y, e, e + 1);
      RowEndAt(rx, ry, y, x, x + 1);
      RowEndAt(rx, ry, y, e, x + 1);
    }
  }

  lemma RowEndAt(rx: int, ry: int, y: int, x: int, a: int)
    requires RowEnd(rx, ry, y, x)
    ensures x >= 0 && (0 <= a ==> (a <= x <==> Sq(a * ry) + Sq(y * rx) <= Sq(rx * ry)))
  {
    hide Sq;
  }

  lemma QuotientFits(a: int, b: int)
    requires 0 <= a < 0x1_0000_0000 && b > 0
    ensures 0 <= a / b < 0x1_0000_0000
  {
    var q := a / b;
    assert a == b * q + a % b;
    if q > a {
      Within(q, 1, b);
    }
    if q < 0 {
      Within(-q, 1, b);
    }
  }

  lemma RowEndIn(rx: int, ry: int, y: int, x: int)
    requires RowEnd(rx, ry, y, x)
    ensures 0 <= x <= rx
  {}

  /** The height in column x is the width of the transposed ellipse. */
  method EllYAtX(rx: nat, ry: nat, x: nat) returns (y: int)
    requires rx < 0x1_0000 && ry < 0x1_0000 && x < 0x1_0000
    ensures x >= rx ==> y == 0
    ensures x < rx && Product(ry, rx, x) < 0x1_0000_0000 ==> forall e :: RowEnd(ry, rx, x, e) ==> y == I16(e)
    ensures 0 < rx && x <= rx && ry < 0x8000 && Product(ry, rx, x) < 0x1_0000_0000 ==> RowEnd(ry, rx, x, y)
    ensures ry < 0x8000 ==> 0 <= y <= ry
    ensures 0 < ry < 0x8000 && 0 < rx && x == 0 && rx * ry >= 0x1_0000 ==> y < ry
  {
    hide RowEnd, U32, I16, IsRoot;
    if x >= rx {
      if rx > 0 {
        LastRow(ry, rx);
      }
      return 0;
    }
    ProductFits(ry, rx, x);
    var rx2 := U32(rx * rx);
    var ry2 := U32(ry * ry);
    var dx2 := U32(x * x);
    var numer := U32(ry2 * (rx2 - dx2));
    QuotientFits(numer, rx2);
    var root := Isqrt32(numer / rx2);
    WrappedRoot(ry, rx, x, root);
    assert rx * ry == ry * rx;
    if ry > 0 && x == 0 && rx * ry >= 0x1_0000 {
      NarrowMiddle(ry, rx, root);
    }
    if Product(ry, rx, x) < 0x1_0000_0000 {
      RowEndIs(ry, rx, x, root);
      RowEndUnique(ry, rx, x, root);
    }
    y := I16(root);
  }

  /** The rows from lo up to hi are painted, each exactly to the ellipse's edge. */
  ghost predicate Painted(trace: seq<Pixel>, cx: int, cy: int, rx: int, ry: int, hi: int) {
    forall p :: p in trace <==> p.y - cy < hi && Inside(rx, ry, p.x - cx, p.y - cy)
  }

  lemma RowInside(rx: int, ry: int, b: int, x: int, a: int)
    requires RowEnd(rx, ry, Abs(b), x) && Abs(b) <= ry && rx >= 0
    ensures Inside(rx, ry, a, b) <==> -x <= a <= x
  {
    hide Sq;
    SqAbs(a, ry);
    SqAbs(b, rx);
  }

  lemma SqAbs(a: int, k: int)
    ensures Sq(Abs(a) * k) == Sq(a * k)
  {
    if a < 0 {
      assert Abs(a) * k == -(a * k);
    }
  }

  lemma PaintRow(trace: seq<Pixel>, row: seq<Pixel>, cx: int, cy: int, rx: int, ry: int, y: int, x: int)
    requires Painted(trace, cx, cy, rx, ry, y) && rx >= 0 && Abs(y) <= ry && RowEnd(rx, ry, Abs(y), x) && x >= 0
    requires |row| == 2 * x + 1 && forall i :: 0 <= i < |row| ==> row[i] == Pixel(cx - x + i, cy + y)
    ensures Painted(trace + row, cx, cy, rx, ry, y + 1)
  {
    hide RowEnd, Inside;
    forall p
      ensures p in trace + row <==> p.y - cy < y + 1 && Inside(rx, ry, p.x - cx, p.y - cy)
    {
      RowInside(rx, ry, y, x, p.x - cx);
      if p.y - cy == y {
        if -x <= p.x - cx <= x {
          assert row[p.x - cx + x] == p;
        }
      }
    }
  }

  lemma NonePainted(cx: int, cy: int, rx: int, ry: int)
    ensures Painted([], cx, cy, rx, ry, -ry)
  {}

  /** No pixel so far is at the right end of the middle row. */
  ghost predicate Narrow(trace: seq<Pixel>, cx: int, cy: int, rx: int, hi: int) {
    forall p :: p in trace ==> p.y - cy < hi && (p.y == cy ==> p.x - cx < rx)
  }

  lemma NarrowRow(trace: seq<Pixel>, row: seq<Pixel>, cx: int, cy: int, rx: int, y: int, x: int)
    requires Narrow(trace, cx, cy, rx, y) && 0 <= x <= rx && (y == 0 ==> x < rx)
    requires |row| == 2 * x + 1 && forall i :: 0 <= i < |row| ==> row[i] == Pixel(cx - x + i, cy + y)
    ensures Narrow(trace + row, cx, cy, rx, y + 1)
  {}

  lemma NarrowMisses(trace: seq<Pixel>, cx: int, cy: int, rx: int, ry: int, hi: int)
    requires Narrow(trace, cx, cy, rx, hi) && rx >= 0 && ry >= 0
    ensures !forall p :: p in trace <==> Inside(rx, ry, p.x - cx, p.y - cy)
  {
    var p := Pixel(cx + rx, cy);
    assert p !in trace && Inside(rx, ry, p.x - cx, p.y - cy);
  }

  /** The rows above hi are drawn; if the product of the radii wraps around, the middle one falls short. */
  ghost predicate Swept(trace: seq<Pixel>, cx: int, cy: int, rx: int, ry: int, hi: int) {
    if rx * ry < 0x1_0000 then Painted(trace, cx, cy, rx, ry, hi) else Narrow(trace, cx, cy, rx, hi)
  }

  lemma SweepStarts(cx: int, cy: int, rx: int, ry: int)
    ensures Swept([], cx, cy, rx, ry, -ry)
  {
    NonePainted(cx, cy, rx, ry);
  }

  lemma SweepRow(trace: seq<Pixel>, row: seq<Pixel>, cx: int, cy: int, rx: int, ry: int, y: int, x: int)
    requires Swept(trace, cx, cy, rx, ry, y) && 0 < rx && Abs(y) <= ry && 0 <= x <= rx
    requires rx * ry < 0x1_0000 ==> RowEnd(rx, ry, Abs(y), x)
    requires rx * ry >= 0x1_0000 && y == 0 ==> x < rx
    requires |row| == 2 * x + 1 && forall i :: 0 <= i < |row| ==> row[i] == Pixel(cx - x + i, cy + y)
    ensures Swept(trace + row, cx, cy, rx, ry, y + 1)
  {
    hide RowEnd, Painted, Narrow;
    if rx * ry < 0x1_0000 {
      PaintRow(trace, row, cx, cy, rx, ry, y, x);
    } else {
      NarrowRow(trace, row, cx, cy, rx, y, x);
    }
  }

  lemma SweepEnds(trace: seq<Pixel>, cx: int, cy: int, rx: int, ry: int)
    requires Swept(trace, cx, cy, rx, ry, ry + 1) && rx >= 0 && ry >= 0
    ensures rx * ry < 0x1_0000 <==> forall p :: p in trace <==> Inside(rx, ry, p.x - cx, p.y - cy)
  {
    hide Narrow;
    if rx * ry >= 0x1_0000 {
      NarrowMisses(trace, cx, cy, rx, ry, ry + 1);
    }
  }

  // The row counter.

  /** The row of iteration n. */
  function RowAt(ry: int, n: nat): int {
    if n == 0 then I16(0 - I16(ry)) else I16(RowAt(ry, n - 1) + 1)
  }

  lemma {:induction false} RowIs(ry: nat, n: nat)
    requires ry <= 0x7FFF && n <= ry + 0x7FFF
    ensures RowAt(ry, n) == n - ry
  {
    if n > 0 {
      RowIs(ry, n - 1);
    }
  }

  /** The loop over the rows ends for every radius but one. */
  lemma RowsEnd(ry: nat)
    requires ry <= 0xFFFF
    ensures (exists n: nat :: RowAt(ry, n) > I16(ry)) <==> ry != 0x7FFF
  {
    hide RowAt;
    if ry < 0x7FFF {
      RowIs(ry, 2 * ry + 1);
      assert RowAt(ry, 2 * ry + 1) > I16(ry);
    } else if ry == 0x7FFF {
      forall n: nat
        ensures RowAt(ry, n) <= I16(ry)
      {
        RowFits(ry, n);
      }
    } else {
      FirstRows(ry);
      assert RowAt(ry, 0) > I16(ry) || RowAt(ry, 1) > I16(ry);
    }
  }

  lemma RowFits(ry: int, n: nat)
    ensures Is16(RowAt(ry, n))
  {}

  lemma FirstRows(ry: int)
    requires 0x8000 <= ry <= 0xFFFF
    ensures I16(ry) < 0 && (ry > 0x8000 ==> RowAt(ry, 0) > 0)
    ensures ry == 0x8000 ==> RowAt(ry, 0) == I16(ry) && RowAt(ry, 1) > I16(ry)
  {}

  /** With that radius the counter starts over at -32768, and every row is drawn again. */
  lemma TallestNeverEnds()
    ensures RowAt(0x7FFF, 0xFFFE) == 0x7FFF && RowAt(0x7FFF, 0xFFFF) == -0x8000
    ensures forall n: nat :: RowAt(0x7FFF, n) <= 0x7FFF
  {
    hide RowAt;
    RowIs(0x7FFF, 0xFFFE);
    RowNext(0x7FFF, 0xFFFE);
    forall n: nat
      ensures RowAt(0x7FFF, n) <= 0x7FFF
    {
      RowFits(0x7FFF, n);
    }
  }

  lemma RowNext(ry: int, n: nat)
    ensures RowAt(ry, 0) == I16(0 - I16(ry)) && RowAt(ry, n + 1) == I16(RowAt(ry, n) + 1)
  {}

  // The drawing.

  /** A run of pixels to the right, before the casts. */
  ghost function Across(x: int, y: int, w: nat): (s: seq<Pixel>)
    ensures |s| == w && forall i :: 0 <= i < w ==> s[i] == Pixel(x + i, y)
  {
    seq(w, i => Pixel(x + i, y))
  }

  ghost function Down(x: int, y: int, h: nat): (s: seq<Pixel>)
    ensures |s| == h && forall i :: 0 <= i < h ==> s[i] == Pixel(x, y + i)
  {
    seq(h, i => Pixel(x, y + i))
  }

  /** A run starts at a cast position; its pixels are cast one by one. */
  lemma AcrossCast(s: seq<Pixel>, x: int, y: int, w: nat)
    requires |s| == w && forall i :: 0 <= i < w ==> s[i] == Pixel(I16(I16(x) + i), I16(y))
    ensures s == Cast(Across(x, y, w))
  {
    hide I16;
    forall i | 0 <= i < w
      ensures s[i] == Cast(Across(x, y, w))[i]
    {
      CastTwice(x, i);
    }
  }

  lemma DownCast(s: seq<Pixel>, x: int, y: int, h: nat)
    requires |s| == h && forall i :: 0 <= i < h ==> s[i] == Pixel(I16(x), I16(I16(y) + i))
    ensures s == Cast(Down(x, y, h))
  {
    hide I16;
    forall i | 0 <= i < h
      ensures s[i] == Cast(Down(x, y, h))[i]
    {
      CastTwice(y, i);
    }
  }

  lemma RowProductFits(rx: int, ry: int, y: int)
    requires 0 <= y <= ry < 0x1_0000 && 0 <= rx < 0x1_0000 && rx * ry < 0x1_0000
    ensures Product(rx, ry, y) < 0x1_0000_0000
  {
    if y < ry {
      ProductFits(rx, ry, y);
    }
  }

  /** One row of the ellipse, from -x to x. */
  method FillRow(cx: int, cy: int, rx: nat, ry: nat, y: int, ghost flat: seq<Pixel>)
    returns (row: seq<Pixel>, x: int)
    requires Is16(cx) && Is16(cy) && Is16(y) && 0 < rx <= 0xFFFF && 0 < ry <= 0xFFFF
    ensures row == Cast(Across(cx - x, cy + y, (2 * x + 1) % 0x1_0000))
    ensures rx <= 0x7FFF && Abs(y) <= ry && Swept(flat, cx, cy, rx, ry, y) ==>
              Swept(flat + Across(cx - x, cy + y, (2 * x + 1) % 0x1_0000), cx, cy, rx, ry, y + 1)
  {
    hide RowEnd, I16, Cast, Across, Swept, Product;
    var ay := Abs(y);
    x := EllXAtY(rx, ry, ay);
    var w := (2 * x + 1) % 0x1_0000;
    row := Hline(I16(cx - x), I16(cy + y), w);
    AcrossCast(row, cx - x, cy + y, w);
    if rx <= 0x7FFF && ay <= ry && Swept(flat, cx, cy, rx, ry, y) {
      RowSwept(flat, cx, cy, rx, ry, y, x);
    }
  }

  lemma RowSwept(flat: seq<Pixel>, cx: int, cy: int, rx: nat, ry: nat, y: int, x: int)
    requires Swept(flat, cx, cy, rx, ry, y) && 0 < rx <= 0x7FFF && 0 < ry <= 0xFFFF && Abs(y) <= ry && 0 <= x <= rx
    requires Product(rx, ry, Abs(y)) < 0x1_0000_0000 ==> RowEnd(rx, ry, Abs(y), x)
    requires y == 0 && rx * ry >= 0x1_0000 ==> x < rx
    ensures Swept(flat + Across(cx - x, cy + y, 2 * x + 1), cx, cy, rx, ry, y + 1)
  {
    hide RowEnd, Across, Swept, Product;
    if rx * ry < 0x1_0000 {
      RowProductFits(rx, ry, Abs(y));
    }
    SweepRow(flat, Across(cx - x, cy + y, 2 * x + 1), cx, cy, rx, ry, y, x);
  }

  /** The pixel is one of the ellipse's, after its coordinates have been cast. */
  ghost predicate EllipseHas(cx: int, cy: int, rx: int, ry: int, p: Pixel) {
    exists a, b :: Inside(rx, ry, a, b) && p == Pixel(I16(cx + a), I16(cy + b))
  }

  lemma EllipseCovered(flat: seq<Pixel>, cx: int, cy: int, rx: int, ry: int)
    ensures (forall p :: p in flat <==> Inside(rx, ry, p.x - cx, p.y - cy)) ==>
              forall p :: p in Cast(flat) <==> EllipseHas(cx, cy, rx, ry, p)
  {
    hide Inside, Cast, I16;
    if forall p :: p in flat <==> Inside(rx, ry, p.x - cx, p.y - cy) {
      forall p
        ensures p in Cast(flat) <==> EllipseHas(cx, cy, rx, ry, p)
      {
        CastHas(flat, p);
        if EllipseHas(cx, cy, rx, ry, p) {
          var a, b :| Inside(rx, ry, a, b) && p == Pixel(I16(cx + a), I16(cy + b));
          assert Pixel(cx + a, cy + b) in flat;
        }
      }
    }
  }

  /**
   The filled ellipse. For radii that fit a coordinate its pixels, before they are cast to 16 bits, are exactly those
   inside the ellipse if and only if the product of the radii is below 2^16.
   */
  method FillEllipse(cx: int, cy: int, rx: nat, ry: nat) returns (trace: seq<Pixel>, ghost flat: seq<Pixel>)
    requires Is16(cx) && Is16(cy) && rx <= 0xFFFF && ry <= 0xFFFF && (rx == 0 || ry != 0x7FFF)
    ensures trace == Cast(flat)
    ensures rx <= 0x7FFF && ry <= 0x7FFF ==>
              (rx * ry < 0x1_0000 <==> forall p :: p in flat <==> Inside(rx, ry, p.x - cx, p.y - cy))
    ensures rx <= 0x7FFF && ry <= 0x7FFF && rx * ry < 0x1_0000 ==>
              forall p :: p in trace <==> EllipseHas(cx, cy, rx, ry, p)
  {
    hide I16, Inside, Cast, Across, Down, RowAt, Swept, EllipseHas;
    Casts(ry);
    Casts(rx);
    if rx == 0 && ry == 0 {
      trace := [Pixel(cx, cy)];
      flat := trace;
      OnePixel(cx, cy);
      CastNone(flat);
      EllipseCovered(flat, cx, cy, rx, ry);
      return;
    }
    if rx == 0 {
      var h := (2 * ry + 1) % 0x1_0000;
      trace := Vline(cx, I16(cy - I16(ry)), h);
      flat := Down(cx, cy - I16(ry), h);
      DownCast(trace, cx, cy - I16(ry), h);
      if ry <= 0x7FFF {
        VlineIs(flat, cx, cy, ry);
      }
      EllipseCovered(flat, cx, cy, rx, ry);
      return;
    }
    if ry == 0 {
      var w := (2 * rx + 1) % 0x1_0000;
      trace := Hline(I16(cx - I16(rx)), cy, w);
      flat := Across(cx - I16(rx), cy, w);
      AcrossCast(trace, cx - I16(rx), cy, w);
      if rx <= 0x7FFF {
        HlineIs(flat, cx, cy, rx);
      }
      EllipseCovered(flat, cx, cy, rx, ry);
      return;
    }
    trace, flat := [], [];
    CastNone(flat);
    var bottom := I16(ry);
    var y := I16(0 - bottom);
    Casts(0 - bottom);
    ghost var n: nat := 0;
    RowNext(ry, 0);
    SweepStarts(cx, cy, rx, ry);
    while y <= bottom
      invariant trace == Cast(flat) && y == RowAt(ry, n) && Is16(y) && bottom < 0x7FFF
      invariant rx <= 0x7FFF && ry <= 0x7FFF ==> 0 - ry <= y <= ry + 1 && Swept(flat, cx, cy, rx, ry, y)
      decreases bottom - y
    {
      var row, x := FillRow(cx, cy, rx, ry, y, flat);
      ghost var part := Across(cx - x, cy + y, (2 * x + 1) % 0x1_0000);
      CastConcat(flat, part);
      trace, flat := trace + row, flat + part;
      RowNext(ry, n);
      y, n := I16(y + 1), n + 1;
    }
    if rx <= 0x7FFF && ry <= 0x7FFF {
      SweepEnds(flat, cx, cy, rx, ry);
    }
    EllipseCovered(flat, cx, cy, rx, ry);
  }

  lemma OnePixel(cx: int, cy: int)
    ensures forall p :: p in [Pixel(cx, cy)] <==> Inside(0, 0, p.x - cx, p.y - cy)
  {}

  lemma VlineIs(trace: seq<Pixel>, cx: int, cy: int, ry: int)
    requires |trace| == 2 * ry + 1 && ry >= 0 && forall i :: 0 <= i < |trace| ==> trace[i] == Pixel(cx, cy - ry + i)
    ensures forall p :: p in trace <==> Inside(0, ry, p.x - cx, p.y - cy)
  {
    forall p
      ensures p in trace <==> Inside(0, ry, p.x - cx, p.y - cy)
    {
      if p.x == cx && Abs(p.y - cy) <= ry {
        assert trace[p.y - cy + ry] == p;
      }
    }
  }

  lemma HlineIs(trace: seq<Pixel>, cx: int, cy: int, rx: int)
    requires |trace| == 2 * rx + 1 && rx >= 0 && forall i :: 0 <= i < |trace| ==> trace[i] == Pixel(cx - rx + i, cy)
    ensures forall p :: p in trace <==> Inside(rx, 0, p.x - cx, p.y - cy)
  {
    forall p
      ensures p in trace <==> Inside(rx, 0, p.x - cx, p.y - cy)
    {
      if p.y == cy && Abs(p.x - cx) <= rx {
        assert trace[p.x - cx + rx] == p;
      }
    }
  }
}
