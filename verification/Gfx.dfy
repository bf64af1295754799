/**
 Line and circle drawing. A drawing is the sequence of pixels handed to the surface, before clipping.
 Coordinates are 16-bit; every cast is written out as I16.
 */
module Gfx {

  datatype Pixel = Pixel(x: int, y: int)

  function I16(v: int): (r: int)
    ensures -0x8000 <= r < 0x8000
    ensures -0x8000 <= v < 0x8000 ==> r == v
  {
    (v + 0x8000) % 0x1_0000 - 0x8000
  }

  predicate Is16(v: int) {
    -0x8000 <= v < 0x8000
  }

  function Abs(v: int): (r: int)
    ensures r >= 0 && (r == v || r == -v)
  {
    if v < 0 then -v else v
  }

  function Max(a: int, b: int): int {
    if a < b then b else a
  }

  function Min(a: int, b: int): int {
    if a < b then a else b
  }

  // ----- runs of pixels

  method Hline(x: int, y: int, w: nat) returns (trace: seq<Pixel>)
    requires Is16(x) && Is16(y) && w <= 0xFFFF
    ensures |trace| == w && forall i :: 0 <= i < w ==> trace[i] == Pixel(I16(x + i), y)
  {
    trace := [];
    for i := 0 to w
      invariant |trace| == i && forall k :: 0 <= k < i ==> trace[k] == Pixel(I16(x + k), y)
    {
      trace := trace + [Pixel(I16(x + i), y)];
    }
  }

  method Vline(x: int, y: int, h: nat) returns (trace: seq<Pixel>)
    requires Is16(x) && Is16(y) && h <= 0xFFFF
    ensures |trace| == h && forall i :: 0 <= i < h ==> trace[i] == Pixel(x, I16(y + i))
  {
    trace := [];
    for i := 0 to h
      invariant |trace| == i && forall k :: 0 <= k < i ==> trace[k] == Pixel(x, I16(y + k))
    {
      trace := trace + [Pixel(x, I16(y + i))];
    }
  }

  // ----- lines

  /** How far, in units of 1/max(dx, dy), the point (i, j) is above the line through (dx, dy). */
  ghost function Defect(dx: int, dy: int, i: int, j: int): int {
    dx * j - dy * i
  }

  /** The point (i, j) is the one nearest to the line in its column, or row for a steep line; halves go to the start. */
  ghost predicate OnLine(dx: int, dy: int, i: int, j: int) {
    && 0 <= i <= dx && 0 <= j <= dy
    && (if dx == dy == 0 then true
        else if dx >= dy then -dx <= 2 * Defect(dx, dy, i, j) < dx
        else -dy < 2 * Defect(dx, dy, i, j) <= dy)
  }

  lemma DefectStep(dx: int, dy: int, i: int, j: int)
    ensures Defect(dx, dy, i + 1, j) == Defect(dx, dy, i, j) - dy
    ensures Defect(dx, dy, i, j + 1) == Defect(dx, dy, i, j) + dx
    ensures Defect(dx, dy, i + 1, j + 1) == Defect(dx, dy, i, j) + dx - dy
    ensures Defect(dx, dy, 0, 0) == 0
  {}

  /** There is only one such point in a column of a flat line, and in a row of a steep one. */
  lemma OnLineUnique(dx: int, dy: int, i: int, j: int, i': int, j': int)
    requires OnLine(dx, dy, i, j) && OnLine(dx, dy, i', j')
    requires if dx >= dy then i == i' else j == j'
    ensures i == i' && j == j'
  {
    if dx >= dy && dx > 0 {
      DefectApart(dx, dy, i, j, i, j');
      Spread(dx, j - j');
    } else if dy > dx {
      DefectApart(dx, dy, i, j, i', j);
      Spread(dy, i' - i);
    }
  }

  lemma DefectApart(dx: int, dy: int, i: int, j: int, i': int, j': int)
    ensures Defect(dx, dy, i, j) - Defect(dx, dy, i', j') == dx * (j - j') + dy * (i' - i)
  {}

  lemma Spread(d: int, k: int)
    requires d > 0 && -d < d * k < d
    ensures k == 0
  {}

  /** The end of the line is the nearest point of its own column and row. */
  lemma EndOnLine(dx: int, dy: int, i: int, j: int)
    requires OnLine(dx, dy, i, j) && (if dx >= dy then i == dx else j == dy)
    ensures i == dx && j == dy
  {
    assert OnLine(dx, dy, dx, dy);
    OnLineUnique(dx, dy, i, j, dx, dy);
  }

  /** Pixel number k of a line of which the first pixel is (x0, y0). */
  ghost predicate LinePixel(p: Pixel, k: int, x0: int, y0: int, x1: int, y1: int) {
    var i, j := Abs(p.x - x0), Abs(p.y - y0);
    var dx, dy := Abs(x1 - x0), Abs(y1 - y0);
    && OnLine(dx, dy, i, j) && k == (if dx >= dy then i else j)
    && (if x0 < x1 then p.x >= x0 else p.x <= x0) && (if y0 < y1 then p.y >= y0 else p.y <= y0)
  }

  ghost predicate Adjacent(p: Pixel, q: Pixel) {
    p != q && Abs(p.x - q.x) <= 1 && Abs(p.y - q.y) <= 1
  }

  ghost predicate IsLine(trace: seq<Pixel>, x0: int, y0: int, x1: int, y1: int) {
    && (forall k :: 0 <= k < |trace| ==> LinePixel(trace[k], k, x0, y0, x1, y1))
    && (forall k :: 0 < k < |trace| ==> Adjacent(trace[k - 1], trace[k]))
  }

  /** A line is determined by its ends. */
  lemma LineUnique(s: seq<Pixel>, t: seq<Pixel>, x0: int, y0: int, x1: int, y1: int)
    requires IsLine(s, x0, y0, x1, y1) && IsLine(t, x0, y0, x1, y1) && |s| == |t|
    ensures s == t
  {
    forall k | 0 <= k < |s|
      ensures s[k] == t[k]
    {
      var p, q := s[k], t[k];
      assert LinePixel(p, k, x0, y0, x1, y1) && LinePixel(q, k, x0, y0, x1, y1);
      OnLineUnique(Abs(x1 - x0), Abs(y1 - y0), Abs(p.x - x0), Abs(p.y - y0), Abs(q.x - x0), Abs(q.y - y0));
    }
  }

  /** What one step of the walk does to a point of the line, and that it stays one. */
  lemma LineStep(dx: int, dy: int, i: int, j: int, err: int)
    requires OnLine(dx, dy, i, j) && !(i == dx && j == dy)
    requires err == Defect(dx, dy, i, j) + dx - dy
    ensures -3 * Max(dx, dy) <= 2 * err <= 3 * Max(dx, dy)
    ensures var i' := if 2 * err > -dy then i + 1 else i;
            var j' := if 2 * err < dx then j + 1 else j;
            && OnLine(dx, dy, i', j')
            && (if dx >= dy then i' == i + 1 else j' == j + 1)
            && (if 2 * err < dx then if 2 * err > -dy then err + dx - dy else err + dx else err - dy)
               == Defect(dx, dy, i', j') + dx - dy
  {
    hide Defect;
    DefectStep(dx, dy, i, j);
    var e := Defect(dx, dy, i, j);
    if dx >= dy {
      if i == dx {
        EndOnLine(dx, dy, i, j);
        assert false;
      }
      if dx == dy {
        Diagonal(dx, i, j);
      }
      var i' := i + 1;
      var j' := if 2 * err < dx then j + 1 else j;
      assert -dx <= 2 * Defect(dx, dy, i', j') < dx;
      InColumn(dx, dy, i', j');
    } else {
      if j == dy {
        EndOnLine(dx, dy, i, j);
        assert false;
      }
      var j' := j + 1;
      var i' := if 2 * err > -dy then i + 1 else i;
      assert -dy < 2 * Defect(dx, dy, i', j') <= dy;
      InRow(dx, dy, i', j');
    }
  }

  // The doubled error must fit 16 bits wherever the walk looks at it.

  /** No point of the line before its end has a doubled error that wraps around. */
  ghost predicate LineFits(dx: int, dy: int) {
    && dx <= 0x7FFF && dy <= 0x7FFF
    && forall i, j :: OnLine(dx, dy, i, j) && !(i == dx && j == dy) ==> Is16(2 * (Defect(dx, dy, i, j) + dx - dy))
  }

  /** The greatest common divisor. */
  function Gcd(a: nat, b: nat): (g: nat)
    requires a > 0
    ensures g > 0
    decreases b
  {
    if b == 0 then a else Gcd(b, a % b)
  }

  lemma {:induction false} GcdNext(a: nat, b: nat)
    requires a > 0
    ensures Gcd(a, b) == if b == 0 then a else Gcd(b, a % b)
    ensures b > 0 ==> a == b * (a / b) + a % b && 0 <= a % b < b
  {}

  lemma {:induction false} GcdDivides(a: nat, b: nat) returns (p: int, q: int)
    requires a > 0
    ensures a == Gcd(a, b) * p && b == Gcd(a, b) * q
    decreases b
  {
    hide Gcd;
    GcdNext(a, b);
    if b == 0 {
      p, q := 1, 0;
    } else {
      var c := a / b;
      var p', q' := GcdDivides(b, a % b);
      p, q := c * p' + q', p';
      MulSum(Gcd(b, a % b), c, p', q');
    }
  }

  lemma MulSum(g: int, c: int, p: int, q: int)
    ensures g * (c * p + q) == (g * p) * c + g * q
  {}

  lemma {:induction false} Bezout(a: nat, b: nat) returns (u: int, v: int)
    requires a > 0
    ensures a * u - b * v == Gcd(a, b)
    decreases b
  {
    hide Gcd;
    GcdNext(a, b);
    if b == 0 {
      u, v := 1, 0;
    } else {
      var c, r := a / b, a % b;
      var u', v' := Bezout(b, r);
      u, v := 0 - v', 0 - u' - c * v';
      BezoutStep(a, b, c, r, u', v');
    }
  }

  lemma BezoutStep(a: int, b: int, c: int, r: int, u: int, v: int)
    requires a == b * c + r
    ensures a * (0 - v) - b * (0 - u - c * v) == b * u - r * v
  {}

  /** How far below half its side a line's greatest doubled defect stays. */
  function Slack(a: nat, b: nat): (s: nat)
    requires a > 0
    ensures s > 0
  {
    var g := Gcd(a, b);
    if (a / g) % 2 == 1 then g else 2 * g
  }

  lemma SlackIs(a: nat, b: nat, p: int)
    requires a > 0 && a == Gcd(a, b) * p
    ensures Slack(a, b) == Gcd(a, b) * (2 - p % 2)
  {
    hide Gcd;
    ExactQuotient(a, Gcd(a, b), p);
  }

  lemma DefectTop(dx: int, dy: int, i: int, j: int)
    requires dx >= dy >= 0 && dx > 0 && 2 * Defect(dx, dy, i, j) < dx
    ensures 2 * Defect(dx, dy, i, j) <= dx - Slack(dx, dy)
  {
    hide Gcd, Defect, Slack;
    var g := Gcd(dx, dy);
    var p, q := GcdDivides(dx, dy);
    var k := p * j - q * i;
    SlackIs(dx, dy, p);
    DefectScales(g, p, q, i, j);
    Twice(g, k);
    Below(g, 2 * k, p);
    Multiples(g, 2 * k, p, 2 - p % 2);
  }

  lemma Twice(g: int, k: int)
    ensures 2 * (g * k) == g * (2 * k)
  {}

  lemma DefectScales(g: int, p: int, q: int, i: int, j: int)
    ensures Defect(g * p, g * q, i, j) == g * (p * j - q * i)
  {}

  lemma ExactQuotient(a: int, g: int, p: int)
    requires g > 0 && a == g * p
    ensures a / g == p
  {
    assert a == g * (a / g) + a % g;
    assert g * (p - a / g) == g * p - g * (a / g);
    Spread(g, p - a / g);
  }

  lemma Below(g: int, k: int, p: int)
    requires g > 0 && g * k < g * p
    ensures k < p
  {}

  lemma Multiples(g: int, k: int, p: int, e: int)
    requires g > 0
    ensures g * (p - e) == g * p - g * e
    ensures k <= p - e ==> g * k <= g * (p - e)
  {}

  /** There is a point, and not the last, with exactly that defect. */
  lemma TopReached(dx: int, dy: int) returns (i: int, j: int)
    requires dx >= dy >= 0 && dx > 0
    ensures OnLine(dx, dy, i, j) && i < dx && 2 * Defect(dx, dy, i, j) == dx - Slack(dx, dy)
  {
    hide Gcd, Defect, Slack, OnLine;
    var g := Gcd(dx, dy);
    var p, q := GcdDivides(dx, dy);
    var e := 2 - p % 2;
    var k := (p - e) / 2;
    SlackIs(dx, dy, p);
    Multiples(g, 0, p, e);
    Below(g, 0, p);
    Twice(g, k);
    assert 2 * k == p - e;
    i, j := ColumnWith(dx, dy, k);
  }

  lemma ColumnWith(dx: int, dy: int, k: int) returns (i: int, j: int)
    requires dx >= dy >= 0 && dx > 0 && -dx <= 2 * (Gcd(dx, dy) * k) < dx
    ensures OnLine(dx, dy, i, j) && i < dx && Defect(dx, dy, i, j) == Gcd(dx, dy) * k
  {
    hide Gcd, Defect, OnLine;
    var u, v := Bezout(dx, dy);
    var w := v * k;
    var s := w / dx;
    i, j := w % dx, u * k - dy * s;
    Remainder(w, dx);
    ColumnDefect(dx, dy, u, v, k, s, i);
    ColumnPoint(dx, dy, i, j);
  }

  lemma Remainder(w: int, d: int)
    requires d > 0
    ensures w == d * (w / d) + w % d && 0 <= w % d < d
  {}

  lemma ColumnPoint(dx: int, dy: int, i: int, j: int)
    requires dx >= dy >= 0 && dx > 0 && 0 <= i <= dx && -dx <= 2 * Defect(dx, dy, i, j) < dx
    ensures OnLine(dx, dy, i, j)
  {
    InColumn(dx, dy, i, j);
    if j < 0 {
      DefectBelow(dx, dy, i, j);
    }
  }

  lemma DefectBelow(dx: int, dy: int, i: int, j: int)
    requires dx > 0 && dy >= 0 && i >= 0 && j < 0
    ensures Defect(dx, dy, i, j) <= -dx
  {
    assert dx * j <= -dx && dy * i >= 0;
  }

  lemma ColumnDefect(dx: int, dy: int, u: int, v: int, k: int, s: int, i: int)
    requires v * k == dx * s + i
    ensures Defect(dx, dy, i, u * k - dy * s) == (dx * u - dy * v) * k
  {
    assert dx * (u * k - dy * s) == (dx * u) * k - dx * (dy * s);
    assert dy * (dx * s + i) == dx * (dy * s) + dy * i;
    assert (dy * v) * k == dy * (v * k);
  }

  /** A steep line is a flat one with the axes exchanged. */
  lemma Transposed(dx: int, dy: int, i: int, j: int)
    requires 0 <= dx < dy
    ensures Defect(dy, dx, j, i) == -Defect(dx, dy, i, j)
    ensures OnLine(dx, dy, i, j) <==> OnLine(dy, dx, j, i)
  {}

  /** The condition on the sides. */
  lemma LineFitsIff(dx: int, dy: int)
    requires 0 <= dx <= 0x7FFF && 0 <= dy <= 0x7FFF && Max(dx, dy) > 0
    ensures LineFits(dx, dy) <==>
            3 * Max(dx, dy) - 2 * Min(dx, dy) - Slack(Max(dx, dy), Min(dx, dy)) <= if dx >= dy then 0x7FFF else 0x8000
  {
    hide Defect, Slack, OnLine, LineFits;
    var a, b := Max(dx, dy), Min(dx, dy);
    var i, j := TopReached(a, b);
    if dx < dy {
      Transposed(dx, dy, j, i);
    }
    if LineFits(dx, dy) {
      if dx >= dy {
        DoubledFits(dx, dy, i, j);
      } else {
        DoubledFits(dx, dy, j, i);
      }
    } else {
      var x, y := Misfit(dx, dy);
      OnLineNear(dx, dy, x, y);
      if dx >= dy {
        DefectTop(dx, dy, x, y);
      } else {
        Transposed(dx, dy, x, y);
        DefectTop(dy, dx, y, x);
      }
    }
  }

  /** For horizontal and vertical lines up to this length there is nothing to compute. */
  lemma StraightFits(d: int)
    requires 0 <= d <= 0x3FFF
    ensures LineFits(d, 0) && LineFits(0, d)
  {
    hide Defect;
    forall i, j
      ensures OnLine(d, 0, i, j) ==> Defect(d, 0, i, j) == 0
      ensures OnLine(0, d, i, j) ==> Defect(0, d, i, j) == 0
    {
      StraightLine(d, i, j);
    }
  }

  lemma StraightLine(d: int, i: int, j: int)
    ensures OnLine(d, 0, i, j) ==> Defect(d, 0, i, j) == 0
    ensures OnLine(0, d, i, j) ==> Defect(0, d, i, j) == 0
  {}

  lemma Misfit(dx: int, dy: int) returns (i: int, j: int)
    requires dx <= 0x7FFF && dy <= 0x7FFF && !LineFits(dx, dy)
    ensures OnLine(dx, dy, i, j) && !(i == dx && j == dy) && !Is16(2 * (Defect(dx, dy, i, j) + dx - dy))
  {
    hide Defect, OnLine;
    i, j :| OnLine(dx, dy, i, j) && !(i == dx && j == dy) && !Is16(2 * (Defect(dx, dy, i, j) + dx - dy));
  }

  lemma OnLineNear(dx: int, dy: int, i: int, j: int)
    requires OnLine(dx, dy, i, j)
    ensures if dx == dy == 0 then i == j == 0
            else if dx >= dy then -dx <= 2 * Defect(dx, dy, i, j) < dx
            else -dy < 2 * Defect(dx, dy, i, j) <= dy
  {
    hide Defect;
  }

  /** Where it does wrap around, the step leaves the line. */
  lemma WrapLeavesLine(dx: int, dy: int, i: int, j: int)
    requires OnLine(dx, dy, i, j) && !(i == dx && j == dy) && 0 <= dx <= 0x7FFF && 0 <= dy <= 0x7FFF
    requires !Is16(2 * (Defect(dx, dy, i, j) + dx - dy))
    ensures var e2 := I16(2 * (Defect(dx, dy, i, j) + dx - dy));
            !OnLine(dx, dy, if e2 > -dy then i + 1 else i, if e2 < dx then j + 1 else j)
  {
    hide Defect, I16;
    var err := Defect(dx, dy, i, j) + dx - dy;
    var e2 := I16(2 * err);
    WrapAround(2 * err);
    DefectStep(dx, dy, i, j);
  }

  lemma WrapAround(v: int)
    requires -0x1_8000 <= v < 0x1_8000 && !Is16(v)
    ensures I16(v) == if v < 0 then v + 0x1_0000 else v - 0x1_0000
  {}

  /** A sum may be cast before or after the last term is added. */
  lemma CastTwice(a: int, b: int)
    ensures I16(I16(a) + b) == I16(a + b)
  {}

  lemma Diagonal(d: int, i: int, j: int)
    requires OnLine(d, d, i, j)
    ensures i == j && Defect(d, d, i, j) == 0
  {
    if d > 0 {
      assert Defect(d, d, i, j) == d * (j - i);
      Spread(d, j - i);
    }
  }

  /** A nearest point within the first dx columns is within the first dy rows. */
  lemma InColumn(dx: int, dy: int, i: int, j: int)
    requires dx >= dy >= 0 && dx > 0 && 0 <= i <= dx && 2 * Defect(dx, dy, i, j) < dx
    ensures j <= dy
  {
    if j > dy {
      Products(dx, dy, i, j);
    }
  }

  lemma InRow(dx: int, dy: int, i: int, j: int)
    requires 0 <= dx < dy && 0 <= j <= dy && -dy < 2 * Defect(dx, dy, i, j)
    ensures i <= dx
  {
    if i > dx {
      Products(dy, dx, j, i);
    }
  }

  lemma Products(a: int, b: int, i: int, j: int)
    requires 0 <= i <= a && j > b >= 0
    ensures a * j - b * i >= a
  {
    assert a * j >= a * (b + 1);
    assert b * i <= b * a;
  }

  // ----- the walk on 16-bit variables

  /** Steps taken along the two axes, and the error variable. */
  datatype Walker = At(i: int, j: int, err: int)

  /** The side the program works with, for end points that are d apart on an axis. */
  function Side(d: int): int {
    I16(Abs(I16(d)))
  }

  ghost function Step(dx: int, dy: int, w: Walker): Walker {
    var e2 := I16(2 * w.err);
    var err := if e2 > -dy then I16(w.err - dy) else w.err;
    At(if e2 > -dy then w.i + 1 else w.i, if e2 < dx then w.j + 1 else w.j, if e2 < dx then I16(err + dx) else err)
  }

  ghost function Walk(dx: int, dy: int, n: nat): Walker {
    if n == 0 then At(0, 0, I16(dx - dy)) else Step(dx, dy, Walk(dx, dy, n - 1))
  }

  lemma WalkNext(dx: int, dy: int, n: nat)
    ensures Walk(dx, dy, 0) == At(0, 0, I16(dx - dy))
    ensures Walk(dx, dy, n + 1) == Step(dx, dy, Walk(dx, dy, n))
  {}

  /** The walker is at point n of the line. */
  ghost predicate OnPath(dx: int, dy: int, w: Walker, n: int) {
    OnLine(dx, dy, w.i, w.j) && n == if dx >= dy then w.i else w.j
  }

  /** The walk of a line with these sides goes through its points, one after the other. */
  ghost predicate Follows(dx: int, dy: int) {
    forall n: nat :: n <= Max(dx, dy) ==> OnPath(dx, dy, Walk(Side(dx), Side(dy), n), n)
  }

  lemma SideIs(d: int)
    requires 0 <= d <= 0xFFFF
    ensures Side(-d) == Side(d)
    ensures Side(d) == if d <= 0x7FFF then d else if d == 0x8000 then -0x8000 else 0x1_0000 - d
  {
    hide I16;
    Casts(d);
    Casts(-d);
  }

  lemma Casts(d: int)
    requires -0x1_0000 <= d <= 0xFFFF
    ensures I16(d) == if d >= 0x8000 then d - 0x1_0000 else if d < -0x8000 then d + 0x1_0000 else d
    ensures I16(0x8000) == -0x8000
  {}

  /** Where the doubled error fits, the walk is the exact one. */
  lemma {:induction false} FitsFollows(dx: int, dy: int, n: nat)
    requires dx >= 0 && dy >= 0 && LineFits(dx, dy) && n <= Max(dx, dy)
    ensures OnPath(dx, dy, Walk(dx, dy, n), n) && ExactError(dx, dy, Walk(dx, dy, n))
  {
    hide OnPath, ExactError, I16, LineFits, Walk, Step;
    if n == 0 {
      WalkNext(dx, dy, 0);
      FitsStart(dx, dy);
    } else {
      WalkNext(dx, dy, n - 1);
      FitsFollows(dx, dy, n - 1);
      FitsStep(dx, dy, Walk(dx, dy, n - 1), n - 1);
    }
  }

  ghost predicate ExactError(dx: int, dy: int, w: Walker) {
    w.err == Defect(dx, dy, w.i, w.j) + dx - dy
  }

  lemma FitsStart(dx: int, dy: int)
    requires dx >= 0 && dy >= 0 && LineFits(dx, dy)
    ensures OnPath(dx, dy, At(0, 0, I16(dx - dy)), 0) && ExactError(dx, dy, At(0, 0, I16(dx - dy)))
  {
    hide Defect, OnLine, I16, LineFits;
    StartOnLine(dx, dy);
    ErrorFits(dx, dy, 0, 0);
  }

  lemma FitsStep(dx: int, dy: int, w: Walker, n: int)
    requires LineFits(dx, dy) && OnPath(dx, dy, w, n) && ExactError(dx, dy, w) && n < Max(dx, dy)
    ensures OnPath(dx, dy, Step(dx, dy, w), n + 1) && ExactError(dx, dy, Step(dx, dy, w))
  {
    hide Defect, OnLine, I16, LineFits;
    LineStep(dx, dy, w.i, w.j, w.err);
    DoubledFits(dx, dy, w.i, w.j);
    CastTwice(w.err - dy, dx);
    var w' := Step(dx, dy, w);
    ErrorFits(dx, dy, w'.i, w'.j);
  }

  lemma CastDouble(v: int)
    ensures I16(2 * I16(v)) == I16(2 * v)
  {
    hide I16;
    var q := CastIs(v);
    CastShift(2 * v, 0 - 2 * q);
  }

  lemma CastIs(v: int) returns (q: int)
    ensures I16(v) == v - 0x1_0000 * q
  {
    q := (v + 0x8000) / 0x1_0000;
  }

  lemma CastShift(v: int, k: int)
    ensures I16(v + 0x1_0000 * k) == I16(v)
  {}

  /** And a walk that goes through all points has the exact error, up to wrapping. */
  lemma {:induction false} FollowsError(dx: int, dy: int, n: nat)
    requires 0 <= dx <= 0x7FFF && 0 <= dy <= 0x7FFF && Follows(dx, dy) && n <= Max(dx, dy)
    ensures OnPath(dx, dy, Walk(dx, dy, n), n) && WrappedError(dx, dy, Walk(dx, dy, n))
  {
    hide WrappedError, OnPath, I16, Walk, Step, Side, Follows;
    SideIs(dx);
    SideIs(dy);
    FollowsAt(dx, dy, n);
    if n == 0 {
      WalkNext(dx, dy, 0);
      WrappedStart(dx, dy);
    } else {
      WalkNext(dx, dy, n - 1);
      FollowsError(dx, dy, n - 1);
      WrappedStep(dx, dy, Walk(dx, dy, n - 1));
    }
  }

  ghost predicate WrappedError(dx: int, dy: int, w: Walker) {
    w.err == I16(Defect(dx, dy, w.i, w.j) + dx - dy)
  }

  lemma WrappedStart(dx: int, dy: int)
    ensures WrappedError(dx, dy, At(0, 0, I16(dx - dy)))
  {}

  lemma WrappedStep(dx: int, dy: int, w: Walker)
    requires WrappedError(dx, dy, w)
    ensures WrappedError(dx, dy, Step(dx, dy, w))
  {
    hide Defect, I16;
    var err := Defect(dx, dy, w.i, w.j) + dx - dy;
    CastTwice(err, -dy);
    CastTwice(err, dx);
    CastTwice(err - dy, dx);
    DefectStep(dx, dy, w.i, w.j);
  }

  /** For sides that fit a coordinate, the walk is right exactly when the doubled error fits all along. */
  lemma LineFitsExactly(dx: int, dy: int)
    requires 0 <= dx <= 0x7FFF && 0 <= dy <= 0x7FFF
    ensures LineFits(dx, dy) <==> Follows(dx, dy)
  {
    hide Defect, OnLine, I16, Walk, Side;
    SideIs(dx);
    SideIs(dy);
    if LineFits(dx, dy) {
      forall n: nat | n <= Max(dx, dy)
        ensures OnPath(dx, dy, Walk(Side(dx), Side(dy), n), n)
      {
        FitsFollows(dx, dy, n);
      }
    }
    if Follows(dx, dy) {
      forall i, j | OnLine(dx, dy, i, j) && !(i == dx && j == dy)
        ensures Is16(2 * (Defect(dx, dy, i, j) + dx - dy))
      {
        PointFits(dx, dy, i, j);
      }
    }
  }

  lemma PointFits(dx: int, dy: int, i: int, j: int)
    requires 0 <= dx <= 0x7FFF && 0 <= dy <= 0x7FFF && Follows(dx, dy)
    requires OnLine(dx, dy, i, j) && !(i == dx && j == dy)
    ensures Is16(2 * (Defect(dx, dy, i, j) + dx - dy))
  {
    hide Defect, OnLine, I16, Walk, Follows;
    var n := if dx >= dy then i else j;
    OnLineIn(dx, dy, i, j);
    if n == Max(dx, dy) {
      EndOnLine(dx, dy, i, j);
    }
    FollowsError(dx, dy, n);
    FollowsError(dx, dy, n + 1);
    WalkNext(dx, dy, n);
    var w := Walk(dx, dy, n);
    OnLineUnique(dx, dy, i, j, w.i, w.j);
    CastDouble(Defect(dx, dy, i, j) + dx - dy);
    if !Is16(2 * (Defect(dx, dy, i, j) + dx - dy)) {
      WrapLeavesLine(dx, dy, i, j);
    }
  }

  /** The shortest horizontal line that goes wrong: the first step is up instead of right. */
  lemma ShortestWrong()
    ensures Walk(0x4000, 0, 1) == At(0, 1, -0x8000)
    ensures !LineFits(0x4000, 0) && forall d :: 0 <= d < 0x4000 ==> LineFits(d, 0)
  {
    hide OnLine, LineFits, Walk, I16, Defect;
    forall d | 0 <= d < 0x4000
      ensures LineFits(d, 0)
    {
      StraightFits(d);
    }
    StartOnLine(0x4000, 0);
    WalkNext(0x4000, 0, 0);
    Casts(0);
    if LineFits(0x4000, 0) {
      DoubledFits(0x4000, 0, 0, 0);
    }
  }

  // Long straight lines, whose sides wrap around.

  lemma {:induction false} HorizontalWalk(d: int, n: nat)
    requires 0 < d <= 0x3FFF
    ensures Walk(d, 0, n) == At(n, 0, d)
  {
    hide I16;
    if n > 0 {
      HorizontalWalk(d, n - 1);
    }
  }

  lemma {:induction false} VerticalWalk(d: int, n: nat)
    requires 0 < d <= 0x4000
    ensures Walk(0, d, n) == At(0, n, -d)
  {
    hide I16;
    if n > 0 {
      VerticalWalk(d, n - 1);
    }
  }

  lemma {:induction false} DiagonalWalk(d: int, n: nat)
    requires 0 < d <= 0x7FFF
    ensures Walk(d, d, n) == At(n, n, 0)
  {
    hide I16;
    if n > 0 {
      DiagonalWalk(d, n - 1);
    }
  }

  lemma StraightOnLine(d: int, n: int)
    requires 0 <= n <= d
    ensures OnLine(d, 0, n, 0) && OnLine(0, d, 0, n) && OnLine(d, d, n, n)
  {}

  lemma FirstStep(dx: int, dy: int)
    requires 0 <= dx && 0 <= dy && Max(dx, dy) > 0 && Follows(dx, dy)
    ensures var w := Step(Side(dx), Side(dy), At(0, 0, I16(Side(dx) - Side(dy))));
            1 == if dx >= dy then w.i else w.j
  {
    hide OnLine, I16, Side, Step;
    assert OnPath(dx, dy, Walk(Side(dx), Side(dy), 1), 1);
    WalkNext(Side(dx), Side(dy), 0);
  }

  lemma HorizontalExactly(d: int)
    requires 0 <= d <= 0xFFFF
    ensures Follows(d, 0) <==> d <= 0x3FFF || d > 0xC000
  {
    hide OnLine, I16, Walk, Side, Follows;
    SideIs(d);
    SideIs(0);
    if d <= 0x7FFF && (d <= 0x3FFF || d > 0xC000) {
      StraightFits(d);
      LineFitsExactly(d, 0);
    } else if d > 0xC000 {
      forall n: nat | n <= Max(d, 0)
        ensures OnPath(d, 0, Walk(Side(d), Side(0), n), n)
      {
        HorizontalWalk(0x1_0000 - d, n);
        StraightOnLine(d, n);
      }
      FollowsIf(d, 0);
    } else if Follows(d, 0) {
      FirstStep(d, 0);
      Casts(2 * Side(d));
    }
  }

  lemma FollowsIf(dx: int, dy: int)
    requires forall n: nat :: n <= Max(dx, dy) ==> OnPath(dx, dy, Walk(Side(dx), Side(dy), n), n)
    ensures Follows(dx, dy)
  {
    hide Walk, Side, OnPath;
  }

  lemma VerticalExactly(d: int)
    requires 0 <= d <= 0xFFFF
    ensures Follows(0, d) <==> d <= 0x4000 || d >= 0xC000
  {
    hide OnLine, I16, Walk, Side, Follows;
    SideIs(d);
    SideIs(0);
    if d == 0 {
      StraightFits(0);
      LineFitsExactly(0, 0);
    } else if d <= 0x4000 || d >= 0xC000 {
      forall n: nat | n <= Max(0, d)
        ensures OnPath(0, d, Walk(Side(0), Side(d), n), n)
      {
        VerticalWalk(Side(d), n);
        StraightOnLine(d, n);
      }
      FollowsIf(0, d);
    } else if Follows(0, d) {
      FirstStep(0, d);
      Casts(-Side(d));
      Casts(2 * I16(-Side(d)));
    }
  }

  lemma DiagonalExactly(d: int)
    requires 0 <= d <= 0xFFFF
    ensures Follows(d, d) <==> d != 0x8000
  {
    hide OnLine, I16, Walk, Side, Follows;
    SideIs(d);
    if d == 0 {
      StraightFits(0);
      LineFitsExactly(0, 0);
    } else if d != 0x8000 {
      forall n: nat | n <= Max(d, d)
        ensures OnPath(d, d, Walk(Side(d), Side(d), n), n)
      {
        DiagonalWalk(Side(d), n);
        StraightOnLine(d, n);
      }
      FollowsIf(d, d);
    } else if Follows(d, d) {
      FirstStep(d, d);
    }
  }

  /** The sides the walk is right for. */
  ghost predicate Drawable(dx: int, dy: int) {
    || LineFits(dx, dy)
    || (dy == 0 && dx > 0xC000) || (dx == 0 && dy >= 0xC000) || (dx == dy && dx > 0x8000)
  }

  lemma DrawableFollows(dx: int, dy: int)
    requires 0 <= dx <= 0xFFFF && 0 <= dy <= 0xFFFF && Drawable(dx, dy)
    ensures Follows(dx, dy)
  {
    hide Follows, LineFits;
    if LineFits(dx, dy) {
      LineFitsParts(dx, dy);
      LineFitsExactly(dx, dy);
    } else if dy == 0 {
      HorizontalExactly(dx);
    } else if dx == 0 {
      VerticalExactly(dy);
    } else {
      DiagonalExactly(dx);
    }
  }

  /** Exactly those, among the sides that fit a coordinate and among straight and diagonal lines of any length. */
  lemma DrawableExactly(dx: int, dy: int)
    requires 0 <= dx <= 0xFFFF && 0 <= dy <= 0xFFFF
    requires (dx <= 0x7FFF && dy <= 0x7FFF) || dx == 0 || dy == 0 || dx == dy
    ensures Drawable(dx, dy) <==> Follows(dx, dy)
  {
    hide Follows, LineFits;
    if Drawable(dx, dy) {
      DrawableFollows(dx, dy);
    } else if dx <= 0x7FFF && dy <= 0x7FFF {
      LineFitsExactly(dx, dy);
    } else if dy == 0 {
      HorizontalExactly(dx);
    } else if dx == 0 {
      VerticalExactly(dy);
    } else {
      DiagonalExactly(dx);
    }
  }

  /** With a side of 32768 the walk of a straight or diagonal line does not even leave its first point. */
  lemma {:induction false} Stuck(n: nat)
    ensures Walk(Side(0x8000), 0, n) == Walk(0, Side(0x8000), n) == At(0, 0, -0x8000)
    ensures Walk(Side(0x8000), Side(0x8000), n) == At(0, 0, 0)
  {
    SideIs(0x8000);
    if n > 0 {
      Stuck(n - 1);
    }
  }

  /** One iteration, on the program's variables; w counts the steps along the two axes. */
  method StepOn(x: int, y: int, err: int, dx: int, dy: int, sx: int, sy: int, ghost w: Walker)
    returns (x': int, y': int, err': int)
    requires w.err == err
    ensures var w' := Step(dx, dy, w);
            && w.i <= w'.i <= w.i + 1 && w.j <= w'.j <= w.j + 1 && err' == w'.err
            && x' == (if w'.i == w.i then x else I16(x + sx)) && y' == if w'.j == w.j then y else I16(y + sy)
  {
    hide I16;
    x', y', err' := x, y, err;
    var e2 := I16(2 * err);
    if e2 > -dy {
      err' := I16(err' - dy);
      x' := I16(x + sx);
    }
    if e2 < dx {
      err' := I16(err' + dx);
      y' := I16(y + sy);
    }
  }

  /** The pixel a walker is at, in the direction of the end point. */
  ghost predicate Stands(p: Pixel, w: Walker, x0: int, y0: int, x1: int, y1: int) {
    p.x == x0 + (if x0 < x1 then w.i else -w.i) && p.y == y0 + if y0 < y1 then w.j else -w.j
  }

  /** Bresenham's walk: from (x0, y0) to (x1, y1) in max(dx, dy) + 1 pixels. */
  method Line(x0: int, y0: int, x1: int, y1: int) returns (trace: seq<Pixel>)
    requires Is16(x0) && Is16(y0) && Is16(x1) && Is16(y1)
    requires Drawable(Abs(x1 - x0), Abs(y1 - y0))
    ensures |trace| == Max(Abs(x1 - x0), Abs(y1 - y0)) + 1
    ensures trace[0] == Pixel(x0, y0) && trace[|trace| - 1] == Pixel(x1, y1)
    ensures IsLine(trace, x0, y0, x1, y1)
  {
    hide OnPath, Stands, IsLine, Adjacent, I16, Drawable, Follows, Side, Step, Walk;
    ghost var u, v := Abs(x1 - x0), Abs(y1 - y0);
    DrawableFollows(u, v);
    SideIs(u);
    SideIs(v);
    var dx := Side(x1 - x0);
    var dy := Side(y1 - y0);
    var sx := if x0 < x1 then 1 else -1;
    var sy := if y0 < y1 then 1 else -1;
    var err := I16(dx - dy);
    var x, y := x0, y0;
    trace := [];
    ghost var w := Walk(dx, dy, 0);
    WalkNext(dx, dy, 0);
    FollowsAt(u, v, 0);
    StandsFirst(w, x0, y0, x1, y1);
    LineStarts(x0, y0, x1, y1);
    while true
      invariant w == Walk(dx, dy, |trace|) && w.err == err && |trace| <= Max(u, v)
      invariant OnPath(u, v, w, |trace|) && Stands(Pixel(x, y), w, x0, y0, x1, y1)
      invariant IsLine(trace, x0, y0, x1, y1)
      invariant if trace == [] then x == x0 && y == y0
                else trace[0] == Pixel(x0, y0) && Adjacent(trace[|trace| - 1], Pixel(x, y))
      decreases Max(u, v) - |trace|
    {
      LineGrows(trace, Pixel(x, y), w, x0, y0, x1, y1);
      LastPoint(Pixel(x, y), w, |trace|, x0, y0, x1, y1);
      trace := trace + [Pixel(x, y)];
      if x == x1 && y == y1 {
        break;
      }
      ghost var p, before := Pixel(x, y), w;
      WalkNext(dx, dy, |trace| - 1);
      x, y, err := StepOn(x, y, err, dx, dy, sx, sy, w);
      w := Step(dx, dy, w);
      FollowsAt(u, v, |trace|);
      StandsNext(p, before, Pixel(x, y), w, |trace|, x0, y0, x1, y1);
    }
  }

  lemma StandsFirst(w: Walker, x0: int, y0: int, x1: int, y1: int)
    requires w.i == w.j == 0
    ensures Stands(Pixel(x0, y0), w, x0, y0, x1, y1)
  {}

  lemma StandsNext(p: Pixel, w: Walker, p': Pixel, w': Walker, n: int, x0: int, y0: int, x1: int, y1: int)
    requires Is16(x0) && Is16(y0) && Is16(x1) && Is16(y1)
    requires Stands(p, w, x0, y0, x1, y1)
    requires OnPath(Abs(x1 - x0), Abs(y1 - y0), w, n - 1) && OnPath(Abs(x1 - x0), Abs(y1 - y0), w', n)
    requires w.i <= w'.i <= w.i + 1 && w.j <= w'.j <= w.j + 1
    requires p'.x == (if w'.i == w.i then p.x else I16(p.x + if x0 < x1 then 1 else -1))
    requires p'.y == (if w'.j == w.j then p.y else I16(p.y + if y0 < y1 then 1 else -1))
    ensures Stands(p', w', x0, y0, x1, y1) && Adjacent(p, p')
  {
    hide OnLine, I16;
    OnLineIn(Abs(x1 - x0), Abs(y1 - y0), w'.i, w'.j);
    OnLineIn(Abs(x1 - x0), Abs(y1 - y0), w.i, w.j);
  }

  lemma FollowsAt(dx: int, dy: int, n: nat)
    requires Follows(dx, dy) && n <= Max(dx, dy)
    ensures OnPath(dx, dy, Walk(Side(dx), Side(dy), n), n)
  {
    hide OnPath, Walk, Side;
  }

  /** The stop test is met at the last point and at no other. */
  lemma LastPoint(p: Pixel, w: Walker, n: int, x0: int, y0: int, x1: int, y1: int)
    requires OnPath(Abs(x1 - x0), Abs(y1 - y0), w, n) && Stands(p, w, x0, y0, x1, y1)
    ensures p == Pixel(x1, y1) <==> n == Max(Abs(x1 - x0), Abs(y1 - y0))
  {
    hide OnLine;
    var dx, dy := Abs(x1 - x0), Abs(y1 - y0);
    OnLineIn(dx, dy, w.i, w.j);
    if n == Max(dx, dy) {
      EndOnLine(dx, dy, w.i, w.j);
    }
  }

  lemma LineFitsParts(dx: int, dy: int)
    requires LineFits(dx, dy)
    ensures dx <= 0x7FFF && dy <= 0x7FFF
  {}

  lemma DoubledFits(dx: int, dy: int, i: int, j: int)
    requires LineFits(dx, dy) && OnLine(dx, dy, i, j) && !(i == dx && j == dy)
    ensures Is16(2 * (Defect(dx, dy, i, j) + dx - dy))
  {
    hide Defect;
  }

  /** The error itself fits at every point, the end included. */
  lemma ErrorFits(dx: int, dy: int, i: int, j: int)
    requires LineFits(dx, dy) && OnLine(dx, dy, i, j)
    ensures Is16(Defect(dx, dy, i, j) + dx - dy)
  {
    if i == dx && j == dy {
      assert Defect(dx, dy, dx, dy) == 0;
    } else {
      DoubledFits(dx, dy, i, j);
    }
  }

  lemma LineStarts(x0: int, y0: int, x1: int, y1: int)
    ensures IsLine([], x0, y0, x1, y1)
  {}

  lemma LineGrows(trace: seq<Pixel>, p: Pixel, w: Walker, x0: int, y0: int, x1: int, y1: int)
    requires IsLine(trace, x0, y0, x1, y1) && Stands(p, w, x0, y0, x1, y1)
    requires OnPath(Abs(x1 - x0), Abs(y1 - y0), w, |trace|)
    requires trace != [] ==> Adjacent(trace[|trace| - 1], p)
    ensures IsLine(trace + [p], x0, y0, x1, y1)
  {
    hide OnPath, Stands, Adjacent, LinePixel;
    PixelOnLine(p, w, |trace|, x0, y0, x1, y1);
  }

  lemma PixelOnLine(p: Pixel, w: Walker, n: int, x0: int, y0: int, x1: int, y1: int)
    requires OnPath(Abs(x1 - x0), Abs(y1 - y0), w, n) && Stands(p, w, x0, y0, x1, y1)
    ensures LinePixel(p, n, x0, y0, x1, y1)
  {
    hide OnLine;
    OnLineIn(Abs(x1 - x0), Abs(y1 - y0), w.i, w.j);
  }

  lemma StartOnLine(dx: int, dy: int)
    requires dx >= 0 && dy >= 0
    ensures OnLine(dx, dy, 0, 0) && Defect(dx, dy, 0, 0) == 0
  {}

  lemma OnLineIn(dx: int, dy: int, i: int, j: int)
    requires OnLine(dx, dy, i, j)
    ensures 0 <= i <= dx && 0 <= j <= dy
  {}

  // ----- circles

  /** In row y of the octant, x is the abscissa of the circle rounded to the nearest integer. */
  ghost predicate Octant(r: int, x: int, y: int) {
    0 <= y <= x && x * x - x + y * y <= r * r < x * x + x + y * y
  }

  /** The same in all eight octants. */
  ghost predicate OnCircle(r: int, a: int, b: int) {
    Octant(r, Max(Abs(a), Abs(b)), Min(Abs(a), Abs(b)))
  }

  ghost function Four(cx: int, cy: int, x: int, y: int): seq<Pixel> {
    [Pixel(cx + x, cy + y), Pixel(cx - x, cy + y), Pixel(cx + x, cy - y), Pixel(cx - x, cy - y)]
  }

  /** The eight pixels of a point of the octant, in the order they are drawn. */
  ghost function Eight(cx: int, cy: int, x: int, y: int): seq<Pixel> {
    Four(cx, cy, x, y) + Four(cx, cy, y, x)
  }

  /** The drawing of octant points (xs[0], 0), (xs[1], 1), ... */
  ghost function Drawn(cx: int, cy: int, xs: seq<int>): seq<Pixel> {
    if xs == [] then [] else Drawn(cx, cy, xs[..|xs| - 1]) + Eight(cx, cy, xs[|xs| - 1], |xs| - 1)
  }

  lemma Squares(x: int, x': int)
    requires 0 <= x < x'
    ensures x' * x' - x' >= x * x + x
  {
    ProductMono(x + 1, x', x, x' - 1);
    assert (x + 1) * x == x * x + x && x' * (x' - 1) == x' * x' - x';
  }

  lemma ProductMono(a: int, b: int, c: int, d: int)
    requires 0 <= a <= b && 0 <= c <= d
    ensures a * c <= b * d
  {
    assert a * c <= b * c <= b * d;
  }

  lemma SquareMono(y: int, y': int)
    requires 0 <= y <= y'
    ensures y * y <= y' * y'
  {
    assert y * y <= y * y' <= y' * y';
  }

  /** There is at most one point of the circle in a row of the octant. */
  lemma OctantUnique(r: int, x: int, x': int, y: int)
    requires Octant(r, x, y) && Octant(r, x', y)
    ensures x == x'
  {
    if x < x' {
      Squares(x, x');
    } else if x' < x {
      Squares(x', x);
    }
  }

  /** From the row where the walk stops on there is none. */
  lemma OctantEnds(r: int, x: int, y: int, x': int, y': int)
    requires 0 <= x < y && r * r < x * x + x + y * y
    ensures y' >= y ==> !Octant(r, x', y')
  {
    if y' >= y && x' >= y' {
      Squares(x, x');
      SquareMono(y, y');
    }
  }

  /** The decision variable of the walk. */
  ghost function Decision(r: int, x: int, y: int): int {
    x * x - x + (y + 1) * (y + 1) - r * r
  }

  /** One step down: the decision's sign says whether x moves in. */
  lemma CircleStep(r: int, x: int, y: int)
    requires Octant(r, x, y) && r >= 1
    ensures var d := Decision(r, x, y);
            var x' := if d <= 0 then x else x - 1;
            && x' >= 0 && r * r < x' * x' + x' + (y + 1) * (y + 1)
            && (x' >= y + 1 ==> Octant(r, x', y + 1))
            && Decision(r, x', y + 1) == (if d <= 0 then d + 2 * (y + 1) + 1 else d + 2 * (y + 1 - x') + 1)
            && -2 * x + 2 * y + 1 < d <= 2 * y + 1
  {
    assert (y + 1) * (y + 1) == y * y + 2 * y + 1;
    assert (y + 2) * (y + 2) == y * y + 4 * y + 4;
    assert (x - 1) * (x - 1) == x * x - 2 * x + 1;
  }

  // The decision variable must fit 16 bits wherever the walk looks at it.

  ghost predicate CircleFits(r: int) {
    forall x, y :: Octant(r, x, y) ==> Is16(Decision(r, x, y))
  }

  /** The radii for which it does, among those that fit a coordinate. */
  predicate RadiusFits(r: int) {
    r <= 16556 || 16641 <= r <= 16643
  }

  lemma CircleFitsExactly(r: int)
    requires 1 <= r <= 0x7FFF
    ensures CircleFits(r) <==> RadiusFits(r)
  {
    hide Octant, Decision;
    if RadiusFits(r) {
      forall x, y | Octant(r, x, y)
        ensures Is16(Decision(r, x, y))
      {
        DecisionFits(r, x, y);
      }
    } else {
      var x, y := FirstColumnIn(r);
    }
  }

  /** The first failing radius and the point where it fails. */
  lemma FirstFailing()
    ensures Octant(16557, 16556, 129) && !Is16(Decision(16557, 16556, 129))
    ensures !CircleFits(16557) && forall r :: 1 <= r < 16557 ==> CircleFits(r)
  {
    hide Octant, Decision, CircleFits;
    EdgePoint(16557, 128);
    forall r | 1 <= r < 16557
      ensures CircleFits(r)
    {
      CircleFitsExactly(r);
    }
    CircleFitsExactly(16557);
  }

  /** Where it fails for a large radius: the topmost point of the column next to the edge. */
  lemma FirstColumnIn(r: int) returns (x: int, y: int)
    requires 1 <= r <= 0x7FFF && !RadiusFits(r)
    ensures Octant(r, x, y) && y < x && !Is16(Decision(r, x, y))
  {
    hide Octant, Decision;
    var s := RootOf(r);
    RootRange(r, s);
    EdgePoint(r, s);
    x, y := r - 1, s + 1;
  }

  /** The square root, rounded down. */
  lemma {:induction false} RootOf(r: int) returns (s: int)
    requires r >= 0
    ensures s >= 0 && s * s <= r < (s + 1) * (s + 1)
    decreases r
  {
    s := 0;
    if r > 0 {
      s := RootOf(r - 1);
      if (s + 1) * (s + 1) == r {
        s := s + 1;
      }
      assert (s + 1) * (s + 1) == s * s + 2 * s + 1;
    }
  }

  lemma RootRange(r: int, s: int)
    requires 1 <= r <= 0x7FFF && !RadiusFits(r) && s >= 0 && s * s <= r < (s + 1) * (s + 1)
    ensures s >= 128 && (s + 2) * (s + 2) < 3 * r - 0x8002
  {
    if s < 128 {
      SquareMono(s + 1, 128);
    }
    if s >= 130 {
      SquareMono(130, s);
      assert (s + 2) * (s + 2) == s * s + 4 * s + 4;
      assert s * s >= 130 * s;
    }
  }

  lemma EdgePoint(r: int, s: int)
    requires 128 <= s && s * s <= r < (s + 1) * (s + 1) && (s + 2) * (s + 2) < 3 * r - 0x8002
    ensures Octant(r, r - 1, s + 1) && s + 1 < r - 1 && Decision(r, r - 1, s + 1) < -0x8000
  {
    assert s * s >= 128 * s;
    assert (r - 1) * (r - 1) == r * r - 2 * r + 1;
    assert (s + 2) * (s + 2) == (s + 1) * (s + 1) + 2 * s + 3;
  }

  lemma DecisionFits(r: int, x: int, y: int)
    requires r >= 1 && RadiusFits(r) && Octant(r, x, y)
    ensures Is16(Decision(r, x, y))
  {
    hide Octant, Decision;
    CircleStep(r, x, y);
    OctantWithin(r, x, y);
    OctantSide(r, x, y);
    OctantLow(r, x, y);
    if r >= 0x4000 {
      if x >= r - 1 {
        NearTheEdge(r, x, y);
      } else {
        FurtherIn(r, x, y);
      }
    }
  }

  lemma OctantLow(r: int, x: int, y: int)
    requires Octant(r, x, y) && 1 <= r <= 16643
    ensures y < 0x3FFF
  {
    if y >= 0x3FFF {
      SquareMono(r, 16643);
      Diagonally(x, y);
    }
  }

  lemma Diagonally(x: int, y: int)
    requires x >= y >= 0x3FFF
    ensures x * x - x + y * y > 16643 * 16643
  {
    SquareMono(0x3FFF, y);
    assert x * (x - 1) >= y * (y - 1);
  }

  /** The octant does not reach down to row r, for a radius above 1. */
  lemma OctantBelow(r: int, x: int, y: int)
    requires Octant(r, x, y) && r > 1
    ensures y < r
  {
    OctantWithin(r, x, y);
    assert r * r >= 2 * r;
  }

  lemma NearTheEdge(r: int, x: int, y: int)
    requires Octant(r, x, y) && 0x4000 <= r && RadiusFits(r) && r - 1 <= x <= r
    ensures Decision(r, x, y) >= -0x8000
  {
    SquareMono(1, y + 1);
    if x == r - 1 {
      assert (r - 1) * (r - 1) == r * r - 2 * r + 1;
      assert y * y > r;
      var s := if r <= 16556 then 129 else 130;
      if y < s {
        SquareMono(y, s - 1);
        assert false;
      }
      SquareMono(s + 1, y + 1);
    }
  }

  lemma FurtherIn(r: int, x: int, y: int)
    requires Octant(r, x, y) && 0x4000 <= r && RadiusFits(r) && x <= r - 2
    ensures Decision(r, x, y) >= -0x8000
  {
    hide Octant, Decision;
    CircleStep(r, x, y);
    if r <= 16556 {
      RowsIn(r, x, y, 222);
    } else if x == r - 2 {
      RowsIn(r, x, y, 224);
      DecisionAt(r, y);
    } else {
      RowsIn(r, x, y, 256);
    }
  }

  lemma RowsIn(r: int, x: int, y: int, h: int)
    requires Octant(r, x, y) && 0x4000 <= r && 0 < h
    requires (x == r - 2 && (h - 1) * (h - 1) < 3 * r - 2) || (x <= r - 3 && (h - 1) * (h - 1) < 5 * r - 6)
    ensures y >= h
  {
    var c := if x == r - 2 then r - 1 else r - 2;
    Squares(x, c);
    assert (r - 1) * (r - 1) == r * r - 2 * r + 1;
    assert (r - 2) * (r - 2) == r * r - 4 * r + 4;
    if y < h {
      SquareMono(y, h - 1);
      assert false;
    }
  }

  lemma DecisionAt(r: int, y: int)
    requires y >= 224 && r <= 16643
    ensures Decision(r, r - 2, y) >= -0x8000
  {
    SquareMono(225, y + 1);
    assert (r - 2) * (r - 2) == r * r - 4 * r + 4;
  }

  /** Where it does wrap around, the step leaves the circle; the walk goes on there, unless it was at its last point. */
  lemma WrapLeavesCircle(r: int, x: int, y: int)
    requires 1 <= r <= 0x7FFF && Octant(r, x, y) && !Is16(Decision(r, x, y))
    ensures var x' := if I16(Decision(r, x, y)) <= 0 then x else x - 1;
            !Octant(r, x', y + 1) && (x > y ==> x' >= y + 1)
  {
    hide Octant, Decision, I16;
    CircleStep(r, x, y);
    OctantWithin(r, x, y);
    OctantSide(r, x, y);
    WrapAround(Decision(r, x, y));
    NotBelow(r, x, y);
  }

  /** The point below is on the circle only for a decision of one sign, the one next to it only for the other. */
  lemma NotBelow(r: int, x: int, y: int)
    ensures Octant(r, x, y + 1) ==> Decision(r, x, y) <= 0
    ensures Octant(r, x - 1, y + 1) ==> Decision(r, x, y) > 0
  {
    assert (x - 1) * (x - 1) == x * x - 2 * x + 1;
  }

  /** No point of the octant is further out than the radius. */
  lemma OctantWithin(r: int, x: int, y: int)
    requires Octant(r, x, y) && r >= 1
    ensures x <= r
  {
    if x > r {
      Squares(r, x);
    }
  }

  // ----- the walk on 16-bit variables

  /** The program's three variables. */
  datatype Pen = Pen(x: int, y: int, d: int)

  ghost function Turn(p: Pen): Pen {
    var y := I16(p.y + 1);
    var x := if p.d <= 0 then p.x else I16(p.x - 1);
    Pen(x, y, if p.d <= 0 then I16(p.d + 2 * y + 1) else I16(p.d + 2 * (y - x) + 1))
  }

  ghost function CircleWalk(r: int, n: nat): Pen {
    if n == 0 then Pen(I16(r), 0, I16(1 - I16(r))) else Turn(CircleWalk(r, n - 1))
  }

  /** The loop reaches its n-th iteration. */
  ghost predicate Runs(r: int, n: nat) {
    CircleWalk(r, n).x >= CircleWalk(r, n).y && (n > 0 ==> Runs(r, n - 1))
  }

  lemma CircleNext(r: int, n: nat)
    ensures CircleWalk(r, 0) == Pen(I16(r), 0, I16(1 - I16(r)))
    ensures CircleWalk(r, n + 1) == Turn(CircleWalk(r, n))
    ensures Runs(r, 0) <==> CircleWalk(r, 0).x >= CircleWalk(r, 0).y
    ensures Runs(r, n + 1) <==> Runs(r, n) && CircleWalk(r, n + 1).x >= CircleWalk(r, n + 1).y
  {}

  lemma {:induction false} RunsBefore(r: int, n: nat, k: nat)
    requires Runs(r, n) && k <= n
    ensures Runs(r, k)
  {
    if k < n {
      RunsBefore(r, n - 1, k);
    }
  }

  /** Point n of the walk, with the decision the program should have there. */
  ghost predicate AtPoint(r: int, n: int, p: Pen) {
    Octant(r, p.x, p.y) && p.y == n && p.d == I16(Decision(r, p.x, p.y))
  }

  lemma PointStart(r: int)
    requires 1 <= r <= 0x7FFF
    ensures AtPoint(r, 0, CircleWalk(r, 0)) && Runs(r, 0)
  {
    hide Octant, Decision, I16;
    CircleStart(r);
    OctantSide(r, r, 0);
  }

  /** One iteration where the decision fits: the next point, or the end of the octant. */
  lemma PointNext(r: int, n: nat, p: Pen)
    requires 1 <= r <= 0x7FFF && AtPoint(r, n, p) && Is16(Decision(r, p.x, p.y))
    ensures var q := Turn(p);
            && q.y == n + 1 && q.x >= 0 && r * r < q.x * q.x + q.x + q.y * q.y
            && (q.x >= q.y ==> AtPoint(r, n + 1, q))
  {
    hide Octant, Decision, I16;
    CircleStep(r, p.x, p.y);
    OctantWithin(r, p.x, p.y);
    OctantSide(r, p.x, p.y);
    if r > 1 {
      OctantBelow(r, p.x, p.y);
    }
  }

  /** And where it does not: a point off the circle, unless this was the last one. */
  lemma PointWraps(r: int, n: nat, p: Pen)
    requires 1 <= r <= 0x7FFF && AtPoint(r, n, p) && !Is16(Decision(r, p.x, p.y))
    ensures var q := Turn(p);
            !Octant(r, q.x, q.y) && q.y == n + 1 && (p.x > p.y ==> q.x >= q.y)
  {
    hide Octant, Decision, I16;
    WrapLeavesCircle(r, p.x, p.y);
    OctantWithin(r, p.x, p.y);
    OctantSide(r, p.x, p.y);
    if r > 1 {
      OctantBelow(r, p.x, p.y);
    }
  }

  /** For a good radius every point the walk draws is the circle's. */
  lemma {:induction false} WalkStays(r: int, n: nat)
    requires 1 <= r <= 0x7FFF && CircleFits(r) && Runs(r, n)
    ensures AtPoint(r, n, CircleWalk(r, n))
  {
    hide Decision, Octant, CircleWalk, Runs;
    if n == 0 {
      PointStart(r);
    } else {
      CircleNext(r, n - 1);
      WalkStays(r, n - 1);
      DecisionOf(r, CircleWalk(r, n - 1).x, CircleWalk(r, n - 1).y);
      PointNext(r, n - 1, CircleWalk(r, n - 1));
    }
  }

  /** The walk draws points of the circle only. */
  ghost predicate Stays(r: int) {
    forall n: nat :: Runs(r, n) ==> Octant(r, CircleWalk(r, n).x, CircleWalk(r, n).y)
  }

  /** If it does, it comes to every point above the diagonal. */
  lemma {:induction false} WalkReaches(r: int, n: nat, u: int, v: int)
    requires 1 <= r <= 0x7FFF && Stays(r) && Octant(r, u, v) && v < u && n <= v
    ensures Runs(r, n) && AtPoint(r, n, CircleWalk(r, n))
  {
    hide Decision, Octant, CircleWalk, Runs, Stays, Turn;
    if n == 0 {
      PointStart(r);
    } else {
      CircleNext(r, n - 1);
      WalkReaches(r, n - 1, u, v);
      var p, q := CircleWalk(r, n - 1), CircleWalk(r, n);
      OctantSide(r, p.x, p.y);
      if !Is16(Decision(r, p.x, p.y)) {
        PointWraps(r, n - 1, p);
        if p.x == p.y {
          NoneAbove(r, p.x, u, v);
        }
        StaysAt(r, n);
        assert false;
      } else {
        PointNext(r, n - 1, p);
        if q.x < q.y {
          OctantEnds(r, q.x, q.y, u, v);
        }
      }
    }
  }

  lemma StaysAt(r: int, n: nat)
    requires Stays(r) && Runs(r, n)
    ensures Octant(r, CircleWalk(r, n).x, CircleWalk(r, n).y)
  {
    hide Octant, CircleWalk, Runs;
  }

  /** Where the octant meets the diagonal, no point is further down. */
  lemma NoneAbove(r: int, x: int, u: int, v: int)
    requires Octant(r, x, x) && x < v < u
    ensures !Octant(r, u, v)
  {
    Squares(x, u);
    SquareMono(x, v);
  }

  lemma StaysFits(r: int, u: int, v: int)
    requires 1 <= r <= 0x7FFF && Stays(r) && Octant(r, u, v) && v < u
    ensures Is16(Decision(r, u, v))
  {
    hide Octant, Decision, CircleWalk, Runs, Turn, Stays;
    OctantSide(r, u, v);
    WalkReaches(r, v, u, v);
    CircleNext(r, v);
    var p := CircleWalk(r, v);
    OctantUnique(r, u, p.x, v);
    if !Is16(Decision(r, u, v)) {
      PointWraps(r, v, p);
      StaysAt(r, v + 1);
    }
  }

  /** The radii, among those that fit a coordinate, for which the program draws points of the circle only. */
  lemma CircleStaysExactly(r: int)
    requires 1 <= r <= 0x7FFF
    ensures Stays(r) <==> RadiusFits(r)
  {
    hide Octant, Decision, CircleWalk, Runs, Turn, CircleFits, RadiusFits;
    CircleFitsExactly(r);
    if RadiusFits(r) {
      forall n: nat | Runs(r, n)
        ensures Octant(r, CircleWalk(r, n).x, CircleWalk(r, n).y)
      {
        WalkStays(r, n);
      }
    } else if Stays(r) {
      var u, v := FirstColumnIn(r);
      StaysFits(r, u, v);
    }
  }

  /** The abscissas the program has drawn. */
  ghost predicate Traced(r: int, xs: seq<int>) {
    forall n :: 0 <= n < |xs| ==> CircleWalk(r, n).x == xs[n] && CircleWalk(r, n).y == n
  }

  lemma TracedNone(r: int)
    ensures Traced(r, [])
  {}

  lemma TracedNext(r: int, xs: seq<int>)
    requires Traced(r, xs) && CircleWalk(r, |xs|).y == |xs|
    ensures Traced(r, xs + [CircleWalk(r, |xs|).x])
  {
    hide CircleWalk;
  }

  /** The abscissas of a whole run. */
  lemma CircleIs(r: int, xs: seq<int>)
    requires 1 <= r <= 0x7FFF && Traced(r, xs) && xs != [] && Runs(r, |xs| - 1) && !Runs(r, |xs|)
    ensures RadiusFits(r) <==> forall x, y :: Octant(r, x, y) <==> 0 <= y < |xs| && x == xs[y]
  {
    hide Octant, CircleWalk, Runs, RadiusFits, CircleFits;
    CircleStaysExactly(r);
    CircleFitsExactly(r);
    if RadiusFits(r) {
      forall u, v
        ensures Octant(r, u, v) <==> 0 <= v < |xs| && u == xs[v]
      {
        PointDrawn(r, xs, u, v);
      }
    }
    if forall x, y :: Octant(r, x, y) <==> 0 <= y < |xs| && x == xs[y] {
      forall n: nat | Runs(r, n)
        ensures Octant(r, CircleWalk(r, n).x, CircleWalk(r, n).y)
      {
        if n >= |xs| {
          RunsBefore(r, n, |xs|);
        }
        assert Octant(r, xs[n], n);
      }
    }
  }

  lemma PointDrawn(r: int, xs: seq<int>, u: int, v: int)
    requires 1 <= r <= 0x7FFF && Traced(r, xs) && xs != [] && Runs(r, |xs| - 1) && !Runs(r, |xs|) && CircleFits(r)
    ensures Octant(r, u, v) <==> 0 <= v < |xs| && u == xs[v]
  {
    hide Octant, CircleWalk, Runs, CircleFits, Decision, Turn;
    var n := |xs| - 1;
    WalkStays(r, n);
    var p := CircleWalk(r, n);
    DecisionOf(r, p.x, p.y);
    PointNext(r, n, p);
    CircleNext(r, n);
    var q := Turn(p);
    if Octant(r, u, v) {
      OctantSide(r, u, v);
      OctantEnds(r, q.x, q.y, u, v);
    }
    if 0 <= v < |xs| {
      RunsBefore(r, n, v);
      WalkStays(r, v);
      if Octant(r, u, v) {
        OctantUnique(r, u, xs[v], v);
      }
    }
  }

  lemma DecisionOf(r: int, x: int, y: int)
    requires CircleFits(r) && Octant(r, x, y)
    ensures Is16(Decision(r, x, y))
  {
    hide Octant, Decision;
  }

  /** The largest radius leaves its first column in time for the row counter. */
  lemma {:induction false} LargestRadius(n: nat)
    requires n <= 181
    ensures CircleWalk(0x7FFF, n) == Pen(0x7FFF, n, (n + 1) * (n + 1) - 0x7FFF)
  {
    hide CircleWalk, I16, Turn;
    CircleNext(0x7FFF, if n == 0 then 0 else n - 1);
    if n == 0 {
      Casts(0x7FFF);
      Casts(-0x7FFE);
    } else {
      LargestRadius(n - 1);
      LargestStep(n - 1);
    }
  }

  lemma LargestStep(n: int)
    requires 0 <= n <= 180
    ensures Turn(Pen(0x7FFF, n, (n + 1) * (n + 1) - 0x7FFF)) == Pen(0x7FFF, n + 1, (n + 2) * (n + 2) - 0x7FFF)
  {
    hide I16;
    SquareMono(n + 1, 181);
    SquareMono(n + 2, 182);
    assert (n + 2) * (n + 2) == (n + 1) * (n + 1) + 2 * (n + 1) + 1;
  }

  /** No iteration wraps the row counter around, whatever the decision variable does. */
  lemma TurnBounds(r: int, n: nat, x: int, y: int, d: int)
    requires CircleWalk(r, n) == Pen(x, y, d) && y == n && y <= x <= 0x7FFF
    requires x == 0x7FFF ==> r == 0x7FFF && y <= 181
    ensures var q := Turn(Pen(x, y, d));
            q.y == n + 1 && q.x <= x && (q.x == 0x7FFF ==> r == 0x7FFF && q.y <= 181)
  {
    hide I16, CircleWalk;
    if x == 0x7FFF {
      LargestRadius(n);
    }
  }

  // ----- the drawing

  /** The coordinates as the program hands them on. */
  ghost function Cast(s: seq<Pixel>): (t: seq<Pixel>)
    ensures |t| == |s|
  {
    seq(|s|, i requires 0 <= i < |s| => Pixel(I16(s[i].x), I16(s[i].y)))
  }

  lemma CastConcat(s: seq<Pixel>, t: seq<Pixel>)
    ensures Cast(s + t) == Cast(s) + Cast(t)
  {}

  lemma CastHas(s: seq<Pixel>, p: Pixel)
    ensures p in Cast(s) <==> exists q :: q in s && p == Pixel(I16(q.x), I16(q.y))
  {
    hide I16;
    if p in Cast(s) {
      var i :| 0 <= i < |s| && Cast(s)[i] == p;
      assert s[i] in s;
    }
    if q :| q in s && p == Pixel(I16(q.x), I16(q.y)) {
      var i :| 0 <= i < |s| && s[i] == q;
      assert Cast(s)[i] == p;
    }
  }

  lemma CastNone(s: seq<Pixel>)
    requires forall i :: 0 <= i < |s| ==> Is16(s[i].x) && Is16(s[i].y)
    ensures Cast(s) == s
  {}

  /** The pixel is one of the circle's, after its coordinates have been cast. */
  ghost predicate CircleHas(cx: int, cy: int, r: int, p: Pixel) {
    exists a, b :: OnCircle(r, a, b) && p == Pixel(I16(cx + a), I16(cy + b))
  }

  method PutEight(cx: int, cy: int, x: int, y: int) returns (eight: seq<Pixel>)
    ensures eight == Cast(Eight(cx, cy, x, y))
  {
    hide I16;
    eight := [Pixel(I16(cx + x), I16(cy + y)), Pixel(I16(cx - x), I16(cy + y)),
              Pixel(I16(cx + x), I16(cy - y)), Pixel(I16(cx - x), I16(cy - y)),
              Pixel(I16(cx + y), I16(cy + x)), Pixel(I16(cx - y), I16(cy + x)),
              Pixel(I16(cx + y), I16(cy - x)), Pixel(I16(cx - y), I16(cy - x))];
  }

  /** One iteration, on the program's variables. */
  method TurnOn(x: int, y: int, d: int) returns (x': int, y': int, d': int)
    ensures Pen(x', y', d') == Turn(Pen(x, y, d))
  {
    hide I16;
    x', y' := x, I16(y + 1);
    if d <= 0 {
      d' := I16(d + 2 * y' + 1);
    } else {
      x' := I16(x - 1);
      d' := I16(d + 2 * (y' - x') + 1);
    }
  }

  /**
   The midpoint walk. xs[y] is the abscissa drawn in row y. For a good radius it draws every row of the octant once,
   and no other point; so its pixels, before they are cast to 16 bits, are those of the circle.
   */
  method Circle(cx: int, cy: int, r: nat) returns (trace: seq<Pixel>, ghost xs: seq<int>)
    requires Is16(cx) && Is16(cy) && r <= 0xFFFF
    ensures trace == Cast(Drawn(cx, cy, xs))
    ensures r == 0 || r > 0x7FFF ==> trace == [] && xs == []
    ensures 1 <= r <= 0x7FFF ==>
              (RadiusFits(r) <==> forall x, y :: Octant(r, x, y) <==> 0 <= y < |xs| && x == xs[y])
    ensures 1 <= r <= 0x7FFF && RadiusFits(r) ==> forall p :: p in trace <==> CircleHas(cx, cy, r, p)
  {
    hide Octant, CircleHas, I16, Eight, Drawn, Cast, CircleWalk, Runs, RadiusFits, Traced, Turn;
    DrawnNone(cx, cy);
    CastNone([]);
    trace, xs := [], [];
    if r == 0 {
      return;
    }
    Casts(r);
    var x, y := I16(r), 0;
    var d := I16(1 - x);
    CircleNext(r, 0);
    TracedNone(r);
    while x >= y
      invariant y == |xs| && x <= 0x7FFF && (r > 0x7FFF ==> x < 0 && xs == [])
      invariant x == 0x7FFF ==> r == 0x7FFF && y <= 181
      invariant trace == Cast(Drawn(cx, cy, xs))
      invariant Pen(x, y, d) == CircleWalk(r, y) && Traced(r, xs) && (y > 0 ==> Runs(r, y - 1))
      decreases x - y
    {
      var eight := PutEight(cx, cy, x, y);
      DrawnNext(cx, cy, xs, x);
      CastConcat(Drawn(cx, cy, xs), Eight(cx, cy, x, y));
      trace := trace + eight;
      if y > 0 {
        CircleNext(r, y - 1);
      }
      CircleNext(r, y);
      TracedNext(r, xs);
      TurnBounds(r, y, x, y, d);
      xs := xs + [x];
      x, y, d := TurnOn(x, y, d);
    }
    if r <= 0x7FFF {
      CircleNext(r, |xs| - 1);
      CircleIs(r, xs);
      if RadiusFits(r) {
        CircleCovered(cx, cy, r, xs);
      }
    }
  }

  lemma CircleCovered(cx: int, cy: int, r: int, xs: seq<int>)
    requires forall x, y :: Octant(r, x, y) <==> 0 <= y < |xs| && x == xs[y]
    ensures forall p :: p in Cast(Drawn(cx, cy, xs)) <==> CircleHas(cx, cy, r, p)
  {
    hide Octant, OnCircle, Drawn, Cast, I16;
    forall p
      ensures p in Cast(Drawn(cx, cy, xs)) <==> CircleHas(cx, cy, r, p)
    {
      forall q
        ensures q in Drawn(cx, cy, xs) <==> OnCircle(r, q.x - cx, q.y - cy)
      {
        DrawnIsCircle(cx, cy, r, xs, q);
      }
      CastHas(Drawn(cx, cy, xs), p);
      if CircleHas(cx, cy, r, p) {
        var a, b :| OnCircle(r, a, b) && p == Pixel(I16(cx + a), I16(cy + b));
        assert Pixel(cx + a, cy + b) in Drawn(cx, cy, xs);
      }
    }
  }

  lemma DrawnNone(cx: int, cy: int)
    ensures Drawn(cx, cy, []) == []
  {}

  lemma DrawnNext(cx: int, cy: int, xs: seq<int>, x: int)
    ensures Drawn(cx, cy, xs + [x]) == Drawn(cx, cy, xs) + Eight(cx, cy, x, |xs|)
  {
    assert (xs + [x])[..|xs|] == xs;
  }

  lemma OctantSide(r: int, x: int, y: int)
    requires Octant(r, x, y)
    ensures 0 <= y <= x
  {}

  lemma CircleStart(r: int)
    requires r >= 1
    ensures Octant(r, r, 0) && Decision(r, r, 0) == 1 - r && r * r < r * r + r
  {}

  /** The drawing covers exactly the pixels of the circle, in all eight octants. */
  lemma DrawnIsCircle(cx: int, cy: int, r: int, xs: seq<int>, p: Pixel)
    requires forall x, y :: Octant(r, x, y) <==> 0 <= y < |xs| && x == xs[y]
    ensures p in Drawn(cx, cy, xs) <==> OnCircle(r, p.x - cx, p.y - cy)
  {
    hide Octant;
    var a, b := Abs(p.x - cx), Abs(p.y - cy);
    if OnCircle(r, p.x - cx, p.y - cy) {
      var y := Min(a, b);
      assert xs[y] == Max(a, b);
      EightHas(cx, cy, xs[y], y, p);
      DrawnHas(cx, cy, xs, y, p);
    }
    if p in Drawn(cx, cy, xs) {
      var k := DrawnFrom(cx, cy, xs, p);
      assert Octant(r, xs[k], k);
      OctantSide(r, xs[k], k);
      EightHas(cx, cy, xs[k], k, p);
    }
  }

  lemma EightHas(cx: int, cy: int, x: int, y: int, p: Pixel)
    requires 0 <= y <= x
    ensures p in Eight(cx, cy, x, y)
            <==> x == Max(Abs(p.x - cx), Abs(p.y - cy)) && y == Min(Abs(p.x - cx), Abs(p.y - cy))
  {
    hide Four;
    FourIs(cx, cy, x, y, p);
    FourIs(cx, cy, y, x, p);
  }

  lemma FourIs(cx: int, cy: int, x: int, y: int, p: Pixel)
    ensures var a, b := p.x - cx, p.y - cy;
            p in Four(cx, cy, x, y) <==> (a == x || a == -x) && (b == y || b == -y)
  {
    var e := Four(cx, cy, x, y);
    assert e[0] in e && e[1] in e && e[2] in e && e[3] in e;
  }

  lemma {:induction false} DrawnHas(cx: int, cy: int, xs: seq<int>, y: nat, p: Pixel)
    requires y < |xs| && p in Eight(cx, cy, xs[y], y)
    ensures p in Drawn(cx, cy, xs)
  {
    hide Eight;
    var n := |xs| - 1;
    if y < n {
      DrawnHas(cx, cy, xs[..n], y, p);
    }
  }

  lemma {:induction false} DrawnFrom(cx: int, cy: int, xs: seq<int>, p: Pixel) returns (y: nat)
    requires p in Drawn(cx, cy, xs)
    ensures y < |xs| && p in Eight(cx, cy, xs[y], y)
  {
    hide Eight;
    var n := |xs| - 1;
    if p in Eight(cx, cy, xs[n], n) {
      y := n;
    } else {
      y := DrawnFrom(cx, cy, xs[..n], p);
    }
  }
}
