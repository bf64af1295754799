/**
 P-256: 256-bit Montgomery field arithmetic and Jacobian point arithmetic. A field element is
 eight limbs in Montgomery form; `Plain` reads it back to a residue, and every point operation is
 proved against the formulas of module Curve on those residues.
 */
module P256 {
  import opened Radix
  import opened Bignum
  import opened Montgomery
  import opened Curve
  import CurveGroup
  import Fermat

  const NL: nat := 8

  type bn = s: seq<u32> | |s| == 8 witness [0, 0, 0, 0, 0, 0, 0, 0]

  /** Modulus, R^2 mod m, m - 2 and -m^-1 mod 2^32. */
  datatype Ctx = Ctx(m: bn, rr: bn, m2: bn, n0: u32)

  ghost function Mod(c: Ctx): int {
    Num(c.m)
  }

  /** The Montgomery radix 2^256. */
  ghost function R(c: Ctx): int {
    MontRadix(c.m)
  }

  ghost predicate Ok(c: Ctx) {
    && Ready(c.m, c.n0) && Mod(c) > 2
    && Num(c.rr) <= Mod(c) && Cong(Num(c.rr), R(c) * R(c), Mod(c))
    && Num(c.m2) == Mod(c) - 2
  }

  // ----- limb buffers

  method Buffer(s: bn) returns (a: array<u32>)
    ensures fresh(a) && a.Length == NL && a[..] == s && a[..NL] == s
  {
    a := new u32[NL](i requires 0 <= i < NL => s[i]);
    assert a[..] == s;
  }

  method BnIsZero(a: bn) returns (r: bool)
    ensures r == (Num(a) == 0)
  {
    var i := 0;
    while i < NL
      invariant 0 <= i <= NL
      invariant forall j :: 0 <= j < i ==> a[j] == 0
    {
      if a[i] != 0 {
        NonzeroLimb(a, i);
        return false;
      }
      i := i + 1;
    }
    ZeroLimbs(a);
    return true;
  }

  lemma NonzeroLimb(s: seq<u32>, i: nat)
    requires i < |s| && s[i] != 0
    ensures Num(s) != 0
  {
    var z := seq(|s|, _ => 0);
    ZeroLimbs(z);
    if Num(s) == 0 {
      ValInjective(BASE, s, z);
    }
  }

  // ----- Montgomery context

  /** out = a * b * R^-1 mod m. */
  method MontMulC(a: bn, b: bn, c: Ctx) returns (o: bn)
    ensures Ready(c.m, c.n0) && Num(a) <= Mod(c) ==>
              Num(o) < Mod(c) && Cong(Num(o) * R(c), Num(a) * Num(b), Mod(c))
  {
    hide Num, Cong, NegInverse, Pow, MontRadix;
    MontRadixIs(c.m);
    var x := Buffer(a);
    var y := Buffer(b);
    var m := Buffer(c.m);
    var out := new u32[NL];
    MontMul(out, x, y, m, c.n0, NL);
    o := out[..NL];
  }

  method ToMont(a: bn, c: Ctx) returns (o: bn)
    requires Ok(c) && Num(a) <= Mod(c)
    ensures Is(o, Num(a), c)
  {
    hide Num, Cong;
    o := MontMulC(a, c.rr, c);
    EnterMontgomery(Num(o), Num(a), Num(c.rr), c.m, c.n0);
  }

  method FromMont(a: bn, c: Ctx, ghost u: int) returns (o: bn)
    requires Ok(c) && Is(a, u, c)
    ensures Num(o) == u % Mod(c)
  {
    hide Num, Cong;
    var one := One8();
    o := MontMulC(a, one, c);
    LeaveMontgomery(Num(o), Num(a), u, c.m, c.n0);
  }

  method One8() returns (o: bn)
    ensures Num(o) == 1
  {
    var a := One(NL);
    o := a[..NL];
  }

  /** x is reduced and represents u modulo m. */
  ghost predicate Is(x: bn, u: int, c: Ctx) {
    Num(x) < Mod(c) && Represents(Num(x), u, c.m)
  }

  // ----- field helpers

  /** A product, kept folded in the point formulas. */
  ghost function Times(u: int, v: int): int {
    u * v
  }

  method FpMul(a: bn, b: bn, c: Ctx, ghost u: int, ghost v: int) returns (o: bn)
    requires Ok(c) && Is(a, u, c) && Is(b, v, c)
    ensures Is(o, Times(u, v), c)
  {
    hide Num, Cong;
    o := MontMulC(a, b, c);
    ProductRepresents(Num(o), Num(a), Num(b), u, v, c.m, c.n0);
  }

  method FpAdd(a: bn, b: bn, c: Ctx, ghost u: int, ghost v: int) returns (o: bn)
    requires Ok(c) && Is(a, u, c) && Is(b, v, c)
    ensures Is(o, u + v, c)
  {
    hide Num, Cong, Pow, MontRadix;
    var x := Buffer(a);
    var y := Buffer(b);
    var m := Buffer(c.m);
    var d := new u32[NL];
    var carry := AddK(d, x, y, NL);
    var g := GeqK(d, m, NL);
    ghost var s := Num(d[..NL]);
    if carry != 0 || g {
      var t := new u32[NL];
      var bw := SubK(t, d, m, NL);
      CopyK(d, t, NL);
      MontRadixIs(c.m);
      ReduceOnce(Num(a) + Num(b), s, carry, Mod(c), Num(d[..NL]), bw, R(c));
    }
    o := d[..NL];
    SumRepresents(Num(o), Num(a), Num(b), u, v, 1, if Num(a) + Num(b) >= Mod(c) then -1 else 0, c);
  }

  method FpSub(a: bn, b: bn, c: Ctx, ghost u: int, ghost v: int) returns (o: bn)
    requires Ok(c) && Is(a, u, c) && Is(b, v, c)
    ensures Is(o, u - v, c)
  {
    hide Num, Cong, Pow;
    var x := Buffer(a);
    var y := Buffer(b);
    var m := Buffer(c.m);
    var d := new u32[NL];
    var bw := SubK(d, x, y, NL);
    if bw != 0 {
      var t := new u32[NL];
      var carry := AddK(t, d, m, NL);
      CopyK(d, t, NL);
    }
    o := d[..NL];
    SumRepresents(Num(o), Num(a), Num(b), u, v, -1, if Num(a) < Num(b) then 1 else 0, c);
  }

  lemma SumRepresents(out: int, x: int, y: int, u: int, v: int, sign: int, e: int, c: Ctx)
    requires Mod(c) > 0 && 0 <= out <= Mod(c) && out == x + sign * y + e * Mod(c)
    requires Represents(x, u, c.m) && Represents(y, v, c.m)
    ensures Represents(out, u + sign * v, c.m)
  {
    hide Cong, Num, Pow;
    var r, M := R(c), Mod(c);
    CongMultiple(sign, sign, 0, M);
    CongMul(sign, sign, y, v * r, M);
    CongAdd(x, u * r, sign * y, sign * (v * r), M);
    CongMultiple(out, x + sign * y, e, M);
    CongTrans(out, x + sign * y, u * r + sign * (v * r), M);
    assert u * r + sign * (v * r) == (u + sign * v) * r by {
      MulAssoc(sign, v, r);
    }
  }

  // ----- reading a field element back

  lemma {:induction false} RInverse(c: int, m: int, k: nat) returns (ri: int)
    requires m > 0 && Cong(BASE * c, 1, m)
    ensures Cong(ri * Pow(BASE, k), 1, m)
  {
    if k == 0 {
      ri := 1;
    } else {
      hide Cong;
      var r := RInverse(c, m, k - 1);
      ri := r * c;
      CongMul(r * Pow(BASE, k - 1), 1, BASE * c, 1, m);
      Regroup(r, Pow(BASE, k - 1), c);
      assert ri * Pow(BASE, k) == (r * (BASE * Pow(BASE, k - 1))) * c;
    }
  }

  ghost predicate StandsFor(x: int, v: int, c: Ctx) {
    0 <= v < Mod(c) && Cong(x, v * R(c), Mod(c))
  }

  lemma PlainExists(x: int, c: Ctx)
    requires Ok(c)
    ensures exists v :: StandsFor(x, v, c)
  {
    hide Pow, Num, MontRadix;
    var M, r := Mod(c), R(c);
    MontRadixIs(c.m);
    var k := BaseInverse(c.m, c.n0);
    var ri := RInverse(k, M, NL);
    var v := x * ri % M;
    CongMod(x * ri, M);
    CongMultiple(r, r, 0, M);
    CongMul(v, x * ri, r, r, M);
    CongMultiple(x, x, 0, M);
    CongMul(x, x, ri * r, 1, M);
    MulAssoc(x, ri, r);
    assert StandsFor(x, v, c);
  }

  /** The residue that a reduced Montgomery-form element stands for. */
  ghost function Plain(x: bn, c: Ctx): (v: int)
    requires Ok(c)
    ensures 0 <= v < Mod(c) && (Num(x) < Mod(c) ==> Is(x, v, c))
  {
    PlainExists(Num(x), c);
    var v :| StandsFor(Num(x), v, c);
    v
  }

  lemma PlainOf(x: bn, u: int, c: Ctx)
    requires Ok(c) && Is(x, u, c)
    ensures Plain(x, c) == u % Mod(c)
  {
    hide Num;
    var v := Plain(x, c);
    CancelR(v, u, c.m, c.n0);
    DivModUnique(v, 0, v, Mod(c));
  }

  /** The limbs of a reduced element are determined by the residue. */
  lemma LimbsDetermined(x: bn, y: bn, c: Ctx)
    requires Ok(c) && Num(x) < Mod(c) && Num(y) < Mod(c) && Plain(x, c) == Plain(y, c)
    ensures x == y
  {
    CongSmall(Num(x), Num(y), Mod(c));
    ValInjective(BASE, x, y);
  }

  lemma ZeroIsZero(x: bn, u: int, c: Ctx)
    requires Ok(c) && Is(x, u, c)
    ensures Num(x) == 0 <==> u % Mod(c) == 0
  {
    hide Num, Pow, Cong;
    var M, r := Mod(c), R(c);
    CongMultiple(0, 0, 0, M);
    ResidueZero(u, M);
    if u % M == 0 {
      CongMultiple(r, r, 0, M);
      CongMul(u, 0, r, r, M);
      CongTrans(Num(x), u * r, 0 * r, M);
      CongSmall(Num(x), 0, M);
    } else if Num(x) == 0 {
      CongTrans(0 * r, 0, 0, M);
      CongTrans(0, u * r, u * r, M);
      CancelR(u, 0, c.m, c.n0);
    }
  }

  lemma ResidueZero(u: int, m: int)
    requires m > 0
    ensures u % m == 0 <==> Cong(u, 0, m)
  {}

  // ----- Jacobian points

  /** A point in field-Montgomery coordinates, overwritten in place. */
  class Jpt {
    var X: bn
    var Y: bn
    var Z: bn

    constructor ()
      ensures Num(X) == Num(Y) == Num(Z) == 0
    {
      X, Y, Z := [0, 0, 0, 0, 0, 0, 0, 0], [0, 0, 0, 0, 0, 0, 0, 0], [0, 0, 0, 0, 0, 0, 0, 0];
      new;
      ZeroLimbs(X);
    }

    ghost predicate Reduced(c: Ctx)
      reads this
    {
      Num(X) < Mod(c) && Num(Y) < Mod(c) && Num(Z) < Mod(c)
    }

    ghost function At(c: Ctx): Point
      requires Ok(c)
      reads this
    {
      Point(Plain(X, c), Plain(Y, c), Plain(Z, c))
    }
  }

  method PtIsInf(P: Jpt, c: Ctx) returns (r: bool)
    requires Ok(c) && P.Reduced(c)
    ensures r == (P.At(c).z == 0)
  {
    hide Is, Plain, Num, Ok, Mod;
    r := BnIsZero(P.Z);
    PlainZero(P.Z, c);
  }

  lemma PlainZero(x: bn, c: Ctx)
    requires Ok(c) && Num(x) < Mod(c)
    ensures Num(x) == 0 <==> Plain(x, c) == 0
  {
    hide Num, Cong;
    ZeroIsZero(x, Plain(x, c), c);
    DivModUnique(Plain(x, c), 0, Plain(x, c), Mod(c));
  }

  method PtSetInf(P: Jpt, c: Ctx)
    requires Ok(c)
    modifies P
    ensures P.Reduced(c) && P.At(c) == Infinity
  {
    hide Is, Plain, Num;
    var z := [0, 0, 0, 0, 0, 0, 0, 0];
    ZeroLimbs(z);
    PlainZero(z, c);
    P.X, P.Y, P.Z := z, z, z;
  }

  method CopyPt(R: Jpt, P: Jpt)
    modifies R
    ensures R.X == old(P.X) && R.Y == old(P.Y) && R.Z == old(P.Z)
  {
    R.X, R.Y, R.Z := P.X, P.Y, P.Z;
  }

  /** R = 2P; R may be P. */
  method PtDouble(R: Jpt, P: Jpt, c: Ctx)
    requires Ok(c) && P.Reduced(c)
    modifies R
    ensures R.Reduced(c) && R.At(c) == Double(old(P.At(c)), Mod(c))
  {
    hide Is, Plain, Num, Ok, Mod, DoubleFormula;
    ModPositive(c);
    var inf := PtIsInf(P, c);
    if inf {
      CopyPt(R, P);
      return;
    }
    CoordinatesAre(P, c);
    var x3, y3, z3 := DoubleCoordinates(P.X, P.Y, P.Z, c, Plain(P.X, c), Plain(P.Y, c), Plain(P.Z, c));
    R.X, R.Y, R.Z := x3, y3, z3;
  }

  method DoubleCoordinates(X: bn, Y: bn, Z: bn, c: Ctx, ghost x: int, ghost y: int, ghost z: int)
    returns (x3: bn, y3: bn, z3: bn)
    requires Ok(c) && Is(X, x, c) && Is(Y, y, c) && Is(Z, z, c)
    ensures Num(x3) < Mod(c) && Num(y3) < Mod(c) && Num(z3) < Mod(c)
    ensures Mod(c) > 0 && Point(Plain(x3, c), Plain(y3, c), Plain(z3, c))
            == Reduce(DoubleFormula(Point(x, y, z)), Mod(c))
  {
    hide Is, Plain, Num, Ok, Mod, Times, DoubleFormula;
    ModPositive(c);
    var delta := FpMul(Z, Z, c, z, z);
    ghost var d := Times(z, z);
    var gamma := FpMul(Y, Y, c, y, y);
    ghost var g := Times(y, y);
    var beta := FpMul(X, gamma, c, x, g);
    ghost var b := Times(x, g);
    var alpha := Slope(X, delta, c, x, d);
    ghost var a := 3 * Times(x - d, x + d);

    // x3 = alpha^2 - 8*beta
    x3 := FpMul(alpha, alpha, c, a, a);
    var t1 := FpTimes8(beta, c, b);
    x3 := FpSub(x3, t1, c, Times(a, a), 8 * b);
    ghost var gx := Times(a, a) - 8 * b;

    // z3 = (Y + Z)^2 - gamma - delta
    t1 := FpAdd(Y, Z, c, y, z);
    z3 := FpMul(t1, t1, c, y + z, y + z);
    ghost var yz := Times(y + z, y + z);
    z3 := FpSub(z3, gamma, c, yz, g);
    z3 := FpSub(z3, delta, c, yz - g, d);

    // y3 = alpha*(4*beta - x3) - 8*gamma^2
    t1 := FpAdd(beta, beta, c, b, b);
    t1 := FpAdd(t1, t1, c, b + b, b + b);
    t1 := FpSub(t1, x3, c, b + b + (b + b), gx);
    ghost var e := b + b + (b + b) - gx;
    y3 := FpMul(alpha, t1, c, a, e);
    var t2 := FpMul(gamma, gamma, c, g, g);
    t2 := FpTimes8(t2, c, Times(g, g));
    y3 := FpSub(y3, t2, c, Times(a, e), 8 * Times(g, g));

    DoubleTerms(x, y, z);
    StorePoint(x3, y3, z3, gx, Times(a, e) - 8 * Times(g, g), yz - g - d, c);
  }

  /** R = P + Q; R may be P or Q. */
  method PtAdd(R: Jpt, P: Jpt, Q: Jpt, c: Ctx)
    requires Ok(c) && P.Reduced(c) && Q.Reduced(c)
    modifies R
    ensures R.Reduced(c) && R.At(c) == Add(old(P.At(c)), old(Q.At(c)), Mod(c))
  {
    hide Is, Plain, Num, Ok, Mod, DoubleFormula, AddFormula, Double;
    ModPositive(c);
    var inf := PtIsInf(P, c);
    if inf {
      CopyPt(R, Q);
      return;
    }
    inf := PtIsInf(Q, c);
    if inf {
      CopyPt(R, P);
      return;
    }
    CoordinatesAre(P, c);
    CoordinatesAre(Q, c);
    ghost var p, q := P.At(c), Q.At(c);
    var u1, u2, s1, s2, z1z1, z2z2 := AlignCoordinates(P.X, P.Y, P.Z, Q.X, Q.Y, Q.Z, c, p, q);
    ghost var g := Align(p, q);
    var h := FpSub(u2, u1, c, g.u2, g.u1);
    var r := FpSub(s2, s1, c, g.s2, g.s1);
    ZeroIsZero(h, g.u2 - g.u1, c);
    ZeroIsZero(r, g.s2 - g.s1, c);
    var hz := BnIsZero(h);
    if hz {
      var rz := BnIsZero(r);
      if rz {
        PtDouble(R, P, c);
      } else {
        PtSetInf(R, c);
      }
      return;
    }
    var x3, y3, z3 := AddCoordinates(P.Z, Q.Z, u1, s1, z1z1, z2z2, h, r, c, p.z, q.z, g);
    R.X, R.Y, R.Z := x3, y3, z3;
  }

  /** Both points over the common denominator z1*z2. */
  method AlignCoordinates(PX: bn, PY: bn, PZ: bn, QX: bn, QY: bn, QZ: bn, c: Ctx, ghost p: Point, ghost q: Point)
    returns (u1: bn, u2: bn, s1: bn, s2: bn, z1z1: bn, z2z2: bn)
    requires Ok(c) && Is(PX, p.x, c) && Is(PY, p.y, c) && Is(PZ, p.z, c)
    requires Is(QX, q.x, c) && Is(QY, q.y, c) && Is(QZ, q.z, c)
    ensures var g := Align(p, q);
            Is(u1, g.u1, c) && Is(u2, g.u2, c) && Is(s1, g.s1, c) && Is(s2, g.s2, c)
    ensures Is(z1z1, Times(p.z, p.z), c) && Is(z2z2, Times(q.z, q.z), c)
  {
    hide Is, Ok;
    z1z1 := FpMul(PZ, PZ, c, p.z, p.z);
    z2z2 := FpMul(QZ, QZ, c, q.z, q.z);
    u1 := FpMul(PX, z2z2, c, p.x, Times(q.z, q.z));
    u2 := FpMul(QX, z1z1, c, q.x, Times(p.z, p.z));
    s1 := FpMul(PY, QZ, c, p.y, q.z);
    s1 := FpMul(s1, z2z2, c, Times(p.y, q.z), Times(q.z, q.z));
    s2 := FpMul(QY, PZ, c, q.y, p.z);
    s2 := FpMul(s2, z1z1, c, Times(q.y, p.z), Times(p.z, p.z));
  }

  /** The general case, from h = u2 - u1 and r = s2 - s1. */
  method AddCoordinates(PZ: bn, QZ: bn, u1: bn, s1: bn, z1z1: bn, z2z2: bn, h: bn, r0: bn, c: Ctx,
                        ghost pz: int, ghost qz: int, ghost g: Common)
    returns (x3: bn, y3: bn, z3: bn)
    requires Ok(c) && Is(PZ, pz, c) && Is(QZ, qz, c) && g.w == pz * qz
    requires Is(u1, g.u1, c) && Is(s1, g.s1, c)
    requires Is(z1z1, Times(pz, pz), c) && Is(z2z2, Times(qz, qz), c)
    requires Is(h, g.u2 - g.u1, c) && Is(r0, g.s2 - g.s1, c)
    ensures Num(x3) < Mod(c) && Num(y3) < Mod(c) && Num(z3) < Mod(c)
    ensures Mod(c) > 0 && Point(Plain(x3, c), Plain(y3, c), Plain(z3, c)) == Reduce(AddFormula(g), Mod(c))
  {
    hide Is, Plain, Num, Ok, Mod, Times, AddFormula;
    ModPositive(c);
    ghost var gh, m := g.u2 - g.u1, g.s2 - g.s1 + (g.s2 - g.s1);
    var t1 := FpAdd(h, h, c, gh, gh);
    var i := FpMul(t1, t1, c, gh + gh, gh + gh);
    ghost var gi := Times(gh + gh, gh + gh);
    var j := FpMul(h, i, c, gh, gi);
    ghost var gj := Times(gh, gi);
    var r := FpAdd(r0, r0, c, g.s2 - g.s1, g.s2 - g.s1);
    var v := FpMul(u1, i, c, g.u1, gi);
    ghost var gv := Times(g.u1, gi);

    // x3 = r^2 - j - 2v
    x3 := FpMul(r, r, c, m, m);
    x3 := FpSub(x3, j, c, Times(m, m), gj);
    t1 := FpAdd(v, v, c, gv, gv);
    x3 := FpSub(x3, t1, c, Times(m, m) - gj, gv + gv);
    ghost var gx := Times(m, m) - gj - (gv + gv);

    // y3 = r*(v - x3) - 2*s1*j
    t1 := FpSub(v, x3, c, gv, gx);
    y3 := FpMul(r, t1, c, m, gv - gx);
    var t2 := FpMul(s1, j, c, g.s1, gj);
    ghost var gs := Times(g.s1, gj);
    t2 := FpAdd(t2, t2, c, gs, gs);
    y3 := FpSub(y3, t2, c, Times(m, gv - gx), gs + gs);

    // z3 = ((Z1 + Z2)^2 - z1z1 - z2z2) * h
    z3 := AddDenominator(PZ, QZ, z1z1, z2z2, h, c, pz, qz, gh);

    AddTerms(g, pz, qz);
    StorePoint(x3, y3, z3, gx, Times(m, gv - gx) - (gs + gs),
               Times(Times(pz + qz, pz + qz) - Times(pz, pz) - Times(qz, qz), gh), c);
  }

  method AddDenominator(PZ: bn, QZ: bn, z1z1: bn, z2z2: bn, h: bn, c: Ctx,
                        ghost pz: int, ghost qz: int, ghost gh: int) returns (z3: bn)
    requires Ok(c) && Is(PZ, pz, c) && Is(QZ, qz, c) && Is(h, gh, c)
    requires Is(z1z1, Times(pz, pz), c) && Is(z2z2, Times(qz, qz), c)
    ensures Is(z3, Times(Times(pz + qz, pz + qz) - Times(pz, pz) - Times(qz, qz), gh), c)
  {
    hide Is, Ok, Times;
    var t1 := FpAdd(PZ, QZ, c, pz, qz);
    t1 := FpMul(t1, t1, c, pz + qz, pz + qz);
    t1 := FpSub(t1, z1z1, c, Times(pz + qz, pz + qz), Times(pz, pz));
    t1 := FpSub(t1, z2z2, c, Times(pz + qz, pz + qz) - Times(pz, pz), Times(qz, qz));
    z3 := FpMul(t1, h, c, Times(pz + qz, pz + qz) - Times(pz, pz) - Times(qz, qz), gh);
  }

  /** The sequence of field operations adds up to the addition formula. */
  lemma AddTerms(g: Common, pz: int, qz: int)
    requires g.w == pz * qz
    ensures
      var gh, m := g.u2 - g.u1, g.s2 - g.s1 + (g.s2 - g.s1);
      var gi := Times(gh + gh, gh + gh);
      var gj, gv := Times(gh, gi), Times(g.u1, gi);
      var gx, gs := Times(m, m) - gj - (gv + gv), Times(g.s1, gj);
      AddFormula(g) ==
      Point(gx, Times(m, gv - gx) - (gs + gs),
            Times(Times(pz + qz, pz + qz) - Times(pz, pz) - Times(qz, qz), gh))
  {
    assert (pz + qz) * (pz + qz) - pz * pz - qz * qz == 2 * (pz * qz);
    assert g.u2 - g.u1 + (g.u2 - g.u1) == 2 * (g.u2 - g.u1);
  }

  /** alpha = 3 * (X - delta) * (X + delta) */
  method Slope(X: bn, delta: bn, c: Ctx, ghost x: int, ghost d: int) returns (alpha: bn)
    requires Ok(c) && Is(X, x, c) && Is(delta, d, c)
    ensures Is(alpha, 3 * Times(x - d, x + d), c)
  {
    hide Is, Ok, Times;
    var t1 := FpSub(X, delta, c, x, d);
    var t2 := FpAdd(X, delta, c, x, d);
    alpha := FpMul(t1, t2, c, x - d, x + d);
    ghost var u := Times(x - d, x + d);
    t1 := FpAdd(alpha, alpha, c, u, u);
    alpha := FpAdd(t1, alpha, c, u + u, u);
  }

  method FpTimes8(x: bn, c: Ctx, ghost u: int) returns (o: bn)
    requires Ok(c) && Is(x, u, c)
    ensures Is(o, 8 * u, c)
  {
    hide Ok, Is;
    o := FpAdd(x, x, c, u, u);
    o := FpAdd(o, o, c, u + u, u + u);
    o := FpAdd(o, o, c, u + u + (u + u), u + u + (u + u));
  }

  /** The sequence of field operations adds up to the doubling formula. */
  lemma DoubleTerms(x: int, y: int, z: int)
    ensures
      var d, g := Times(z, z), Times(y, y);
      var b, a := Times(x, g), 3 * Times(x - d, x + d);
      var gx := Times(a, a) - 8 * b;
      DoubleFormula(Point(x, y, z)) ==
      Point(gx, Times(a, b + b + (b + b) - gx) - 8 * Times(g, g), Times(y + z, y + z) - g - d)
  {
    assert (y + z) * (y + z) == y * y + z * z + 2 * (y * z);
  }

  lemma StorePoint(x: bn, y: bn, z: bn, u: int, v: int, w: int, c: Ctx)
    requires Ok(c) && Is(x, u, c) && Is(y, v, c) && Is(z, w, c)
    ensures Num(x) < Mod(c) && Num(y) < Mod(c) && Num(z) < Mod(c)
    ensures Point(Plain(x, c), Plain(y, c), Plain(z, c)) == Reduce(Point(u, v, w), Mod(c))
  {
    PlainOf(x, u, c);
    PlainOf(y, v, c);
    PlainOf(z, w, c);
  }

  lemma ModPositive(c: Ctx)
    requires Ok(c)
    ensures Mod(c) > 2
  {}

  lemma CoordinatesAre(P: Jpt, c: Ctx)
    requires Ok(c) && P.Reduced(c)
    ensures Is(P.X, Plain(P.X, c), c) && Is(P.Y, Plain(P.Y, c), c) && Is(P.Z, Plain(P.Z, c), c)
  {}

  // ----- scalar multiplication

  /** (k[i >> 5] >> (i & 31)) & 1 */
  function Bit(k: bn, i: nat): (b: int)
    requires i < 256
    ensures 0 <= b <= 1
  {
    SubDigit(2, k[i / 32], i % 32)
  }

  /** The bits of k from position i up. */
  ghost function Top(k: bn, i: nat): nat {
    Num(k) / Pow(2, i)
  }

  lemma TopEnds(k: bn)
    ensures Top(k, 256) == 0 && Top(k, 0) == Num(k)
  {
    hide Num, Pow;
    ByteAndBitWidths();
    PowMul(2, 32, 8);
    ValNil(2);
    DivModUnique(Num(k), 0, Num(k), Pow(2, 256));
  }

  lemma TopStep(k: bn, i: nat)
    requires i < 256
    ensures Top(k, i) == 2 * Top(k, i + 1) + Bit(k, i)
  {
    hide Num, Pow;
    ByteAndBitWidths();
    DigitOfDigit(2, 32, BASE, k, i / 32, i % 32);
    NumIs(k);
    DivDiv(Num(k), Pow(2, i), 2);
    PowNext(2, i);
  }

  /** R = k*P by double-and-add. */
  method PtMul(R: Jpt, k: bn, P: Jpt, c: Ctx)
    requires Ok(c) && P.Reduced(c) && R != P
    modifies R
    ensures R.Reduced(c) && R.At(c) == Multiply(Num(k), P.At(c), Mod(c))
  {
    hide Plain, Num, Ok, Mod, Top, Bit, Double, Add;
    ModPositive(c);
    TopEnds(k);
    PtSetInf(R, c);
    var i := 256;
    while i > 0
      invariant 0 <= i <= 256 && P.At(c) == old(P.At(c)) && P.Reduced(c)
      invariant R.Reduced(c) && R.At(c) == Multiply(Top(k, i), P.At(c), Mod(c))
    {
      i := i - 1;
      TopStep(k, i);
      MultiplyStep(Top(k, i + 1), Bit(k, i), P.At(c), Mod(c));
      PtDouble(R, R, c);
      if Bit(k, i) == 1 {
        PtAdd(R, R, P, c);
      }
    }
  }

  lemma MultiplyStep(e: nat, b: nat, q: Point, p: int)
    requires p > 0 && b <= 1
    ensures var d := Double(Multiply(e, q, p), p);
            Multiply(2 * e + b, q, p) == if b == 1 then Add(d, q, p) else d
  {
    hide Add;
    assert (2 * e + b) / 2 == e && (2 * e + b) % 2 == b;
  }

  /** d = flag ? s : d, limb by limb. The mask arithmetic of the source is `MaskSelects`. */
  method PtCSelect(d: Jpt, s: Jpt, flag: nat)
    modifies d
    ensures d.X == old(if flag % 2 == 1 then s.X else d.X)
    ensures d.Y == old(if flag % 2 == 1 then s.Y else d.Y)
    ensures d.Z == old(if flag % 2 == 1 then s.Z else d.Z)
  {
    var i := 0;
    var sx, sy, sz := s.X, s.Y, s.Z;
    var x, y, z := d.X, d.Y, d.Z;
    ghost var dx, dy, dz := x, y, z;
    var on := flag % 2 == 1;
    while i < NL
      invariant 0 <= i <= NL
      invariant forall j :: 0 <= j < NL ==> x[j] == if on && j < i then sx[j] else dx[j]
      invariant forall j :: 0 <= j < NL ==> y[j] == if on && j < i then sy[j] else dy[j]
      invariant forall j :: 0 <= j < NL ==> z[j] == if on && j < i then sz[j] else dz[j]
    {
      x := x[i := Select(on, sx[i], x[i])];
      y := y[i := Select(on, sy[i], y[i])];
      z := z[i := Select(on, sz[i], z[i])];
      i := i + 1;
    }
    assert x == (if on then sx else dx) && y == (if on then sy else dy) && z == (if on then sz else dz);
    d.X, d.Y, d.Z := x, y, z;
  }

  function Select(on: bool, s: u32, d: u32): u32 {
    if on then s else d
  }

  /** d ^ (m & (d ^ s)) with m = 0 - (flag & 1) is that selection. */
  lemma MaskSelects(d: bv32, s: bv32, flag: bv32)
    ensures d ^ ((0 - (flag & 1)) & (d ^ s)) == if flag & 1 == 1 then s else d
  {
    if flag & 1 == 1 {
      assert 0 - (flag & 1) == 0xFFFF_FFFF;
      assert d ^ (0xFFFF_FFFF & (d ^ s)) == s;
    } else {
      assert flag & 1 == 0;
      assert d ^ (0 & (d ^ s)) == d;
    }
  }

  /** R = k*P, doubling and adding for every bit and keeping the sum by a masked select. */
  method PtMulCt(R: Jpt, k: bn, P: Jpt, c: Ctx)
    requires Ok(c) && P.Reduced(c)
    modifies R
    ensures R.Reduced(c) && R.At(c) == Multiply(Num(k), old(P.At(c)), Mod(c))
  {
    hide Plain, Num, Ok, Mod, Top, Bit, Double, Add;
    ModPositive(c);
    TopEnds(k);
    var R0 := new Jpt();
    var R1 := new Jpt();
    PtSetInf(R0, c);
    var i := 256;
    while i > 0
      invariant fresh(R0) && fresh(R1) && R0 != R1 && unchanged(R) && unchanged(P)
      invariant 0 <= i <= 256
      invariant R0.Reduced(c) && R0.At(c) == Multiply(Top(k, i), P.At(c), Mod(c))
    {
      i := i - 1;
      TopStep(k, i);
      MultiplyStep(Top(k, i + 1), Bit(k, i), P.At(c), Mod(c));
      CtStep(R0, R1, P, Bit(k, i), c);
    }
    CopyPt(R, R0);
  }

  method CtStep(R0: Jpt, R1: Jpt, P: Jpt, bit: nat, c: Ctx)
    requires Ok(c) && P.Reduced(c) && R0.Reduced(c) && bit <= 1
    requires R0 != R1 && P != R0 && P != R1
    modifies R0, R1
    ensures R0.Reduced(c) && Mod(c) > 0
    ensures var d := Double(old(R0.At(c)), Mod(c));
            R0.At(c) == if bit == 1 then Add(d, P.At(c), Mod(c)) else d
  {
    hide Plain, Num, Ok, Mod, Double, Add;
    ModPositive(c);
    PtDouble(R0, R0, c);
    PtAdd(R1, R0, P, c);
    PtCSelect(R0, R1, bit);
  }

  /** A reduced point is determined limb by limb by the residues, so both ladders leave the same limbs. */
  lemma SameLimbs(a: Jpt, b: Jpt, c: Ctx)
    requires Ok(c) && a.Reduced(c) && b.Reduced(c) && a.At(c) == b.At(c)
    ensures a.X == b.X && a.Y == b.Y && a.Z == b.Z
  {
    LimbsDetermined(a.X, b.X, c);
    LimbsDetermined(a.Y, b.Y, c);
    LimbsDetermined(a.Z, b.Z, c);
  }

  /** The two ladders, run on the same scalar and point, leave the same limbs. */
  method MulBothWays(R: Jpt, S: Jpt, k: bn, P: Jpt, c: Ctx)
    requires Ok(c) && P.Reduced(c) && R != P && R != S && S != P
    modifies R, S
    ensures R.Reduced(c) && R.At(c) == Multiply(Num(k), P.At(c), Mod(c))
    ensures R.X == S.X && R.Y == S.Y && R.Z == S.Z
  {
    hide Plain, Num, Ok, Mod;
    PtMul(R, k, P, c);
    PtMulCt(S, k, P, c);
    SameLimbs(R, S, c);
  }

  // ----- contexts

  /** b0 << 24 | b1 << 16 | b2 << 8 | b3 */
  function Word(b0: int, b1: int, b2: int, b3: int): int {
    b0 * 0x100_0000 + b1 * 0x1_0000 + b2 * 0x100 + b3
  }

  /** Parse 32 big-endian bytes, four to a limb; the bytes of a word do not overlap. */
  method FromBe32(b: seq<u8>) returns (a: bn)
    requires |b| == 32
    ensures Num(a) == BeNum(b)
  {
    hide Num, BeNum, Pow;
    var limbs: seq<u32> := [];
    ZeroLimbs([]);
    BeNumEmpty();
    for i := 0 to NL
      invariant |limbs| == i && Num(limbs) == BeNum(b[32 - 4 * i..])
    {
      var p := (NL - 1 - i) * 4;
      var w: u32 := Word(b[p], b[p + 1], b[p + 2], b[p + 3]);
      WordOfBytes(limbs, b[p..p + 4], b[p + 4..], w);
      assert b[p..] == b[p..p + 4] + b[p + 4..];
      limbs := limbs + [w];
    }
    assert b[0..] == b;
    a := limbs;
  }

  lemma WordOfBytes(limbs: seq<u32>, bytes: seq<u8>, rest: seq<u8>, w: u32)
    requires |bytes| == 4 && |rest| == 4 * |limbs| && Num(limbs) == BeNum(rest)
    requires w == Word(bytes[0], bytes[1], bytes[2], bytes[3])
    ensures Num(limbs + [w]) == BeNum(bytes + rest)
  {
    hide Pow;
    ValSnoc(BASE, limbs, w);
    FourBytes(bytes);
    BeNumConcat(bytes, rest);
    ByteAndBitWidths();
    PowMul(256, 4, |limbs|);
  }

  lemma FourBytes(b: seq<u8>)
    requires |b| == 4
    ensures BeNum(b) == WordOf(b)
  {
    assert b[..3][..2] == b[..2] && b[..2][..1] == b[..1] && b[..1][..0] == [];
    var b0: int, b1: int, b2: int := b[0], b[1], b[2];
    assert BeVal(b[..1]) == b0;
    assert BeVal(b[..2]) == b0 * 256 + b1;
    assert BeVal(b[..3]) == (b0 * 256 + b1) * 256 + b2;
  }

  lemma {:induction false} BeNumConcat(s: seq<u8>, t: seq<u8>)
    ensures BeNum(s + t) == BeNum(s) * Pow(256, |t|) + BeNum(t)
  {
    if |t| == 0 {
      assert s + t == s;
    } else {
      var n := |t| - 1;
      assert (s + t)[..|s + t| - 1] == s + t[..n];
      BeNumConcat(s, t[..n]);
      assert BeNum(s) * (256 * Pow(256, n)) == BeNum(s) * Pow(256, n) * 256;
    }
  }

  /** The constants of a modulus; they are right for every odd modulus above 2. */
  method MontInit(be: seq<u8>) returns (c: Ctx)
    requires |be| == 32
    ensures Mod(c) == BeNum(be)
    ensures BeNum(be) % 2 == 1 && BeNum(be) > 2 ==> Ok(c)
  {
    hide Num, BeNum, Cong, NegInverse, Pow, MontRadix;
    var m := FromBe32(be);
    MontRadixIs(m);
    var n0 := NewtonNegInverse(m[0]);
    OddLowLimb(m);
    var ma := Buffer(m);
    var rr := RSquared(ma, NL);
    var two := SmallBuffer(2);
    var d := new u32[NL];
    var bw := SubK(d, ma, two, NL);
    c := Ctx(m, rr[..NL], d[..NL], n0);
  }

  method SmallBuffer(v: u32) returns (a: array<u32>)
    ensures fresh(a) && a.Length == NL && Num(a[..NL]) == v
  {
    hide Pow, Val;
    a := new u32[NL](_ => 0);
    ghost var z := a[..];
    ZeroLimbs(z);
    ValNil(BASE);
    a[0] := v;
    assert a[..] == z[0 := v] && a[..NL] == a[..];
    ValUpdate(BASE, z, 0, v);
  }

  /** out = a^(m-2) mod m; for a prime modulus this is the inverse of a, and 0 for a = 0. */
  method MontInv(a: bn, c: Ctx) returns (o: bn)
    requires Ok(c) && Num(a) < Mod(c)
    ensures Num(o) == Pow(Num(a), Mod(c) - 2) % Mod(c)
    ensures Fermat.IsPrime(Mod(c)) ==> (Num(a) * Num(o)) % Mod(c) == if Num(a) == 0 then 0 else 1
  {
    hide Num, Pow, Cong, Top, Bit, Times, Ready;
    var am := ToMont(a, c);
    var r := One8();
    r := ToMont(r, c);
    TopEnds(c.m2);
    ValNil(Num(a));
    ghost var g := Num(a);
    var i := 256;
    while i > 0
      invariant 0 <= i <= 256
      invariant Is(r, Pow(g, Top(c.m2, i)), c)
    {
      i := i - 1;
      TopStep(c.m2, i);
      ghost var e := Top(c.m2, i + 1);
      r := FpMul(r, r, c, Pow(g, e), Pow(g, e));
      SquarePower(g, e);
      if Bit(c.m2, i) == 1 {
        r := FpMul(r, am, c, Pow(g, 2 * e), g);
        PowerTimes(g, 2 * e);
      }
    }
    o := FromMont(r, c, Pow(g, Num(c.m2)));
    InverseIfPrime(g, Num(o), Mod(c));
  }

  lemma InverseIfPrime(a: nat, o: int, m: int)
    requires m > 2 && a < m && o == Pow(a, m - 2) % m
    ensures Fermat.IsPrime(m) ==> (a * o) % m == if a == 0 then 0 else 1
  {
    hide Pow, Fermat.IsPrime;
    if Fermat.IsPrime(m) {
      Fermat.Inverse(a, m);
      DivModUnique(a, 0, a, m);
    }
  }

  lemma SquarePower(g: int, e: nat)
    ensures Times(Pow(g, e), Pow(g, e)) == Pow(g, 2 * e)
  {
    PowAdd(g, e, e);
  }

  lemma PowerTimes(g: int, e: nat)
    ensures Times(Pow(g, e), g) == Pow(g, e + 1)
  {}

  // ----- the public-point check

  lemma SameResidue(x: bn, y: bn, u: int, v: int, c: Ctx)
    requires Ok(c) && Is(x, u, c) && Is(y, v, c)
    ensures x == y <==> Cong(u, v, Mod(c))
  {
    hide Num, Pow;
    PlainOf(x, u, c);
    PlainOf(y, v, c);
    if Cong(u, v, Mod(c)) {
      LimbsDetermined(x, y, c);
    }
  }

  lemma AffineDefect(u: int, v: int, w: int, p: int)
    requires p > 0
    ensures Cong(Times(v, v), Times(Times(u, u), u) - Times(3, u) + w, p) <==> OnCurve(Point(u, v, 1), w, p)
  {
    var l, r := v * v, u * u * u - 3 * u + w;
    assert Defect(Point(u, v, 1), w) == l - r;
    if Cong(l, r, p) {
      CongMultiple(r, r, 0, p);
      CongSub(l, r, r, r, p);
    } else if (l - r) % p == 0 {
      CongMultiple(r, r, 0, p);
      CongAdd(l - r, 0, r, r, p);
    }
  }

  // ----- the curve itself

  /** Field prime, group order, base point and coefficient b, big-endian. */
  const P256_P: seq<u8> :=
    [0xff, 0xff, 0xff, 0xff] + [0x00, 0x00, 0x00, 0x01] + [0x00, 0x00, 0x00, 0x00] + [0x00, 0x00, 0x00, 0x00]
    + [0x00, 0x00, 0x00, 0x00] + [0xff, 0xff, 0xff, 0xff] + [0xff, 0xff, 0xff, 0xff] + [0xff, 0xff, 0xff, 0xff]

  const P256_N: seq<u8> :=
    [0xff, 0xff, 0xff, 0xff] + [0x00, 0x00, 0x00, 0x00] + [0xff, 0xff, 0xff, 0xff] + [0xff, 0xff, 0xff, 0xff]
    + [0xbc, 0xe6, 0xfa, 0xad] + [0xa7, 0x17, 0x9e, 0x84] + [0xf3, 0xb9, 0xca, 0xc2] + [0xfc, 0x63, 0x25, 0x51]

  const P256_GX: seq<u8> :=
    [0x6b, 0x17, 0xd1, 0xf2] + [0xe1, 0x2c, 0x42, 0x47] + [0xf8, 0xbc, 0xe6, 0xe5] + [0x63, 0xa4, 0x40, 0xf2]
    + [0x77, 0x03, 0x7d, 0x81] + [0x2d, 0xeb, 0x33, 0xa0] + [0xf4, 0xa1, 0x39, 0x45] + [0xd8, 0x98, 0xc2, 0x96]

  const P256_GY: seq<u8> :=
    [0x4f, 0xe3, 0x42, 0xe2] + [0xfe, 0x1a, 0x7f, 0x9b] + [0x8e, 0xe7, 0xeb, 0x4a] + [0x7c, 0x0f, 0x9e, 0x16]
    + [0x2b, 0xce, 0x33, 0x57] + [0x6b, 0x31, 0x5e, 0xce] + [0xcb, 0xb6, 0x40, 0x68] + [0x37, 0xbf, 0x51, 0xf5]

  const P256_B: seq<u8> :=
    [0x5a, 0xc6, 0x35, 0xd8] + [0xaa, 0x3a, 0x93, 0xe7] + [0xb3, 0xeb, 0xbd, 0x55] + [0x76, 0x98, 0x86, 0xbc]
    + [0x65, 0x1d, 0x06, 0xb0] + [0xcc, 0x53, 0xb0, 0xf6] + [0x3b, 0xce, 0x3c, 0x3e] + [0x27, 0xd2, 0x60, 0x4b]

  const PRIME: int := 0xffffffff00000001000000000000000000000000ffffffffffffffffffffffff
  const ORDER: int := 0xffffffff00000000ffffffffffffffffbce6faada7179e84f3b9cac2fc632551
  const GX: int := 0x6b17d1f2e12c4247f8bce6e563a440f277037d812deb33a0f4a13945d898c296
  const GY: int := 0x4fe342e2fe1a7f9b8ee7eb4a7c0f9e162bce33576b315ececbb6406837bf51f5
  const COEFF_B: int := 0x5ac635d8aa3a93e7b3ebbd55769886bc651d06b0cc53b0f63bce3c3e27d2604b

  /** A 32-byte string by its eight words. */
  lemma EightWords(b0: seq<u8>, b1: seq<u8>, b2: seq<u8>, b3: seq<u8>,
                   b4: seq<u8>, b5: seq<u8>, b6: seq<u8>, b7: seq<u8>)
    requires |b0| == |b1| == |b2| == |b3| == |b4| == |b5| == |b6| == |b7| == 4
    ensures BeNum(b0 + b1 + b2 + b3 + b4 + b5 + b6 + b7)
         == ((((((WordOf(b0) * BASE + WordOf(b1)) * BASE + WordOf(b2)) * BASE + WordOf(b3)) * BASE
             + WordOf(b4)) * BASE + WordOf(b5)) * BASE + WordOf(b6)) * BASE + WordOf(b7)
  {
    hide BeNum, WordOf;
    FourBytes(b0);
    AppendWord(b0, b1);
    AppendWord(b0 + b1, b2);
    AppendWord(b0 + b1 + b2, b3);
    AppendWord(b0 + b1 + b2 + b3, b4);
    AppendWord(b0 + b1 + b2 + b3 + b4, b5);
    AppendWord(b0 + b1 + b2 + b3 + b4 + b5, b6);
    AppendWord(b0 + b1 + b2 + b3 + b4 + b5 + b6, b7);
  }

  function WordOf(b: seq<u8>): int
    requires |b| == 4
  {
    Word(b[0], b[1], b[2], b[3])
  }

  lemma AppendWord(s: seq<u8>, b: seq<u8>)
    requires |b| == 4
    ensures BeNum(s + b) == BeNum(s) * BASE + WordOf(b)
  {
    BeNumConcat(s, b);
    FourBytes(b);
    ByteAndBitWidths();
  }

  lemma PrimeValue()
    ensures BeNum(P256_P) == PRIME
  {
    hide BeNum;
    EightWords([0xff, 0xff, 0xff, 0xff], [0x00, 0x00, 0x00, 0x01], [0x00, 0x00, 0x00, 0x00], [0x00, 0x00, 0x00, 0x00],
               [0x00, 0x00, 0x00, 0x00], [0xff, 0xff, 0xff, 0xff], [0xff, 0xff, 0xff, 0xff], [0xff, 0xff, 0xff, 0xff]);
  }

  lemma OrderValue()
    ensures BeNum(P256_N) == ORDER
  {
    hide BeNum;
    EightWords([0xff, 0xff, 0xff, 0xff], [0x00, 0x00, 0x00, 0x00], [0xff, 0xff, 0xff, 0xff], [0xff, 0xff, 0xff, 0xff],
               [0xbc, 0xe6, 0xfa, 0xad], [0xa7, 0x17, 0x9e, 0x84], [0xf3, 0xb9, 0xca, 0xc2], [0xfc, 0x63, 0x25, 0x51]);
  }

  lemma GeneratorXValue()
    ensures BeNum(P256_GX) == GX
  {
    hide BeNum;
    EightWords([0x6b, 0x17, 0xd1, 0xf2], [0xe1, 0x2c, 0x42, 0x47], [0xf8, 0xbc, 0xe6, 0xe5], [0x63, 0xa4, 0x40, 0xf2],
               [0x77, 0x03, 0x7d, 0x81], [0x2d, 0xeb, 0x33, 0xa0], [0xf4, 0xa1, 0x39, 0x45], [0xd8, 0x98, 0xc2, 0x96]);
  }

  lemma GeneratorYValue()
    ensures BeNum(P256_GY) == GY
  {
    hide BeNum;
    EightWords([0x4f, 0xe3, 0x42, 0xe2], [0xfe, 0x1a, 0x7f, 0x9b], [0x8e, 0xe7, 0xeb, 0x4a], [0x7c, 0x0f, 0x9e, 0x16],
               [0x2b, 0xce, 0x33, 0x57], [0x6b, 0x31, 0x5e, 0xce], [0xcb, 0xb6, 0x40, 0x68], [0x37, 0xbf, 0x51, 0xf5]);
  }

  lemma CoefficientBValue()
    ensures BeNum(P256_B) == COEFF_B
  {
    hide BeNum;
    EightWords([0x5a, 0xc6, 0x35, 0xd8], [0xaa, 0x3a, 0x93, 0xe7], [0xb3, 0xeb, 0xbd, 0x55], [0x76, 0x98, 0x86, 0xbc],
               [0x65, 0x1d, 0x06, 0xb0], [0xcc, 0x53, 0xb0, 0xf6], [0x3b, 0xce, 0x3c, 0x3e], [0x27, 0xd2, 0x60, 0x4b]);
  }

  /** Is the affine point (x, y) on y^2 = x^3 - 3x + b? */
  method PtOnCurve(x: bn, y: bn, FP: Ctx) returns (r: bool)
    requires Ok(FP) && Mod(FP) == PRIME && Num(x) < PRIME && Num(y) < PRIME
    ensures r <==> OnCurve(Point(Num(x), Num(y), 1), COEFF_B, PRIME)
  {
    hide Num, BeNum, Cong, Times, Is, Ok, Mod;
    ghost var u, v := Num(x), Num(y);
    var xm := ToMont(x, FP);
    var ym := ToMont(y, FP);
    var lhs := FpMul(ym, ym, FP, v, v);
    var rhs := FpMul(xm, xm, FP, u, u);
    rhs := FpMul(rhs, xm, FP, Times(u, u), u);
    var three := SmallBuffer(3);
    var tm := ToMont(three[..NL], FP);
    var t := FpMul(tm, xm, FP, 3, u);
    rhs := FpSub(rhs, t, FP, Times(Times(u, u), u), Times(3, u));
    CoefficientBValue();
    var bp := FromBe32(P256_B);
    var bm := ToMont(bp, FP);
    rhs := FpAdd(rhs, bm, FP, Times(Times(u, u), u) - Times(3, u), COEFF_B);
    r := lhs == rhs;
    SameResidue(lhs, rhs, Times(v, v), Times(Times(u, u), u) - Times(3, u) + COEFF_B, FP);
    AffineDefect(u, v, COEFF_B, PRIME);
  }

  lemma GeneratorOnCurve()
    ensures OnCurve(Point(GX, GY, 1), COEFF_B, PRIME)
  {
    // The quotient, in two halves of 256 bits.
    var hi := 0x12bdd1ad23dfc833dccf5f6141d6bb4a1f365dc1430b0e600b52dd851938d2d6;
    var lo := 0x933106a72efbf035fdaf43963b37fd5456e90c6581a8fb7a0d8a46a3629f0458;
    var q := -(hi * 0x10000000000000000000000000000000000000000000000000000000000000000 + lo);
    assert Defect(Point(GX, GY, 1), COEFF_B) == PRIME * q;
    DivModUnique(Defect(Point(GX, GY, 1), COEFF_B), q, 0, PRIME);
  }

  /** Every multiple of the base point, for every scalar, is on the curve. */
  lemma MultiplesOnCurve(k: nat)
    ensures OnCurve(Multiply(k, Point(GX, GY, 1), PRIME), COEFF_B, PRIME)
  {
    GeneratorOnCurve();
    MultiplyOnCurve(k, Point(GX, GY, 1), COEFF_B, PRIME);
  }

  /** And it is that multiple of the base point by the chord-and-tangent law. */
  lemma MultiplesStand(k: nat)
    requires Fermat.IsPrime(PRIME)
    ensures CurveGroup.Stands(Multiply(k, Point(GX, GY, 1), PRIME),
                              CurveGroup.Multiple(k, CurveGroup.Affine.At(GX, GY), PRIME), PRIME)
  {
    hide Fermat.IsPrime, Multiply, CurveGroup.Multiple, OnCurve;
    GeneratorOnCurve();
    GeneratorStands();
    CurveGroup.MultiplyStands(k, Point(GX, GY, 1), CurveGroup.Affine.At(GX, GY), COEFF_B, PRIME);
  }

  lemma GeneratorStands()
    ensures CurveGroup.Stands(Point(GX, GY, 1), CurveGroup.Affine.At(GX, GY), PRIME)
    ensures CurveGroup.Reduced(Point(GX, GY, 1), PRIME)
  {
    hide Cong;
    DivModUnique(1, 0, 1, PRIME);
    CongMultiple(GX, GX, 0, PRIME);
    CongMultiple(GY, GY, 0, PRIME);
  }

  /** The prime of appendix D.1.2.3 of FIPS 186-4, and the bound of Hasse's theorem for the order. */
  lemma ConstantsFit()
    ensures PRIME == Pow(2, 256) - Pow(2, 224) + Pow(2, 192) + Pow(2, 96) - 1
    ensures (ORDER - PRIME - 1) * (ORDER - PRIME - 1) <= 4 * PRIME
  {
    hide Pow;
    Power32();
    PowAdd(2, 32, 64);
    PowAdd(2, 32, 32);
    PowAdd(2, 96, 96);
    PowAdd(2, 192, 32);
    PowAdd(2, 224, 32);
  }

  lemma Power32()
    ensures Pow(2, 32) == 0x1_0000_0000
  {
    PowAdd(2, 16, 16);
    PowAdd(2, 8, 8);
    assert Pow(2, 8) == 256;
  }

  /** Both contexts and the base point in Montgomery form. */
  method Setup256() returns (FP: Ctx, FN: Ctx, G: Jpt)
    ensures Ok(FP) && Mod(FP) == PRIME && Ok(FN) && Mod(FN) == ORDER
    ensures fresh(G) && G.Reduced(FP) && G.At(FP) == Point(GX, GY, 1)
  {
    hide Num, BeNum, Cong, Pow, Plain;
    PrimeValue();
    OrderValue();
    FP := MontInit(P256_P);
    FN := MontInit(P256_N);
    G := new Jpt();
    GeneratorXValue();
    GeneratorYValue();
    var gx := FromBe32(P256_GX);
    gx := ToMont(gx, FP);
    var gy := FromBe32(P256_GY);
    gy := ToMont(gy, FP);
    var one := One8();
    one := ToMont(one, FP);
    StorePoint(gx, gy, one, GX, GY, 1, FP);
    G.X, G.Y, G.Z := gx, gy, one;
  }
}
