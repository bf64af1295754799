/**
 X25519 on sixteen signed limbs of nominally 16 bits held in 64-bit words. Values are reduced
 lazily: a product leaves limbs in [-38, 2^16 + 37], one addition or subtraction may follow, and
 every word stays inside int64 throughout.
 */
module X25519 {
  import opened Radix
  import opened Rfc7748
  import Fermat

  const W: int := 0x1_0000

  type u8 = x: int | 0 <= x < 0x100
  type i64 = x: int | -0x8000_0000_0000_0000 <= x < 0x8000_0000_0000_0000

  // ----- limb ranges

  ghost predicate Within(s: seq<int>, lo: int, hi: int) {
    |s| == 16 && forall i :: 0 <= i < 16 ==> lo <= s[i] <= hi
  }

  /** Any limbs a sum of products can leave before carrying. */
  ghost predicate Wide(s: seq<int>) {
    Within(s, -0x4000_0000_0000, 0x4000_0000_0000)
  }

  /** After one carry: only limb 0 is still large. */
  ghost predicate OneCarry(s: seq<int>) {
    |s| == 16 && -0x20_0000_0000 <= s[0] <= 0x20_0000_0000 && forall i :: 1 <= i < 16 ==> 0 <= s[i] < W
  }

  /** After two carries, hence of every product. */
  ghost predicate Tight(s: seq<int>) {
    |s| == 16 && -38 <= s[0] <= W + 37 && forall i :: 1 <= i < 16 ==> 0 <= s[i] < W
  }

  /** One addition or subtraction of tight values, the operands of every product. */
  ghost predicate Loose(s: seq<int>) {
    Within(s, -0x4_0000, 0x4_0000)
  }

  // ----- carrying

  /** The carry out of limb i when carries run upward from limb 0. */
  ghost function Carry(s: seq<int>, i: int): int
    requires -1 <= i < |s|
    decreases i + 1
  {
    if i < 0 then 0 else (s[i] + Carry(s, i - 1)) / W
  }

  ghost function Digit(s: seq<int>, i: nat): (d: int)
    requires i < |s|
    ensures 0 <= d < W
  {
    (s[i] + Carry(s, i - 1)) % W
  }

  /** One carry pass: limb i keeps its low 16 bits, and the top carry returns to limb 0 times 38. */
  ghost function Carried(s: seq<int>): (r: seq<int>)
    requires |s| == 16
    ensures |r| == 16
  {
    seq(16, i requires 0 <= i < 16 => if i == 0 then Digit(s, 0) + 38 * Carry(s, 15) else Digit(s, i))
  }

  lemma {:induction false} CarryBound(s: seq<int>, l: int, i: int)
    requires l >= 1 && -1 <= i < |s| && forall j :: 0 <= j < |s| ==> -l * W <= s[j] <= l * W
    ensures -2 * l - 1 <= Carry(s, i) <= 2 * l + 1
    decreases i + 1
  {
    if i >= 0 {
      CarryBound(s, l, i - 1);
    }
  }

  /** The carry pass changes the value by a multiple of p = 2^255 - 19. */
  lemma CarriedValue(s: seq<int>)
    requires |s| == 16
    ensures Val(W, Carried(s)) == Val(W, s) - 2 * Prime() * Carry(s, 15)
  {
    hide Val, Pow, Carry, Digit, Prime;
    var d := seq(16, i requires 0 <= i < 16 => Digit(s, i));
    DigitsValue(s, 16);
    assert d == seq(16, i requires 0 <= i < 16 => Digit(s, i));
    assert s[..16] == s;
    assert Carried(s) == d[0 := Digit(s, 0) + 38 * Carry(s, 15)];
    ValUpdate(W, d, 0, Digit(s, 0) + 38 * Carry(s, 15));
    ValNil(W);
    WrapIs2P();
    assert Carry(s, 15) * (2 * Prime() + 38) == 2 * Prime() * Carry(s, 15) + 38 * Carry(s, 15);
  }

  lemma {:induction false} DigitsValue(s: seq<int>, n: nat)
    requires n <= |s|
    ensures Val(W, seq(n, i requires 0 <= i < n => Digit(s, i))) == Val(W, s[..n]) - Carry(s, n - 1) * Pow(W, n)
  {
    if n > 0 {
      hide Val, Pow, Digit;
      var d := seq(n - 1, i requires 0 <= i < n - 1 => Digit(s, i));
      DigitsValue(s, n - 1);
      assert seq(n, i requires 0 <= i < n => Digit(s, i)) == d + [Digit(s, n - 1)];
      ValSnoc(W, d, Digit(s, n - 1));
      ValPrefix(W, s, n - 1);
      PowNext(W, n - 1);
      DigitAndCarry(s, n - 1);
      DigitsStep(Digit(s, n - 1), s[n - 1], Carry(s, n - 2), Carry(s, n - 1), Pow(W, n - 1));
    } else {
      ValNil(W);
    }
  }

  lemma DigitAndCarry(s: seq<int>, i: nat)
    requires i < |s|
    ensures Digit(s, i) + W * Carry(s, i) == s[i] + Carry(s, i - 1)
  {}

  lemma DigitsStep(d: int, x: int, c0: int, c: int, p: int)
    requires d + W * c == x + c0
    ensures d * p == x * p + c0 * p - c * (W * p)
  {
    assert (d + W * c) * p == (x + c0) * p;
  }

  lemma WrapIs2P()
    ensures Pow(W, 16) == 2 * Prime() + 38
  {
    hide Pow;
    SmallPowers();
    PowMul(2, 16, 16);
    PowNext(2, 255);
  }

  /** Carry-propagate in place. */
  method CarryPass(o: array<i64>)
    requires o.Length == 16 && Wide(o[..])
    modifies o
    ensures o[..] == Carried(old(o[..]))
  {
    hide Carry, Digit;
    ghost var s := o[..];
    CarryEmpty(s);
    for i := 0 to 16
      invariant i == 0 ==> o[..] == s
      invariant forall j :: 0 < j < i ==> o[j] == Digit(s, j)
      invariant 0 < i ==> o[0] == Digit(s, 0) + if i == 16 then 38 * Carry(s, 15) else 0
      invariant i < 16 ==> o[i] == s[i] + Carry(s, i - 1)
      invariant forall j :: i < j < 16 ==> o[j] == s[j]
    {
      CarryBound(s, 0x4000_0000, i - 1);
      CarryBound(s, 0x4000_0000, i);
      CarryStep(s, i);
      o[i] := o[i] + W;
      var c: i64 := o[i] / W;  // arithmetic shift right
      var next := if i < 15 then i + 1 else 0;
      o[next] := o[next] + (c - 1 + 37 * (c - 1) * if i == 15 then 1 else 0);
      o[i] := o[i] - c * W;
    }
    assert o[..] == Carried(s);
  }

  lemma CarryEmpty(s: seq<int>)
    ensures Carry(s, -1) == 0
  {}

  lemma CarryStep(s: seq<int>, i: nat)
    requires i < |s|
    ensures var x := s[i] + Carry(s, i - 1);
            (x + W) / W - 1 == Carry(s, i) && x + W - ((x + W) / W) * W == Digit(s, i)
  {}

  // ----- what three passes leave

  lemma AfterOne(s: seq<int>)
    requires Wide(s)
    ensures OneCarry(Carried(s))
  {
    hide Carry;
    CarryBound(s, 0x4000_0000, 15);
  }

  lemma AfterTwo(s: seq<int>)
    requires OneCarry(s)
    ensures Tight(Carried(s))
  {
    SmallCarry(s, 15);
  }

  lemma {:induction false} SmallCarry(s: seq<int>, i: nat)
    requires OneCarry(s) && i < 16
    ensures -0x20_0001 <= Carry(s, i) <= 0x20_0001
    ensures i >= 1 ==> -33 <= Carry(s, i) <= 33
    ensures i >= 2 ==> -1 <= Carry(s, i) <= 1
  {
    if i > 0 {
      SmallCarry(s, i - 1);
    } else {
      assert Carry(s, -1) == 0;
    }
  }

  /** A third pass leaves every limb in [0, 2^16). */
  lemma AfterThree(s: seq<int>)
    requires Tight(s)
    ensures Digits(W, Carried(s))
  {
    hide Carry;
    CarryChain(s, 15);
    CarryEmpty(s);
    CarryStep(s, 0);
  }

  lemma {:induction false} CarryChain(s: seq<int>, i: nat)
    requires Tight(s) && i < 16
    ensures -1 <= Carry(s, i) <= 1
    ensures Carry(s, i) == 1 ==> s[0] >= W
    ensures Carry(s, i) == -1 ==> s[0] < 0
  {
    if i > 0 {
      CarryChain(s, i - 1);
    } else {
      assert Carry(s, -1) == 0;
    }
  }

  // ----- limb-wise operations

  /** Swap p and q when b == 1, limb by limb. The mask arithmetic of the source is `MaskSwaps`. */
  method CondSwap(p: array<i64>, q: array<i64>, b: int)
    requires p.Length == q.Length == 16 && p != q && 0 <= b <= 1
    modifies p, q
    ensures p[..] == old(if b == 1 then q[..] else p[..])
    ensures q[..] == old(if b == 1 then p[..] else q[..])
  {
    for i := 0 to 16
      invariant forall j :: 0 <= j < 16 ==> p[j] == old(if b == 1 && j < i then q[j] else p[j])
      invariant forall j :: 0 <= j < 16 ==> q[j] == old(if b == 1 && j < i then p[j] else q[j])
    {
      if b == 1 {
        p[i], q[i] := q[i], p[i];
      }
    }
  }

  /** With c = ~(b - 1) and t = c & (p ^ q), the pair (p ^ t, q ^ t) is (p, q) or (q, p). */
  lemma MaskSwaps(p: bv64, q: bv64, b: bv64, c: bv64)
    requires b <= 1 && c == !(b - 1)
    ensures p ^ (c & (p ^ q)) == if b == 1 then q else p
    ensures q ^ (c & (p ^ q)) == if b == 1 then p else q
  {
    MaskIs(b);
    if b == 1 {
      MaskOn(p, q, c);
    } else {
      MaskOff(p, q, c);
    }
  }

  lemma MaskIs(b: bv64)
    requires b <= 1
    ensures !(b - 1) == if b == 1 then 0xFFFF_FFFF_FFFF_FFFF else 0
  {}

  lemma MaskOn(p: bv64, q: bv64, c: bv64)
    requires c == 0xFFFF_FFFF_FFFF_FFFF
    ensures p ^ (c & (p ^ q)) == q && q ^ (c & (p ^ q)) == p
  {}

  lemma MaskOff(p: bv64, q: bv64, c: bv64)
    requires c == 0
    ensures p ^ (c & (p ^ q)) == p && q ^ (c & (p ^ q)) == q
  {}

  method AddGf(o: array<i64>, a: array<i64>, b: array<i64>)
    requires o.Length == a.Length == b.Length == 16 && Loose(a[..]) && Loose(b[..])
    modifies o
    ensures forall i :: 0 <= i < 16 ==> o[i] == old(a[i]) + old(b[i])
  {
    for i := 0 to 16
      invariant forall j :: 0 <= j < i ==> o[j] == old(a[j]) + old(b[j])
      invariant forall j :: i <= j < 16 ==> a[j] == old(a[j]) && b[j] == old(b[j])
    {
      assert a[i] == old(a[..])[i] && b[i] == old(b[..])[i];
      o[i] := a[i] + b[i];
    }
  }

  method SubGf(o: array<i64>, a: array<i64>, b: array<i64>)
    requires o.Length == a.Length == b.Length == 16 && Loose(a[..]) && Loose(b[..])
    modifies o
    ensures forall i :: 0 <= i < 16 ==> o[i] == old(a[i]) - old(b[i])
  {
    for i := 0 to 16
      invariant forall j :: 0 <= j < i ==> o[j] == old(a[j]) - old(b[j])
      invariant forall j :: i <= j < 16 ==> a[j] == old(a[j]) && b[j] == old(b[j])
    {
      assert a[i] == old(a[..])[i] && b[i] == old(b[..])[i];
      o[i] := a[i] - b[i];
    }
  }

  // ----- multiplication

  const PRODUCT: int := 0x10_0000_0000

  lemma ProductFits(x: int, y: int)
    requires -0x4_0000 <= x <= 0x4_0000 && -0x4_0000 <= y <= 0x4_0000
    ensures -PRODUCT <= x * y <= PRODUCT
  {
    if x >= 0 {
      MulMono(y, 0x4_0000, x);
      MulMono(-0x4_0000, y, x);
    } else {
      MulMono(y, 0x4_0000, -x);
      MulMono(-0x4_0000, y, -x);
    }
  }

  /** One row of the schoolbook product: t += a_i * b, shifted i places. */
  method ProductRow(t: array<i64>, x: i64, b: array<i64>, i: nat)
    requires t.Length == 31 && b.Length == 16 && i < 16 && t != b
    requires Loose(b[..]) && -0x4_0000 <= x <= 0x4_0000
    requires forall s :: 0 <= s < 31 ==> -(i * PRODUCT) <= t[s] <= i * PRODUCT
    modifies t
    ensures forall s :: 0 <= s < 31 ==> -((i + 1) * PRODUCT) <= t[s] <= (i + 1) * PRODUCT
    ensures Val(W, t[..]) == old(Val(W, t[..])) + x * Val(W, b[..]) * Pow(W, i)
  {
    hide Val, Pow;
    ghost var v0, bv := Val(W, t[..]), b[..];
    ValNil(W);
    for j := 0 to 16
      invariant b[..] == bv
      invariant forall s :: 0 <= s < 31 ==>
                  var rows := if i <= s < i + j then i + 1 else i;
                  -(rows * PRODUCT) <= t[s] <= rows * PRODUCT
      invariant Val(W, t[..]) == v0 + x * Val(W, bv[..j]) * Pow(W, i)
    {
      ProductFits(x, bv[j]);
      ghost var before := t[..];
      t[i + j] := t[i + j] + x * b[j];
      assert t[..] == before[i + j := before[i + j] + x * bv[j]];
      ValUpdate(W, before, i + j, before[i + j] + x * bv[j]);
      ValPrefix(W, bv, j);
      PowAdd(W, j, i);
      RowTerm(x, Val(W, bv[..j]), bv[j], Pow(W, j), Pow(W, i));
    }
    assert bv[..16] == bv;
  }

  lemma RowTerm(x: int, v: int, y: int, p: int, q: int)
    ensures x * (v + y * p) * q == x * v * q + (x * y) * (p * q)
  {
    assert x * (v + y * p) == x * v + (x * y) * p;
  }

  /** The schoolbook product of two loose values. */
  method Schoolbook(a: array<i64>, b: array<i64>) returns (t: array<i64>)
    requires a.Length == b.Length == 16 && Loose(a[..]) && Loose(b[..])
    ensures fresh(t) && t.Length == 31
    ensures forall s :: 0 <= s < 31 ==> -16 * PRODUCT <= t[s] <= 16 * PRODUCT
    ensures Val(W, t[..]) == Val(W, a[..]) * Val(W, b[..])
  {
    hide Val, Pow;
    t := new i64[31](_ => 0);
    ValZeros(W, t[..]);
    ValNil(W);
    ghost var av := a[..];
    for i := 0 to 16
      invariant fresh(t) && unchanged(a) && unchanged(b)
      invariant forall s :: 0 <= s < 31 ==> -(i * PRODUCT) <= t[s] <= i * PRODUCT
      invariant Val(W, t[..]) == Val(W, av[..i]) * Val(W, b[..])
    {
      assert a[i] == av[i];
      ProductRow(t, a[i], b, i);
      ValPrefix(W, av, i);
      ColumnTerm(Val(W, av[..i]), av[i], Pow(W, i), Val(W, b[..]));
    }
    assert av[..16] == av;
  }

  lemma ColumnTerm(v: int, x: int, p: int, b: int)
    ensures (v + x * p) * b == v * b + x * b * p
  {}

  /** Limbs 16-30 weigh 2^256 = 38 mod p: fold them back times 38. */
  method Fold(o: array<i64>, t: array<i64>)
    requires o.Length == 16 && t.Length == 31 && o != t
    requires forall s :: 0 <= s < 31 ==> -16 * PRODUCT <= t[s] <= 16 * PRODUCT
    modifies o, t
    ensures Wide(o[..])
    ensures Cong(Val(W, o[..]), Val(W, old(t[..])), Prime())
  {
    hide Val, Prime, Cong;
    ghost var s := t[..];
    assert forall j :: 0 <= j < 31 ==> -16 * PRODUCT <= s[j] <= 16 * PRODUCT;
    FoldHigh(t);
    for i := 0 to 16
      invariant forall j :: 0 <= j < i ==> o[j] == t[j]
      invariant t[15] == s[15] && forall j :: 0 <= j < 15 ==> t[j] == s[j] + 38 * s[j + 16]
    {
      o[i] := t[i];
    }
    forall j | 0 <= j < 16
      ensures -0x4000_0000_0000 <= o[j] <= 0x4000_0000_0000
    {
      assert -16 * PRODUCT <= s[j] <= 16 * PRODUCT;
      if j < 15 {
        assert -16 * PRODUCT <= s[j + 16] <= 16 * PRODUCT;
      }
    }
    FoldValue(s, o[..]);
  }

  method FoldHigh(t: array<i64>)
    requires t.Length == 31
    requires forall s :: 0 <= s < 31 ==> -16 * PRODUCT <= t[s] <= 16 * PRODUCT
    modifies t
    ensures t[15] == old(t[15]) && forall j :: 0 <= j < 15 ==> t[j] == old(t[j]) + 38 * old(t[j + 16])
  {
    for i := 0 to 15
      invariant forall j :: 0 <= j < i ==> t[j] == old(t[j]) + 38 * old(t[j + 16])
      invariant forall j :: i <= j < 31 ==> t[j] == old(t[j])
    {
      t[i] := t[i] + 38 * t[i + 16];
    }
  }

  lemma FoldValue(s: seq<int>, o: seq<int>)
    requires |s| == 31 && |o| == 16
    requires o[15] == s[15] && forall j :: 0 <= j < 15 ==> o[j] == s[j] + 38 * s[j + 16]
    ensures Cong(Val(W, o), Val(W, s), Prime())
  {
    hide Val, Pow, Prime;
    var lo, hi := s[..16], s[16..];
    assert s == lo + hi;
    ValConcat(W, lo, hi);
    WrapIs2P();
    assert o == o[..15] + [o[15]] && lo == lo[..15] + [lo[15]];
    ValSnoc(W, o[..15], o[15]);
    ValSnoc(W, lo[..15], lo[15]);
    ValLinear(W, o[..15], lo[..15], hi, 38);
    assert Val(W, s) == Val(W, lo) + Pow(W, 16) * Val(W, hi);
    FoldCollect(Val(W, o), Val(W, s), Val(W, lo), Val(W, hi), Pow(W, 16), Prime());
  }

  lemma FoldCollect(o: int, s: int, lo: int, hi: int, w: int, p: int)
    requires s == lo + w * hi && o == lo + 38 * hi && w == 2 * p + 38 && p > 0
    ensures Cong(o, s, p)
  {
    hide Cong;
    assert w * hi == 2 * p * hi + 38 * hi;
    assert (-2 * hi) * p == -(2 * p * hi);
    CongMultiple(o, s, -2 * hi, p);
  }

  lemma {:induction false} ValLinear(b: int, o: seq<int>, s: seq<int>, t: seq<int>, k: int)
    requires |o| == |s| == |t| && forall j :: 0 <= j < |o| ==> o[j] == s[j] + k * t[j]
    ensures Val(b, o) == Val(b, s) + k * Val(b, t)
  {
    if |o| > 0 {
      var n := |o| - 1;
      ValLinear(b, o[..n], s[..n], t[..n], k);
      LinearTerm(s[n], k, t[n], Pow(b, n), Val(b, t[..n]));
    }
  }

  lemma LinearTerm(x: int, k: int, y: int, p: int, v: int)
    ensures (x + k * y) * p == x * p + k * (y * p)
    ensures k * (v + y * p) == k * v + k * (y * p)
  {}

  /** o = a * b: multiply, fold, carry twice. o may be a or b. */
  method MulGf(o: array<i64>, a: array<i64>, b: array<i64>)
    requires o.Length == a.Length == b.Length == 16 && Loose(a[..]) && Loose(b[..])
    modifies o
    ensures Tight(o[..])
    ensures Cong(Val(W, o[..]), old(Val(W, a[..]) * Val(W, b[..])), Prime())
  {
    hide Val, Prime, Carried, Wide, OneCarry, Tight, Cong, Carry;
    ghost var product := Val(W, a[..]) * Val(W, b[..]);
    var t := Schoolbook(a, b);
    Fold(o, t);
    ghost var w0 := o[..];
    AfterOne(w0);
    OneCarryWide(Carried(w0));
    CarryPass(o);
    AfterTwo(o[..]);
    CarryPass(o);
    CarriedValue(w0);
    CarriedValue(Carried(w0));
    TwoCarries(Val(W, o[..]), Val(W, Carried(w0)), Val(W, w0), Carry(Carried(w0), 15), Carry(w0, 15), product);
  }

  lemma OneCarryWide(s: seq<int>)
    requires OneCarry(s)
    ensures Wide(s)
  {}

  lemma TwoCarries(v2: int, v1: int, v0: int, k2: int, k1: int, product: int)
    requires v2 == v1 - 2 * Prime() * k2 && v1 == v0 - 2 * Prime() * k1 && Cong(v0, product, Prime())
    ensures Cong(v2, product, Prime())
  {
    hide Prime;
    assert (-2 * k2 - 2 * k1) * Prime() == -(2 * Prime() * k2) - 2 * Prime() * k1;
    CongMultiple(v2, v0, -2 * k2 - 2 * k1, Prime());
    CongTrans(v2, v0, product, Prime());
  }

  // ----- field elements

  /** `a` holds the residue v with loose limbs. */
  ghost predicate LooseIs(a: array<i64>, v: int)
    reads a
  {
    a.Length == 16 && Loose(a[..]) && 0 <= v < Prime() && Cong(Val(W, a[..]), v, Prime())
  }

  /** `a` holds the residue v with the limbs of a product. */
  ghost predicate Is(a: array<i64>, v: int)
    reads a
  {
    LooseIs(a, v) && Tight(a[..])
  }

  lemma TightIsLoose(s: seq<int>)
    requires Tight(s)
    ensures Loose(s)
  {}

  method FieldAdd(o: array<i64>, a: array<i64>, b: array<i64>, ghost u: int, ghost v: int)
    requires o.Length == 16 && Is(a, u) && Is(b, v)
    modifies o
    ensures LooseIs(o, FAdd(u, v))
  {
    hide Val, Prime, Cong;
    ghost var s, t := a[..], b[..];
    AddGf(o, a, b);
    ValLinear(W, o[..], s, t, 1);
    CongAdd(Val(W, s), u, Val(W, t), v, Prime());
    CongMod(u + v, Prime());
    CongTrans(Val(W, o[..]), u + v, FAdd(u, v), Prime());
  }

  method FieldSub(o: array<i64>, a: array<i64>, b: array<i64>, ghost u: int, ghost v: int)
    requires o.Length == 16 && Is(a, u) && Is(b, v)
    modifies o
    ensures LooseIs(o, FSub(u, v))
  {
    hide Val, Prime, Cong;
    ghost var s, t := a[..], b[..];
    SubGf(o, a, b);
    ValLinear(W, o[..], s, t, -1);
    CongSub(Val(W, s), u, Val(W, t), v, Prime());
    CongMod(u - v, Prime());
    CongTrans(Val(W, o[..]), u - v, FSub(u, v), Prime());
  }

  method FieldMul(o: array<i64>, a: array<i64>, b: array<i64>, ghost u: int, ghost v: int)
    requires o.Length == 16 && LooseIs(a, u) && LooseIs(b, v)
    modifies o
    ensures Is(o, FMul(u, v))
  {
    hide Val, Prime, Cong, Tight, Loose;
    ghost var s, t := a[..], b[..];
    MulGf(o, a, b);
    TightIsLoose(o[..]);
    CongMul(Val(W, s), u, Val(W, t), v, Prime());
    CongMod(u * v, Prime());
    CongTrans(Val(W, o[..]), Val(W, s) * Val(W, t), u * v, Prime());
    CongTrans(Val(W, o[..]), u * v, FMul(u, v), Prime());
  }

  method CopyGf(o: array<i64>, a: array<i64>)
    requires o.Length == a.Length == 16
    modifies o
    ensures o[..] == old(a[..])
  {
    for i := 0 to 16
      invariant forall j :: 0 <= j < i ==> o[j] == old(a[j])
      invariant forall j :: i <= j < 16 ==> a[j] == old(a[j])
    {
      o[i] := a[i];
    }
  }

  // ----- inversion

  /** The exponent reached after the loop has counted a down to n: all ones except at 2 and 4. */
  ghost function InvExponent(n: int): nat
    requires 0 <= n <= 254
    decreases 254 - n
  {
    if n == 254 then 1 else 2 * InvExponent(n + 1) + if n == 2 || n == 4 then 0 else 1
  }

  lemma {:induction false} InvExponentOnes(n: int)
    requires 5 <= n <= 254
    ensures InvExponent(n) == Pow(2, 255 - n) - 1
    decreases 254 - n
  {
    hide Pow;
    if n == 254 {
      SmallPowers();
    } else {
      InvExponentOnes(n + 1);
      PowNext(2, 254 - n);
    }
  }

  /** The loop raises to exactly p - 2. */
  lemma InvExponentIsPMinus2()
    ensures InvExponent(0) == Prime() - 2
  {
    hide Pow, InvExponent;
    InvExponentOnes(5);
    PowNext(2, 250);
    PowNext(2, 251);
    PowNext(2, 252);
    PowNext(2, 253);
    PowNext(2, 254);
    InvStep(4);
    InvStep(3);
    InvStep(2);
    InvStep(1);
    InvStep(0);
  }

  lemma PowerSquares(u: int, e: nat)
    ensures FMul(FPow(u, e), FPow(u, e)) == FPow(u, 2 * e)
  {
    hide Pow, Prime;
    PowAdd(u, e, e);
    ModMul(Pow(u, e), Pow(u, e), Prime());
    ModMul(Pow(u, e), FPow(u, e), Prime());
  }

  lemma PowerNext(u: int, e: nat)
    ensures FMul(FPow(u, e), u) == FPow(u, e + 1)
  {
    hide Pow, Prime;
    PowNext(u, e);
    ModMul(Pow(u, e), u, Prime());
  }

  lemma PowerOne(u: int)
    requires 0 <= u < Prime()
    ensures FPow(u, 1) == u
  {
    hide Pow, Prime;
    PowNext(u, 0);
    ValNil(u);
    DivModUnique(u, 0, u, Prime());
  }

  /** o = i^(p-2) mod p; o may be i. */
  method Invert(o: array<i64>, i: array<i64>, ghost u: int)
    requires o.Length == 16 && Is(i, u)
    modifies o
    ensures Is(o, FPow(u, Prime() - 2))
  {
    hide Val, Prime, Cong, Tight, Loose, FPow, FMul, InvExponent, Pow;
    var c := new i64[16];
    CopyGf(c, i);
    InvExponentIsPMinus2();
    InvStart();
    PowerOne(u);
    var a := 254;
    while a > 0
      invariant 0 <= a <= 254 && fresh(c) && unchanged(i) && unchanged(o)
      invariant Is(c, FPow(u, InvExponent(a)))
    {
      a := a - 1;
      ghost var e := InvExponent(a + 1);
      InvStep(a);
      FieldMul(c, c, c, FPow(u, e), FPow(u, e));
      PowerSquares(u, e);
      if a != 2 && a != 4 {
        FieldMul(c, c, i, FPow(u, 2 * e), u);
        PowerNext(u, 2 * e);
      }
    }
    CopyGf(o, c);
  }

  /** What that power is for: an inverse, if p is prime. */
  lemma InvertIsInverse(u: nat)
    requires Fermat.IsPrime(Prime())
    ensures FMul(u, FPow(u, Prime() - 2)) == if u % Prime() == 0 then 0 else 1
  {
    hide Pow, Prime, Fermat.IsPrime;
    Fermat.Inverse(u, Prime());
  }

  lemma InvStart()
    ensures InvExponent(254) == 1
  {}

  lemma InvStep(n: int)
    requires 0 <= n < 254
    ensures InvExponent(n) == 2 * InvExponent(n + 1) + if n == 2 || n == 4 then 0 else 1
  {}

  // ----- the ladder

  ghost predicate Apart(a: array<i64>, b: array<i64>, c: array<i64>, d: array<i64>, x: array<i64>, k: array<i64>) {
    a != b && a != c && a != d && b != c && b != d && c != d
    && x != a && x != b && x != c && x != d && k != a && k != b && k != c && k != d
  }

  /** x2, z2, x3, z3 are held in a, c, b, d. */
  ghost predicate HoldsState(a: array<i64>, b: array<i64>, c: array<i64>, d: array<i64>, s: State)
    reads a, b, c, d
  {
    Is(a, s.x2) && Is(c, s.z2) && Is(b, s.x3) && Is(d, s.z3)
  }

  /** The first eight operations: squares of sum and difference, and the two cross products. */
  method StepProducts(a: array<i64>, b: array<i64>, c: array<i64>, d: array<i64>, e: array<i64>, f: array<i64>,
                      ghost s: State)
    requires Apart(a, b, c, d, e, f) && e != f && e.Length == f.Length == 16 && HoldsState(a, b, c, d, s)
    modifies a, b, c, d, e, f
    ensures var A, B := FAdd(s.x2, s.z2), FSub(s.x2, s.z2);
            Is(d, FSqr(A)) && Is(f, FSqr(B))
            && Is(a, FMul(FAdd(s.x3, s.z3), B)) && Is(c, FMul(FSub(s.x3, s.z3), A))
  {
    hide Is, LooseIs, FAdd, FSub, FMul;
    IsArray(a, s.x2);
    IsArray(b, s.x3);
    IsArray(c, s.z2);
    IsArray(d, s.z3);
    ghost var A, B := FAdd(s.x2, s.z2), FSub(s.x2, s.z2);
    ghost var C, D := FAdd(s.x3, s.z3), FSub(s.x3, s.z3);
    FieldAdd(e, a, c, s.x2, s.z2);
    FieldSub(a, a, c, s.x2, s.z2);
    FieldAdd(c, b, d, s.x3, s.z3);
    FieldSub(b, b, d, s.x3, s.z3);
    FieldMul(d, e, e, A, A);
    FieldMul(f, a, a, B, B);
    FieldMul(a, c, a, C, B);
    FieldMul(c, b, e, D, A);
  }

  lemma IsArray(a: array<i64>, v: int)
    requires Is(a, v)
    ensures a.Length == 16 && LooseIs(a, v)
  {}

  /** The remaining operations, from CB, DA, AA, BB to the next state. */
  method StepCombine(a: array<i64>, b: array<i64>, c: array<i64>, d: array<i64>, e: array<i64>, f: array<i64>,
                     x: array<i64>, k: array<i64>,
                     ghost CB: int, ghost DA: int, ghost AA: int, ghost BB: int, ghost x1: int)
    requires Apart(a, b, c, d, e, f) && Apart(a, b, c, d, x, k) && e != x && e != k && e != f && f != x && f != k
    requires b.Length == e.Length == 16 && Is(a, CB) && Is(c, DA) && Is(d, AA) && Is(f, BB) && Is(x, x1) && Is(k, A24())
    modifies a, b, c, d, e, f
    ensures var E := FSub(AA, BB);
            Is(a, FMul(AA, BB)) && Is(c, FMul(E, FAdd(FMul(E, A24()), AA)))
            && Is(b, FSqr(FAdd(CB, DA))) && Is(d, FMul(FSqr(FSub(CB, DA)), x1))
    ensures Is(x, x1) && Is(k, A24())
  {
    hide Is, LooseIs, FAdd, FSub, FMul;
    IsArray(a, CB);
    IsArray(c, DA);
    IsArray(d, AA);
    IsArray(f, BB);
    IsArray(x, x1);
    IsArray(k, A24());
    ghost var E := FSub(AA, BB);
    FieldAdd(e, a, c, CB, DA);
    FieldSub(a, a, c, CB, DA);
    FieldMul(b, a, a, FSub(CB, DA), FSub(CB, DA));
    FieldSub(c, d, f, AA, BB);
    FieldMul(a, c, k, E, A24());
    FieldAdd(a, a, d, FMul(E, A24()), AA);
    FieldMul(c, c, a, E, FAdd(FMul(E, A24()), AA));
    FieldMul(a, d, f, AA, BB);
    IsArray(b, FSqr(FSub(CB, DA)));
    FieldMul(d, b, x, FSqr(FSub(CB, DA)), x1);
    FieldMul(b, e, e, FAdd(CB, DA), FAdd(CB, DA));
  }

  /** The operand order of the code against that of the RFC. */
  lemma StepMatches(s: State, x1: int)
    ensures
      var A, B := FAdd(s.x2, s.z2), FSub(s.x2, s.z2);
      var AA, BB := FSqr(A), FSqr(B);
      var E, CB, DA := FSub(AA, BB), FMul(FAdd(s.x3, s.z3), B), FMul(FSub(s.x3, s.z3), A);
      Step(s, x1) == State(FMul(AA, BB), FMul(E, FAdd(FMul(E, A24()), AA)),
                           FSqr(FAdd(CB, DA)), FMul(FSqr(FSub(CB, DA)), x1))
  {
    hide Prime;
    var A, B := FAdd(s.x2, s.z2), FSub(s.x2, s.z2);
    var AA, BB := FSqr(A), FSqr(B);
    var E, CB, DA := FSub(AA, BB), FMul(FAdd(s.x3, s.z3), B), FMul(FSub(s.x3, s.z3), A);
    hide FMul, FAdd, FSub;
    MulCommutes(A24(), E);
    AddCommutes(AA, FMul(E, A24()));
    AddCommutes(DA, CB);
    SquareOfDifference(CB, DA);
    MulCommutes(x1, FSqr(FSub(CB, DA)));
  }

  lemma MulCommutes(u: int, v: int)
    ensures FMul(u, v) == FMul(v, u)
  {
    hide Prime;
    assert u * v == v * u;
  }

  lemma AddCommutes(u: int, v: int)
    ensures FAdd(u, v) == FAdd(v, u)
  {}

  lemma SquareOfDifference(u: int, v: int)
    ensures FSqr(FSub(u, v)) == FSqr(FSub(v, u))
  {
    hide Prime, Cong;
    var p := Prime();
    CongMod(u - v, p);
    CongMod(v - u, p);
    CongMul(FSub(u, v), u - v, FSub(u, v), u - v, p);
    CongMul(FSub(v, u), v - u, FSub(v, u), v - u, p);
    assert (u - v) * (u - v) == (v - u) * (v - u);
    CongTrans(FSub(v, u) * FSub(v, u), (v - u) * (v - u), (v - u) * (v - u), p);
    CongTrans(FSub(u, v) * FSub(u, v), (u - v) * (u - v), FSub(v, u) * FSub(v, u), p);
    CongIsEqual(FSub(u, v) * FSub(u, v), FSub(v, u) * FSub(v, u), p);
  }

  lemma CongIsEqual(a: int, b: int, p: int)
    requires p > 0 && Cong(a, b, p)
    ensures a % p == b % p
  {}

  /** One bit: swap, step, swap back. */
  method LadderBit(a: array<i64>, b: array<i64>, c: array<i64>, d: array<i64>, x: array<i64>, k: array<i64>, r: int,
                   ghost s: State, ghost x1: int)
    requires Apart(a, b, c, d, x, k) && HoldsState(a, b, c, d, s) && Is(x, x1) && Is(k, A24()) && 0 <= r <= 1
    modifies a, b, c, d
    ensures HoldsState(a, b, c, d, CSwap(r, Step(CSwap(r, s), x1)))
    ensures Is(x, x1) && Is(k, A24())
  {
    hide Step, FAdd, FSub, FMul;
    var e, f := new i64[16], new i64[16];
    CondSwap(a, b, r);
    CondSwap(c, d, r);
    ghost var w := CSwap(r, s);
    assert HoldsState(a, b, c, d, w);
    hide Is;
    StepProducts(a, b, c, d, e, f, w);
    ghost var A, B := FAdd(w.x2, w.z2), FSub(w.x2, w.z2);
    StepCombine(a, b, c, d, e, f, x, k,
                FMul(FAdd(w.x3, w.z3), B), FMul(FSub(w.x3, w.z3), A), FSqr(A), FSqr(B), x1);
    StepMatches(w, x1);
    SwapBack(a, b, c, d, r, Step(w, x1));
  }

  method SwapBack(a: array<i64>, b: array<i64>, c: array<i64>, d: array<i64>, r: int, ghost s: State)
    requires a != b && a != c && a != d && b != c && b != d && c != d && 0 <= r <= 1
    requires HoldsState(a, b, c, d, s)
    modifies a, b, c, d
    ensures HoldsState(a, b, c, d, CSwap(r, s))
  {
    hide Prime, Val, Cong, Tight, Loose;
    CondSwap(a, b, r);
    CondSwap(c, d, r);
  }

  // ----- serialisation

  /** The limbs of p. */
  ghost function PLimbs(): seq<int> {
    seq(16, i => if i == 0 then 0xFFED else if i == 15 then 0x7FFF else 0xFFFF)
  }

  lemma {:induction false} PLimbsPrefix(n: nat)
    requires 1 <= n <= 15
    ensures Val(W, PLimbs()[..n]) == Pow(W, n) - 19
  {
    hide Val, Pow;
    if n == 1 {
      ValPrefix(W, PLimbs(), 0);
      ValNil(W);
      PowNext(W, 0);
      assert PLimbs()[..0] == [];
    } else {
      PLimbsPrefix(n - 1);
      ValPrefix(W, PLimbs(), n - 1);
      PowNext(W, n - 1);
    }
  }

  lemma PLimbsValue()
    ensures Val(W, PLimbs()) == Prime()
  {
    hide Val, Pow;
    PLimbsPrefix(15);
    ValPrefix(W, PLimbs(), 15);
    assert PLimbs()[..16] == PLimbs();
    SmallPowers();
    PowMul(2, 16, 15);
    PowAdd(2, 240, 15);
  }

  /** m = t - p with a rippling borrow; b reports that t < p. */
  method SubtractPrime(t: array<i64>, m: array<i64>) returns (b: int)
    requires t.Length == m.Length == 16 && t != m && Digits(W, t[..])
    modifies m
    ensures b == if Val(W, t[..]) < Prime() then 1 else 0
    ensures b == 0 ==> Digits(W, m[..]) && Val(W, m[..]) == Val(W, t[..]) - Prime()
  {
    hide Val, Pow, Prime, PLimbs;
    ghost var tv, pl := t[..], PLimbs();
    PLimbsAre();
    ValNil(W);
    m[0] := t[0] - 0xFFED;
    FirstLimb(m[..1], tv, pl);
    assert m[..1][..1] == m[..1];
    for i := 1 to 15
      invariant t[..] == tv
      invariant forall j :: 0 <= j < i - 1 ==> 0 <= m[j] < W
      invariant -W <= m[i - 1] < W
      invariant Val(W, m[..i]) == Val(W, tv[..i]) - Val(W, pl[..i])
    {
      assert 0 <= tv[i] < W;
      BorrowLimb(t, m, pl, i, 0xFFFF);
    }
    assert 0 <= tv[15] < W;
    BorrowLimb(t, m, pl, 15, 0x7FFF);
    b := (m[15] / W) % 2;
    assert m[..16] == m[..] && tv[..16] == tv && pl[..16] == pl;
    PLimbsValue();
    TopLimbSign(m[..]);
  }

  lemma PLimbsAre()
    ensures |PLimbs()| == 16 && PLimbs()[0] == 0xFFED && PLimbs()[15] == 0x7FFF
    ensures forall i :: 0 < i < 15 ==> PLimbs()[i] == 0xFFFF
  {}

  lemma FirstLimb(m: seq<int>, t: seq<int>, p: seq<int>)
    requires |m| == 1 && |t| >= 1 && |p| >= 1 && m[0] == t[0] - p[0]
    ensures Val(W, m[..1]) == Val(W, t[..1]) - Val(W, p[..1])
  {
    hide Val;
    ValPrefix(W, m, 0);
    ValPrefix(W, t, 0);
    ValPrefix(W, p, 0);
    assert m[..0] == [] && t[..0] == [] && p[..0] == [];
    ValNil(W);
  }

  /** Limb i of t - p, masking the limb below and moving its borrow up. */
  method BorrowLimb(t: array<i64>, m: array<i64>, ghost pl: seq<int>, i: nat, p: i64)
    requires t.Length == m.Length == |pl| == 16 && t != m && 1 <= i < 16 && pl[i] == p
    requires 0 <= t[i] < W && 0 < p < W && -W <= m[i - 1] < W
    requires Val(W, m[..i]) == Val(W, t[..i]) - Val(W, pl[..i])
    modifies m
    ensures forall j :: 0 <= j < i - 1 ==> m[j] == old(m[j])
    ensures 0 <= m[i - 1] < W && -p - 1 <= m[i] < W
    ensures Val(W, m[..i + 1]) == Val(W, t[..i + 1]) - Val(W, pl[..i + 1])
  {
    hide Val, Pow;
    ghost var m0: seq<int> := m[..i];
    var x := m[i - 1];
    m[i] := t[i] - p - (x / W) % 2;
    m[i - 1] := x % W;
    assert m[..i] == m0[i - 1 := x % W];
    assert m[..i + 1] == m[..i] + [m[i]];
    ValUpdate(W, m0, i - 1, x % W);
    ValSnoc(W, m[..i], m[i]);
    ValPrefix(W, t[..], i);
    ValPrefix(W, pl, i);
    assert t[..][..i] == t[..i] && t[..][..i + 1] == t[..i + 1];
    PowNext(W, i - 1);
    BorrowStep(x, t[i], p, m[i], Pow(W, i - 1));
  }

  lemma BorrowStep(x: int, t: int, p: int, m: int, q: int)
    requires -W <= x < W && m == t - p - (x / W) % 2
    ensures (x % W - x) * q + m * (W * q) == t * (W * q) - p * (W * q)
  {
    var b := (x / W) % 2;
    assert x % W - x == W * b;
    assert (W * b) * q == b * (W * q);
    assert (t - p - b) * (W * q) == t * (W * q) - p * (W * q) - b * (W * q);
  }

  lemma TopLimbSign(m: seq<int>)
    requires |m| == 16 && (forall j :: 0 <= j < 15 ==> 0 <= m[j] < W) && -W < m[15] < W
    ensures Val(W, m) < 0 <==> m[15] < 0
    ensures (m[15] / W) % 2 == if m[15] < 0 then 1 else 0
  {
    hide Val, Pow;
    ValBounds(W, m[..15]);
    ValPrefix(W, m, 15);
    assert m[..16] == m;
    if m[15] < 0 {
      MulMono(m[15], -1, Pow(W, 15));
    } else {
      MulMono(0, m[15], Pow(W, 15));
    }
  }

  /** Serialise fully reduced: the unique representative in [0, p), little-endian. */
  method Pack(o: array<u8>, n: array<i64>, ghost v: int)
    requires o.Length == 32 && Is(n, v)
    modifies o
    ensures Val(256, o[..]) == v
  {
    hide Val, Pow, Prime, Cong, Tight, Carried;
    var t := new i64[16];
    CopyGf(t, n);
    ghost var x := t[..];
    PackCarries(t);
    CongTrans(Val(W, t[..]), Val(W, x), v, Prime());
    ValBounds(W, t[..]);
    WrapIs2P();
    var m := new i64[16];
    for j := 0 to 2
      invariant fresh(t) && fresh(m) && t != m && Digits(W, t[..]) && unchanged(o)
      invariant Cong(Val(W, t[..]), v, Prime())
      invariant 0 <= Val(W, t[..]) < (if j == 0 then 2 * Prime() + 38 else if j == 1 then Prime() + 38 else Prime())
    {
      ghost var y := Val(W, t[..]);
      var b := SubtractPrime(t, m);
      CondSwap(t, m, 1 - b);
      CongMultiple(y - Prime(), y, -1, Prime());
      CongMultiple(y, y, 0, Prime());
      CongTrans(Val(W, t[..]), y, v, Prime());
    }
    CongSmall(Val(W, t[..]), v, Prime());
    ghost var limbs := t[..];
    for i := 0 to 16
      invariant t[..] == limbs
      invariant forall j :: 0 <= j < i ==> o[2 * j] == limbs[j] % 256 && o[2 * j + 1] == limbs[j] / 256
    {
      assert 0 <= limbs[i] < W;
      o[2 * i] := t[i] % 256;
      o[2 * i + 1] := t[i] / 256;
    }
    BytesOfLimbs(o[..], limbs, 16);
    assert o[..][..32] == o[..] && limbs[..16] == limbs;
  }

  /** Three carries leave the limbs in [0, 2^16) and the residue as it was. */
  method PackCarries(t: array<i64>)
    requires t.Length == 16 && Tight(t[..])
    modifies t
    ensures Digits(W, t[..]) && Cong(Val(W, t[..]), old(Val(W, t[..])), Prime())
  {
    hide Val, Prime, Carry, Carried;
    ghost var s0 := t[..];
    TightThroughout(s0);
    CarryPass(t);
    ghost var s1 := t[..];
    TightThroughout(s1);
    CarryPass(t);
    ghost var s2 := t[..];
    TightThroughout(s2);
    CarryPass(t);
    CongTrans(Val(W, s2), Val(W, s1), Val(W, s0), Prime());
    CongTrans(Val(W, t[..]), Val(W, s2), Val(W, s0), Prime());
  }

  lemma TightThroughout(s: seq<int>)
    requires Tight(s)
    ensures Wide(s) && Tight(Carried(s)) && Digits(W, Carried(s))
    ensures Cong(Val(W, Carried(s)), Val(W, s), Prime())
  {
    hide Val, Prime, Carry, Carried;
    AfterThree(s);
    DigitsAreTight(Carried(s));
    CarriedValue(s);
    assert (-2 * Carry(s, 15)) * Prime() == -(2 * Prime() * Carry(s, 15));
    CongMultiple(Val(W, Carried(s)), Val(W, s), -2 * Carry(s, 15), Prime());
  }

  lemma DigitsAreTight(s: seq<int>)
    requires |s| == 16 && Digits(W, s)
    ensures Tight(s)
  {}

  /** Two bytes to a limb. */
  lemma {:induction false} BytesOfLimbs(o: seq<int>, t: seq<int>, n: nat)
    requires 2 * n <= |o| && n <= |t|
    requires forall j :: 0 <= j < n ==> o[2 * j] + 256 * o[2 * j + 1] == t[j]
    ensures Val(256, o[..2 * n]) == Val(W, t[..n])
  {
    hide Val, Pow;
    if n == 0 {
      ValNil(256);
      ValNil(W);
    } else {
      BytesOfLimbs(o, t, n - 1);
      ValPrefix(256, o, 2 * n - 2);
      ValPrefix(256, o, 2 * n - 1);
      ValPrefix(W, t, n - 1);
      PowMul(256, 2, n - 1);
      PowNext(256, 2 * n - 2);
      PowNext(256, 0);
      PowNext(256, 1);
      ValNil(256);
      TwoBytes(o[2 * n - 2], o[2 * n - 1], t[n - 1], Pow(W, n - 1));
    }
  }

  lemma TwoBytes(x: int, y: int, t: int, p: int)
    requires x + 256 * y == t
    ensures x * p + y * (256 * p) == t * p
  {}

  /** Parse 32 little-endian bytes, dropping the top bit. */
  method Unpack(o: array<i64>, n: seq<u8>)
    requires o.Length == 16 && |n| == 32
    modifies o
    ensures Digits(W, o[..]) && Val(W, o[..]) == DecodeU(n)
  {
    hide Val, Pow;
    for i := 0 to 16
      invariant forall j :: 0 <= j < i ==> o[j] == n[2 * j] + 256 * n[2 * j + 1] as int
    {
      o[i] := n[2 * i] as int + 256 * n[2 * i + 1] as int;
    }
    ghost var raw: seq<int> := o[..];
    BytesOfLimbs(n, raw, 16);
    assert n[..32] == n && raw[..16] == raw;
    o[15] := o[15] % 0x8000;
    assert o[..] == raw[15 := raw[15] % 0x8000];
    MaskTopBit(raw);
  }

  lemma MaskTopBit(s: seq<int>)
    requires |s| == 16 && Digits(W, s)
    ensures Val(W, s[15 := s[15] % 0x8000]) == Val(W, s) % Pow(2, 255)
  {
    hide Val, Pow;
    var r := s[15 := s[15] % 0x8000];
    ValUpdate(W, s, 15, s[15] % 0x8000);
    SmallPowers();
    PowMul(2, 16, 15);
    PowAdd(2, 240, 15);
    var h, p := s[15] / 0x8000, Pow(W, 15);
    assert s[15] == 0x8000 * h + s[15] % 0x8000;
    assert (s[15] % 0x8000 - s[15]) * p == -(h * (0x8000 * p));
    ValPrefix(W, r, 15);
    assert r[..16] == r;
    ValBounds(W, r[..15]);
    MulMono(r[15], 0x7FFF, p);
    MulMono(0, r[15], p);
    DivModUnique(Val(W, s), h, Val(W, r), Pow(2, 255));
  }

  // ----- the whole function

  /** The scalar bytes with bits 0-2 and 255 cleared and bit 254 set. */
  function Clamp(scalar: seq<u8>): (z: seq<u8>)
    requires |scalar| == 32
    ensures |z| == 32
  {
    scalar[..31][0 := scalar[0] - scalar[0] % 8] + [scalar[31] % 64 + 64]
  }

  lemma ClampDecodes(k: seq<u8>)
    requires |k| == 32
    ensures Val(256, Clamp(k)) == DecodeScalar(k)
  {
    hide Val, Pow;
    var lo: seq<int> := k[..31];
    var lo' := lo[0 := k[0] - k[0] % 8];
    assert k == lo + [k[31]];
    ValSnoc(256, lo, k[31]);
    ValUpdate(256, lo, 0, k[0] - k[0] % 8);
    ValSnoc(256, lo', k[31] % 64 + 64);
    ValNil(256);
    SmallPowers();
    PowMul(2, 8, 31);
    PowAdd(2, 248, 6);
    PowAdd(2, 3, 245);
    ValBounds(256, lo);
    LowByte(lo);
    ClampArithmetic(Val(256, lo), k[0], k[31], Pow(2, 248));
  }

  lemma LowByte(s: seq<int>)
    requires |s| >= 1
    ensures Val(256, s) % 8 == s[0] % 8
  {
    hide Val, Pow;
    assert s == [s[0]] + s[1..];
    ValConcat(256, [s[0]], s[1..]);
    ValSnoc(256, [], s[0]);
    assert [] + [s[0]] == [s[0]];
    ValNil(256);
    PowNext(256, 0);
    CongMultiple(Val(256, s), s[0], 32 * Val(256, s[1..]), 8);
  }

  lemma ClampArithmetic(lo: int, k0: int, k31: int, p: int)
    requires 0 <= lo < p && p > 0 && p % 8 == 0 && lo % 8 == k0 % 8 && 0 <= k31 < 256
    ensures var v := (lo + k31 * p) % (p * 64);
            lo - k0 % 8 + (k31 % 64 + 64) * p == p * 64 + (v - v % 8)
  {
    var h, l := k31 / 64, k31 % 64;
    HighBits(k31, h, l, p);
    MulMono(l, 63, p);
    MulMono(0, l, p);
    DivModUnique(lo + k31 * p, h, lo + l * p, p * 64);
    LowBitsAbove(lo, l, p);
    assert (l + 64) * p == l * p + 64 * p;
  }

  lemma HighBits(k: int, h: int, l: int, p: int)
    requires k == 64 * h + l
    ensures k * p == (p * 64) * h + l * p
  {}

  lemma LowBitsAbove(lo: int, l: int, p: int)
    requires p % 8 == 0
    ensures (lo + l * p) % 8 == lo % 8
  {
    var q := p / 8;
    MulAssoc(l, q, 8);
    CongMultiple(lo + l * p, lo, l * q, 8);
  }

  /** out = X25519(scalar, point). */
  method ScalarMult(out: array<u8>, scalar: seq<u8>, point: seq<u8>)
    requires out.Length == 32 && |scalar| == 32 && |point| == 32
    modifies out
    ensures Val(256, out[..]) == X25519(DecodeScalar(scalar), DecodeU(point))
  {
    hide Val, Pow, Prime, Cong, Tight, Loose, Is, Step, KBit, Rfc7748.X25519, FMul, FPow, EagerLoop, RfcLoop;
    var z := Clamp(scalar);
    ghost var K, x1 := Val(256, z), DecodeU(point) % Prime();
    ClampDecodes(scalar);
    var x := new i64[16];
    Unpack(x, point);
    DecodedIs(x, DecodeU(point));
    var b := new i64[16];
    CopyGf(b, x);
    SameLimbsIs(b, x, x1);
    var a := SmallElement(1);
    var c := SmallElement(0);
    var d := SmallElement(1);
    var k := Constant121665();
    ghost var s := Start(x1);
    var i := 255;
    while i > 0
      invariant 0 <= i <= 255
      invariant fresh(a) && fresh(b) && fresh(c) && fresh(d) && fresh(x) && fresh(k) && Apart(a, b, c, d, x, k)
      invariant HoldsState(a, b, c, d, s) && Is(x, x1) && Is(k, A24())
      invariant EagerLoop(K, x1, 255, Start(x1)) == EagerLoop(K, x1, i, s)
    {
      i := i - 1;
      var r := SubDigit(2, z[i / 8], i % 8);
      BitOfScalar(z, i);
      EagerNext(K, x1, i + 1, s);
      LadderBit(a, b, c, d, x, k, r, s, x1);
      s := CSwap(r, Step(CSwap(r, s), x1));
    }
    EagerDone(K, x1, s);
    PackQuotient(out, a, c, s.x2, s.z2);
    LadderResult(K, DecodeU(point), s);
  }

  /** What follows the ladder: a / c, packed. */
  method PackQuotient(out: array<u8>, a: array<i64>, c: array<i64>, ghost u: int, ghost v: int)
    requires out.Length == 32 && a != c && Is(a, u) && Is(c, v)
    modifies out, a, c
    ensures Val(256, out[..]) == FMul(u, FPow(v, Prime() - 2))
  {
    hide Val, Pow, Prime, Cong, Tight, Loose, Is, FMul, FPow;
    IsArrayTight(c, v);
    IsArrayTight(a, u);
    Invert(c, c, v);
    IsArrayTight(c, FPow(v, Prime() - 2));
    FieldMul(a, a, c, u, FPow(v, Prime() - 2));
    Pack(out, a, FMul(u, FPow(v, Prime() - 2)));
  }

  lemma IsArrayTight(a: array<i64>, v: int)
    requires Is(a, v)
    ensures a.Length == 16 && LooseIs(a, v)
  {}

  lemma DecodedIs(x: array<i64>, u: int)
    requires x.Length == 16 && Digits(W, x[..]) && Val(W, x[..]) == u
    ensures Is(x, u % Prime())
  {
    hide Val, Prime, Cong;
    CongMod(u, Prime());
    CongTrans(u % Prime(), u, u, Prime());
  }

  lemma SameLimbsIs(b: array<i64>, x: array<i64>, v: int)
    requires b.Length == 16 && Is(x, v) && b[..] == x[..]
    ensures Is(b, v)
  {}

  method SmallElement(v: int) returns (a: array<i64>)
    requires 0 <= v <= 1
    ensures fresh(a) && Is(a, v)
  {
    hide Val, Pow, Prime, Cong;
    a := new i64[16](_ => 0);
    ghost var z: seq<int> := a[..];
    ValZeros(W, z);
    a[0] := v;
    assert a[..] == z[0 := v];
    ValUpdate(W, z, 0, v);
    ValNil(W);
    CongMultiple(v, v, 0, Prime());
  }

  /** {0xDB41, 1} */
  method Constant121665() returns (a: array<i64>)
    ensures fresh(a) && Is(a, A24())
  {
    hide Val, Pow, Prime, Cong;
    a := new i64[16](_ => 0);
    ghost var z: seq<int> := a[..];
    ValZeros(W, z);
    a[0] := 0xDB41;
    a[1] := 1;
    assert a[..] == z[0 := 0xDB41][1 := 1];
    ValUpdate(W, z, 0, 0xDB41);
    ValUpdate(W, z[0 := 0xDB41], 1, 1);
    ValNil(W);
    PowNext(W, 0);
    CongMultiple(121665, 121665, 0, Prime());
  }

  lemma BitOfScalar(z: seq<u8>, i: nat)
    requires |z| == 32 && i < 256
    ensures SubDigit(2, z[i / 8], i % 8) == KBit(Val(256, z), i)
  {
    hide Val, Pow;
    SmallPowers();
    DigitOfDigit(2, 8, 256, z, i / 8, i % 8);
  }

  lemma EagerNext(k: int, x1: int, n: nat, s: State)
    requires n > 0
    ensures var kt := KBit(k, n - 1);
            EagerLoop(k, x1, n, s) == EagerLoop(k, x1, n - 1, CSwap(kt, Step(CSwap(kt, s), x1)))
  {}

  lemma EagerDone(k: int, x1: int, s: State)
    ensures EagerLoop(k, x1, 0, s) == s
  {}

  /** What the eager ladder ends in is what the RFC returns. */
  lemma LadderResult(k: int, u: int, s: State)
    requires s == EagerLoop(k, u % Prime(), 255, Start(u % Prime()))
    ensures X25519(k, u) == FMul(s.x2, FPow(s.z2, Prime() - 2))
  {
    hide Prime, FMul, FPow, EagerLoop, RfcLoop;
    DeferredSwap(k, u % Prime(), 255, Start(u % Prime()), 0);
  }
}
