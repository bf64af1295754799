/**
 Unsigned multi-precision arithmetic on k little-endian 32-bit limbs, held in arrays and
 updated in place. The limb count k is a parameter throughout; RSA uses whatever the modulus
 needs, P-256 uses k = 8.
 */
module Bignum {
  import opened Radix

  const BASE: int := 0x1_0000_0000

  type u8 = x: int | 0 <= x < 0x100
  type u32 = x: int | 0 <= x < 0x1_0000_0000
  type u64 = x: int | 0 <= x < 0x1_0000_0000_0000_0000

  /** The number held in the limbs `s`. */
  ghost function Num(s: seq<u32>): (n: int)
    ensures 0 <= n < Pow(BASE, |s|)
  {
    ValBounds(BASE, s);
    Val(BASE, s)
  }

  /** The number a big-endian byte string denotes. */
  ghost function BeNum(s: seq<u8>): (n: nat)
    ensures n < Pow(256, |s|)
  {
    BeValBounds(s);
    BeVal(s)
  }

  lemma BeNumEmpty()
    ensures BeNum([]) == 0
  {}

  lemma NumIs(s: seq<u32>)
    ensures Num(s) == Val(BASE, s)
  {}

  lemma ByteAndBitWidths()
    ensures Pow(256, 4) == BASE && Pow(2, 32) == BASE
  {
    PowMul(2, 8, 4);
    assert Pow(2, 8) == 256;
    assert Pow(256, 2) == 0x1_0000;
    PowAdd(256, 2, 2);
  }

  lemma ZeroLimbs(s: seq<u32>)
    requires forall i :: 0 <= i < |s| ==> s[i] == 0
    ensures Num(s) == 0
  {
    ValZeros(BASE, s);
  }

  /** hi:lo = a*b + hi + lo. The 64-bit accumulator cannot overflow. */
  method Mac(lo: u32, hi: u32, a: u32, b: u32) returns (lo': u32, hi': u32)
    ensures lo' + BASE * hi' == a * b + hi + lo
  {
    MacFits(a, b);
    var v: u64 := a * b + hi + lo;
    lo' := v % BASE;
    hi' := v / BASE;
  }

  lemma MacFits(a: u32, b: u32)
    ensures 0 <= a * b <= (BASE - 1) * (BASE - 1)
  {
    MulMono(a, BASE - 1, b);
    MulMono(b, BASE - 1, BASE - 1);
    MulMono(0, a, b);
  }

  /** a >= b, scanning from the top limb down to the first difference. */
  method GeqK(a: array<u32>, b: array<u32>, k: nat) returns (r: bool)
    requires k <= a.Length && k <= b.Length
    ensures r == (Num(a[..k]) >= Num(b[..k]))
  {
    var i := k;
    while i > 0
      invariant 0 <= i <= k
      invariant forall j :: i <= j < k ==> a[j] == b[j]
    {
      i := i - 1;
      if a[i] != b[i] {
        DecidedAt(a[..k], b[..k], i);
        return a[i] > b[i];
      }
    }
    assert a[..k] == b[..k];
    return true;
  }

  lemma DecidedAt(s: seq<u32>, t: seq<u32>, i: nat)
    requires |s| == |t| && i < |s| && s[i] != t[i]
    requires forall j :: i < j < |s| ==> s[j] == t[j]
    ensures s[i] > t[i] <==> Num(s) >= Num(t)
  {
    ValCompareEqual(BASE, s, t, i + 1);
    if s[i] > t[i] {
      ValCompareTop(BASE, s[..i + 1], t[..i + 1]);
    } else {
      ValCompareTop(BASE, t[..i + 1], s[..i + 1]);
    }
  }

  /** d = a + b, returning the carry out; d may be a or b. */
  method AddK(d: array<u32>, a: array<u32>, b: array<u32>, k: nat) returns (carry: u32)
    requires k <= d.Length && k <= a.Length && k <= b.Length
    modifies d
    ensures carry <= 1
    ensures Num(d[..k]) + carry * Pow(BASE, k) == old(Num(a[..k])) + old(Num(b[..k]))
    ensures d[k..] == old(d[k..])
  {
    hide Pow, Val;
    var c: u64 := 0;
    ghost var a0, b0 := a[..k], b[..k];
    ValNil(BASE);
    for i := 0 to k
      invariant c <= 1
      invariant forall j :: i <= j < k ==> a[j] == a0[j] && b[j] == b0[j]
      invariant d[k..] == old(d[k..])
      invariant Val(BASE, d[..i]) + c * Pow(BASE, i) == Val(BASE, a0[..i]) + Val(BASE, b0[..i])
    {
      ghost var before := d[..i];
      ghost var c0 := c;
      c := c + a[i] + b[i];
      d[i] := c % BASE;
      c := c / BASE;
      assert d[..i + 1] == before + [d[i]];
      ValSnoc(BASE, before, d[i]);
      ValPrefix(BASE, a0, i);
      ValPrefix(BASE, b0, i);
      AddStep(c0, a0[i], b0[i], d[i], c, Pow(BASE, i));
      PowNext(BASE, i);
    }
    assert a0[..k] == a0 && b0[..k] == b0;
    carry := c % BASE;
  }

  lemma AddStep(c: int, x: int, y: int, d: int, c': int, p: int)
    requires d + BASE * c' == c + x + y
    ensures d * p + c' * (BASE * p) == c * p + x * p + y * p
  {
    assert (d + BASE * c') * p == (c + x + y) * p;
  }

  /** d = a - b, returning the borrow out; d may be a or b. */
  method SubK(d: array<u32>, a: array<u32>, b: array<u32>, k: nat) returns (borrow: u32)
    requires k <= d.Length && k <= a.Length && k <= b.Length
    modifies d
    ensures borrow <= 1
    ensures Num(d[..k]) == old(Num(a[..k])) - old(Num(b[..k])) + borrow * Pow(BASE, k)
    ensures d[k..] == old(d[k..])
  {
    hide Pow, Val;
    var c: u64 := 0;
    ghost var a0, b0 := a[..k], b[..k];
    ValNil(BASE);
    for i := 0 to k
      invariant c <= 1
      invariant forall j :: i <= j < k ==> a[j] == a0[j] && b[j] == b0[j]
      invariant d[k..] == old(d[k..])
      invariant Val(BASE, d[..i]) == Val(BASE, a0[..i]) - Val(BASE, b0[..i]) + c * Pow(BASE, i)
    {
      ghost var before := d[..i];
      ghost var c0 := c;
      var w;
      w, c := SubWord(a[i], b[i], c);
      d[i] := w;
      assert d[..i + 1] == before + [w];
      ValSnoc(BASE, before, w);
      ValPrefix(BASE, a0, i);
      ValPrefix(BASE, b0, i);
      SubStep(c0, a0[i], b0[i], w, c, Pow(BASE, i));
      PowNext(BASE, i);
    }
    assert a0[..k] == a0 && b0[..k] == b0;
    borrow := c % BASE;
  }

  lemma SubStep(c: int, x: int, y: int, d: int, c': int, p: int)
    requires d - BASE * c' == x - y - c
    ensures d * p == x * p - y * p - c * p + c' * (BASE * p)
  {
    assert (d - BASE * c') * p == (x - y - c) * p;
  }

  /** One limb of a subtraction in 64-bit wrap-around arithmetic; bit 32 is the borrow. */
  method SubWord(x: u32, y: u32, c: u64) returns (d: u32, c': u64)
    requires c <= 1
    ensures d - BASE * c' == x - y - c && c' <= 1
  {
    ghost var v := x - y - c;
    var t: u64 := (x as int - y - c) % (BASE * BASE);
    DivModUnique(v, if v >= 0 then 0 else -1, if v >= 0 then v else v + BASE * BASE, BASE * BASE);
    DivModUnique(t, if v >= 0 then 0 else BASE - 1, if v >= 0 then v else v + BASE, BASE);
    d := t % BASE;
    c' := (t / BASE) % 2;
  }

  /** x = 2x mod m: one conditional subtraction, enough for x <= m. */
  method DblMod(x: array<u32>, m: array<u32>, k: nat)
    requires k <= x.Length && k <= m.Length && x != m
    modifies x
    ensures var v, M := old(Num(x[..k])), Num(m[..k]);
            v <= M ==> Num(x[..k]) == if 2 * v >= M then 2 * v - M else 2 * v
    ensures x[k..] == old(x[k..])
  {
    hide Pow, Val;
    ghost var v, M := Num(x[..k]), Num(m[..k]);
    var c := AddK(x, x, x, k);
    var g := GeqK(x, m, k);
    ghost var s := Num(x[..k]);
    if c != 0 || g {
      var t := new u32[k];
      var bw := SubK(t, x, m, k);
      CopyK(x, t, k);
      if v <= M {
        ReduceOnce(2 * v, s, c, M, Num(x[..k]), bw, Pow(BASE, k));
      }
    }
  }

  /** One conditional subtraction of m from c:s brings a value below 2m into range. */
  lemma ReduceOnce(value: int, s: int, c: int, m: int, d: int, bw: int, p: int)
    requires value == s + c * p && 0 <= c <= 1 && 0 <= bw <= 1
    requires d == s - m + bw * p
    requires m <= value <= 2 * m && m < p
    requires 0 <= s < p && 0 <= d < p
    ensures d == value - m
  {
    if c == 0 {
      assert bw == 0;
    } else {
      assert bw == 1;
    }
  }

  method CopyK(d: array<u32>, s: array<u32>, k: nat)
    requires k <= d.Length && k <= s.Length
    modifies d
    ensures d[..k] == old(s[..k]) && d[k..] == old(d[k..])
  {
    forall i | 0 <= i < k {
      d[i] := s[i];
    }
  }

  // ----- Montgomery multiplication

  /**
   t += a * b_i over the k low limbs, with the carry out returned.
   */
  method MulRow(t: array<u32>, a: array<u32>, bi: u32, k: nat) returns (c: u32)
    requires t.Length == k + 1 && k <= a.Length && t != a
    modifies t
    ensures Val(BASE, t[..k]) + c * Pow(BASE, k) == Val(BASE, old(t[..k])) + Num(a[..k]) * bi
    ensures t[k] == old(t[k])
  {
    hide Pow, Val;
    c := 0;
    ghost var t0, av := t[..k], a[..k];
    ValNil(BASE);
    for j := 0 to k
      invariant forall i :: j <= i < k ==> t[i] == t0[i]
      invariant t[k] == old(t[k])
      invariant Val(BASE, t[..j]) + c * Pow(BASE, j) == Val(BASE, t0[..j]) + Val(BASE, av[..j]) * bi
    {
      ghost var before, c0 := t[..j], c;
      var lo := t[j];
      lo, c := Mac(lo, c, a[j], bi);
      t[j] := lo;
      assert t[..j + 1] == before + [lo];
      ValSnoc(BASE, before, lo);
      ValPrefix(BASE, t0, j);
      ValPrefix(BASE, av, j);
      RowStep(Val(BASE, av[..j]), av[j], bi, t0[j], c0, lo, c, Pow(BASE, j));
      PowNext(BASE, j);
    }
    assert t0[..k] == t0 && av[..k] == av;
  }

  lemma RowStep(A: int, x: int, y: int, t: int, c: int, lo: int, hi: int, p: int)
    requires lo + BASE * hi == x * y + c + t
    ensures lo * p + hi * (BASE * p) == (A + x * p) * y - A * y + c * p + t * p
  {
    assert (lo + BASE * hi) * p == (x * y + c + t) * p;
    assert (x * y) * p == (x * p) * y;
    assert (A + x * p) * y == A * y + (x * p) * y;
  }

  /**
   The reducing row: adds mu * m and drops the low limb, storing one place down.
   `lo0` is the low limb that is dropped; it is zero when mu was chosen with n0.
   */
  method ReduceRow(t: array<u32>, m: array<u32>, mu: u32, k: nat) returns (c: u32, ghost lo0: u32)
    requires t.Length == k + 1 && 1 <= k <= m.Length && t != m
    modifies t
    ensures lo0 + BASE * Val(BASE, t[..k - 1]) + c * Pow(BASE, k)
         == Val(BASE, old(t[..k])) + Num(m[..k]) * mu
    ensures lo0 == (old(t[0]) + mu * m[0]) % BASE
    ensures t[k] == old(t[k])
  {
    hide Pow, Val;
    ghost var t0, mv := t[..k], m[..k];
    ValNil(BASE);
    var lo := t[0];
    lo, c := Mac(lo, 0, mu, m[0]);
    lo0 := lo;
    DivModUnique(t0[0] + mu * m[0], c, lo, BASE);
    ValPrefix(BASE, t0, 0);
    ValPrefix(BASE, mv, 0);
    PowNext(BASE, 0);
    for j := 1 to k
      invariant forall i :: j <= i < k ==> t[i] == t0[i]
      invariant t[k] == old(t[k])
      invariant lo0 + BASE * Val(BASE, t[..j - 1]) + c * Pow(BASE, j)
             == Val(BASE, t0[..j]) + Val(BASE, mv[..j]) * mu
    {
      ghost var before, c0 := t[..j - 1], c;
      lo := t[j];
      lo, c := Mac(lo, c, mu, m[j]);
      t[j - 1] := lo;
      assert t[..j] == before + [lo];
      ValSnoc(BASE, before, lo);
      ValPrefix(BASE, t0, j);
      ValPrefix(BASE, mv, j);
      PowNext(BASE, j - 1);
      PowNext(BASE, j);
      ReduceStep(lo0, Val(BASE, before), Val(BASE, t0[..j]), Val(BASE, mv[..j]),
                 mv[j], mu, t0[j], c0, lo, c, Pow(BASE, j - 1));
    }
    assert t0[..k] == t0 && mv[..k] == mv;
  }

  lemma ReduceStep(lo0: int, V: int, T: int, M: int, x: int, mu: int, t: int, c: int, lo: int, hi: int, q: int)
    requires lo0 + BASE * V + c * (BASE * q) == T + M * mu
    requires lo + BASE * hi == x * mu + c + t
    ensures lo0 + BASE * (V + lo * q) + hi * (BASE * (BASE * q))
         == (T + t * (BASE * q)) + (M + x * (BASE * q)) * mu
  {
    RowStep(M, x, mu, t, c, lo, hi, BASE * q);
  }

  /** n0 = -m^-1 mod 2^32, the constant that makes every row divisible by 2^32. */
  ghost predicate NegInverse(m0: u32, n0: u32) {
    (m0 * n0 + 1) % BASE == 0
  }

  lemma MuClearsLowLimb(t: u32, m0: u32, n0: u32, mu: u32)
    requires NegInverse(m0, n0) && mu == t * n0 % BASE
    ensures (t + mu * m0) % BASE == 0
  {
    CongMod(t * n0, BASE);
    CongMul(mu, t * n0, m0, m0, BASE);
    CongAdd(t, t, mu * m0, (t * n0) * m0, BASE);
    CongMul(t, t, m0 * n0 + 1, 0, BASE);
    assert t + (t * n0) * m0 == t * (m0 * n0 + 1) by {
      MulAssoc(t, n0, m0);
      assert t * (m0 * n0 + 1) == t * (n0 * m0) + t;
    }
  }

  /** The first half of a row: t += a * b_i, with the overflow past the top limb in `hi`. */
  method MulRowTop(t: array<u32>, a: array<u32>, bi: u32, k: nat) returns (hi: u32)
    requires t.Length == k + 1 && k <= a.Length && t != a
    modifies t
    ensures Num(t[..]) + hi * Pow(BASE, k + 1) == old(Num(t[..])) + Num(a[..k]) * bi
    ensures hi <= 1
  {
    hide Pow, Val;
    SplitTop(t[..], k);
    var c := MulRow(t, a, bi, k);
    var v: u64 := t[k] as int + c;
    ghost var low := t[..k];
    t[k] := v % BASE;
    hi := v / BASE;
    assert t[..k] == low;
    SplitTop(t[..], k);
    AddStep(0, old(t[k]), c, t[k], hi, Pow(BASE, k));
    PowNext(BASE, k);
  }

  lemma SplitTop(s: seq<u32>, k: nat)
    requires |s| == k + 1
    ensures Num(s) == Val(BASE, s[..k]) + s[k] * Pow(BASE, k)
  {
    assert s == s[..k] + [s[k]];
    ValSnoc(BASE, s[..k], s[k]);
  }

  /** The second half: add mu * m, divide by 2^32, fold `hi` back in. */
  method ReduceRowTop(t: array<u32>, m: array<u32>, mu: u32, hi: u32, k: nat) returns (ghost lo0: u32)
    requires t.Length == k + 1 && 1 <= k <= m.Length && t != m && hi <= 1
    modifies t
    ensures BASE * Num(t[..]) + lo0 == old(Num(t[..])) + hi * Pow(BASE, k + 1) + Num(m[..k]) * mu
    ensures lo0 == (old(t[0]) + mu * m[0]) % BASE
  {
    hide Pow, Val;
    SplitTop(t[..], k);
    var c;
    c, lo0 := ReduceRow(t, m, mu, k);
    var v: u64 := t[k] as int + c;
    ghost var low := t[..k - 1];
    t[k - 1] := v % BASE;
    t[k] := hi + v / BASE;
    SplitTop(t[..], k);
    assert t[..k] == low + [t[k - 1]];
    ValSnoc(BASE, low, t[k - 1]);
    PowNext(BASE, k - 1);
    PowNext(BASE, k);
    FoldTop(Val(BASE, low), old(t[k]), c, hi, t[k - 1], t[k], Pow(BASE, k - 1));
  }

  lemma FoldTop(V: int, top: int, c: int, hi: int, s: int, u: int, q: int)
    requires s + BASE * (u - hi) == top + c
    ensures BASE * (V + s * q + u * (BASE * q))
         == BASE * V + c * (BASE * q) + top * (BASE * q) + hi * (BASE * (BASE * q))
  {
    assert (s + BASE * (u - hi)) * (BASE * q) == (top + c) * (BASE * q);
  }

  /** One CIOS iteration: t = (t + a*b_i + mu*m) / 2^32, with what the division drops in `lo0`. */
  method MontRow(t: array<u32>, a: array<u32>, bi: u32, m: array<u32>, n0: u32, k: nat)
    returns (ghost mu: u32, ghost lo0: u32)
    requires t.Length == k + 1 && 1 <= k <= a.Length && k <= m.Length && t != a && t != m
    modifies t
    ensures BASE * Num(t[..]) + lo0 == old(Num(t[..])) + Num(a[..k]) * bi + Num(m[..k]) * mu
    ensures NegInverse(m[0], n0) ==> lo0 == 0
  {
    var hi := MulRowTop(t, a, bi, k);
    var mu': u32 := t[0] * n0 % BASE by { MacFits(t[0], n0); }
    if NegInverse(m[0], n0) {
      MuClearsLowLimb(t[0], m[0], n0, mu');
    }
    lo0 := ReduceRowTop(t, m, mu', hi, k);
    mu := mu';
  }

  /** All k rows: t * R = a * b + q * m exactly, and t < a + m. */
  method MontAccumulate(a: array<u32>, b: array<u32>, m: array<u32>, n0: u32, k: nat)
    returns (t: array<u32>, ghost q: int)
    requires 1 <= k && k <= a.Length && k <= b.Length && k <= m.Length
    ensures fresh(t) && t.Length == k + 1
    ensures NegInverse(m[0], n0) ==> Num(t[..]) * Pow(BASE, k) == Num(a[..k]) * Num(b[..k]) + q * Num(m[..k])
    ensures 0 < Num(m[..k]) ==> Num(t[..]) < Num(a[..k]) + Num(m[..k])
  {
    hide Pow, Val;
    ghost var A, M := Num(a[..k]), Num(m[..k]);
    ghost var bv := b[..k];
    ValNil(BASE);
    t := new u32[k + 1](_ => 0);
    ZeroLimbs(t[..]);
    ghost var e := 0;
    q := 0;
    for i := 0 to k
      invariant fresh(t)
      invariant unchanged(a) && unchanged(b) && unchanged(m)
      invariant 0 <= q < Pow(BASE, i) && 0 <= e && (NegInverse(m[0], n0) ==> e == 0)
      invariant Num(t[..]) * Pow(BASE, i) + e == A * Val(BASE, bv[..i]) + q * M
    {
      ghost var T := Num(t[..]);
      ghost var mu, lo0 := MontRow(t, a, b[i], m, n0, k);
      ValPrefix(BASE, bv, i);
      AccumulateRow(Num(t[..]), T, A, M, bv[i], Val(BASE, bv[..i]), mu, lo0, q, e, Pow(BASE, i));
      QuotientGrows(q, mu, lo0, i);
      PowNext(BASE, i);
      q, e := q + mu * Pow(BASE, i), e + lo0 * Pow(BASE, i);
    }
    assert bv[..k] == bv;
    if 0 < M {
      RunningBound(Num(t[..]), A, Num(bv), M, q, e, Pow(BASE, k));
    }
  }

  lemma QuotientGrows(q: int, mu: u32, lo0: u32, i: nat)
    requires 0 <= q < Pow(BASE, i)
    ensures 0 <= q + mu * Pow(BASE, i) < Pow(BASE, i + 1) && 0 <= lo0 * Pow(BASE, i)
  {
    var p := Pow(BASE, i);
    MulMono(0, mu, p);
    MulMono(mu, BASE - 1, p);
    MulMono(0, lo0, p);
    assert (BASE - 1) * p == BASE * p - p;
  }

  /**
   CIOS Montgomery multiply: out = a * b * R^-1 mod m, with R = 2^(32k). Nothing is assumed
   for the call itself; `out` may be `a`, `b` or `m`.
   */
  method MontMul(out: array<u32>, a: array<u32>, b: array<u32>, m: array<u32>, n0: u32, k: nat)
    requires 1 <= k && k <= out.Length && k <= a.Length && k <= b.Length && k <= m.Length
    modifies out
    ensures out[k..] == old(out[k..])
    ensures var A, B, M := old(Num(a[..k])), old(Num(b[..k])), old(Num(m[..k]));
            0 < M && A <= M && NegInverse(old(m[0]), n0) ==>
              Num(out[..k]) < M && Cong(Num(out[..k]) * Pow(BASE, k), A * B, M)
  {
    hide Pow, Val;
    var t;
    ghost var q;
    t, q := MontAccumulate(a, b, m, n0, k);
    ghost var T, A, M := Num(t[..]), Num(a[..k]), Num(m[..k]);
    SplitTop(t[..], k);
    var d := new u32[k];
    var bw := SubK(d, t, m, k);
    ghost var e := if T >= M then 1 else 0;
    if 0 < M && A <= M {
      FinalSubtract(T, Num(t[..k]), t[k], M, Num(d[..k]), bw, Pow(BASE, k));
      if NegInverse(m[0], n0) {
        StillCongruent(T, A * Num(b[..k]), q, e, M, Pow(BASE, k));
      }
    }
    if t[k] != 0 || bw == 0 {
      CopyK(out, d, k);
    } else {
      CopyK(out, t, k);
    }
  }

  lemma StillCongruent(T: int, AB: int, q: int, e: int, M: int, p: int)
    requires T * p == AB + q * M && M > 0
    ensures Cong((T - e * M) * p, AB, M)
  {
    assert (T - e * M) * p == T * p - (e * p) * M;
    assert (q - e * p) * M == q * M - (e * p) * M;
    CongMultiple((T - e * M) * p, AB, q - e * p, M);
  }

  lemma AccumulateRow(T': int, T: int, A: int, M: int, bi: int, bv: int, mu: int, lo0: int,
                      Q: int, E: int, p: int)
    requires BASE * T' + lo0 == T + A * bi + M * mu
    requires T * p + E == A * bv + Q * M
    ensures T' * (BASE * p) + (E + lo0 * p) == A * (bv + bi * p) + (Q + mu * p) * M
  {
    assert (BASE * T' + lo0) * p == (T + A * bi + M * mu) * p;
    assert (A * bi) * p == A * (bi * p);
    assert (M * mu) * p == (mu * p) * M;
    assert A * (bv + bi * p) == A * bv + A * (bi * p);
    assert (Q + mu * p) * M == Q * M + (mu * p) * M;
  }

  /** The accumulator stays below a + m. */
  lemma RunningBound(T: int, A: int, B: int, M: int, Q: int, E: int, p: int)
    requires T * p + E == A * B + Q * M
    requires 0 <= E && 0 <= A && 0 < M && 0 <= B < p && 0 <= Q < p
    ensures T < A + M
  {
    MulMono(B, p - 1, A);
    MulMono(Q, p - 1, M);
    assert (A + M) * p == A * p + M * p;
    assert A * (p - 1) == A * p - A && M * (p - 1) == M * p - M;
    MulCancel(T, A + M, p);
  }

  lemma FinalSubtract(T: int, s: int, top: int, M: int, d: int, bw: int, p: int)
    requires T == s + top * p && 0 <= top && 0 <= T < 2 * M
    requires d == s - M + bw * p && 0 <= bw <= 1
    requires 0 <= s < p && 0 <= d < p && 0 < M <= p
    ensures T >= M <==> top != 0 || bw == 0
    ensures (if top != 0 || bw == 0 then d else s) == if T >= M then T - M else T
  {
    if top >= 2 {
      MulMono(2, top, p);
    } else if top == 1 {
      assert bw == 1;
    }
  }
}
