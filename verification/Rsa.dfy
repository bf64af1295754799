/**
 RSA public-key operation: modular exponentiation over a modulus of any width up to 512 bytes.
 */
module Rsa {
  import opened Radix
  import opened Bignum
  import opened Montgomery

  const MAX_BYTES: nat := 512

  /** The bits of byte e above `bit`, after the bytes already read. */
  ghost function PartialExponent(prefix: nat, e: u8, bit: nat): int
    requires bit <= 8
  {
    prefix * Pow(2, 8 - bit) + e / Pow(2, bit)
  }

  lemma NextBit(prefix: nat, e: u8, bit: nat)
    requires bit < 8
    ensures PartialExponent(prefix, e, bit) == 2 * PartialExponent(prefix, e, bit + 1) + (e / Pow(2, bit)) % 2
  {
    hide Pow;
    PowNext(2, bit);
    PowNext(2, 7 - bit);
    DivDiv(e, Pow(2, bit), 2);
    assert prefix * (2 * Pow(2, 7 - bit)) == 2 * (prefix * Pow(2, 7 - bit));
  }

  /** All eight bits of one exponent byte, most significant first; leading zeros are skipped. */
  method ExpByte(res: array<u32>, baseM: array<u32>, m: array<u32>, n0: u32, k: nat, e: u8, started0: bool,
                 ghost base: int, ghost E: nat)
    returns (started: bool)
    requires 1 <= k && k <= m.Length && res.Length == baseM.Length == k
    requires res != m && res != baseM
    requires !started0 ==> E == 0
    modifies res
    ensures !started <==> !started0 && e == 0
    ensures var mv := m[..k];
            Ready(mv, n0) && Represents(old(Num(res[..k])), Pow(base, E), mv) && Represents(Num(baseM[..k]), base, mv)
            ==> Represents(Num(res[..k]), Pow(base, 256 * E + e), mv)
  {
    hide Num, Represents, Ready, Pow, PartialExponent;
    ghost var mv := m[..k];
    ghost var good := Ready(mv, n0) && Represents(Num(res[..k]), Pow(base, E), mv)
                      && Represents(Num(baseM[..k]), base, mv);
    started := started0;
    var bit := 8;
    AllBits(E, e);
    while bit > 0
      invariant 0 <= bit <= 8 && unchanged(m) && unchanged(baseM)
      invariant 0 <= PartialExponent(E, e, bit)
      invariant !started <==> !started0 && PartialExponent(E, e, bit) == 0
      invariant good ==> Represents(Num(res[..k]), Pow(base, PartialExponent(E, e, bit)), mv)
    {
      bit := bit - 1;
      NextBit(E, e, bit);
      var b := (e / Pow(2, bit)) % 2 == 1;
      if started || b {
        started := true;
        ExpBit(res, baseM, m, n0, k, b, base, PartialExponent(E, e, bit + 1));
      }
    }
  }

  lemma AllBits(E: nat, e: u8)
    ensures PartialExponent(E, e, 8) == E && PartialExponent(E, e, 0) == 256 * E + e
  {
    assert Pow(2, 8) == 256;
    assert e / 256 == 0;
  }

  /** What the ladder leaves; a zero exponent returns 1 without reducing it. */
  ghost function ModExpResult(b: nat, e: nat, m: nat): int
    requires m > 0
  {
    if e == 0 then 1 else Pow(b, e) % m
  }

  lemma PowerZero(b: nat, m: nat)
    requires m > 0
    ensures ModExpResult(b, 0, m) == 1
  {}

  /** That is the modular power except for 0-th powers modulo 1. */
  lemma ModExpIsPower(b: nat, e: nat, m: nat)
    requires m > 0
    ensures ModExpResult(b, e, m) == Pow(b, e) % m <==> m > 1 || e > 0
  {
    if e == 0 {
      assert Pow(b, 0) == 1;
      DivModUnique(1, if m == 1 then 1 else 0, if m == 1 then 0 else 1, m);
    }
  }

  /**
   out = base^e mod m for an odd modulus and a reduced base, e big-endian of any length.
   */
  method ModExp(out: array<u32>, base: array<u32>, m: array<u32>, k: nat, e: seq<u8>)
    requires 1 <= k && k <= out.Length && k <= base.Length && k <= m.Length
    modifies out
    ensures out[k..] == old(out[k..])
    ensures var b, M := old(Num(base[..k])), old(Num(m[..k]));
            old(m[0]) % 2 == 1 && b < M ==>
              Num(out[..k]) == ModExpResult(b, BeNum(e), M)
    ensures BeNum(e) == 0 ==> Num(out[..k]) == 1
  {
    hide Pow, Val, Num, Cong, NegInverse, BeNum, MontRadix;
    ghost var mv, b := m[..k], Num(base[..k]);
    ghost var good := m[0] % 2 == 1 && b < Num(mv);
    var n0, one, baseM, res := Setup(base, m, k);
    BeNumEmpty();
    ValNil(b);
    var started := false;
    for i := 0 to |e|
      invariant unchanged(out) && m[..k] == mv && Num(one[..k]) == 1
      invariant good ==> Represents(Num(baseM[..k]), b, mv)
      invariant good ==> Represents(Num(res[..k]), Pow(b, BeNum(e[..i])), mv)
      invariant !started <==> BeNum(e[..i]) == 0
    {
      started := ExpByte(res, baseM, m, n0, k, e[i], started, b, BeNum(e[..i]));
      BeNumNext(e, i);
    }
    assert e[..|e|] == e;
    if !started {
      CopyK(out, one, k);
      return;
    }
    assert m[0] == mv[0];
    MontMul(out, res, one, m, n0, k);
    if good {
      MontRadixIs(mv);
      LeaveMontgomery(Num(out[..k]), Num(res[..k]), Pow(b, BeNum(e)), mv, n0);
    }
  }

  lemma BeNumNext(e: seq<u8>, i: nat)
    requires i < |e|
    ensures BeNum(e[..i + 1]) == 256 * BeNum(e[..i]) + e[i]
  {
    assert e[..i + 1][..i] == e[..i];
  }

  // ----- byte strings

  /** Parse up to 4k big-endian bytes into k limbs, zero-padded. */
  method FromBe(a: array<u32>, k: nat, be: seq<u8>)
    requires k <= a.Length && |be| <= 4 * k
    modifies a
    ensures Num(a[..k]) == BeNum(be) && a[k..] == old(a[k..])
  {
    hide Pow, Val, Num, BeNum, Vacant, LowBytesClear;
    forall i | 0 <= i < k {
      a[i] := 0;
    }
    ZeroLimbs(a[..k]);
    ghost var n := |be|;
    BeNumEmpty();
    AllVacant(a[..k], n);
    for j := 0 to |be|
      invariant a[k..] == old(a[k..])
      invariant Num(a[..k]) == BeNum(be[..j]) * Pow(256, n - j)
      invariant Vacant(a[..k], n - j)
    {
      var pos := |be| - 1 - j;
      ghost var limbs := a[..k];
      VacantAt(limbs, pos);
      PlaceByte(a, k, pos, be[j]);
      VacantBelow(limbs, a[..k], pos);
      BeNumNext(be, j);
      OneMoreByte(BeNum(be[..j]), be[j], pos);
    }
    assert be[..n] == be;
    ValNil(256);
  }

  /** The r lowest bytes of a limb are zero. */
  ghost predicate LowBytesClear(x: int, r: nat) {
    x % Pow(256, r) == 0
  }

  /** No byte has been put below byte position p. */
  ghost predicate Vacant(s: seq<u32>, p: nat) {
    && (forall i :: 0 <= i < |s| && 4 * i + 4 <= p ==> s[i] == 0)
    && (p % 4 != 0 && p / 4 < |s| ==> LowBytesClear(s[p / 4], p % 4))
  }

  lemma AllVacant(s: seq<u32>, p: nat)
    requires forall i :: 0 <= i < |s| ==> s[i] == 0
    ensures Vacant(s, p)
  {
    hide Pow;
  }

  lemma VacantAt(s: seq<u32>, pos: nat)
    requires Vacant(s, pos + 1) && pos < 4 * |s|
    ensures pos / 4 < |s| && LowBytesClear(s[pos / 4], pos % 4 + 1)
  {
    hide LowBytesClear;
    var q, r := pos / 4, pos % 4;
    if r == 3 {
      assert s[q] == 0;
      ZeroClear(r + 1);
    } else {
      assert (pos + 1) / 4 == q && (pos + 1) % 4 == r + 1;
    }
  }

  lemma ZeroClear(r: nat)
    ensures LowBytesClear(0, r)
  {
    hide Pow;
  }

  lemma VacantBelow(s: seq<u32>, s': seq<u32>, pos: nat)
    requires Vacant(s, pos + 1) && |s'| == |s| && pos < 4 * |s|
    requires LowBytesClear(s'[pos / 4], pos % 4) && forall i :: 0 <= i < |s| && i != pos / 4 ==> s'[i] == s[i]
    ensures Vacant(s', pos)
  {
    hide LowBytesClear;
  }

  lemma OneMoreByte(v: nat, byte: u8, pos: nat)
    ensures (256 * v + byte) * Pow(256, pos) == v * Pow(256, pos + 1) + byte * Pow(256, pos)
  {
    hide Pow;
    PowNext(256, pos);
    MulAssoc(v, 256, Pow(256, pos));
  }

  /**
   Put a byte at byte position `pos`. The bits are clear, so the OR of the source is a sum.
   */
  method PlaceByte(a: array<u32>, k: nat, pos: nat, byte: u8)
    requires pos / 4 < k <= a.Length && LowBytesClear(a[pos / 4], pos % 4 + 1)
    modifies a
    ensures Num(a[..k]) == old(Num(a[..k])) + byte * Pow(256, pos)
    ensures LowBytesClear(a[pos / 4], pos % 4)
    ensures forall i :: 0 <= i < a.Length && i != pos / 4 ==> a[i] == old(a[i])
  {
    hide Pow, Num, LowBytesClear;
    ghost var limbs := a[..k];
    var q, r := pos / 4, pos % 4;
    LimbHasRoom(a[q], byte, r);
    AddByte(limbs, q, r, byte);
    a[q] := a[q] + byte * Pow(256, r);
    assert a[..k] == limbs[q := a[q]];
  }

  lemma LimbHasRoom(x: u32, byte: u8, r: nat)
    requires r < 4 && LowBytesClear(x, r + 1)
    ensures 0 <= x + byte * Pow(256, r) < BASE && LowBytesClear(x + byte * Pow(256, r), r)
  {
    hide Pow;
    PowNext(256, r);
    PowAdd(256, r + 1, 3 - r);
    ByteAndBitWidths();
    Room(x, byte, Pow(256, r), Pow(256, 3 - r));
  }

  /** A byte fits between the multiples of 256w. */
  lemma Room(x: u32, byte: u8, w: int, h: int)
    requires w > 0 && BASE == (256 * w) * h && x % (256 * w) == 0
    ensures 0 <= x + byte * w < BASE && (x + byte * w) % w == 0
  {
    var c := x / (256 * w);
    assert x == (256 * w) * c;
    if c >= h {
      MulMono(h, c, 256 * w);
    }
    MulMono(c + 1, h, 256 * w);
    assert (256 * w) * (c + 1) == x + 256 * w;
    MulMono(byte, 255, w);
    MulMono(0, byte, w);
    DivModUnique(x + byte * w, 256 * c + byte, 0, w);
  }

  lemma AddByte(limbs: seq<u32>, q: nat, r: nat, byte: u8)
    requires q < |limbs| && r < 4 && LowBytesClear(limbs[q], r + 1)
    ensures 0 <= limbs[q] + byte * Pow(256, r) < BASE
    ensures Num(limbs[q := limbs[q] + byte * Pow(256, r)]) == Num(limbs) + byte * Pow(256, 4 * q + r)
  {
    hide Pow, Val, LowBytesClear;
    LimbHasRoom(limbs[q], byte, r);
    ValUpdate(BASE, limbs, q, limbs[q] + byte * Pow(256, r));
    PowMul(256, 4, q);
    ByteAndBitWidths();
    PowAdd(256, 4 * q, r);
    MulAssoc(byte, Pow(256, r), Pow(BASE, q));
  }

  /** The top i bytes of v written in n bytes. */
  ghost function TopBytes(v: nat, n: nat, i: nat): nat
    requires i <= n
  {
    (v / Pow(256, n - i)) % Pow(256, i)
  }

  lemma TopBytesStep(v: nat, n: nat, i: nat)
    requires i < n
    ensures TopBytes(v, n, i + 1) == TopBytes(v, n, i) * 256 + SubDigit(256, v, n - 1 - i)
  {
    hide Pow;
    PowNext(256, n - 1 - i);
    PowNext(256, i);
    DivDiv(v, Pow(256, n - 1 - i), 256);
    NextByte(v / Pow(256, n - 1 - i), Pow(256, i));
  }

  lemma TopBytesEnds(v: nat, n: nat)
    ensures TopBytes(v, n, 0) == 0 && TopBytes(v, n, n) == v % Pow(256, n)
  {
    assert Pow(256, 0) == 1;
  }

  /** Serialise k limbs to big-endian bytes: left zero-padded, or cut to the low bytes. */
  method ToBe(be: array<u8>, a: array<u32>, k: nat)
    requires k <= a.Length
    modifies be
    ensures BeNum(be[..]) == Num(a[..k]) % Pow(256, be.Length)
  {
    hide Pow, Num, BeNum, SubDigit, TopBytes;
    ghost var s, n := a[..k], be.Length;
    BeNumEmpty();
    TopBytesEnds(Num(s), n);
    ByteAndBitWidths();
    for i := 0 to be.Length
      invariant a[..k] == s
      invariant BeNum(be[..i]) == TopBytes(Num(s), n, i)
    {
      ghost var before := be[..i];
      var pos := be.Length - 1 - i;
      DigitOfDigit(256, 4, BASE, s, pos / 4, pos % 4);
      NumIs(s);
      be[i] := SubDigit(256, if pos / 4 < k then a[pos / 4] else 0, pos % 4);
      assert be[..i + 1][..i] == before;
      BeNumSnoc(be[..i + 1], i);
      TopBytesStep(Num(s), n, i);
    }
    assert be[..n] == be[..];
  }

  lemma BeNumSnoc(s: seq<u8>, i: nat)
    requires |s| == i + 1
    ensures BeNum(s) == BeNum(s[..i]) * 256 + s[i]
  {}

  lemma NextByte(w: nat, p: int)
    requires p > 0
    ensures ((w / 256) % p) * 256 + w % 256 == w % (256 * p)
  {
    var q := w / 256;
    assert w == 256 * q + w % 256 && q == p * (q / p) + q % p;
    assert 256 * (p * (q / p)) == (256 * p) * (q / p);
    DivModUnique(w, q / p, 256 * (q % p) + w % 256, 256 * p);
  }

  // ----- the public-key operation

  /**
   em = sig^e mod n, big-endian. Refused exactly when n is empty or too long, sig is longer
   than n, or sig is not below n.
   */
  method PubOp(em: array<u8>, n: seq<u8>, e: seq<u8>, sig: seq<u8>) returns (rc: int)
    modifies em
    ensures rc == 0 || rc == -1
    ensures rc == -1 <==> |n| == 0 || |n| > MAX_BYTES || |sig| > |n| || BeNum(sig) >= BeNum(n)
    ensures rc == -1 ==> em[..] == old(em[..])
    ensures rc == 0 && (BeNum(n) % 2 == 1 || BeNum(e) == 0) ==>
              BeNum(em[..]) == ModExpResult(BeNum(sig), BeNum(e), BeNum(n)) % Pow(256, em.Length)
  {
    hide Pow, Num, BeNum, ModExpResult;
    if |n| == 0 || |n| > MAX_BYTES {
      return -1;
    }
    if |sig| > |n| {
      return -1;
    }
    var k := (|n| + 3) / 4;
    var nb, sb, mb := new u32[k], new u32[k], new u32[k];
    FromBe(nb, k, n);
    FromBe(sb, k, sig);
    var geq := GeqK(sb, nb, k);
    if geq {
      return -1;
    }
    OddLowLimb(nb[..k]);
    PowerZero(BeNum(sig), BeNum(n));
    ModExp(mb, sb, nb, k, e);
    ToBe(em, mb, k);
    return 0;
  }
}
