/**
 Montgomery form over any odd modulus of k limbs: the run-time constants -m^-1 mod 2^32 and
 R^2 mod m, entering and leaving the form, and one step of square-and-multiply. RSA and P-256
 run the same code at different widths.
 */
module Montgomery {
  import opened Radix
  import opened Bignum

  // ----- Montgomery constants

  /** The moduli along which Newton's iteration doubles the number of correct bits. */
  ghost function NewtonModulus(i: nat): int
    requires i <= 5
  {
    [2, 4, 16, 256, 65536, BASE][i]
  }

  /** n0 = -m0^-1 mod 2^32 by five Newton steps from inv = 1; an even limb has no such inverse. */
  method NewtonNegInverse(m0: u32) returns (n0: u32)
    ensures m0 % 2 == 1 <==> NegInverse(m0, n0)
  {
    hide NegInverse;
    var inv: u32 := 1;
    for i := 0 to 5
      invariant m0 % 2 == 1 ==> (1 - m0 * inv) % NewtonModulus(i) == 0
    {
      MacFits(m0, inv);
      var s: u32 := (2 - m0 * inv % BASE) % BASE;
      MacFits(inv, s);
      if m0 % 2 == 1 {
        NewtonStep(m0, inv, s, NewtonModulus(i), NewtonModulus(i + 1));
      }
      inv := inv * s % BASE;
    }
    n0 := (0 - inv as int) % BASE;
    if m0 % 2 == 1 {
      NegateInverse(m0, inv, n0);
    }
    EvenHasNone(m0, n0);
  }

  lemma EvenHasNone(m0: u32, n0: u32)
    ensures NegInverse(m0, n0) ==> m0 % 2 == 1
  {
    if m0 % 2 == 0 {
      var h := m0 / 2;
      assert m0 * n0 == 2 * (h * n0);
      EvenResidue(h * n0);
    }
  }

  lemma EvenResidue(x: int)
    ensures (2 * x + 1) % BASE != 0
  {}

  /** If m*inv = 1 mod d then m*inv' = 1 mod d^2. */
  lemma NewtonStep(m: u32, inv: u32, s: u32, d: int, dd: int)
    requires d > 0 && dd == d * d && BASE % dd == 0
    requires (1 - m * inv) % d == 0
    requires s == (2 - m * inv % BASE) % BASE
    ensures (1 - m * (inv * s % BASE)) % dd == 0
  {
    hide Cong;
    var inv' := inv * s % BASE;
    var e := 1 - m * inv;
    NewtonCong(m, inv, s);
    var q := CongWitness(inv', inv * (2 - m * inv), BASE);
    NewtonAlgebra(m, inv, inv', q, e / d, d, dd, BASE / dd);
    ExactMultiple(1 - m * inv', (e / d) * (e / d) - m * q * (BASE / dd), dd);
  }

  lemma ExactMultiple(x: int, k: int, d: int)
    requires d > 0 && x == k * d
    ensures x % d == 0
  {
    DivModUnique(x, k, 0, d);
  }

  lemma NewtonCong(m: u32, inv: u32, s: u32)
    requires s == (2 - m * inv % BASE) % BASE
    ensures Cong(inv * s % BASE, inv * (2 - m * inv), BASE)
  {
    CongMod(m * inv, BASE);
    CongSub(2, 2, m * inv % BASE, m * inv, BASE);
    CongMod(2 - m * inv % BASE, BASE);
    CongMul(inv, inv, s, 2 - m * inv, BASE);
    CongMod(inv * s, BASE);
  }

  lemma NewtonAlgebra(m: int, inv: int, inv': int, q: int, k: int, d: int, dd: int, c: int)
    requires 1 - m * inv == d * k && dd == d * d && BASE == dd * c
    requires inv' == inv * (2 - m * inv) + q * BASE
    ensures 1 - m * inv' == (k * k - m * q * c) * dd
  {
    var e := 1 - m * inv;
    assert e * e == (k * k) * dd;
    assert 1 - m * inv' == e * e - m * (q * BASE);
    assert m * (q * (dd * c)) == (m * q * c) * dd;
  }

  lemma NegateInverse(m0: u32, inv: u32, n0: u32)
    requires (1 - m0 * inv) % BASE == 0 && n0 == (0 - inv) % BASE
    ensures NegInverse(m0, n0)
  {
    CongMod(0 - inv, BASE);
    CongMul(m0, m0, n0, 0 - inv, BASE);
    CongAdd(m0 * n0, m0 * (0 - inv), 1, 1, BASE);
    assert m0 * (0 - inv) + 1 == 1 - m0 * inv;
  }

  /** rr = 2^(64k) mod m by repeated doubling from 1. */
  method RSquared(m: array<u32>, k: nat) returns (rr: array<u32>)
    requires 1 <= k <= m.Length
    ensures fresh(rr) && rr.Length == k
    ensures 0 < Num(m[..k]) ==>
              Num(rr[..k]) <= Num(m[..k]) && Cong(Num(rr[..k]), Pow(BASE, k) * Pow(BASE, k), Num(m[..k]))
  {
    hide Pow, Num, Cong;
    ghost var M := Num(m[..k]);
    if 0 < M {
      CongMultiple(1, 1, 0, M);
    }
    ValNil(2);
    rr := One(k);
    for i := 0 to 64 * k
      invariant fresh(rr) && rr.Length == k && m[..k] == old(m[..k])
      invariant 0 < M ==> Num(rr[..k]) <= M && Cong(Num(rr[..k]), Pow(2, i), M)
    {
      ghost var v := Num(rr[..k]);
      DblMod(rr, m, k);
      if 0 < M {
        CongMultiple(2, 2, 0, M);
        CongMul(2, 2, v, Pow(2, i), M);
        CongMultiple(Num(rr[..k]), 2 * v, if 2 * v >= M then -1 else 0, M);
        CongTrans(Num(rr[..k]), 2 * v, 2 * Pow(2, i), M);
        PowNext(2, i);
      }
    }
    PowMul(2, 32, 2 * k);
    ByteAndBitWidths();
    PowAdd(BASE, k, k);
  }

  /** The k-limb number 1. */
  method One(k: nat) returns (one: array<u32>)
    requires 1 <= k
    ensures fresh(one) && one.Length == k && Num(one[..k]) == 1
  {
    hide Pow, Val;
    one := new u32[k](_ => 0);
    ghost var z := one[..];
    ZeroLimbs(z);
    ValNil(BASE);
    one[0] := 1;
    assert one[..] == z[0 := 1] && one[..k] == one[..];
    ValUpdate(BASE, z, 0, 1);
  }

  // ----- values in Montgomery form

  /** The Montgomery radix of a modulus, one factor of 2^32 for each of its limbs. */
  ghost function MontRadix(m: seq<u32>): int
  {
    if m == [] then 1 else BASE * MontRadix(m[1..])
  }

  lemma {:induction false} MontRadixIs(m: seq<u32>)
    ensures MontRadix(m) == Pow(BASE, |m|)
  {
    if m != [] {
      MontRadixIs(m[1..]);
    }
  }

  /** The factor 2^(32k) can be cancelled modulo m, because 2^32 * c = 1 + m * n0 for some c. */
  lemma CancelR(x: int, y: int, s: seq<u32>, n0: u32)
    requires |s| >= 1 && NegInverse(s[0], n0) && Num(s) > 0
    requires Cong(x * MontRadix(s), y * MontRadix(s), Num(s))
    ensures Cong(x, y, Num(s))
  {
    MontRadixIs(s);
    var c := BaseInverse(s, n0);
    CancelPower(x, y, c, Num(s), |s|);
  }

  lemma BaseInverse(s: seq<u32>, n0: u32) returns (c: int)
    requires |s| >= 1 && NegInverse(s[0], n0) && Num(s) > 0
    ensures Cong(BASE * c, 1, Num(s))
  {
    var M := Num(s);
    LowLimb(s);
    CongMul(M, s[0], n0, n0, BASE);
    CongAdd(M * n0, s[0] * n0, 1, 1, BASE);
    c := CongWitness(M * n0 + 1, 0, BASE);
    CongMultiple(BASE * c, 1, n0, M);
  }

  lemma LowLimb(s: seq<u32>)
    requires |s| >= 1
    ensures Cong(Num(s), s[0], BASE)
  {
    ValDigit(BASE, s, 0);
    assert Pow(BASE, 0) == 1;
    CongMod(Num(s), BASE);
    assert Num(s) / 1 == Num(s);
    CongMod(s[0], BASE);
    DivModUnique(s[0], 0, s[0], BASE);
  }

  lemma {:induction false} CancelPower(x: int, y: int, c: int, m: int, k: nat)
    requires m > 0 && Cong(BASE * c, 1, m)
    requires Cong(x * Pow(BASE, k), y * Pow(BASE, k), m)
    ensures Cong(x, y, m)
  {
    if k > 0 {
      hide Cong, Pow;
      PowNext(BASE, k - 1);
      var X, Y := x * Pow(BASE, k - 1), y * Pow(BASE, k - 1);
      CongMul(x * Pow(BASE, k), y * Pow(BASE, k), c, c, m);
      Regroup(x, Pow(BASE, k - 1), c);
      Regroup(y, Pow(BASE, k - 1), c);
      CongMultiple(X, X, 0, m);
      CongMultiple(Y, Y, 0, m);
      CongMul(X, X, BASE * c, 1, m);
      CongMul(Y, Y, BASE * c, 1, m);
      CongTrans(X * (BASE * c), X, X, m);
      CongTrans(X, X * (BASE * c), Y * (BASE * c), m);
      CongTrans(X, Y * (BASE * c), Y, m);
      CancelPower(x, y, c, m, k - 1);
    }
  }

  lemma Regroup(x: int, p: int, c: int)
    ensures (x * (BASE * p)) * c == (x * p) * (BASE * c)
  {}

  /** A Montgomery product of representatives of u and v represents u * v. */
  lemma MontProduct(out: int, A: int, B: int, u: int, v: int, s: seq<u32>, n0: u32)
    requires |s| >= 1 && NegInverse(s[0], n0) && Num(s) > 0
    requires Cong(out * MontRadix(s), A * B, Num(s))
    requires Cong(A, u * MontRadix(s), Num(s)) && Cong(B, v, Num(s))
    ensures Cong(out, u * v, Num(s))
  {
    hide Pow, Cong, Num;
    var R, M := MontRadix(s), Num(s);
    CongMul(A, u * R, B, v, M);
    assert (u * R) * v == (u * v) * R;
    CongTrans(out * R, A * B, (u * v) * R, M);
    CancelR(out, u * v, s, n0);
  }

  /** m is a positive k-limb modulus and n0 its Montgomery constant. */
  ghost predicate Ready(m: seq<u32>, n0: u32) {
    |m| >= 1 && Num(m) > 0 && NegInverse(m[0], n0)
  }

  /** `res` represents u in Montgomery form: res = u * 2^(32k) mod m. */
  ghost predicate Represents(res: int, u: int, m: seq<u32>)
  {
    Num(m) > 0 && 0 <= res <= Num(m) && Cong(res, u * MontRadix(m), Num(m))
  }

  /** Multiplying by R^2 enters Montgomery form. */
  lemma EnterMontgomery(out: int, u: int, rr: int, m: seq<u32>, n0: u32)
    requires Ready(m, n0) && 0 <= out < Num(m)
    requires Cong(out * MontRadix(m), u * rr, Num(m))
    requires Cong(rr, MontRadix(m) * MontRadix(m), Num(m))
    ensures Represents(out, u, m)
  {
    MontProduct(out, rr, u, MontRadix(m), u, m, n0);
  }

  lemma ProductRepresents(out: int, x: int, y: int, u: int, v: int, m: seq<u32>, n0: u32)
    requires Ready(m, n0) && 0 <= out < Num(m)
    requires Cong(out * MontRadix(m), x * y, Num(m))
    requires Represents(x, u, m) && Represents(y, v, m)
    ensures Represents(out, u * v, m)
  {
    MontProduct(out, x, y, u, v * MontRadix(m), m, n0);
    MulAssoc(u, v, MontRadix(m));
  }

  /** Multiplying by 1 leaves it again. */
  lemma LeaveMontgomery(out: int, x: int, u: int, m: seq<u32>, n0: u32)
    requires Ready(m, n0) && 0 <= out < Num(m)
    requires Cong(out * MontRadix(m), x * 1, Num(m))
    requires Represents(x, u, m)
    ensures out == u % Num(m)
  {
    MontProduct(out, x, 1, u, 1, m, n0);
    DivModUnique(out, 0, out, Num(m));
  }

  /** One exponent bit: square, then multiply if the bit is set. */
  method ExpBit(res: array<u32>, baseM: array<u32>, m: array<u32>, n0: u32, k: nat, bit: bool,
                ghost base: int, ghost E: nat)
    requires 1 <= k && k <= m.Length && res.Length == baseM.Length == k
    requires res != m && res != baseM
    modifies res
    ensures var mv := m[..k];
            Ready(mv, n0) && Represents(old(Num(res[..k])), Pow(base, E), mv) && Represents(Num(baseM[..k]), base, mv)
            ==> Represents(Num(res[..k]), Pow(base, 2 * E + if bit then 1 else 0), mv)
  {
    hide Pow, Val, Num, Cong, NegInverse, MontRadix;
    ghost var mv, r0 := m[..k], Num(res[..k]);
    ghost var good := Ready(mv, n0) && Represents(r0, Pow(base, E), mv) && Represents(Num(baseM[..k]), base, mv);
    MontMul(res, res, res, m, n0, k);
    ghost var r1 := Num(res[..k]);
    MontRadixIs(mv);
    if good {
      ProductRepresents(r1, r0, r0, Pow(base, E), Pow(base, E), mv, n0);
      PowAdd(base, E, E);
    }
    if bit {
      MontMul(res, res, baseM, m, n0, k);
      if good {
        ProductRepresents(Num(res[..k]), r1, Num(baseM[..k]), Pow(base, 2 * E), base, mv, n0);
        PowNext(base, 2 * E);
      }
    }
  }

  /** The constants and the two starting values of the ladder. */
  method Setup(base: array<u32>, m: array<u32>, k: nat)
    returns (n0: u32, one: array<u32>, baseM: array<u32>, res: array<u32>)
    requires 1 <= k && k <= base.Length && k <= m.Length
    ensures fresh(one) && fresh(baseM) && fresh(res) && res != baseM && one != res
    ensures one.Length == baseM.Length == res.Length == k && Num(one[..k]) == 1
    ensures var mv, b := m[..k], Num(base[..k]);
            m[0] % 2 == 1 && b < Num(mv) ==>
              Ready(mv, n0) && Represents(Num(baseM[..k]), b, mv) && Represents(Num(res[..k]), 1, mv)
  {
    hide Pow, Val, Num, Cong, NegInverse, Represents, MontRadix;
    n0 := NewtonNegInverse(m[0]);
    var rr := RSquared(m, k);
    one := One(k);
    baseM := new u32[k];
    MontMul(baseM, base, rr, m, n0, k);
    res := new u32[k];
    MontMul(res, one, rr, m, n0, k);
    ghost var mv, b := m[..k], Num(base[..k]);
    MontRadixIs(mv);
    if m[0] % 2 == 1 && b < Num(mv) {
      EnterMontgomery(Num(baseM[..k]), b, Num(rr[..k]), mv, n0);
      EnterMontgomery(Num(res[..k]), 1, Num(rr[..k]), mv, n0);
    }
  }

  lemma OddLowLimb(s: seq<u32>)
    requires |s| >= 1
    ensures Num(s) % 2 == s[0] % 2
  {
    LowLimb(s);
    hide Num, Cong;
    var w := CongWitness(Num(s), s[0], BASE);
  }
}
