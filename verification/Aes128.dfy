/**
 AES with 128-bit blocks (FIPS 197): the byte transformations in place on a 16-byte state, the key schedules,
 and the inverse cipher. A state is stored column by column.
 */
module Aes128 {

  type byte = bv8

  /** Row r of the S-box (section 5.1.1 of FIPS 197), first entry in the top byte. */
  function SboxRow(r: bv8): bv128 {
    if r == 0 then 0x637c777b_f26b6fc5_3001672b_fed7ab76
    else if r == 1 then 0xca82c97d_fa5947f0_add4a2af_9ca472c0
    else if r == 2 then 0xb7fd9326_363ff7cc_34a5e5f1_71d83115
    else if r == 3 then 0x04c723c3_1896059a_071280e2_eb27b275
    else if r == 4 then 0x09832c1a_1b6e5aa0_523bd6b3_29e32f84
    else if r == 5 then 0x53d100ed_20fcb15b_6acbbe39_4a4c58cf
    else if r == 6 then 0xd0efaafb_434d3385_45f9027f_503c9fa8
    else if r == 7 then 0x51a3408f_929d38f5_bcb6da21_10fff3d2
    else if r == 8 then 0xcd0c13ec_5f974417_c4a77e3d_645d1973
    else if r == 9 then 0x60814fdc_222a9088_46eeb814_de5e0bdb
    else if r == 10 then 0xe0323a0a_4906245c_c2d3ac62_9195e479
    else if r == 11 then 0xe7c8376d_8dd54ea9_6c56f4ea_657aae08
    else if r == 12 then 0xba78252e_1ca6b4c6_e8dd741f_4bbd8b8a
    else if r == 13 then 0x703eb566_4803f60e_613557b9_86c11d9e
    else if r == 14 then 0xe1f89811_69d98e94_9b1e87e9_ce5528df
    else 0x8ca1890d_bfe64268_41992d0f_b054bb16
  }

  /** Row r of the inverse S-box (section 5.3.2 of FIPS 197). */
  function InvSboxRow(r: bv8): bv128 {
    if r == 0 then 0x52096ad5_3036a538_bf40a39e_81f3d7fb
    else if r == 1 then 0x7ce33982_9b2fff87_348e4344_c4dee9cb
    else if r == 2 then 0x547b9432_a6c2233d_ee4c950b_42fac34e
    else if r == 3 then 0x082ea166_28d924b2_765ba249_6d8bd125
    else if r == 4 then 0x72f8f664_86689816_d4a45ccc_5d65b692
    else if r == 5 then 0x6c704850_fdedb9da_5e154657_a78d9d84
    else if r == 6 then 0x90d8ab00_8cbcd30a_f7e45805_b8b34506
    else if r == 7 then 0xd02c1e8f_ca3f0f02_c1afbd03_01138a6b
    else if r == 8 then 0x3a911141_4f67dcea_97f2cfce_f0b4e673
    else if r == 9 then 0x96ac7422_e7ad3585_e2f937e8_1c75df6e
    else if r == 10 then 0x47f11a71_1d29c589_6fb7620e_aa18be1b
    else if r == 11 then 0xfc563e4b_c6d27920_9adbc0fe_78cd5af4
    else if r == 12 then 0x1fdda833_8807c731_b1121059_2780ec5f
    else if r == 13 then 0x60517fa9_19b54a0d_2de57a9f_93c99cef
    else if r == 14 then 0xa0e03b4d_ae2af5b0_c8ebbb3c_83539961
    else 0x172b047e_ba77d626_e1691463_55210c7d
  }

  /** Entry c of a row. */
  function Entry(row: bv128, c: bv8): byte
    requires c < 16
  {
    ((row >> (8 * (15 - c))) & 0xFF) as byte
  }

  function Sbox(x: byte): byte {
    Entry(SboxRow(x >> 4), x & 0xF)
  }

  function InvSbox(x: byte): byte {
    Entry(InvSboxRow(x >> 4), x & 0xF)
  }

  /** The two tables are inverse to each other, both ways round. */
  lemma SboxInverse(x: byte)
    ensures InvSbox(Sbox(x)) == x
  {
    if x < 0x40 {
      SboxInverseFirst(x);
    } else if x < 0x80 {
      SboxInverseSecond(x);
    } else if x < 0xC0 {
      SboxInverseThird(x);
    } else {
      SboxInverseFourth(x);
    }
  }

  lemma SboxInverseFirst(x: byte)
    requires x < 0x40
    ensures InvSbox(Sbox(x)) == x
  {}

  lemma SboxInverseSecond(x: byte)
    requires 0x40 <= x < 0x80
    ensures InvSbox(Sbox(x)) == x
  {}

  lemma SboxInverseThird(x: byte)
    requires 0x80 <= x < 0xC0
    ensures InvSbox(Sbox(x)) == x
  {}

  lemma SboxInverseFourth(x: byte)
    requires x >= 0xC0
    ensures InvSbox(Sbox(x)) == x
  {}

  lemma InvSboxInverse(x: byte)
    ensures Sbox(InvSbox(x)) == x
  {
    if x < 0x40 {
      InvSboxInverseFirst(x);
    } else if x < 0x80 {
      InvSboxInverseSecond(x);
    } else if x < 0xC0 {
      InvSboxInverseThird(x);
    } else {
      InvSboxInverseFourth(x);
    }
  }

  lemma InvSboxInverseFirst(x: byte)
    requires x < 0x40
    ensures Sbox(InvSbox(x)) == x
  {}

  lemma InvSboxInverseSecond(x: byte)
    requires 0x40 <= x < 0x80
    ensures Sbox(InvSbox(x)) == x
  {}

  lemma InvSboxInverseThird(x: byte)
    requires 0x80 <= x < 0xC0
    ensures Sbox(InvSbox(x)) == x
  {}

  lemma InvSboxInverseFourth(x: byte)
    requires x >= 0xC0
    ensures Sbox(InvSbox(x)) == x
  {}

  // ----- GF(2^8)

  function Xtime(x: byte): byte {
    (x << 1) ^ (((x >> 7) & 1) * 0x1b)
  }

  /** Addition. */
  function Plus(x: byte, y: byte): byte {
    x ^ y
  }

  lemma XtimeLinear(x: byte, y: byte)
    ensures Xtime(Plus(x, y)) == Plus(Xtime(x), Xtime(y))
  {}

  /** x if y is odd. */
  function Term(x: byte, y: byte): byte {
    if y & 1 == 1 then x else 0
  }

  function Half(y: byte): byte {
    y >> 1
  }

  /** The sum of x times the powers of two among the n lowest that y has. */
  function Gf(x: byte, y: byte, n: nat): byte
    decreases n
  {
    if n == 0 then 0 else Plus(Term(x, y), Gf(Xtime(x), Half(y), n - 1))
  }

  lemma GfNext(x: byte, y: byte, n: nat)
    ensures Gf(x, y, n) == if n == 0 then 0 else Plus(Term(x, y), Gf(Xtime(x), Half(y), n - 1))
  {}

  method GfMul(x: byte, y: byte) returns (result: byte)
    ensures result == Gf(x, y, 8)
  {
    hide Gf, Xtime, Term, Plus, Half;
    var a, b := x, y;
    result := 0;
    PlusZero(Gf(x, y, 8));
    for i := 0 to 8
      invariant Plus(result, Gf(a, b, 8 - i)) == Gf(x, y, 8)
    {
      GfNext(a, b, 8 - i);
      AddTerm(result, a, b, Gf(Xtime(a), Half(b), 7 - i));
      if b & 1 == 1 {
        result := result ^ a;
      }
      a := Xtime(a);
      b := b >> 1;
    }
    GfNext(a, b, 0);
    PlusZero(result);
  }

  lemma PlusZero(x: byte)
    ensures Plus(x, 0) == x && Plus(0, x) == x
  {}

  lemma AddTerm(r: byte, a: byte, b: byte, g: byte)
    ensures Plus(r, Plus(Term(a, b), g)) == Plus(if b & 1 == 1 then r ^ a else r, g)
    ensures Half(b) == b >> 1
  {}

  lemma PlusAssoc(a: byte, b: byte, c: byte)
    ensures Plus(Plus(a, b), c) == Plus(a, Plus(b, c))
  {}

  lemma PlusComm(a: byte, b: byte)
    ensures Plus(a, b) == Plus(b, a)
  {}

  lemma PlusSelf(a: byte)
    ensures Plus(a, a) == 0
  {}

  lemma PlusTwice(x: byte, y: byte)
    ensures Plus(Plus(x, y), y) == x
  {}

  lemma PlusSwap(a: byte, b: byte, c: byte)
    ensures Plus(Plus(a, b), c) == Plus(Plus(a, c), b)
  {}

  lemma PlusCancel(a: byte, b: byte, c: byte)
    ensures Plus(Plus(a, b), Plus(a, c)) == Plus(b, c)
  {}

  /** The same with the remaining terms exchanged. */
  lemma PlusCancelLast(a: byte, b: byte, c: byte)
    ensures Plus(Plus(a, b), Plus(a, c)) == Plus(c, b)
  {}

  lemma Plus4(a: byte, b: byte, c: byte, d: byte)
    ensures Plus(Plus(a, b), Plus(c, d)) == Plus(Plus(a, c), Plus(b, d))
  {
    hide *;
    PlusAssoc(Plus(a, b), c, d);
    PlusAssoc(a, b, c);
    PlusComm(b, c);
    PlusAssoc(a, c, b);
    PlusAssoc(Plus(a, c), b, d);
  }

  lemma PlusIs(a: byte, b: byte)
    ensures Plus(a, b) == a ^ b
  {}

  /** The product is linear in either factor. */
  lemma {:induction false} GfLinear(x: byte, x': byte, y: byte, n: nat)
    ensures Gf(Plus(x, x'), y, n) == Plus(Gf(x, y, n), Gf(x', y, n))
    decreases n
  {
    hide *;
    GfNext(x, y, n);
    GfNext(x', y, n);
    GfNext(Plus(x, x'), y, n);
    if n > 0 {
      XtimeLinear(x, x');
      GfLinear(Xtime(x), Xtime(x'), Half(y), n - 1);
      TermLinear(x, x', y);
      Plus4(Term(x, y), Term(x', y), Gf(Xtime(x), Half(y), n - 1), Gf(Xtime(x'), Half(y), n - 1));
    } else {
      PlusZero(0);
    }
  }

  lemma {:induction false} GfLinearRight(x: byte, y: byte, y': byte, n: nat)
    ensures Gf(x, Plus(y, y'), n) == Plus(Gf(x, y, n), Gf(x, y', n))
    decreases n
  {
    hide *;
    GfNext(x, y, n);
    GfNext(x, y', n);
    GfNext(x, Plus(y, y'), n);
    if n > 0 {
      TermLinearRight(x, y, y');
      GfLinearRight(Xtime(x), Half(y), Half(y'), n - 1);
      Plus4(Term(x, y), Term(x, y'), Gf(Xtime(x), Half(y), n - 1), Gf(Xtime(x), Half(y'), n - 1));
    } else {
      PlusZero(0);
    }
  }

  lemma TermLinear(x: byte, x': byte, y: byte)
    ensures Term(Plus(x, x'), y) == Plus(Term(x, y), Term(x', y))
  {}

  lemma TermLinearRight(x: byte, y: byte, y': byte)
    ensures Term(x, Plus(y, y')) == Plus(Term(x, y), Term(x, y'))
    ensures Half(Plus(y, y')) == Plus(Half(y), Half(y'))
  {}

  lemma {:induction false} GfZero(x: byte, n: nat)
    ensures Gf(x, 0, n) == 0
    decreases n
  {
    hide *;
    GfNext(x, 0, n);
    if n > 0 {
      GfZero(Xtime(x), n - 1);
      TermBits(x);
    }
  }

  lemma TermBits(x: byte)
    ensures Term(x, 0) == 0 && Term(x, 1) == x && Term(x, 2) == 0
    ensures Half(0) == 0 && Half(1) == 0 && Half(2) == 1 && Half(4) == 2 && Half(8) == 4
    ensures Term(x, 4) == 0 && Term(x, 8) == 0 && Plus(0, 0) == 0 && Plus(x, 0) == x && Plus(0, x) == x
  {}

  /** One is neutral and two is Xtime: with linearity this determines the product. */
  lemma GfUnits(x: byte, n: nat)
    requires n >= 4
    ensures Gf(x, 1, n) == x && Gf(x, 2, n) == Xtime(x) && Gf(x, 4, n) == Xtime(Xtime(x))
    ensures Gf(x, 8, n) == Xtime(Xtime(Xtime(x)))
  {
    hide *;
    var x1 := Xtime(x);
    var x2 := Xtime(x1);
    var x3 := Xtime(x2);
    GfOne(x, n);
    GfOne(x1, n - 1);
    GfOne(x2, n - 2);
    GfOne(x3, n - 3);
    GfDouble(x2, 4, n - 2);
    GfDouble(x1, 4, n - 1);
    GfDouble(x, 4, n);
    GfDouble(x1, 2, n - 1);
    GfDouble(x, 8, n);
    GfDouble(x2, 2, n - 2);
    GfDouble(x, 2, n);
  }

  lemma GfOne(x: byte, n: nat)
    requires n >= 1
    ensures Gf(x, 1, n) == x
  {
    hide *;
    GfNext(x, 1, n);
    TermBits(x);
    GfZero(Xtime(x), n - 1);
  }

  lemma GfDouble(x: byte, y: byte, n: nat)
    requires n >= 1 && (y == 2 || y == 4 || y == 8)
    ensures Gf(x, y, n) == Gf(Xtime(x), if y == 2 then 1 else if y == 4 then 2 else 4, n - 1)
  {
    hide *;
    GfNext(x, y, n);
    TermBits(x);
    PlusZero(Gf(Xtime(x), Half(y), n - 1));
  }

  // ----- the S-box over GF(2^8)

  /** The affine map of section 5.1.1 of FIPS 197: the sum of five rotations and a constant. */
  function Affine(t: byte): byte {
    t ^ ((t << 1) | (t >> 7)) ^ ((t << 2) | (t >> 6)) ^ ((t << 3) | (t >> 5)) ^ ((t << 4) | (t >> 4)) ^ 0x63
  }

  /** Its inverse. */
  function Unaffine(s: byte): byte {
    ((s << 1) | (s >> 7)) ^ ((s << 3) | (s >> 5)) ^ ((s << 6) | (s >> 2)) ^ 0x05
  }

  lemma AffineInverse(x: byte)
    ensures Affine(Unaffine(x)) == x && Unaffine(Affine(x)) == x
  {}

  /** Two terms of a product, and what is left after them. */
  function TwoTerms(x: byte, y: byte, rest: byte): byte {
    Plus(Term(x, y), Plus(Term(Xtime(x), Half(y)), rest))
  }

  function Xtime2(x: byte): byte {
    Xtime(Xtime(x))
  }

  function Half2(x: byte): byte {
    Half(Half(x))
  }

  /** A product without recursion. */
  function Expanded(x: byte, y: byte): byte {
    var x2, y2 := Xtime2(x), Half2(y);
    var x4, y4 := Xtime2(x2), Half2(y2);
    TwoTerms(x, y, TwoTerms(x2, y2, TwoTerms(x4, y4, TwoTerms(Xtime2(x4), Half2(y4), 0))))
  }

  lemma GfTwo(x: byte, y: byte, n: nat)
    requires n >= 2
    ensures Gf(x, y, n) == TwoTerms(x, y, Gf(Xtime2(x), Half2(y), n - 2))
  {
    hide Gf, Xtime, Term, Plus, Half;
    GfNext(x, y, n);
    GfNext(Xtime(x), Half(y), n - 1);
  }

  lemma GfExpanded(x: byte, y: byte)
    ensures Gf(x, y, 8) == Expanded(x, y)
  {
    hide Gf, TwoTerms, Xtime2, Half2;
    var x2, y2 := Xtime2(x), Half2(y);
    var x4, y4 := Xtime2(x2), Half2(y2);
    var x6, y6 := Xtime2(x4), Half2(y4);
    GfTwo(x, y, 8);
    GfTwo(x2, y2, 6);
    GfTwo(x4, y4, 4);
    GfTwo(x6, y6, 2);
    GfNext(Xtime2(x6), Half2(y6), 0);
  }

  // By quarters of the table, and for each by the two lowest bits of its entries' places.

  lemma SboxInvertsFirst(x: byte)
    requires 0 < x < 0x40
    ensures Expanded(x, Unaffine(Sbox(x))) == 1
  {
    if x & 1 == 0 {
      if x & 2 == 0 {
      } else {
      }
    } else if x & 2 == 0 {
    } else {
    }
  }

  lemma SboxInvertsSecond(x: byte)
    requires 0x40 <= x < 0x80
    ensures Expanded(x, Unaffine(Sbox(x))) == 1
  {
    if x & 1 == 0 {
      if x & 2 == 0 {
      } else {
      }
    } else if x & 2 == 0 {
    } else {
    }
  }

  lemma SboxInvertsThird(x: byte)
    requires 0x80 <= x < 0xC0
    ensures Expanded(x, Unaffine(Sbox(x))) == 1
  {
    if x & 1 == 0 {
      if x & 2 == 0 {
      } else {
      }
    } else if x & 2 == 0 {
    } else {
    }
  }

  lemma SboxInvertsFourth(x: byte)
    requires x >= 0xC0
    ensures Expanded(x, Unaffine(Sbox(x))) == 1
  {
    if x & 1 == 0 {
      if x & 2 == 0 {
      } else {
      }
    } else if x & 2 == 0 {
    } else {
    }
  }

  /** What the table holds, taken back through the affine map, is an inverse. */
  lemma SboxInverts(x: byte)
    ensures if x == 0 then Unaffine(Sbox(x)) == 0 else Gf(x, Unaffine(Sbox(x)), 8) == 1
  {
    hide Gf, Expanded;
    GfExpanded(x, Unaffine(Sbox(x)));
    if x == 0 {
    } else if x < 0x40 {
      SboxInvertsFirst(x);
    } else if x < 0x80 {
      SboxInvertsSecond(x);
    } else if x < 0xC0 {
      SboxInvertsThird(x);
    } else {
      SboxInvertsFourth(x);
    }
  }

  lemma NoDivisorsFirst(x: byte, y: byte)
    requires x < 0x20 && Expanded(x, y) == 0
    ensures x == 0 || y == 0
  {}

  lemma NoDivisorsSecond(x: byte, y: byte)
    requires 0x20 <= x < 0x40 && Expanded(x, y) == 0
    ensures x == 0 || y == 0
  {}

  lemma NoDivisorsThird(x: byte, y: byte)
    requires 0x40 <= x < 0x60 && Expanded(x, y) == 0
    ensures x == 0 || y == 0
  {}

  lemma NoDivisorsFourth(x: byte, y: byte)
    requires 0x60 <= x < 0x80 && Expanded(x, y) == 0
    ensures x == 0 || y == 0
  {}

  lemma NoDivisorsFifth(x: byte, y: byte)
    requires 0x80 <= x < 0xA0 && Expanded(x, y) == 0
    ensures x == 0 || y == 0
  {}

  lemma NoDivisorsSixth(x: byte, y: byte)
    requires 0xA0 <= x < 0xC0 && Expanded(x, y) == 0
    ensures x == 0 || y == 0
  {}

  lemma NoDivisorsSeventh(x: byte, y: byte)
    requires 0xC0 <= x < 0xE0 && Expanded(x, y) == 0
    ensures x == 0 || y == 0
  {}

  lemma NoDivisorsEighth(x: byte, y: byte)
    requires x >= 0xE0 && Expanded(x, y) == 0
    ensures x == 0 || y == 0
  {}

  /** A product is zero only if a factor is. */
  lemma NoDivisors(x: byte, y: byte)
    requires Gf(x, y, 8) == 0
    ensures x == 0 || y == 0
  {
    hide Gf, Expanded;
    GfExpanded(x, y);
    if x < 0x20 {
      NoDivisorsFirst(x, y);
    } else if x < 0x40 {
      NoDivisorsSecond(x, y);
    } else if x < 0x60 {
      NoDivisorsThird(x, y);
    } else if x < 0x80 {
      NoDivisorsFourth(x, y);
    } else if x < 0xA0 {
      NoDivisorsFifth(x, y);
    } else if x < 0xC0 {
      NoDivisorsSixth(x, y);
    } else if x < 0xE0 {
      NoDivisorsSeventh(x, y);
    } else {
      NoDivisorsEighth(x, y);
    }
  }

  lemma InverseUnique(x: byte, t: byte, u: byte)
    requires x != 0 && Gf(x, t, 8) == Gf(x, u, 8)
    ensures t == u
  {
    hide Gf, Plus;
    GfLinearRight(x, t, u, 8);
    PlusSelf(Gf(x, t, 8));
    NoDivisors(x, Plus(t, u));
    PlusTwice(t, u);
    PlusZero(u);
  }

  /** The S-box is what section 5.1.1 of FIPS 197 says: the inverse in GF(2^8), or 0 for 0, through the affine map. */
  lemma SboxIs(x: byte, t: byte)
    ensures Sbox(x) == Affine(t) <==> if x == 0 then t == 0 else Gf(x, t, 8) == 1
  {
    hide Gf, Sbox, Affine, Unaffine;
    var u := Unaffine(Sbox(x));
    SboxInverts(x);
    AffineInverse(Sbox(x));
    AffineInverse(t);
    if x != 0 && Gf(x, t, 8) == 1 {
      InverseUnique(x, t, u);
    }
  }

  // ----- one column

  function Sum(a: byte, b: byte, c: byte, d: byte): byte {
    a ^ b ^ c ^ d
  }

  /** What the program writes over byte x of a column of sum e; p is the sum of x and its successor. */
  function Mixin(x: byte, e: byte, p: byte): byte {
    x ^ (e ^ Xtime(p))
  }

  /** One byte of a mixed column (section 5.1.3 of FIPS 197); the others are those of the rotated column. */
  function MixByte(a: byte, b: byte, c: byte, d: byte): byte {
    Gf(a, 2, 8) ^ Gf(b, 3, 8) ^ c ^ d
  }

  /** One byte of an unmixed column (section 5.3.3 of FIPS 197). */
  function UnmixByte(a: byte, b: byte, c: byte, d: byte): byte {
    Gf(a, 0x0e, 8) ^ Gf(b, 0x0b, 8) ^ Gf(c, 0x0d, 8) ^ Gf(d, 0x09, 8)
  }

  /** The program's shortcut computes that byte. */
  lemma MixShortcut(a: byte, b: byte, c: byte, d: byte)
    ensures Mixin(a, Sum(a, b, c, d), a ^ b) == MixByte(a, b, c, d)
  {
    hide *;
    MixIs(a, b, c, d);
    MixinIs(a, b, c, d);
  }

  lemma MixinIs(a: byte, b: byte, c: byte, d: byte)
    ensures Mixin(a, Sum(a, b, c, d), a ^ b) == Plus(a, Plus(Plus(Plus(a, b), Plus(c, d)), Xtime(Plus(a, b))))
  {
    hide Xtime;
  }

  lemma MixIs(a: byte, b: byte, c: byte, d: byte)
    ensures MixByte(a, b, c, d) == Plus(a, Plus(Plus(Plus(a, b), Plus(c, d)), Xtime(Plus(a, b))))
  {
    hide *;
    GfTriple(b);
    GfUnits(a, 8);
    XtimeLinear(a, b);
    MixByteIs(a, b, c, d);
    MixSum(a, b, c, d, Xtime(a), Xtime(b));
  }

  lemma GfTriple(x: byte)
    ensures Gf(x, 3, 8) == Plus(x, Xtime(x))
  {
    hide *;
    GfLinearRight(x, 1, 2, 8);
    GfUnits(x, 8);
    PlusIs(1, 2);
  }

  lemma MixByteIs(a: byte, b: byte, c: byte, d: byte)
    ensures MixByte(a, b, c, d) == Plus(Plus(Gf(a, 2, 8), Gf(b, 3, 8)), Plus(c, d))
  {
    hide Gf;
  }

  lemma MixSum(a: byte, b: byte, c: byte, d: byte, xa: byte, xb: byte)
    ensures Plus(Plus(xa, Plus(b, xb)), Plus(c, d)) == Plus(a, Plus(Plus(Plus(a, b), Plus(c, d)), Plus(xa, xb)))
  {}

  lemma UnmixIs(a: byte, b: byte, c: byte, d: byte)
    ensures UnmixByte(a, b, c, d) == Plus(Plus(Gf(a, 0x0e, 8), Gf(b, 0x0b, 8)), Plus(Gf(c, 0x0d, 8), Gf(d, 0x09, 8)))
  {
    hide Gf;
  }

  lemma MixAdds(a: byte, b: byte, c: byte, d: byte, a': byte, b': byte, c': byte, d': byte)
    ensures MixByte(Plus(a, a'), Plus(b, b'), Plus(c, c'), Plus(d, d'))
            == Plus(MixByte(a, b, c, d), MixByte(a', b', c', d'))
  {
    hide *;
    var ab, ab', cd, cd' := Plus(a, b), Plus(a', b'), Plus(c, d), Plus(c', d');
    MixIs(a, b, c, d);
    MixIs(a', b', c', d');
    MixIs(Plus(a, a'), Plus(b, b'), Plus(c, c'), Plus(d, d'));
    Plus4(a, a', b, b');
    Plus4(c, c', d, d');
    XtimeLinear(ab, ab');
    Plus4(ab, ab', cd, cd');
    Plus4(Plus(ab, cd), Plus(ab', cd'), Xtime(ab), Xtime(ab'));
    Plus4(a, a', Plus(Plus(ab, cd), Xtime(ab)), Plus(Plus(ab', cd'), Xtime(ab')));
  }

  lemma UnmixAdds(a: byte, b: byte, c: byte, d: byte, a': byte, b': byte, c': byte, d': byte)
    ensures UnmixByte(Plus(a, a'), Plus(b, b'), Plus(c, c'), Plus(d, d'))
         == Plus(UnmixByte(a, b, c, d), UnmixByte(a', b', c', d'))
  {
    hide *;
    UnmixIs(a, b, c, d);
    UnmixIs(a', b', c', d');
    UnmixIs(Plus(a, a'), Plus(b, b'), Plus(c, c'), Plus(d, d'));
    GfLinear(a, a', 0x0e, 8);
    GfLinear(b, b', 0x0b, 8);
    GfLinear(c, c', 0x0d, 8);
    GfLinear(d, d', 0x09, 8);
    Plus4(Gf(a, 0x0e, 8), Gf(a', 0x0e, 8), Gf(b, 0x0b, 8), Gf(b', 0x0b, 8));
    Plus4(Gf(c, 0x0d, 8), Gf(c', 0x0d, 8), Gf(d, 0x09, 8), Gf(d', 0x09, 8));
    Plus4(Plus(Gf(a, 0x0e, 8), Gf(b, 0x0b, 8)), Plus(Gf(a', 0x0e, 8), Gf(b', 0x0b, 8)),
          Plus(Gf(c, 0x0d, 8), Gf(d, 0x09, 8)), Plus(Gf(c', 0x0d, 8), Gf(d', 0x09, 8)));
  }

  /** The four coefficients of the inverse column as sums of powers of two. */
  lemma UnmixForm(x: byte)
    ensures var x1 := Xtime(x); var x2 := Xtime(x1); var x3 := Xtime(x2);
            && Gf(x, 0x0e, 8) == Plus(Plus(x3, x2), x1) && Gf(x, 0x0b, 8) == Plus(Plus(x3, x1), x)
            && Gf(x, 0x0d, 8) == Plus(Plus(x3, x2), x) && Gf(x, 0x09, 8) == Plus(x3, x)
  {
    hide *;
    GfUnits(x, 8);
    GfLinearRight(x, 8, 4, 8);
    GfLinearRight(x, Plus(8, 4), 2, 8);
    GfLinearRight(x, 8, 2, 8);
    GfLinearRight(x, Plus(8, 2), 1, 8);
    GfLinearRight(x, Plus(8, 4), 1, 8);
    GfLinearRight(x, 8, 1, 8);
    Coefficients();
  }

  lemma Coefficients()
    ensures Plus(Plus(8, 4), 2) == 0x0e && Plus(Plus(8, 2), 1) == 0x0b && Plus(Plus(8, 4), 1) == 0x0d
            && Plus(8, 1) == 0x09
  {}

  /** The first byte of a column that is mixed and then unmixed. */
  function Back(a: byte, b: byte, c: byte, d: byte): byte {
    UnmixByte(MixByte(a, b, c, d), MixByte(b, c, d, a), MixByte(c, d, a, b), MixByte(d, a, b, c))
  }

  /** The first byte of a column that is unmixed and then mixed. */
  function Forth(a: byte, b: byte, c: byte, d: byte): byte {
    MixByte(UnmixByte(a, b, c, d), UnmixByte(b, c, d, a), UnmixByte(c, d, a, b), UnmixByte(d, a, b, c))
  }

  lemma BackAdds(a: byte, b: byte, c: byte, d: byte, a': byte, b': byte, c': byte, d': byte)
    ensures Back(Plus(a, a'), Plus(b, b'), Plus(c, c'), Plus(d, d')) == Plus(Back(a, b, c, d), Back(a', b', c', d'))
  {
    hide MixByte, UnmixByte, Plus;
    MixAdds(a, b, c, d, a', b', c', d');
    MixAdds(b, c, d, a, b', c', d', a');
    MixAdds(c, d, a, b, c', d', a', b');
    MixAdds(d, a, b, c, d', a', b', c');
    UnmixAdds(MixByte(a, b, c, d), MixByte(b, c, d, a), MixByte(c, d, a, b), MixByte(d, a, b, c),
              MixByte(a', b', c', d'), MixByte(b', c', d', a'), MixByte(c', d', a', b'), MixByte(d', a', b', c'));
  }

  lemma ForthAdds(a: byte, b: byte, c: byte, d: byte, a': byte, b': byte, c': byte, d': byte)
    ensures Forth(Plus(a, a'), Plus(b, b'), Plus(c, c'), Plus(d, d')) == Plus(Forth(a, b, c, d), Forth(a', b', c', d'))
  {
    hide MixByte, UnmixByte, Plus;
    UnmixAdds(a, b, c, d, a', b', c', d');
    UnmixAdds(b, c, d, a, b', c', d', a');
    UnmixAdds(c, d, a, b, c', d', a', b');
    UnmixAdds(d, a, b, c, d', a', b', c');
    MixAdds(UnmixByte(a, b, c, d), UnmixByte(b, c, d, a), UnmixByte(c, d, a, b), UnmixByte(d, a, b, c),
            UnmixByte(a', b', c', d'), UnmixByte(b', c', d', a'), UnmixByte(c', d', a', b'), UnmixByte(d', a', b', c'));
  }

  lemma MixOne(x: byte)
    ensures MixByte(x, 0, 0, 0) == Xtime(x) && MixByte(0, x, 0, 0) == Plus(x, Xtime(x))
    ensures MixByte(0, 0, x, 0) == x && MixByte(0, 0, 0, x) == x
  {
    hide MixByte, Gf;
    MixShortcut(x, 0, 0, 0);
    MixShortcut(0, x, 0, 0);
    MixShortcut(0, 0, x, 0);
    MixShortcut(0, 0, 0, x);
  }

  lemma UnmixOne(x: byte)
    ensures UnmixByte(x, 0, 0, 0) == Gf(x, 0x0e, 8) && UnmixByte(0, x, 0, 0) == Gf(x, 0x0b, 8)
    ensures UnmixByte(0, 0, x, 0) == Gf(x, 0x0d, 8) && UnmixByte(0, 0, 0, x) == Gf(x, 0x09, 8)
  {
    hide Gf;
    GfOfZero(0x0e, 8);
    GfOfZero(0x0b, 8);
    GfOfZero(0x0d, 8);
    GfOfZero(0x09, 8);
  }

  lemma {:induction false} GfOfZero(y: byte, n: nat)
    ensures Gf(0, y, n) == 0
    decreases n
  {
    hide *;
    GfNext(0, y, n);
    if n > 0 {
      GfOfZero(Half(y), n - 1);
      ZeroBits(y);
    }
  }

  lemma ZeroBits(y: byte)
    ensures Term(0, y) == 0 && Xtime(0) == 0 && Plus(0, 0) == 0
  {}

  lemma BackIs(a: byte, b: byte, c: byte, d: byte)
    ensures Back(a, b, c, d)
            == UnmixByte(MixByte(a, b, c, d), MixByte(b, c, d, a), MixByte(c, d, a, b), MixByte(d, a, b, c))
  {
    hide MixByte, UnmixByte;
  }

  lemma BackFirst(x: byte)
    ensures Back(x, 0, 0, 0) == x
  {
    hide *;
    var x1 := Xtime(x);
    var x2 := Xtime(x1);
    var x3 := Xtime(x2);
    var p := Plus(x, x1);
    MixOne(x);
    BackIs(x, 0, 0, 0);
    UnmixIs(x1, x, x, p);
    UnmixForm(x);
    UnmixForm(x1);
    UnmixForm(p);
    XtimeLinear(x, x1);
    XtimeLinear(x1, x2);
    XtimeLinear(x2, x3);
    BackFirstSum(x, x1, x2, x3, Xtime(x3));
  }

  lemma BackFirstSum(x: byte, x1: byte, x2: byte, x3: byte, x4: byte)
    ensures Plus(Plus(Plus(Plus(x4, x3), x2), Plus(Plus(x3, x1), x)),
                 Plus(Plus(Plus(x3, x2), x), Plus(Plus(x3, x4), Plus(x, x1)))) == x
  {
    hide *;
    BackFirstLeft(x, x1, x2, x3, x4);
    BackFirstRight(x, x1, x2, x3, x4);
    PlusAssoc(Plus(x4, x2), x1, x);
    PlusComm(Plus(Plus(x4, x2), x1), x);
    PlusTwice(x, Plus(Plus(x4, x2), x1));
  }

  lemma BackFirstLeft(x: byte, x1: byte, x2: byte, x3: byte, x4: byte)
    ensures Plus(Plus(Plus(x4, x3), x2), Plus(Plus(x3, x1), x))
            == Plus(Plus(x4, x2), Plus(x1, x))
  {}

  lemma BackFirstRight(x: byte, x1: byte, x2: byte, x3: byte, x4: byte)
    ensures Plus(Plus(Plus(x3, x2), x), Plus(Plus(x3, x4), Plus(x, x1)))
            == Plus(Plus(x4, x2), x1)
  {}

  lemma BackSecond(x: byte)
    ensures Back(0, x, 0, 0) == 0
  {
    hide *;
    var x1 := Xtime(x);
    var x2 := Xtime(x1);
    var x3 := Xtime(x2);
    var p := Plus(x, x1);
    MixOne(x);
    BackIs(0, x, 0, 0);
    UnmixIs(p, x1, x, x);
    UnmixForm(x);
    UnmixForm(x1);
    UnmixForm(p);
    XtimeLinear(x, x1);
    XtimeLinear(x1, x2);
    XtimeLinear(x2, x3);
    BackSecondSum(x, x1, x2, x3, Xtime(x3));
  }

  lemma BackSecondSum(x: byte, x1: byte, x2: byte, x3: byte, x4: byte)
    ensures Plus(Plus(Plus(Plus(Plus(x3, x4), Plus(x2, x3)), Plus(x1, x2)), Plus(Plus(x4, x2), x1)),
                 Plus(Plus(Plus(x3, x2), x), Plus(x3, x))) == 0
  {
    hide *;
    BackSecondLeft(x, x1, x2, x3, x4);
    BackSecondRight(x, x1, x2, x3, x4);
    PlusSelf(x2);
  }

  lemma BackSecondLeft(x: byte, x1: byte, x2: byte, x3: byte, x4: byte)
    ensures Plus(Plus(Plus(Plus(x3, x4), Plus(x2, x3)), Plus(x1, x2)), Plus(Plus(x4, x2), x1))
            == x2
  {}

  lemma BackSecondRight(x: byte, x1: byte, x2: byte, x3: byte, x4: byte)
    ensures Plus(Plus(Plus(x3, x2), x), Plus(x3, x))
            == x2
  {}

  lemma BackThird(x: byte)
    ensures Back(0, 0, x, 0) == 0
  {
    hide *;
    var x1 := Xtime(x);
    var x2 := Xtime(x1);
    var x3 := Xtime(x2);
    var p := Plus(x, x1);
    MixOne(x);
    BackIs(0, 0, x, 0);
    UnmixIs(x, p, x1, x);
    UnmixForm(x);
    UnmixForm(x1);
    UnmixForm(p);
    XtimeLinear(x, x1);
    XtimeLinear(x1, x2);
    XtimeLinear(x2, x3);
    BackThirdSum(x, x1, x2, x3, Xtime(x3));
  }

  lemma BackThirdSum(x: byte, x1: byte, x2: byte, x3: byte, x4: byte)
    ensures Plus(Plus(Plus(Plus(x3, x2), x1), Plus(Plus(Plus(x3, x4), Plus(x1, x2)), Plus(x, x1))),
                 Plus(Plus(Plus(x4, x3), x1), Plus(x3, x))) == 0
  {
    hide *;
    BackThirdLeft(x, x1, x2, x3, x4);
    BackThirdRight(x, x1, x2, x3, x4);
    PlusSelf(Plus(Plus(x4, x1), x));
  }

  lemma BackThirdLeft(x: byte, x1: byte, x2: byte, x3: byte, x4: byte)
    ensures Plus(Plus(Plus(x3, x2), x1), Plus(Plus(Plus(x3, x4), Plus(x1, x2)), Plus(x, x1)))
            == Plus(Plus(x4, x1), x)
  {
    hide *;
    PlusAssoc(Plus(x3, x4), Plus(x1, x2), Plus(x, x1));
    PlusComm(x, x1);
    PlusCancel(x1, x2, x);
    Plus4(x3, x4, x2, x);
    PlusSwap(x4, x1, x);
    PlusCancelLast(Plus(x3, x2), x1, Plus(x4, x));
  }

  lemma BackThirdRight(x: byte, x1: byte, x2: byte, x3: byte, x4: byte)
    ensures Plus(Plus(Plus(x4, x3), x1), Plus(x3, x))
            == Plus(Plus(x4, x1), x)
  {}

  lemma BackFourth(x: byte)
    ensures Back(0, 0, 0, x) == 0
  {
    hide *;
    var x1 := Xtime(x);
    var x2 := Xtime(x1);
    var x3 := Xtime(x2);
    var p := Plus(x, x1);
    MixOne(x);
    BackIs(0, 0, 0, x);
    UnmixIs(x, x, p, x1);
    UnmixForm(x);
    UnmixForm(x1);
    UnmixForm(p);
    XtimeLinear(x, x1);
    XtimeLinear(x1, x2);
    XtimeLinear(x2, x3);
    BackFourthSum(x, x1, x2, x3, Xtime(x3));
  }

  lemma BackFourthSum(x: byte, x1: byte, x2: byte, x3: byte, x4: byte)
    ensures Plus(Plus(Plus(Plus(x3, x2), x1), Plus(Plus(x3, x1), x)),
                 Plus(Plus(Plus(Plus(x3, x4), Plus(x2, x3)), Plus(x, x1)), Plus(x4, x1))) == 0
  {
    hide *;
    BackFourthLeft(x, x1, x2, x3, x4);
    BackFourthRight(x, x1, x2, x3, x4);
    PlusSelf(Plus(x2, x));
  }

  lemma BackFourthLeft(x: byte, x1: byte, x2: byte, x3: byte, x4: byte)
    ensures Plus(Plus(Plus(x3, x2), x1), Plus(Plus(x3, x1), x))
            == Plus(x2, x)
  {
    hide *;
    PlusSwap(x3, x2, x1);
    PlusCancel(Plus(x3, x1), x2, x);
  }

  lemma BackFourthRight(x: byte, x1: byte, x2: byte, x3: byte, x4: byte)
    ensures Plus(Plus(Plus(Plus(x3, x4), Plus(x2, x3)), Plus(x, x1)), Plus(x4, x1))
            == Plus(x2, x)
  {}

  lemma ForthFirst(x: byte)
    ensures Forth(x, 0, 0, 0) == x
  {
    hide Gf, MixByte;
    UnmixOne(x);
    UnmixForm(x);
    MixShortcut(Gf(x, 0x0e, 8), Gf(x, 0x09, 8), Gf(x, 0x0d, 8), Gf(x, 0x0b, 8));
  }

  lemma ForthSecond(x: byte)
    ensures Forth(0, x, 0, 0) == 0
  {
    hide Gf, MixByte;
    UnmixOne(x);
    UnmixForm(x);
    MixShortcut(Gf(x, 0x0b, 8), Gf(x, 0x0e, 8), Gf(x, 0x09, 8), Gf(x, 0x0d, 8));
  }

  lemma ForthThird(x: byte)
    ensures Forth(0, 0, x, 0) == 0
  {
    hide Gf, MixByte;
    UnmixOne(x);
    UnmixForm(x);
    MixShortcut(Gf(x, 0x0d, 8), Gf(x, 0x0b, 8), Gf(x, 0x0e, 8), Gf(x, 0x09, 8));
  }

  lemma ForthFourth(x: byte)
    ensures Forth(0, 0, 0, x) == 0
  {
    hide Gf, MixByte;
    UnmixOne(x);
    UnmixForm(x);
    MixShortcut(Gf(x, 0x09, 8), Gf(x, 0x0d, 8), Gf(x, 0x0b, 8), Gf(x, 0x0e, 8));
  }

  /** The inverse coefficients undo the mixing. */
  lemma UnmixMix(a: byte, b: byte, c: byte, d: byte)
    ensures Back(a, b, c, d) == a
  {
    hide *;
    PlusZero(a);
    PlusZero(b);
    PlusZero(c);
    PlusZero(d);
    PlusZero(0);
    BackAdds(a, b, 0, 0, 0, 0, c, d);
    BackAdds(a, 0, 0, 0, 0, b, 0, 0);
    BackAdds(0, 0, c, 0, 0, 0, 0, d);
    BackFirst(a);
    BackSecond(b);
    BackThird(c);
    BackFourth(d);
  }

  /** And the mixing undoes the inverse coefficients. */
  lemma MixUnmix(a: byte, b: byte, c: byte, d: byte)
    ensures Forth(a, b, c, d) == a
  {
    hide *;
    PlusZero(a);
    PlusZero(b);
    PlusZero(c);
    PlusZero(d);
    PlusZero(0);
    ForthAdds(a, b, 0, 0, 0, 0, c, d);
    ForthAdds(a, 0, 0, 0, 0, b, 0, 0);
    ForthAdds(0, 0, c, 0, 0, 0, 0, d);
    ForthFirst(a);
    ForthSecond(b);
    ForthThird(c);
    ForthFourth(d);
  }

  // ----- the transformations of a state

  type State = s: seq<byte> | |s| == 16 witness seq(16, _ => 0)

  ghost function SubBytes(s: State): State {
    seq(16, i requires 0 <= i < 16 => Sbox(s[i]))
  }

  ghost function InvSubBytes(s: State): State {
    seq(16, i requires 0 <= i < 16 => InvSbox(s[i]))
  }

  /** Going round the sixteen bytes. */
  function Around(i: nat): (j: nat)
    requires i < 32
    ensures j < 16
  {
    if i < 16 then i else i - 16
  }

  /** Row r is rotated left by r places. */
  ghost function ShiftRows(s: State): State {
    seq(16, i requires 0 <= i < 16 => s[Around(i + 4 * (i % 4))])
  }

  ghost function InvShiftRows(s: State): State {
    seq(16, i requires 0 <= i < 16 => s[Around(i + 16 - 4 * (i % 4))])
  }

  /** The byte k places below byte i in its column, going round. */
  ghost function Below(s: State, i: nat, k: nat): byte
    requires i < 16
  {
    s[4 * (i / 4) + (i + k) % 4]
  }

  ghost function Mixed(a: byte, b: byte, c: byte, d: byte): (col: seq<byte>)
    ensures |col| == 4
  {
    [MixByte(a, b, c, d), MixByte(b, c, d, a), MixByte(c, d, a, b), MixByte(d, a, b, c)]
  }

  ghost function Unmixed(a: byte, b: byte, c: byte, d: byte): (col: seq<byte>)
    ensures |col| == 4
  {
    [UnmixByte(a, b, c, d), UnmixByte(b, c, d, a), UnmixByte(c, d, a, b), UnmixByte(d, a, b, c)]
  }

  ghost function MixColumns(s: State): State {
    seq(16, i requires 0 <= i < 16 => MixByte(s[i], Below(s, i, 1), Below(s, i, 2), Below(s, i, 3)))
  }

  ghost function InvMixColumns(s: State): State {
    seq(16, i requires 0 <= i < 16 => UnmixByte(s[i], Below(s, i, 1), Below(s, i, 2), Below(s, i, 3)))
  }

  ghost function AddRoundKey(s: State, k: State): State {
    seq(16, i requires 0 <= i < 16 => s[i] ^ k[i])
  }

  lemma SubBytesUndone(s: State)
    ensures InvSubBytes(SubBytes(s)) == s && SubBytes(InvSubBytes(s)) == s
  {
    hide Sbox, InvSbox;
    forall i | 0 <= i < 16
      ensures InvSbox(Sbox(s[i])) == s[i] && Sbox(InvSbox(s[i])) == s[i]
    {
      SboxInverse(s[i]);
      InvSboxInverse(s[i]);
    }
  }

  lemma ShiftRowsUndone(s: State)
    ensures InvShiftRows(ShiftRows(s)) == s && ShiftRows(InvShiftRows(s)) == s
  {
    forall i | 0 <= i < 16
      ensures InvShiftRows(ShiftRows(s))[i] == s[i] && ShiftRows(InvShiftRows(s))[i] == s[i]
    {
      Rotation(i);
    }
  }

  lemma Rotation(i: nat)
    requires i < 16
    ensures var j := Around(i + 16 - 4 * (i % 4)); Around(j + 4 * (j % 4)) == i
    ensures var j := Around(i + 4 * (i % 4)); Around(j + 16 - 4 * (j % 4)) == i
  {
    SameRow(i, Around(i + 16 - 4 * (i % 4)));
    SameRow(i, Around(i + 4 * (i % 4)));
  }

  lemma SameRow(i: nat, j: nat)
    requires (i - j) % 4 == 0
    ensures i % 4 == j % 4
  {}

  lemma ColumnUndone(a: byte, b: byte, c: byte, d: byte)
    ensures var m := Mixed(a, b, c, d); Unmixed(m[0], m[1], m[2], m[3]) == [a, b, c, d]
    ensures var u := Unmixed(a, b, c, d); Mixed(u[0], u[1], u[2], u[3]) == [a, b, c, d]
  {
    hide MixByte, UnmixByte;
    UnmixMix(a, b, c, d);
    UnmixMix(b, c, d, a);
    UnmixMix(c, d, a, b);
    UnmixMix(d, a, b, c);
    MixUnmix(a, b, c, d);
    MixUnmix(b, c, d, a);
    MixUnmix(c, d, a, b);
    MixUnmix(d, a, b, c);
  }

  lemma BelowIs(s: State, c: nat, r: nat, k: nat)
    requires c < 4 && r < 4 && k < 4
    ensures Below(s, 4 * c + r, k) == s[4 * c + if r + k < 4 then r + k else r + k - 4]
  {
    assert (4 * c + r) / 4 == c;
    assert (4 * c + r + k) % 4 == (r + k) % 4;
  }

  lemma {:induction false} MixByteAt(s: State, c: nat, r: nat)
    requires c < 4 && r < 4
    ensures MixColumns(s)[4 * c + r] == Mixed(s[4 * c], s[4 * c + 1], s[4 * c + 2], s[4 * c + 3])[r]
    ensures InvMixColumns(s)[4 * c + r] == Unmixed(s[4 * c], s[4 * c + 1], s[4 * c + 2], s[4 * c + 3])[r]
  {
    hide MixByte, UnmixByte, Below;
    BelowIs(s, c, r, 1);
    BelowIs(s, c, r, 2);
    BelowIs(s, c, r, 3);
  }

  /** Both transformations work column by column. */
  lemma MixColumnsAt(s: State, c: nat)
    requires c < 4
    ensures MixColumns(s)[4 * c..4 * c + 4] == Mixed(s[4 * c], s[4 * c + 1], s[4 * c + 2], s[4 * c + 3])
  {
    hide Mixed, Unmixed, MixColumns, InvMixColumns;
    MixByteAt(s, c, 0);
    MixByteAt(s, c, 1);
    MixByteAt(s, c, 2);
    MixByteAt(s, c, 3);
  }

  lemma InvMixColumnsAt(s: State, c: nat)
    requires c < 4
    ensures InvMixColumns(s)[4 * c..4 * c + 4] == Unmixed(s[4 * c], s[4 * c + 1], s[4 * c + 2], s[4 * c + 3])
  {
    hide Mixed, Unmixed, MixColumns, InvMixColumns;
    MixByteAt(s, c, 0);
    MixByteAt(s, c, 1);
    MixByteAt(s, c, 2);
    MixByteAt(s, c, 3);
  }

  lemma MixColumnsUndoneAt(s: State, c: nat, r: nat)
    requires c < 4 && r < 4
    ensures InvMixColumns(MixColumns(s))[4 * c + r] == s[4 * c + r] == MixColumns(InvMixColumns(s))[4 * c + r]
  {
    hide Mixed, Unmixed, MixColumns, InvMixColumns;
    var m, u := MixColumns(s), InvMixColumns(s);
    ColumnUndone(s[4 * c], s[4 * c + 1], s[4 * c + 2], s[4 * c + 3]);
    MixByteAt(s, c, 0);
    MixByteAt(s, c, 1);
    MixByteAt(s, c, 2);
    MixByteAt(s, c, 3);
    MixByteAt(m, c, r);
    MixByteAt(u, c, r);
  }

  lemma MixColumnsUndone(s: State)
    ensures InvMixColumns(MixColumns(s)) == s && MixColumns(InvMixColumns(s)) == s
  {
    hide MixColumns, InvMixColumns;
    forall i | 0 <= i < 16
      ensures InvMixColumns(MixColumns(s))[i] == s[i] == MixColumns(InvMixColumns(s))[i]
    {
      MixColumnsUndoneAt(s, i / 4, i % 4);
    }
  }

  lemma AddRoundKeyUndone(s: State, k: State)
    ensures AddRoundKey(AddRoundKey(s, k), k) == s
  {
    forall i | 0 <= i < 16
      ensures (s[i] ^ k[i]) ^ k[i] == s[i]
    {
      XorTwice(s[i], k[i]);
    }
  }

  lemma XorTwice(x: byte, k: byte)
    ensures (x ^ k) ^ k == x
  {}

  // ----- the ciphers

  const ROUNDS: nat := 10

  ghost function RoundKey(rk: seq<byte>, r: nat): State
    requires 16 * r + 16 <= |rk|
  {
    rk[16 * r..16 * r + 16]
  }

  /** The state after the first key and r full rounds. */
  ghost function Forward(rk: seq<byte>, x: State, r: nat): State
    requires 16 * r + 16 <= |rk|
  {
    if r == 0 then AddRoundKey(x, RoundKey(rk, 0))
    else AddRoundKey(MixColumns(ShiftRows(SubBytes(Forward(rk, x, r - 1)))), RoundKey(rk, r))
  }

  /** Section 5.1 of FIPS 197. */
  ghost function Cipher(rk: seq<byte>, rounds: nat, x: State): State
    requires rounds >= 1 && 16 * rounds + 16 <= |rk|
  {
    AddRoundKey(ShiftRows(SubBytes(Forward(rk, x, rounds - 1))), RoundKey(rk, rounds))
  }

  /** The state of the inverse cipher after the last key and the inverse rounds from the last but one down to r. */
  ghost function Backward(rk: seq<byte>, rounds: nat, y: State, r: nat): State
    requires 16 * rounds + 16 <= |rk| && r <= rounds
    decreases rounds - r
  {
    if r == rounds then AddRoundKey(y, RoundKey(rk, rounds))
    else InvMixColumns(AddRoundKey(InvSubBytes(InvShiftRows(Backward(rk, rounds, y, r + 1))), RoundKey(rk, r)))
  }

  /** Section 5.3 of FIPS 197. */
  ghost function InvCipher(rk: seq<byte>, rounds: nat, y: State): State
    requires rounds >= 1 && 16 * rounds + 16 <= |rk|
  {
    AddRoundKey(InvSubBytes(InvShiftRows(Backward(rk, rounds, y, 1))), RoundKey(rk, 0))
  }

  lemma {:induction false} BackwardMeets(rk: seq<byte>, rounds: nat, x: State, r: nat)
    requires 16 * rounds + 16 <= |rk| && 1 <= r <= rounds
    ensures Backward(rk, rounds, Cipher(rk, rounds, x), r) == ShiftRows(SubBytes(Forward(rk, x, r - 1)))
    decreases rounds - r
  {
    hide SubBytes, InvSubBytes, ShiftRows, InvShiftRows, MixColumns, InvMixColumns, AddRoundKey, RoundKey;
    if r == rounds {
      AddRoundKeyUndone(ShiftRows(SubBytes(Forward(rk, x, rounds - 1))), RoundKey(rk, rounds));
    } else {
      BackwardMeets(rk, rounds, x, r + 1);
      var f := Forward(rk, x, r);
      ShiftRowsUndone(SubBytes(f));
      SubBytesUndone(f);
      AddRoundKeyUndone(MixColumns(ShiftRows(SubBytes(Forward(rk, x, r - 1)))), RoundKey(rk, r));
      MixColumnsUndone(ShiftRows(SubBytes(Forward(rk, x, r - 1))));
    }
  }

  /** Deciphering undoes enciphering in as many rounds, whatever the round keys. */
  lemma InvCipherCipher(rk: seq<byte>, rounds: nat, x: State)
    requires rounds >= 1 && 16 * rounds + 16 <= |rk|
    ensures InvCipher(rk, rounds, Cipher(rk, rounds, x)) == x
  {
    hide SubBytes, InvSubBytes, ShiftRows, InvShiftRows, MixColumns, InvMixColumns, AddRoundKey, RoundKey, Backward,
         Cipher;
    BackwardMeets(rk, rounds, x, 1);
    var f := Forward(rk, x, 0);
    ShiftRowsUndone(SubBytes(f));
    SubBytesUndone(f);
    AddRoundKeyUndone(x, RoundKey(rk, 0));
  }

  lemma {:induction false} ForwardMeets(rk: seq<byte>, rounds: nat, y: State, r: nat)
    requires 16 * rounds + 16 <= |rk| && 1 <= r <= rounds
    ensures Forward(rk, InvCipher(rk, rounds, y), r - 1) == InvSubBytes(InvShiftRows(Backward(rk, rounds, y, r)))
  {
    hide SubBytes, InvSubBytes, ShiftRows, InvShiftRows, MixColumns, InvMixColumns, AddRoundKey, RoundKey;
    var u := InvSubBytes(InvShiftRows(Backward(rk, rounds, y, r)));
    AddRoundKeyUndone(u, RoundKey(rk, r - 1));
    if r > 1 {
      ForwardMeets(rk, rounds, y, r - 1);
      var v := Backward(rk, rounds, y, r - 1);
      SubBytesUndone(InvShiftRows(v));
      ShiftRowsUndone(v);
      MixColumnsUndone(AddRoundKey(u, RoundKey(rk, r - 1)));
    }
  }

  /** Enciphering undoes deciphering: with InvCipherCipher, each is a permutation of the blocks. */
  lemma CipherInvCipher(rk: seq<byte>, rounds: nat, y: State)
    requires rounds >= 1 && 16 * rounds + 16 <= |rk|
    ensures Cipher(rk, rounds, InvCipher(rk, rounds, y)) == y
  {
    hide SubBytes, InvSubBytes, ShiftRows, InvShiftRows, MixColumns, InvMixColumns, AddRoundKey, RoundKey, Forward,
         InvCipher;
    ForwardMeets(rk, rounds, y, rounds);
    var v := Backward(rk, rounds, y, rounds);
    SubBytesUndone(InvShiftRows(v));
    ShiftRowsUndone(v);
    AddRoundKeyUndone(y, RoundKey(rk, rounds));
  }

  // ----- the key schedule

  const RCON: seq<byte> := [0x01, 0x02, 0x04, 0x08, 0x10, 0x20, 0x40, 0x80, 0x1b, 0x36]

  ghost function Word(s: seq<byte>, i: nat): (w: seq<byte>)
    requires 4 * i + 4 <= |s|
    ensures |w| == 4
  {
    s[4 * i..4 * i + 4]
  }

  ghost function XorWord(u: seq<byte>, v: seq<byte>): (w: seq<byte>)
    requires |u| == |v| == 4
    ensures |w| == 4
  {
    seq(4, i requires 0 <= i < 4 => Plus(u[i], v[i]))
  }

  ghost function SubWord(w: seq<byte>): (r: seq<byte>)
    requires |w| == 4
    ensures |r| == 4
  {
    seq(4, i requires 0 <= i < 4 => Sbox(w[i]))
  }

  ghost function RotWord(w: seq<byte>): (r: seq<byte>)
    requires |w| == 4
    ensures |r| == 4
  {
    w[1..] + w[..1]
  }

  /** What is added to word i - nk to make word i (section 5.2 of FIPS 197). */
  ghost function Temp(w: seq<byte>, i: nat, nk: nat): (r: seq<byte>)
    requires |w| == 4 && 0 < nk <= i < 11 * nk
    ensures |r| == 4
  {
    if i % nk == 0 then XorWord(SubWord(RotWord(w)), [RCON[i / nk - 1], 0, 0, 0])
    else if nk > 6 && i % nk == 4 then SubWord(w)
    else w
  }

  /** The first n words of the schedule of a key of nk words. */
  ghost function Expand(key: seq<byte>, nk: nat, n: nat): (s: seq<byte>)
    requires |key| == 4 * nk && 0 < nk <= n <= 11 * nk
    ensures |s| == 4 * n
  {
    if n == nk then key
    else
      var s := Expand(key, nk, n - 1);
      s + XorWord(Word(s, n - 1 - nk), Temp(Word(s, n - 2), n - 1, nk))
  }

  /** Every round constant is the previous one doubled. */
  lemma RconDoubles(i: nat)
    requires i < 9
    ensures RCON[0] == 1 && RCON[i + 1] == Xtime(RCON[i])
  {
    assert i == 0 || i == 1 || i == 2 || i == 3 || i == 4 || i == 5 || i == 6 || i == 7 || i == 8;
  }

  lemma ExpandStart(key: seq<byte>, nk: nat)
    requires |key| == 4 * nk && 0 < nk
    ensures Expand(key, nk, nk) == key
  {}

  lemma ExpandNext(key: seq<byte>, nk: nat, n: nat)
    requires |key| == 4 * nk && 0 < nk <= n < 11 * nk
    ensures var s := Expand(key, nk, n);
            Expand(key, nk, n + 1) == s + XorWord(Word(s, n - nk), Temp(Word(s, n - 1), n, nk))
  {}

  lemma WordIs(s: seq<byte>, i: nat)
    requires 4 * i + 4 <= |s|
    ensures Word(s, i) == s[4 * i..4 * i + 4]
  {}

  lemma WordAt(s: seq<byte>, at: nat, from: nat)
    requires from < at && 4 * at <= |s|
    ensures Word(s[..4 * at], from) == [s[4 * from], s[4 * from + 1], s[4 * from + 2], s[4 * from + 3]]
  {}

  lemma WordPut(s: seq<byte>, s': seq<byte>, at: nat, x: seq<byte>)
    requires 4 * at + 4 <= |s| == |s'| && |x| == 4 && forall j :: 0 <= j < 4 * at ==> s'[j] == s[j]
    requires [s'[4 * at], s'[4 * at + 1], s'[4 * at + 2], s'[4 * at + 3]] == x
    ensures s'[..4 * at + 4] == s[..4 * at] + x
  {
    assert s'[4 * at..4 * at + 4] == x;
    assert s'[..4 * at + 4] == s'[..4 * at] + s'[4 * at..4 * at + 4];
  }

  lemma XorWordIs(u: seq<byte>, v: seq<byte>)
    requires |u| == |v| == 4
    ensures XorWord(u, v) == [u[0] ^ v[0], u[1] ^ v[1], u[2] ^ v[2], u[3] ^ v[3]]
  {
    hide Plus;
    PlusIs(u[0], v[0]);
    PlusIs(u[1], v[1]);
    PlusIs(u[2], v[2]);
    PlusIs(u[3], v[3]);
  }

  lemma XorHead(u: seq<byte>, r: byte)
    requires |u| == 4
    ensures XorWord(u, [r, 0, 0, 0]) == [u[0] ^ r, u[1], u[2], u[3]]
  {
    hide Plus;
    PlusIs(u[0], r);
    PlusZero(u[1]);
    PlusZero(u[2]);
    PlusZero(u[3]);
  }

  lemma SubRot(w: seq<byte>)
    requires |w| == 4
    ensures SubWord(RotWord(w)) == [Sbox(w[1]), Sbox(w[2]), Sbox(w[3]), Sbox(w[0])]
  {
    hide Sbox;
  }

  lemma TempIs(w: seq<byte>, i: nat, nk: nat)
    requires |w| == 4 && 0 < nk <= i < 11 * nk
    ensures i % nk == 0 ==> Temp(w, i, nk) == XorWord(SubWord(RotWord(w)), [RCON[i / nk - 1], 0, 0, 0])
    ensures i % nk != 0 && !(nk > 6 && i % nk == 4) ==> Temp(w, i, nk) == w
    ensures i % nk != 0 && nk > 6 && i % nk == 4 ==> Temp(w, i, nk) == SubWord(w)
  {
    hide SubWord, RotWord, XorWord;
  }

  lemma RconAt(i: nat, nk: nat)
    requires 0 < nk <= i < 11 * nk
    ensures 0 <= i / nk - 1 < 10
  {}

  lemma RoundOf(i: nat)
    ensures (4 * i) % 4 == 0 && (4 * i) / 4 == i
  {}

  lemma RoundKeyIn(full: seq<byte>, rk: seq<byte>, r: nat)
    requires rk <= full && 16 * r + 16 <= |rk|
    ensures RoundKey(rk, r) == full[16 * r..16 * r + 16]
  {}

  /**
   What encryption and decryption with a 16-byte key do to a block; Init128, Encrypt and Decrypt are proved to do it.
   */
  ghost function Encrypted(key: seq<byte>, x: State): State
    requires |key| == 16
  {
    Cipher(Expand(key, 4, 44), ROUNDS, x)
  }

  ghost function Decrypted(key: seq<byte>, y: State): State
    requires |key| == 16
  {
    InvCipher(Expand(key, 4, 44), ROUNDS, y)
  }

  /** For every 16-byte key and block, decryption undoes encryption and encryption undoes decryption. */
  lemma RoundTrip(key: seq<byte>, x: State)
    requires |key| == 16
    ensures Decrypted(key, Encrypted(key, x)) == x
    ensures Encrypted(key, Decrypted(key, x)) == x
  {
    hide Expand, Cipher, InvCipher;
    InvCipherCipher(Expand(key, 4, 44), ROUNDS, x);
    CipherInvCipher(Expand(key, 4, 44), ROUNDS, x);
  }

  // ----- the program

  method AddRoundKeyTo(state: array<byte>, rk: array<byte>, off: nat)
    requires state.Length == 16 && off + 16 <= rk.Length && state != rk
    modifies state
    ensures state[..] == AddRoundKey(old(state[..]), rk[off..off + 16])
  {
    hide AddRoundKey, Plus;
    ghost var s, k := state[..], rk[off..off + 16];
    for i := 0 to 16
      invariant forall j :: 0 <= j < i ==> state[j] == Plus(s[j], k[j])
      invariant forall j :: i <= j < 16 ==> state[j] == s[j]
    {
      PlusIs(s[i], k[i]);
      state[i] := state[i] ^ rk[off + i];
    }
    RoundKeyAdded(s, k, state[..]);
  }

  lemma RoundKeyAdded(s: State, k: State, r: State)
    requires forall j :: 0 <= j < 16 ==> r[j] == Plus(s[j], k[j])
    ensures r == AddRoundKey(s, k)
  {}

  method SubBytesIn(state: array<byte>)
    requires state.Length == 16
    modifies state
    ensures state[..] == SubBytes(old(state[..]))
  {
    hide Sbox;
    for i := 0 to 16
      invariant forall j :: 0 <= j < i ==> state[j] == Sbox(old(state[j]))
      invariant forall j :: i <= j < 16 ==> state[j] == old(state[j])
    {
      state[i] := Sbox(state[i]);
    }
  }

  method InvSubBytesIn(state: array<byte>)
    requires state.Length == 16
    modifies state
    ensures state[..] == InvSubBytes(old(state[..]))
  {
    hide InvSbox;
    for i := 0 to 16
      invariant forall j :: 0 <= j < i ==> state[j] == InvSbox(old(state[j]))
      invariant forall j :: i <= j < 16 ==> state[j] == old(state[j])
    {
      state[i] := InvSbox(state[i]);
    }
  }

  lemma ShiftRowsIs(s: State, r: State)
    requires r[0] == s[0] && r[1] == s[5] && r[2] == s[10] && r[3] == s[15] && r[4] == s[4] && r[5] == s[9]
             && r[6] == s[14] && r[7] == s[3]
    requires r[8] == s[8] && r[9] == s[13] && r[10] == s[2] && r[11] == s[7] && r[12] == s[12] && r[13] == s[1]
             && r[14] == s[6] && r[15] == s[11]
    ensures r == ShiftRows(s)
  {}

  lemma InvShiftRowsIs(s: State, r: State)
    requires r[0] == s[0] && r[1] == s[13] && r[2] == s[10] && r[3] == s[7] && r[4] == s[4] && r[5] == s[1]
             && r[6] == s[14] && r[7] == s[11]
    requires r[8] == s[8] && r[9] == s[5] && r[10] == s[2] && r[11] == s[15] && r[12] == s[12] && r[13] == s[9]
             && r[14] == s[6] && r[15] == s[3]
    ensures r == InvShiftRows(s)
  {}

  /** Each of the four bytes takes the next one's value, the last one the first one's. */
  method Cycle(state: array<byte>, i: nat, j: nat, k: nat, l: nat)
    requires i < state.Length && j < state.Length && k < state.Length && l < state.Length
    requires i != j && i != k && i != l && j != k && j != l && k != l
    modifies state
    ensures state[i] == old(state[j]) && state[j] == old(state[k])
    ensures state[k] == old(state[l]) && state[l] == old(state[i])
    ensures forall m :: 0 <= m < state.Length && m != i && m != j && m != k && m != l ==> state[m] == old(state[m])
  {
    var t := state[i];
    state[i] := state[j];
    state[j] := state[k];
    state[k] := state[l];
    state[l] := t;
  }

  method Exchange(state: array<byte>, i: nat, j: nat)
    requires i < state.Length && j < state.Length && i != j
    modifies state
    ensures state[i] == old(state[j]) && state[j] == old(state[i])
    ensures forall m :: 0 <= m < state.Length && m != i && m != j ==> state[m] == old(state[m])
  {
    var t := state[i];
    state[i] := state[j];
    state[j] := t;
  }

  method ShiftRowsIn(state: array<byte>)
    requires state.Length == 16
    modifies state
    ensures state[..] == ShiftRows(old(state[..]))
  {
    hide ShiftRows;
    ghost var s := state[..];
    Cycle(state, 1, 5, 9, 13);
    Exchange(state, 2, 10);
    Exchange(state, 6, 14);
    Cycle(state, 15, 11, 7, 3);
    ShiftRowsIs(s, state[..]);
  }

  method InvShiftRowsIn(state: array<byte>)
    requires state.Length == 16
    modifies state
    ensures state[..] == InvShiftRows(old(state[..]))
  {
    hide InvShiftRows;
    ghost var s := state[..];
    Cycle(state, 13, 9, 5, 1);
    Exchange(state, 2, 10);
    Exchange(state, 6, 14);
    Cycle(state, 3, 7, 11, 15);
    InvShiftRowsIs(s, state[..]);
  }

  lemma MixedColumn(a: byte, b: byte, c: byte, d: byte)
    ensures var e := Sum(a, b, c, d);
            Mixed(a, b, c, d) == [Mixin(a, e, a ^ b), Mixin(b, e, b ^ c), Mixin(c, e, c ^ d), Mixin(d, e, d ^ a)]
  {
    hide Mixin, Sum, MixByte;
    MixShortcut(a, b, c, d);
    MixShortcut(b, c, d, a);
    MixShortcut(c, d, a, b);
    MixShortcut(d, a, b, c);
    SumRotated(a, b, c, d);
    SumRotated(b, c, d, a);
    SumRotated(c, d, a, b);
  }

  /** The sum of a column does not depend on where the column starts. */
  lemma SumRotated(a: byte, b: byte, c: byte, d: byte)
    ensures Sum(b, c, d, a) == Sum(a, b, c, d)
  {
    assert b ^ c ^ d ^ a == a ^ b ^ c ^ d;
  }

  /** One more column of the state is done. */
  lemma ColumnDone(before: seq<byte>, after: seq<byte>, s: seq<byte>, goal: seq<byte>, i: nat)
    requires i < 4 && |before| == |after| == |s| == |goal| == 16
    requires before[..4 * i] == goal[..4 * i] && before[4 * i..] == s[4 * i..]
    requires forall j :: 0 <= j < 16 && !(4 * i <= j < 4 * i + 4) ==> after[j] == before[j]
    requires [after[4 * i], after[4 * i + 1], after[4 * i + 2], after[4 * i + 3]] == goal[4 * i..4 * i + 4]
    ensures after[..4 * (i + 1)] == goal[..4 * (i + 1)] && after[4 * (i + 1)..] == s[4 * (i + 1)..]
  {
    var col := [after[4 * i], after[4 * i + 1], after[4 * i + 2], after[4 * i + 3]];
    forall j | 0 <= j < 4 * (i + 1)
      ensures after[j] == goal[j]
    {
      if j < 4 * i {
        assert before[..4 * i][j] == goal[..4 * i][j];
      } else {
        assert after[j] == col[j - 4 * i];
        assert goal[4 * i..4 * i + 4][j - 4 * i] == goal[j];
      }
    }
    forall j | 4 * (i + 1) <= j < 16
      ensures after[j] == s[j]
    {
      assert before[4 * i..][j - 4 * i] == s[4 * i..][j - 4 * i];
    }
  }

  lemma TailAt(before: seq<byte>, s: seq<byte>, i: nat)
    requires i < 4 && |before| == |s| == 16 && before[4 * i..] == s[4 * i..]
    ensures before[4 * i] == s[4 * i] && before[4 * i + 1] == s[4 * i + 1]
    ensures before[4 * i + 2] == s[4 * i + 2] && before[4 * i + 3] == s[4 * i + 3]
  {
    assert before[4 * i..][0] == s[4 * i..][0] && before[4 * i..][1] == s[4 * i..][1];
    assert before[4 * i..][2] == s[4 * i..][2] && before[4 * i..][3] == s[4 * i..][3];
  }

  method MixColumnsIn(state: array<byte>)
    requires state.Length == 16
    modifies state
    ensures state[..] == MixColumns(old(state[..]))
  {
    hide Xtime, MixByte, Mixed, MixColumns, Sum, Mixin;
    ghost var s := state[..];
    for i := 0 to 4
      invariant state[..4 * i] == MixColumns(s)[..4 * i]
      invariant state[4 * i..] == s[4 * i..]
    {
      ghost var before := state[..];
      var a, b, c, d := state[i * 4 + 0], state[i * 4 + 1], state[i * 4 + 2], state[i * 4 + 3];
      TailAt(before, s, i);
      var e := Sum(a, b, c, d);
      state[i * 4 + 0] := Mixin(state[i * 4 + 0], e, a ^ b);
      state[i * 4 + 1] := Mixin(state[i * 4 + 1], e, b ^ c);
      state[i * 4 + 2] := Mixin(state[i * 4 + 2], e, c ^ d);
      state[i * 4 + 3] := Mixin(state[i * 4 + 3], e, d ^ a);
      MixedColumn(a, b, c, d);
      MixColumnsAt(s, i);
      ColumnDone(before, state[..], s, MixColumns(s), i);
    }
  }

  method Unmix(a: byte, b: byte, c: byte, d: byte) returns (r: byte)
    ensures r == UnmixByte(a, b, c, d)
  {
    hide Gf;
    var p := GfMul(a, 0x0e);
    var q := GfMul(b, 0x0b);
    var s := GfMul(c, 0x0d);
    var t := GfMul(d, 0x09);
    r := p ^ q ^ s ^ t;
  }

  method InvMixColumnsIn(state: array<byte>)
    requires state.Length == 16
    modifies state
    ensures state[..] == InvMixColumns(old(state[..]))
  {
    hide UnmixByte, InvMixColumns;
    ghost var s := state[..];
    for i := 0 to 4
      invariant state[..4 * i] == InvMixColumns(s)[..4 * i]
      invariant state[4 * i..] == s[4 * i..]
    {
      ghost var before := state[..];
      var a, b, c, d := state[i * 4 + 0], state[i * 4 + 1], state[i * 4 + 2], state[i * 4 + 3];
      TailAt(before, s, i);
      state[i * 4 + 0] := Unmix(a, b, c, d);
      state[i * 4 + 1] := Unmix(b, c, d, a);
      state[i * 4 + 2] := Unmix(c, d, a, b);
      state[i * 4 + 3] := Unmix(d, a, b, c);
      InvMixColumnsAt(s, i);
      ColumnDone(before, state[..], s, InvMixColumns(s), i);
    }
  }

  method CopyBlock(src: array<byte>, dst: array<byte>)
    requires src.Length >= 16 && dst.Length >= 16
    modifies dst
    ensures dst[..16] == old(src[..16]) && dst[16..] == old(dst[16..])
  {
    for i := 0 to 16
      invariant src != dst ==> src[..] == old(src[..])
      invariant dst[i..] == old(dst[i..]) && dst[..i] == old(src[..i])
    {
      dst[i] := src[i];
    }
  }

  /** A context: the expanded key and the number of rounds it is for. */
  class Context {
    const roundKeys: array<byte>
    var rounds: nat

    constructor ()
      ensures roundKeys.Length == 240 && fresh(roundKeys)
    {
      roundKeys := new byte[240];
      rounds := 0;
    }

    /** Word `at` of the schedule: word `from` and a temporary word. */
    method PutWord(at: nat, from: nat, t: seq<byte>)
      requires roundKeys.Length == 240 && from < at < 60 && |t| == 4
      modifies roundKeys
      ensures roundKeys[..4 * at + 4] == old(roundKeys[..4 * at]) + XorWord(Word(old(roundKeys[..4 * at]), from), t)
    {
      hide XorWord, Word;
      ghost var s := roundKeys[..];
      ghost var w := Word(s[..4 * at], from);
      WordAt(s, at, from);
      XorWordIs(w, t);
      roundKeys[4 * at + 0] := roundKeys[4 * from + 0] ^ t[0];
      roundKeys[4 * at + 1] := roundKeys[4 * from + 1] ^ t[1];
      roundKeys[4 * at + 2] := roundKeys[4 * from + 2] ^ t[2];
      roundKeys[4 * at + 3] := roundKeys[4 * from + 3] ^ t[3];
      WordPut(s, roundKeys[..], at, XorWord(w, t));
    }

    /** A word that is the sum of the previous word and the one four places before. */
    method AddPrevious(at: nat, ghost k: seq<byte>)
      requires roundKeys.Length == 240 && |k| == 16 && 5 <= at < 44 && at % 4 != 0
      requires roundKeys[..4 * at] == Expand(k, 4, at)
      modifies roundKeys
      ensures roundKeys[..4 * at + 4] == Expand(k, 4, at + 1)
    {
      hide Expand, XorWord, Word, Sbox, Temp;
      ghost var s := roundKeys[..4 * at];
      var t := roundKeys[4 * at - 4..4 * at];
      WordIs(s, at - 1);
      assert t == s[4 * (at - 1)..4 * (at - 1) + 4];
      TempIs(t, at, 4);
      PutWord(at, at - 4, t);
      ExpandNext(k, 4, at);
    }

    /** RotWord, SubWord and the round constant. */
    static method RoundTemp(w: seq<byte>, c: byte) returns (t: seq<byte>)
      requires |w| == 4
      ensures t == XorWord(SubWord(RotWord(w)), [c, 0, 0, 0])
    {
      hide Sbox, XorWord, SubWord, RotWord;
      t := [w[1], w[2], w[3], w[0]];
      t := [Sbox(t[0]), Sbox(t[1]), Sbox(t[2]), Sbox(t[3])];
      SubRot(w);
      XorHead(t, c);
      t := t[0 := t[0] ^ c];
    }

    static method SubTemp(w: seq<byte>) returns (t: seq<byte>)
      requires |w| == 4
      ensures t == SubWord(w)
    {
      hide Sbox;
      t := [Sbox(w[0]), Sbox(w[1]), Sbox(w[2]), Sbox(w[3])];
    }

    /** The first word of round key i. */
    method StartRound(i: nat, ghost k: seq<byte>)
      requires roundKeys.Length == 240 && |k| == 16 && 1 <= i <= 10 && roundKeys[..16 * i] == Expand(k, 4, 4 * i)
      modifies roundKeys
      ensures roundKeys[..16 * i + 4] == Expand(k, 4, 4 * i + 1)
    {
      hide Expand, Temp, XorWord, SubWord, RotWord, Word;
      ghost var s := roundKeys[..16 * i];
      var w := roundKeys[(i - 1) * 16 + 12..(i - 1) * 16 + 16];
      WordIs(s, 4 * i - 1);
      assert w == s[4 * (4 * i - 1)..4 * (4 * i - 1) + 4];
      RoundOf(i);
      TempIs(w, 4 * i, 4);
      var t := RoundTemp(w, RCON[i - 1]);
      PutWord(4 * i, 4 * (i - 1), t);
      ExpandNext(k, 4, 4 * i);
    }

    /** The ten-round schedule of a 16-byte key, one round key at a time. */
    method Init128(key: array<byte>)
      requires roundKeys.Length == 240 && key.Length == 16 && key != roundKeys
      modifies this`rounds, roundKeys
      ensures rounds == ROUNDS && roundKeys[..176] == Expand(key[..], 4, 44)
    {
      hide Expand;
      CopyBlock(key, roundKeys);
      ghost var k := key[..];
      ExpandStart(k, 4);
      for i := 1 to 11
        invariant roundKeys[..16 * i] == Expand(k, 4, 4 * i) && key[..] == k
      {
        StartRound(i, k);
        AddPrevious(4 * i + 1, k);
        AddPrevious(4 * i + 2, k);
        AddPrevious(4 * i + 3, k);
      }
      rounds := ROUNDS;
    }

    /** Word i of the fourteen-round schedule. */
    method NextWord(i: nat, ghost k: seq<byte>)
      requires roundKeys.Length == 240 && |k| == 32 && 8 <= i < 60 && roundKeys[..4 * i] == Expand(k, 8, i)
      modifies roundKeys
      ensures roundKeys[..4 * i + 4] == Expand(k, 8, i + 1)
    {
      hide Expand, Temp, XorWord, SubWord, RotWord, Word;
      ghost var s := roundKeys[..4 * i];
      var t := roundKeys[4 * i - 4..4 * i];
      WordIs(s, i - 1);
      assert t == s[4 * (i - 1)..4 * (i - 1) + 4];
      TempIs(t, i, 8);
      if i % 8 == 0 {
        RconAt(i, 8);
        t := RoundTemp(t, RCON[i / 8 - 1]);
      } else if i % 8 == 4 {
        t := SubTemp(t);
      }
      PutWord(i, i - 8, t);
      ExpandNext(k, 8, i);
    }

    /** The fourteen-round schedule of a 32-byte key, word by word. */
    method Init256(key: array<byte>)
      requires roundKeys.Length == 240 && key.Length == 32 && key != roundKeys
      modifies this`rounds, roundKeys
      ensures rounds == 14 && roundKeys[..] == Expand(key[..], 8, 60)
    {
      hide Expand;
      ghost var k := key[..];
      for j := 0 to 32
        invariant key[..] == k && roundKeys[..j] == k[..j]
      {
        roundKeys[j] := key[j];
      }
      ExpandStart(k, 8);
      assert roundKeys[..32] == k;
      for i := 8 to 60
        invariant roundKeys[..4 * i] == Expand(k, 8, i) && key[..] == k
      {
        NextWord(i, k);
      }
      assert roundKeys[..4 * 60] == roundKeys[..];
      rounds := 14;
    }

    /** Encipher one block; the two buffers may be the same. */
    method Encrypt(plaintext: array<byte>, ciphertext: array<byte>)
      requires roundKeys.Length == 240 && 1 <= rounds <= 14
      requires plaintext.Length >= 16 && ciphertext.Length >= 16 && ciphertext != roundKeys
      modifies ciphertext
      ensures ciphertext[..16] == Cipher(old(roundKeys[..16 * rounds + 16]), rounds, old(plaintext[..16]))
      ensures ciphertext[16..] == old(ciphertext[16..])
    {
      hide SubBytes, ShiftRows, MixColumns, AddRoundKey, RoundKey;
      var state := new byte[16];
      CopyBlock(plaintext, state);
      ghost var x, rk, full := state[..], roundKeys[..16 * rounds + 16], roundKeys[..];
      assert x == plaintext[..16];
      RoundKeyIn(full, rk, 0);
      AddRoundKeyTo(state, roundKeys, 0);
      for round := 1 to rounds
        invariant state[..] == Forward(rk, x, round - 1)
        invariant ciphertext[..] == old(ciphertext[..]) && roundKeys[..] == full
      {
        SubBytesIn(state);
        ShiftRowsIn(state);
        MixColumnsIn(state);
        RoundKeyIn(full, rk, round);
        AddRoundKeyTo(state, roundKeys, round * 16);
      }
      RoundKeyIn(full, rk, rounds);
      SubBytesIn(state);
      ShiftRowsIn(state);
      AddRoundKeyTo(state, roundKeys, rounds * 16);
      CopyBlock(state, ciphertext);
    }

    /** Decipher one block, always in ten rounds; the two buffers may be the same. */
    method Decrypt(ciphertext: array<byte>, plaintext: array<byte>)
      requires roundKeys.Length == 240
      requires plaintext.Length >= 16 && ciphertext.Length >= 16 && plaintext != roundKeys
      modifies plaintext
      ensures plaintext[..16] == InvCipher(old(roundKeys[..176]), ROUNDS, old(ciphertext[..16]))
      ensures plaintext[16..] == old(plaintext[16..])
    {
      hide InvSubBytes, InvShiftRows, InvMixColumns, AddRoundKey, RoundKey;
      var state := new byte[16];
      CopyBlock(ciphertext, state);
      ghost var y, n, rk, full := state[..], ROUNDS, roundKeys[..176], roundKeys[..];
      assert y == ciphertext[..16];
      RoundKeyIn(full, rk, n);
      AddRoundKeyTo(state, roundKeys, ROUNDS * 16);
      var round := ROUNDS - 1;
      while round >= 1
        invariant 0 <= round <= 9 && state[..] == Backward(rk, n, y, round + 1)
        invariant plaintext[..] == old(plaintext[..]) && roundKeys[..] == full
      {
        InvShiftRowsIn(state);
        InvSubBytesIn(state);
        RoundKeyIn(full, rk, round);
        AddRoundKeyTo(state, roundKeys, round * 16);
        InvMixColumnsIn(state);
        round := round - 1;
      }
      InvShiftRowsIn(state);
      InvSubBytesIn(state);
      RoundKeyIn(full, rk, 0);
      AddRoundKeyTo(state, roundKeys, 0);
      CopyBlock(state, plaintext);
    }
  }
}
