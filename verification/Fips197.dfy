/**
 A known answer of AES-128: the example of appendix C.1 of FIPS 197, computed through by rounds. It ties the cipher, the
 key expansion and their tables to the standard's own bytes. The first eight new words of the 32-byte key of appendix
 A.3 do the same for the longer expansion.
 */
module Fips197 {
  import opened Aes128

  // ----- a round and a step of the key expansion, byte by byte

  lemma Same(x: State, y: State)
    requires x[0] == y[0] && x[1] == y[1] && x[2] == y[2] && x[3] == y[3]
    requires x[4] == y[4] && x[5] == y[5] && x[6] == y[6] && x[7] == y[7]
    requires x[8] == y[8] && x[9] == y[9] && x[10] == y[10] && x[11] == y[11]
    requires x[12] == y[12] && x[13] == y[13] && x[14] == y[14] && x[15] == y[15]
    ensures x == y
  {}

  lemma ShiftRowsAt(x: State, i: nat, j: nat)
    requires i < 16 && j == (i + 4 * (i % 4)) % 16
    ensures ShiftRows(SubBytes(x))[i] == Sbox(x[j])
  {
    hide Sbox;
  }

  /** Bytes substituted and rows shifted. */
  lemma ShiftsTo(x: State, y: State)
    requires y[0] == Sbox(x[0]) && y[1] == Sbox(x[5]) && y[2] == Sbox(x[10]) && y[3] == Sbox(x[15])
    requires y[4] == Sbox(x[4]) && y[5] == Sbox(x[9]) && y[6] == Sbox(x[14]) && y[7] == Sbox(x[3])
    requires y[8] == Sbox(x[8]) && y[9] == Sbox(x[13]) && y[10] == Sbox(x[2]) && y[11] == Sbox(x[7])
    requires y[12] == Sbox(x[12]) && y[13] == Sbox(x[1]) && y[14] == Sbox(x[6]) && y[15] == Sbox(x[11])
    ensures ShiftRows(SubBytes(x)) == y
  {
    hide Sbox, ShiftRows, SubBytes;
    ShiftRowsAt(x, 0, 0);
    ShiftRowsAt(x, 1, 5);
    ShiftRowsAt(x, 2, 10);
    ShiftRowsAt(x, 3, 15);
    ShiftRowsAt(x, 4, 4);
    ShiftRowsAt(x, 5, 9);
    ShiftRowsAt(x, 6, 14);
    ShiftRowsAt(x, 7, 3);
    ShiftRowsAt(x, 8, 8);
    ShiftRowsAt(x, 9, 13);
    ShiftRowsAt(x, 10, 2);
    ShiftRowsAt(x, 11, 7);
    ShiftRowsAt(x, 12, 12);
    ShiftRowsAt(x, 13, 1);
    ShiftRowsAt(x, 14, 6);
    ShiftRowsAt(x, 15, 11);
    Same(ShiftRows(SubBytes(x)), y);
  }

  function Mix(a: byte, b: byte, c: byte, d: byte): byte {
    Xtime(a) ^ (b ^ Xtime(b)) ^ c ^ d
  }

  lemma MixByteIs(a: byte, b: byte, c: byte, d: byte)
    ensures MixByte(a, b, c, d) == Mix(a, b, c, d)
  {
    hide Gf, Xtime;
    GfUnits(a, 8);
    GfTriple(b);
    PlusIs(b, Xtime(b));
  }

  function MixAt(a: byte, b: byte, c: byte, d: byte, r: nat): byte {
    if r == 0 then Mix(a, b, c, d) else if r == 1 then Mix(b, c, d, a)
    else if r == 2 then Mix(c, d, a, b) else Mix(d, a, b, c)
  }

  lemma MixedIs(a: byte, b: byte, c: byte, d: byte, r: nat)
    requires r < 4
    ensures Mixed(a, b, c, d)[r] == MixAt(a, b, c, d, r)
  {
    hide MixByte, Mix;
    MixByteIs(a, b, c, d);
    MixByteIs(b, c, d, a);
    MixByteIs(c, d, a, b);
    MixByteIs(d, a, b, c);
  }

  lemma MixColumnsAt(x: State, c: nat, r: nat)
    requires c < 4 && r < 4
    ensures MixColumns(x)[4 * c + r] == MixAt(x[4 * c], x[4 * c + 1], x[4 * c + 2], x[4 * c + 3], r)
  {
    hide MixAt, Mixed, MixColumns;
    MixByteAt(x, c, r);
    MixedIs(x[4 * c], x[4 * c + 1], x[4 * c + 2], x[4 * c + 3], r);
  }

  /** Columns mixed. */
  lemma MixesTo(x: State, y: State)
    requires y[0] == Mix(x[0], x[1], x[2], x[3])
    requires y[1] == Mix(x[1], x[2], x[3], x[0])
    requires y[2] == Mix(x[2], x[3], x[0], x[1])
    requires y[3] == Mix(x[3], x[0], x[1], x[2])
    requires y[4] == Mix(x[4], x[5], x[6], x[7])
    requires y[5] == Mix(x[5], x[6], x[7], x[4])
    requires y[6] == Mix(x[6], x[7], x[4], x[5])
    requires y[7] == Mix(x[7], x[4], x[5], x[6])
    requires y[8] == Mix(x[8], x[9], x[10], x[11])
    requires y[9] == Mix(x[9], x[10], x[11], x[8])
    requires y[10] == Mix(x[10], x[11], x[8], x[9])
    requires y[11] == Mix(x[11], x[8], x[9], x[10])
    requires y[12] == Mix(x[12], x[13], x[14], x[15])
    requires y[13] == Mix(x[13], x[14], x[15], x[12])
    requires y[14] == Mix(x[14], x[15], x[12], x[13])
    requires y[15] == Mix(x[15], x[12], x[13], x[14])
    ensures MixColumns(x) == y
  {
    hide Mix, MixColumns;
    MixColumnsAt(x, 0, 0);
    MixColumnsAt(x, 0, 1);
    MixColumnsAt(x, 0, 2);
    MixColumnsAt(x, 0, 3);
    MixColumnsAt(x, 1, 0);
    MixColumnsAt(x, 1, 1);
    MixColumnsAt(x, 1, 2);
    MixColumnsAt(x, 1, 3);
    MixColumnsAt(x, 2, 0);
    MixColumnsAt(x, 2, 1);
    MixColumnsAt(x, 2, 2);
    MixColumnsAt(x, 2, 3);
    MixColumnsAt(x, 3, 0);
    MixColumnsAt(x, 3, 1);
    MixColumnsAt(x, 3, 2);
    MixColumnsAt(x, 3, 3);
    Same(MixColumns(x), y);
  }

  lemma AddKeyAt(x: State, k: State, i: nat)
    requires i < 16
    ensures AddRoundKey(x, k)[i] == Plus(x[i], k[i])
  {}

  /** A round key added. */
  lemma AddsTo(x: State, k: State, y: State)
    requires y[0] == Plus(x[0], k[0]) && y[1] == Plus(x[1], k[1])
    requires y[2] == Plus(x[2], k[2]) && y[3] == Plus(x[3], k[3])
    requires y[4] == Plus(x[4], k[4]) && y[5] == Plus(x[5], k[5])
    requires y[6] == Plus(x[6], k[6]) && y[7] == Plus(x[7], k[7])
    requires y[8] == Plus(x[8], k[8]) && y[9] == Plus(x[9], k[9])
    requires y[10] == Plus(x[10], k[10]) && y[11] == Plus(x[11], k[11])
    requires y[12] == Plus(x[12], k[12]) && y[13] == Plus(x[13], k[13])
    requires y[14] == Plus(x[14], k[14]) && y[15] == Plus(x[15], k[15])
    ensures AddRoundKey(x, k) == y
  {
    hide AddRoundKey, Plus;
    AddKeyAt(x, k, 0);
    AddKeyAt(x, k, 1);
    AddKeyAt(x, k, 2);
    AddKeyAt(x, k, 3);
    AddKeyAt(x, k, 4);
    AddKeyAt(x, k, 5);
    AddKeyAt(x, k, 6);
    AddKeyAt(x, k, 7);
    AddKeyAt(x, k, 8);
    AddKeyAt(x, k, 9);
    AddKeyAt(x, k, 10);
    AddKeyAt(x, k, 11);
    AddKeyAt(x, k, 12);
    AddKeyAt(x, k, 13);
    AddKeyAt(x, k, 14);
    AddKeyAt(x, k, 15);
    Same(AddRoundKey(x, k), y);
  }

  // ----- the key expansion

  lemma XorsTo(u: seq<byte>, v: seq<byte>, y: seq<byte>)
    requires |u| == |v| == |y| == 4 && forall j :: 0 <= j < 4 ==> y[j] == Plus(u[j], v[j])
    ensures XorWord(u, v) == y
  {
    hide Plus;
  }

  /** What is added to make the first of four new words. */
  lemma TempsTo(v: seq<byte>, i: nat, x: seq<byte>)
    requires |v| == |x| == 4 && 1 <= i <= 10
    requires x[0] == Plus(Sbox(v[1]), RCON[i - 1]) && x[1] == Sbox(v[2]) && x[2] == Sbox(v[3]) && x[3] == Sbox(v[0])
    ensures Temp(v, 4 * i, 4) == x
  {
    hide Sbox, Plus, XorWord, Temp, SubWord, RotWord;
    TempIs(v, 4 * i, 4);
    SubRot(v);
    XorHead(SubWord(RotWord(v)), RCON[i - 1]);
    PlusIs(Sbox(v[1]), RCON[i - 1]);
  }

  /** Each of the other three. */
  lemma TempLater(v: seq<byte>, i: nat, j: nat)
    requires |v| == 4 && 1 <= i <= 10 && 1 <= j <= 3
    ensures Temp(v, 4 * i + j, 4) == v
  {
    hide Temp;
    TempIs(v, 4 * i + j, 4);
  }

  lemma WordOf(s: seq<byte>, k: State, y: seq<byte>, n: nat, j: nat)
    requires |s| == 4 * n && n >= 4 && s[4 * n - 16..] == k && |y| == 4 * j && j <= 3
    ensures Word(s + y, n + j - 4) == k[4 * j..4 * j + 4]
    ensures Word(s + y, n + j - 1) == if j == 0 then k[12..] else y[4 * j - 4..]
  {
    assert s == s[..4 * n - 16] + k;
    assert s + y == s[..4 * n - 16] + (k + y);
    WordBehind(s[..4 * n - 16], k + y, n - 4, j);
    WordBehind(s[..4 * n - 16], k + y, n - 4, j + 3);
  }

  lemma WordBehind(s: seq<byte>, t: seq<byte>, n: nat, j: nat)
    requires |s| == 4 * n && 4 * j + 4 <= |t|
    ensures Word(s + t, n + j) == t[4 * j..4 * j + 4]
  {}

  ghost predicate Follows(k: State, y: State) {
    forall q :: 4 <= q < 16 ==> y[q] == Plus(k[q], y[q - 4])
  }

  lemma OneWord(key: seq<byte>, nk: nat, n: nat, s: seq<byte>, w: seq<byte>, v: seq<byte>, y: seq<byte>)
    requires 0 < nk && |key| == 4 * nk <= 4 * n && n < 11 * nk && s == Expand(key, nk, n) && |s| == 4 * n
    requires |v| == |w| == 4 && Word(s, n - nk) == w && Word(s, n - 1) == v && XorWord(w, Temp(v, n, nk)) == y
    ensures Expand(key, nk, n + 1) == s + y
  {
    hide Expand, Temp, XorWord, Word;
    ExpandNext(key, nk, n);
  }

  lemma FollowsAt(k: State, y: State, j: nat)
    requires Follows(k, y) && 1 <= j <= 3
    ensures XorWord(k[4 * j..4 * j + 4], y[4 * j - 4..4 * j]) == y[4 * j..4 * j + 4]
  {
    hide Plus;
    var w, v, z := k[4 * j..4 * j + 4], y[4 * j - 4..4 * j], y[4 * j..4 * j + 4];
    assert z[0] == y[4 * j] && z[1] == y[4 * j + 1] && z[2] == y[4 * j + 2] && z[3] == y[4 * j + 3];
  }

  lemma Slices(y: State, j: nat)
    requires 1 <= j <= 3
    ensures y[..4 * j][4 * j - 4..] == y[4 * j - 4..4 * j]
    ensures y[..4 * j] + y[4 * j..4 * j + 4] == y[..4 * j + 4]
  {}

  /** One more word of the four, after the first j of them. */
  lemma NextWord(key: seq<byte>, i: nat, j: nat, s: seq<byte>, k: State, y: State)
    requires |key| == 16 && 1 <= i <= 10 && 1 <= j <= 3 && |s| == 16 * i && s[16 * i - 16..] == k
    requires s + y[..4 * j] == Expand(key, 4, 4 * i + j)
    requires Follows(k, y)
    ensures s + y[..4 * j + 4] == Expand(key, 4, 4 * i + j + 1)
  {
    hide Expand, Temp, XorWord, Word, Plus, Follows;
    WordOf(s, k, y[..4 * j], 4 * i, j);
    FollowsAt(k, y, j);
    Slices(y, j);
    var w, v, z := k[4 * j..4 * j + 4], y[4 * j - 4..4 * j], y[4 * j..4 * j + 4];
    TempLater(v, i, j);
    OneWord(key, 4, 4 * i + j, s + y[..4 * j], w, v, z);
    assert s + y[..4 * j] + z == s + (y[..4 * j] + z);
  }

  lemma FollowsIf(k: State, y: State)
    requires y[4] == Plus(k[4], y[0]) && y[5] == Plus(k[5], y[1]) && y[6] == Plus(k[6], y[2])
    requires y[7] == Plus(k[7], y[3]) && y[8] == Plus(k[8], y[4]) && y[9] == Plus(k[9], y[5])
    requires y[10] == Plus(k[10], y[6]) && y[11] == Plus(k[11], y[7]) && y[12] == Plus(k[12], y[8])
    requires y[13] == Plus(k[13], y[9]) && y[14] == Plus(k[14], y[10]) && y[15] == Plus(k[15], y[11])
    ensures Follows(k, y)
  {
    hide Plus;
  }

  /** The next four words of the schedule of a 16-byte key, from the last four. */
  lemma KeysTo(key: seq<byte>, i: nat, s: seq<byte>, k: State, x: seq<byte>, y: State)
    requires |key| == 16 && 1 <= i <= 10 && |x| == 4 && s == Expand(key, 4, 4 * i) && s[16 * i - 16..] == k
    requires Temp(k[12..], 4 * i, 4) == x && XorWord(k[..4], x) == y[..4] && Follows(k, y)
    ensures Expand(key, 4, 4 * i + 4) == s + y
  {
    hide Expand, Temp, XorWord, Word, Plus, Follows;
    WordOf(s, k, [], 4 * i, 0);
    assert s + [] == s;
    OneWord(key, 4, 4 * i, s, k[..4], k[12..], y[..4]);
    NextWord(key, i, 1, s, k, y);
    NextWord(key, i, 2, s, k, y);
    NextWord(key, i, 3, s, k, y);
    assert y[..16] == y;
  }

  // ----- the example

  const KEY0: State := [0x00, 0x01, 0x02, 0x03, 0x04, 0x05, 0x06, 0x07,
                          0x08, 0x09, 0x0a, 0x0b, 0x0c, 0x0d, 0x0e, 0x0f]
  const KEY1: State := [0xd6, 0xaa, 0x74, 0xfd, 0xd2, 0xaf, 0x72, 0xfa,
                          0xda, 0xa6, 0x78, 0xf1, 0xd6, 0xab, 0x76, 0xfe]
  const KEY2: State := [0xb6, 0x92, 0xcf, 0x0b, 0x64, 0x3d, 0xbd, 0xf1,
                          0xbe, 0x9b, 0xc5, 0x00, 0x68, 0x30, 0xb3, 0xfe]
  const KEY3: State := [0xb6, 0xff, 0x74, 0x4e, 0xd2, 0xc2, 0xc9, 0xbf,
                          0x6c, 0x59, 0x0c, 0xbf, 0x04, 0x69, 0xbf, 0x41]
  const KEY4: State := [0x47, 0xf7, 0xf7, 0xbc, 0x95, 0x35, 0x3e, 0x03,
                          0xf9, 0x6c, 0x32, 0xbc, 0xfd, 0x05, 0x8d, 0xfd]
  const KEY5: State := [0x3c, 0xaa, 0xa3, 0xe8, 0xa9, 0x9f, 0x9d, 0xeb,
                          0x50, 0xf3, 0xaf, 0x57, 0xad, 0xf6, 0x22, 0xaa]
  const KEY6: State := [0x5e, 0x39, 0x0f, 0x7d, 0xf7, 0xa6, 0x92, 0x96,
                          0xa7, 0x55, 0x3d, 0xc1, 0x0a, 0xa3, 0x1f, 0x6b]
  const KEY7: State := [0x14, 0xf9, 0x70, 0x1a, 0xe3, 0x5f, 0xe2, 0x8c,
                          0x44, 0x0a, 0xdf, 0x4d, 0x4e, 0xa9, 0xc0, 0x26]
  const KEY8: State := [0x47, 0x43, 0x87, 0x35, 0xa4, 0x1c, 0x65, 0xb9,
                          0xe0, 0x16, 0xba, 0xf4, 0xae, 0xbf, 0x7a, 0xd2]
  const KEY9: State := [0x54, 0x99, 0x32, 0xd1, 0xf0, 0x85, 0x57, 0x68,
                          0x10, 0x93, 0xed, 0x9c, 0xbe, 0x2c, 0x97, 0x4e]
  const KEY10: State := [0x13, 0x11, 0x1d, 0x7f, 0xe3, 0x94, 0x4a, 0x17,
                          0xf3, 0x07, 0xa7, 0x8b, 0x4d, 0x2b, 0x30, 0xc5]

  const PLAIN: State := [0x00, 0x11, 0x22, 0x33, 0x44, 0x55, 0x66, 0x77,
                          0x88, 0x99, 0xaa, 0xbb, 0xcc, 0xdd, 0xee, 0xff]
  const START1: State := [0x00, 0x10, 0x20, 0x30, 0x40, 0x50, 0x60, 0x70,
                          0x80, 0x90, 0xa0, 0xb0, 0xc0, 0xd0, 0xe0, 0xf0]
  const START2: State := [0x89, 0xd8, 0x10, 0xe8, 0x85, 0x5a, 0xce, 0x68,
                          0x2d, 0x18, 0x43, 0xd8, 0xcb, 0x12, 0x8f, 0xe4]
  const START3: State := [0x49, 0x15, 0x59, 0x8f, 0x55, 0xe5, 0xd7, 0xa0,
                          0xda, 0xca, 0x94, 0xfa, 0x1f, 0x0a, 0x63, 0xf7]
  const START4: State := [0xfa, 0x63, 0x6a, 0x28, 0x25, 0xb3, 0x39, 0xc9,
                          0x40, 0x66, 0x8a, 0x31, 0x57, 0x24, 0x4d, 0x17]
  const START5: State := [0x24, 0x72, 0x40, 0x23, 0x69, 0x66, 0xb3, 0xfa,
                          0x6e, 0xd2, 0x75, 0x32, 0x88, 0x42, 0x5b, 0x6c]
  const START6: State := [0xc8, 0x16, 0x77, 0xbc, 0x9b, 0x7a, 0xc9, 0x3b,
                          0x25, 0x02, 0x79, 0x92, 0xb0, 0x26, 0x19, 0x96]
  const START7: State := [0xc6, 0x2f, 0xe1, 0x09, 0xf7, 0x5e, 0xed, 0xc3,
                          0xcc, 0x79, 0x39, 0x5d, 0x84, 0xf9, 0xcf, 0x5d]
  const START8: State := [0xd1, 0x87, 0x6c, 0x0f, 0x79, 0xc4, 0x30, 0x0a,
                          0xb4, 0x55, 0x94, 0xad, 0xd6, 0x6f, 0xf4, 0x1f]
  const START9: State := [0xfd, 0xe3, 0xba, 0xd2, 0x05, 0xe5, 0xd0, 0xd7,
                          0x35, 0x47, 0x96, 0x4e, 0xf1, 0xfe, 0x37, 0xf1]
  const START10: State := [0xbd, 0x6e, 0x7c, 0x3d, 0xf2, 0xb5, 0x77, 0x9e,
                          0x0b, 0x61, 0x21, 0x6e, 0x8b, 0x10, 0xb6, 0x89]
  const SHIFTED1: State := [0x63, 0x53, 0xe0, 0x8c, 0x09, 0x60, 0xe1, 0x04,
                          0xcd, 0x70, 0xb7, 0x51, 0xba, 0xca, 0xd0, 0xe7]
  const SHIFTED2: State := [0xa7, 0xbe, 0x1a, 0x69, 0x97, 0xad, 0x73, 0x9b,
                          0xd8, 0xc9, 0xca, 0x45, 0x1f, 0x61, 0x8b, 0x61]
  const SHIFTED3: State := [0x3b, 0xd9, 0x22, 0x68, 0xfc, 0x74, 0xfb, 0x73,
                          0x57, 0x67, 0xcb, 0xe0, 0xc0, 0x59, 0x0e, 0x2d]
  const SHIFTED4: State := [0x2d, 0x6d, 0x7e, 0xf0, 0x3f, 0x33, 0xe3, 0x34,
                          0x09, 0x36, 0x02, 0xdd, 0x5b, 0xfb, 0x12, 0xc7]
  const SHIFTED5: State := [0x36, 0x33, 0x9d, 0x50, 0xf9, 0xb5, 0x39, 0x26,
                          0x9f, 0x2c, 0x09, 0x2d, 0xc4, 0x40, 0x6d, 0x23]
  const SHIFTED6: State := [0xe8, 0xda, 0xb6, 0x90, 0x14, 0x77, 0xd4, 0x65,
                          0x3f, 0xf7, 0xf5, 0xe2, 0xe7, 0x47, 0xdd, 0x4f]
  const SHIFTED7: State := [0xb4, 0x58, 0x12, 0x4c, 0x68, 0xb6, 0x8a, 0x01,
                          0x4b, 0x99, 0xf8, 0x2e, 0x5f, 0x15, 0x55, 0x4c]
  const SHIFTED8: State := [0x3e, 0x1c, 0x22, 0xc0, 0xb6, 0xfc, 0xbf, 0x76,
                          0x8d, 0xa8, 0x50, 0x67, 0xf6, 0x17, 0x04, 0x95]
  const SHIFTED9: State := [0x54, 0xd9, 0x90, 0xa1, 0x6b, 0xa0, 0x9a, 0xb5,
                          0x96, 0xbb, 0xf4, 0x0e, 0xa1, 0x11, 0x70, 0x2f]
  const SHIFTED10: State := [0x7a, 0xd5, 0xfd, 0xa7, 0x89, 0xef, 0x4e, 0x27,
                          0x2b, 0xca, 0x10, 0x0b, 0x3d, 0x9f, 0xf5, 0x9f]
  const MIXED1: State := [0x5f, 0x72, 0x64, 0x15, 0x57, 0xf5, 0xbc, 0x92,
                          0xf7, 0xbe, 0x3b, 0x29, 0x1d, 0xb9, 0xf9, 0x1a]
  const MIXED2: State := [0xff, 0x87, 0x96, 0x84, 0x31, 0xd8, 0x6a, 0x51,
                          0x64, 0x51, 0x51, 0xfa, 0x77, 0x3a, 0xd0, 0x09]
  const MIXED3: State := [0x4c, 0x9c, 0x1e, 0x66, 0xf7, 0x71, 0xf0, 0x76,
                          0x2c, 0x3f, 0x86, 0x8e, 0x53, 0x4d, 0xf2, 0x56]
  const MIXED4: State := [0x63, 0x85, 0xb7, 0x9f, 0xfc, 0x53, 0x8d, 0xf9,
                          0x97, 0xbe, 0x47, 0x8e, 0x75, 0x47, 0xd6, 0x91]
  const MIXED5: State := [0xf4, 0xbc, 0xd4, 0x54, 0x32, 0xe5, 0x54, 0xd0,
                          0x75, 0xf1, 0xd6, 0xc5, 0x1d, 0xd0, 0x3b, 0x3c]
  const MIXED6: State := [0x98, 0x16, 0xee, 0x74, 0x00, 0xf8, 0x7f, 0x55,
                          0x6b, 0x2c, 0x04, 0x9c, 0x8e, 0x5a, 0xd0, 0x36]
  const MIXED7: State := [0xc5, 0x7e, 0x1c, 0x15, 0x9a, 0x9b, 0xd2, 0x86,
                          0xf0, 0x5f, 0x4b, 0xe0, 0x98, 0xc6, 0x34, 0x39]
  const MIXED8: State := [0xba, 0xa0, 0x3d, 0xe7, 0xa1, 0xf9, 0xb5, 0x6e,
                          0xd5, 0x51, 0x2c, 0xba, 0x5f, 0x41, 0x4d, 0x23]
  const MIXED9: State := [0xe9, 0xf7, 0x4e, 0xec, 0x02, 0x30, 0x20, 0xf6,
                          0x1b, 0xf2, 0xcc, 0xf2, 0x35, 0x3c, 0x21, 0xc7]
  const ANSWER: State := [0x69, 0xc4, 0xe0, 0xd8, 0x6a, 0x7b, 0x04, 0x30,
                          0xd8, 0xcd, 0xb7, 0x80, 0x70, 0xb4, 0xc5, 0x5a]

  lemma TableLow1()
    ensures Sbox(0x00) == 0x63 && Sbox(0x10) == 0xca && Sbox(0x20) == 0xb7 && Sbox(0x30) == 0x04
    ensures Sbox(0x40) == 0x09 && Sbox(0x50) == 0x53 && Sbox(0x60) == 0xd0 && Sbox(0x70) == 0x51
  {}

  lemma TableHigh1()
    ensures Sbox(0x80) == 0xcd && Sbox(0x90) == 0x60 && Sbox(0xa0) == 0xe0 && Sbox(0xb0) == 0xe7
    ensures Sbox(0xc0) == 0xba && Sbox(0xd0) == 0x70 && Sbox(0xe0) == 0xe1 && Sbox(0xf0) == 0x8c
  {}

  lemma Shift1()
    ensures ShiftRows(SubBytes(START1)) == SHIFTED1
  {
    hide SubBytes, ShiftRows, Sbox;
    TableLow1();
    TableHigh1();
    ShiftsTo(START1, SHIFTED1);
  }

  lemma TableLow2()
    ensures Sbox(0x89) == 0xa7 && Sbox(0xd8) == 0x61 && Sbox(0x10) == 0xca && Sbox(0xe8) == 0x9b
    ensures Sbox(0x85) == 0x97 && Sbox(0x5a) == 0xbe && Sbox(0xce) == 0x8b && Sbox(0x68) == 0x45
  {}

  lemma TableHigh2()
    ensures Sbox(0x2d) == 0xd8 && Sbox(0x18) == 0xad && Sbox(0x43) == 0x1a && Sbox(0xd8) == 0x61
    ensures Sbox(0xcb) == 0x1f && Sbox(0x12) == 0xc9 && Sbox(0x8f) == 0x73 && Sbox(0xe4) == 0x69
  {}

  lemma Shift2()
    ensures ShiftRows(SubBytes(START2)) == SHIFTED2
  {
    hide SubBytes, ShiftRows, Sbox;
    TableLow2();
    TableHigh2();
    ShiftsTo(START2, SHIFTED2);
  }

  lemma TableLow3()
    ensures Sbox(0x49) == 0x3b && Sbox(0x15) == 0x59 && Sbox(0x59) == 0xcb && Sbox(0x8f) == 0x73
    ensures Sbox(0x55) == 0xfc && Sbox(0xe5) == 0xd9 && Sbox(0xd7) == 0x0e && Sbox(0xa0) == 0xe0
  {}

  lemma TableHigh3()
    ensures Sbox(0xda) == 0x57 && Sbox(0xca) == 0x74 && Sbox(0x94) == 0x22 && Sbox(0xfa) == 0x2d
    ensures Sbox(0x1f) == 0xc0 && Sbox(0x0a) == 0x67 && Sbox(0x63) == 0xfb && Sbox(0xf7) == 0x68
  {}

  lemma Shift3()
    ensures ShiftRows(SubBytes(START3)) == SHIFTED3
  {
    hide SubBytes, ShiftRows, Sbox;
    TableLow3();
    TableHigh3();
    ShiftsTo(START3, SHIFTED3);
  }

  lemma TableLow4()
    ensures Sbox(0xfa) == 0x2d && Sbox(0x63) == 0xfb && Sbox(0x6a) == 0x02 && Sbox(0x28) == 0x34
    ensures Sbox(0x25) == 0x3f && Sbox(0xb3) == 0x6d && Sbox(0x39) == 0x12 && Sbox(0xc9) == 0xdd
  {}

  lemma TableHigh4()
    ensures Sbox(0x40) == 0x09 && Sbox(0x66) == 0x33 && Sbox(0x8a) == 0x7e && Sbox(0x31) == 0xc7
    ensures Sbox(0x57) == 0x5b && Sbox(0x24) == 0x36 && Sbox(0x4d) == 0xe3 && Sbox(0x17) == 0xf0
  {}

  lemma Shift4()
    ensures ShiftRows(SubBytes(START4)) == SHIFTED4
  {
    hide SubBytes, ShiftRows, Sbox;
    TableLow4();
    TableHigh4();
    ShiftsTo(START4, SHIFTED4);
  }

  lemma TableLow5()
    ensures Sbox(0x24) == 0x36 && Sbox(0x72) == 0x40 && Sbox(0x40) == 0x09 && Sbox(0x23) == 0x26
    ensures Sbox(0x69) == 0xf9 && Sbox(0x66) == 0x33 && Sbox(0xb3) == 0x6d && Sbox(0xfa) == 0x2d
  {}

  lemma TableHigh5()
    ensures Sbox(0x6e) == 0x9f && Sbox(0xd2) == 0xb5 && Sbox(0x75) == 0x9d && Sbox(0x32) == 0x23
    ensures Sbox(0x88) == 0xc4 && Sbox(0x42) == 0x2c && Sbox(0x5b) == 0x39 && Sbox(0x6c) == 0x50
  {}

  lemma Shift5()
    ensures ShiftRows(SubBytes(START5)) == SHIFTED5
  {
    hide SubBytes, ShiftRows, Sbox;
    TableLow5();
    TableHigh5();
    ShiftsTo(START5, SHIFTED5);
  }

  lemma TableLow6()
    ensures Sbox(0xc8) == 0xe8 && Sbox(0x16) == 0x47 && Sbox(0x77) == 0xf5 && Sbox(0xbc) == 0x65
    ensures Sbox(0x9b) == 0x14 && Sbox(0x7a) == 0xda && Sbox(0xc9) == 0xdd && Sbox(0x3b) == 0xe2
  {}

  lemma TableHigh6()
    ensures Sbox(0x25) == 0x3f && Sbox(0x02) == 0x77 && Sbox(0x79) == 0xb6 && Sbox(0x92) == 0x4f
    ensures Sbox(0xb0) == 0xe7 && Sbox(0x26) == 0xf7 && Sbox(0x19) == 0xd4 && Sbox(0x96) == 0x90
  {}

  lemma Shift6()
    ensures ShiftRows(SubBytes(START6)) == SHIFTED6
  {
    hide SubBytes, ShiftRows, Sbox;
    TableLow6();
    TableHigh6();
    ShiftsTo(START6, SHIFTED6);
  }

  lemma TableLow7()
    ensures Sbox(0xc6) == 0xb4 && Sbox(0x2f) == 0x15 && Sbox(0xe1) == 0xf8 && Sbox(0x09) == 0x01
    ensures Sbox(0xf7) == 0x68 && Sbox(0x5e) == 0x58 && Sbox(0xed) == 0x55 && Sbox(0xc3) == 0x2e
  {}

  lemma TableHigh7()
    ensures Sbox(0xcc) == 0x4b && Sbox(0x79) == 0xb6 && Sbox(0x39) == 0x12 && Sbox(0x5d) == 0x4c
    ensures Sbox(0x84) == 0x5f && Sbox(0xf9) == 0x99 && Sbox(0xcf) == 0x8a && Sbox(0x5d) == 0x4c
  {}

  lemma Shift7()
    ensures ShiftRows(SubBytes(START7)) == SHIFTED7
  {
    hide SubBytes, ShiftRows, Sbox;
    TableLow7();
    TableHigh7();
    ShiftsTo(START7, SHIFTED7);
  }

  lemma TableLow8()
    ensures Sbox(0xd1) == 0x3e && Sbox(0x87) == 0x17 && Sbox(0x6c) == 0x50 && Sbox(0x0f) == 0x76
    ensures Sbox(0x79) == 0xb6 && Sbox(0xc4) == 0x1c && Sbox(0x30) == 0x04 && Sbox(0x0a) == 0x67
  {}

  lemma TableHigh8()
    ensures Sbox(0xb4) == 0x8d && Sbox(0x55) == 0xfc && Sbox(0x94) == 0x22 && Sbox(0xad) == 0x95
    ensures Sbox(0xd6) == 0xf6 && Sbox(0x6f) == 0xa8 && Sbox(0xf4) == 0xbf && Sbox(0x1f) == 0xc0
  {}

  lemma Shift8()
    ensures ShiftRows(SubBytes(START8)) == SHIFTED8
  {
    hide SubBytes, ShiftRows, Sbox;
    TableLow8();
    TableHigh8();
    ShiftsTo(START8, SHIFTED8);
  }

  lemma TableLow9()
    ensures Sbox(0xfd) == 0x54 && Sbox(0xe3) == 0x11 && Sbox(0xba) == 0xf4 && Sbox(0xd2) == 0xb5
    ensures Sbox(0x05) == 0x6b && Sbox(0xe5) == 0xd9 && Sbox(0xd0) == 0x70 && Sbox(0xd7) == 0x0e
  {}

  lemma TableHigh9()
    ensures Sbox(0x35) == 0x96 && Sbox(0x47) == 0xa0 && Sbox(0x96) == 0x90 && Sbox(0x4e) == 0x2f
    ensures Sbox(0xf1) == 0xa1 && Sbox(0xfe) == 0xbb && Sbox(0x37) == 0x9a && Sbox(0xf1) == 0xa1
  {}

  lemma Shift9()
    ensures ShiftRows(SubBytes(START9)) == SHIFTED9
  {
    hide SubBytes, ShiftRows, Sbox;
    TableLow9();
    TableHigh9();
    ShiftsTo(START9, SHIFTED9);
  }

  lemma TableLow10()
    ensures Sbox(0xbd) == 0x7a && Sbox(0x6e) == 0x9f && Sbox(0x7c) == 0x10 && Sbox(0x3d) == 0x27
    ensures Sbox(0xf2) == 0x89 && Sbox(0xb5) == 0xd5 && Sbox(0x77) == 0xf5 && Sbox(0x9e) == 0x0b
  {}

  lemma TableHigh10()
    ensures Sbox(0x0b) == 0x2b && Sbox(0x61) == 0xef && Sbox(0x21) == 0xfd && Sbox(0x6e) == 0x9f
    ensures Sbox(0x8b) == 0x3d && Sbox(0x10) == 0xca && Sbox(0xb6) == 0x4e && Sbox(0x89) == 0xa7
  {}

  lemma Shift10()
    ensures ShiftRows(SubBytes(START10)) == SHIFTED10
  {
    hide SubBytes, ShiftRows, Sbox;
    TableLow10();
    TableHigh10();
    ShiftsTo(START10, SHIFTED10);
  }

  lemma Mix1()
    ensures MixColumns(SHIFTED1) == MIXED1
  {
    hide MixColumns;
    MixesTo(SHIFTED1, MIXED1);
  }

  lemma Mix2()
    ensures MixColumns(SHIFTED2) == MIXED2
  {
    hide MixColumns;
    MixesTo(SHIFTED2, MIXED2);
  }

  lemma Mix3()
    ensures MixColumns(SHIFTED3) == MIXED3
  {
    hide MixColumns;
    MixesTo(SHIFTED3, MIXED3);
  }

  lemma Mix4()
    ensures MixColumns(SHIFTED4) == MIXED4
  {
    hide MixColumns;
    MixesTo(SHIFTED4, MIXED4);
  }

  lemma Mix5()
    ensures MixColumns(SHIFTED5) == MIXED5
  {
    hide MixColumns;
    MixesTo(SHIFTED5, MIXED5);
  }

  lemma Mix6()
    ensures MixColumns(SHIFTED6) == MIXED6
  {
    hide MixColumns;
    MixesTo(SHIFTED6, MIXED6);
  }

  lemma Mix7()
    ensures MixColumns(SHIFTED7) == MIXED7
  {
    hide MixColumns;
    MixesTo(SHIFTED7, MIXED7);
  }

  lemma Mix8()
    ensures MixColumns(SHIFTED8) == MIXED8
  {
    hide MixColumns;
    MixesTo(SHIFTED8, MIXED8);
  }

  lemma Mix9()
    ensures MixColumns(SHIFTED9) == MIXED9
  {
    hide MixColumns;
    MixesTo(SHIFTED9, MIXED9);
  }

  lemma Add1()
    ensures AddRoundKey(MIXED1, KEY1) == START2
  {
    hide AddRoundKey;
    AddsTo(MIXED1, KEY1, START2);
  }

  lemma Add2()
    ensures AddRoundKey(MIXED2, KEY2) == START3
  {
    hide AddRoundKey;
    AddsTo(MIXED2, KEY2, START3);
  }

  lemma Add3()
    ensures AddRoundKey(MIXED3, KEY3) == START4
  {
    hide AddRoundKey;
    AddsTo(MIXED3, KEY3, START4);
  }

  lemma Add4()
    ensures AddRoundKey(MIXED4, KEY4) == START5
  {
    hide AddRoundKey;
    AddsTo(MIXED4, KEY4, START5);
  }

  lemma Add5()
    ensures AddRoundKey(MIXED5, KEY5) == START6
  {
    hide AddRoundKey;
    AddsTo(MIXED5, KEY5, START6);
  }

  lemma Add6()
    ensures AddRoundKey(MIXED6, KEY6) == START7
  {
    hide AddRoundKey;
    AddsTo(MIXED6, KEY6, START7);
  }

  lemma Add7()
    ensures AddRoundKey(MIXED7, KEY7) == START8
  {
    hide AddRoundKey;
    AddsTo(MIXED7, KEY7, START8);
  }

  lemma Add8()
    ensures AddRoundKey(MIXED8, KEY8) == START9
  {
    hide AddRoundKey;
    AddsTo(MIXED8, KEY8, START9);
  }

  lemma Add9()
    ensures AddRoundKey(MIXED9, KEY9) == START10
  {
    hide AddRoundKey;
    AddsTo(MIXED9, KEY9, START10);
  }

  lemma TableKey1()
    ensures Sbox(0x0d) == 0xd7 && Sbox(0x0e) == 0xab && Sbox(0x0f) == 0x76 && Sbox(0x0c) == 0xfe
  {}

  lemma Chain1()
    ensures Follows(KEY0, KEY1)
  {
    hide Follows;
    FollowsIf(KEY0, KEY1);
  }

  lemma Temp1()
    ensures Temp(KEY0[12..], 4, 4) == [0xd6, 0xab, 0x76, 0xfe]
    ensures XorWord(KEY0[..4], [0xd6, 0xab, 0x76, 0xfe]) == KEY1[..4]
  {
    hide Sbox, Temp, XorWord;
    TableKey1();
    TempsTo(KEY0[12..], 1, [0xd6, 0xab, 0x76, 0xfe]);
    XorsTo(KEY0[..4], [0xd6, 0xab, 0x76, 0xfe], KEY1[..4]);
  }

  lemma Key1()
    ensures Expand(KEY0, 4, 8)[16..] == KEY1
  {
    hide Expand, Follows, Temp, XorWord;
    ExpandStart(KEY0, 4);
    assert KEY0[0..] == KEY0;
    Chain1();
    Temp1();
    KeysTo(KEY0, 1, Expand(KEY0, 4, 4), KEY0, [0xd6, 0xab, 0x76, 0xfe], KEY1);
  }

  lemma TableKey2()
    ensures Sbox(0xab) == 0x62 && Sbox(0x76) == 0x38 && Sbox(0xfe) == 0xbb && Sbox(0xd6) == 0xf6
  {}

  lemma Chain2()
    ensures Follows(KEY1, KEY2)
  {
    hide Follows;
    FollowsIf(KEY1, KEY2);
  }

  lemma Temp2()
    ensures Temp(KEY1[12..], 8, 4) == [0x60, 0x38, 0xbb, 0xf6]
    ensures XorWord(KEY1[..4], [0x60, 0x38, 0xbb, 0xf6]) == KEY2[..4]
  {
    hide Sbox, Temp, XorWord;
    TableKey2();
    TempsTo(KEY1[12..], 2, [0x60, 0x38, 0xbb, 0xf6]);
    XorsTo(KEY1[..4], [0x60, 0x38, 0xbb, 0xf6], KEY2[..4]);
  }

  lemma Key2()
    ensures Expand(KEY0, 4, 12)[32..] == KEY2
  {
    hide Expand, Follows, Temp, XorWord;
    Key1();
    Chain2();
    Temp2();
    KeysTo(KEY0, 2, Expand(KEY0, 4, 8), KEY1, [0x60, 0x38, 0xbb, 0xf6], KEY2);
  }

  lemma TableKey3()
    ensures Sbox(0x30) == 0x04 && Sbox(0xb3) == 0x6d && Sbox(0xfe) == 0xbb && Sbox(0x68) == 0x45
  {}

  lemma Chain3()
    ensures Follows(KEY2, KEY3)
  {
    hide Follows;
    FollowsIf(KEY2, KEY3);
  }

  lemma Temp3()
    ensures Temp(KEY2[12..], 12, 4) == [0x00, 0x6d, 0xbb, 0x45]
    ensures XorWord(KEY2[..4], [0x00, 0x6d, 0xbb, 0x45]) == KEY3[..4]
  {
    hide Sbox, Temp, XorWord;
    TableKey3();
    TempsTo(KEY2[12..], 3, [0x00, 0x6d, 0xbb, 0x45]);
    XorsTo(KEY2[..4], [0x00, 0x6d, 0xbb, 0x45], KEY3[..4]);
  }

  lemma Key3()
    ensures Expand(KEY0, 4, 16)[48..] == KEY3
  {
    hide Expand, Follows, Temp, XorWord;
    Key2();
    Chain3();
    Temp3();
    KeysTo(KEY0, 3, Expand(KEY0, 4, 12), KEY2, [0x00, 0x6d, 0xbb, 0x45], KEY3);
  }

  lemma TableKey4()
    ensures Sbox(0x69) == 0xf9 && Sbox(0xbf) == 0x08 && Sbox(0x41) == 0x83 && Sbox(0x04) == 0xf2
  {}

  lemma Chain4()
    ensures Follows(KEY3, KEY4)
  {
    hide Follows;
    FollowsIf(KEY3, KEY4);
  }

  lemma Temp4()
    ensures Temp(KEY3[12..], 16, 4) == [0xf1, 0x08, 0x83, 0xf2]
    ensures XorWord(KEY3[..4], [0xf1, 0x08, 0x83, 0xf2]) == KEY4[..4]
  {
    hide Sbox, Temp, XorWord;
    TableKey4();
    TempsTo(KEY3[12..], 4, [0xf1, 0x08, 0x83, 0xf2]);
    XorsTo(KEY3[..4], [0xf1, 0x08, 0x83, 0xf2], KEY4[..4]);
  }

  lemma Key4()
    ensures Expand(KEY0, 4, 20)[64..] == KEY4
  {
    hide Expand, Follows, Temp, XorWord;
    Key3();
    Chain4();
    Temp4();
    KeysTo(KEY0, 4, Expand(KEY0, 4, 16), KEY3, [0xf1, 0x08, 0x83, 0xf2], KEY4);
  }

  lemma TableKey5()
    ensures Sbox(0x05) == 0x6b && Sbox(0x8d) == 0x5d && Sbox(0xfd) == 0x54 && Sbox(0xfd) == 0x54
  {}

  lemma Chain5()
    ensures Follows(KEY4, KEY5)
  {
    hide Follows;
    FollowsIf(KEY4, KEY5);
  }

  lemma Temp5()
    ensures Temp(KEY4[12..], 20, 4) == [0x7b, 0x5d, 0x54, 0x54]
    ensures XorWord(KEY4[..4], [0x7b, 0x5d, 0x54, 0x54]) == KEY5[..4]
  {
    hide Sbox, Temp, XorWord;
    TableKey5();
    TempsTo(KEY4[12..], 5, [0x7b, 0x5d, 0x54, 0x54]);
    XorsTo(KEY4[..4], [0x7b, 0x5d, 0x54, 0x54], KEY5[..4]);
  }

  lemma Key5()
    ensures Expand(KEY0, 4, 24)[80..] == KEY5
  {
    hide Expand, Follows, Temp, XorWord;
    Key4();
    Chain5();
    Temp5();
    KeysTo(KEY0, 5, Expand(KEY0, 4, 20), KEY4, [0x7b, 0x5d, 0x54, 0x54], KEY5);
  }

  lemma TableKey6()
    ensures Sbox(0xf6) == 0x42 && Sbox(0x22) == 0x93 && Sbox(0xaa) == 0xac && Sbox(0xad) == 0x95
  {}

  lemma Chain6()
    ensures Follows(KEY5, KEY6)
  {
    hide Follows;
    FollowsIf(KEY5, KEY6);
  }

  lemma Temp6()
    ensures Temp(KEY5[12..], 24, 4) == [0x62, 0x93, 0xac, 0x95]
    ensures XorWord(KEY5[..4], [0x62, 0x93, 0xac, 0x95]) == KEY6[..4]
  {
    hide Sbox, Temp, XorWord;
    TableKey6();
    TempsTo(KEY5[12..], 6, [0x62, 0x93, 0xac, 0x95]);
    XorsTo(KEY5[..4], [0x62, 0x93, 0xac, 0x95], KEY6[..4]);
  }

  lemma Key6()
    ensures Expand(KEY0, 4, 28)[96..] == KEY6
  {
    hide Expand, Follows, Temp, XorWord;
    Key5();
    Chain6();
    Temp6();
    KeysTo(KEY0, 6, Expand(KEY0, 4, 24), KEY5, [0x62, 0x93, 0xac, 0x95], KEY6);
  }

  lemma TableKey7()
    ensures Sbox(0xa3) == 0x0a && Sbox(0x1f) == 0xc0 && Sbox(0x6b) == 0x7f && Sbox(0x0a) == 0x67
  {}

  lemma Chain7()
    ensures Follows(KEY6, KEY7)
  {
    hide Follows;
    FollowsIf(KEY6, KEY7);
  }

  lemma Temp7()
    ensures Temp(KEY6[12..], 28, 4) == [0x4a, 0xc0, 0x7f, 0x67]
    ensures XorWord(KEY6[..4], [0x4a, 0xc0, 0x7f, 0x67]) == KEY7[..4]
  {
    hide Sbox, Temp, XorWord;
    TableKey7();
    TempsTo(KEY6[12..], 7, [0x4a, 0xc0, 0x7f, 0x67]);
    XorsTo(KEY6[..4], [0x4a, 0xc0, 0x7f, 0x67], KEY7[..4]);
  }

  lemma Key7()
    ensures Expand(KEY0, 4, 32)[112..] == KEY7
  {
    hide Expand, Follows, Temp, XorWord;
    Key6();
    Chain7();
    Temp7();
    KeysTo(KEY0, 7, Expand(KEY0, 4, 28), KEY6, [0x4a, 0xc0, 0x7f, 0x67], KEY7);
  }

  lemma TableKey8()
    ensures Sbox(0xa9) == 0xd3 && Sbox(0xc0) == 0xba && Sbox(0x26) == 0xf7 && Sbox(0x4e) == 0x2f
  {}

  lemma Chain8()
    ensures Follows(KEY7, KEY8)
  {
    hide Follows;
    FollowsIf(KEY7, KEY8);
  }

  lemma Temp8()
    ensures Temp(KEY7[12..], 32, 4) == [0x53, 0xba, 0xf7, 0x2f]
    ensures XorWord(KEY7[..4], [0x53, 0xba, 0xf7, 0x2f]) == KEY8[..4]
  {
    hide Sbox, Temp, XorWord;
    TableKey8();
    TempsTo(KEY7[12..], 8, [0x53, 0xba, 0xf7, 0x2f]);
    XorsTo(KEY7[..4], [0x53, 0xba, 0xf7, 0x2f], KEY8[..4]);
  }

  lemma Key8()
    ensures Expand(KEY0, 4, 36)[128..] == KEY8
  {
    hide Expand, Follows, Temp, XorWord;
    Key7();
    Chain8();
    Temp8();
    KeysTo(KEY0, 8, Expand(KEY0, 4, 32), KEY7, [0x53, 0xba, 0xf7, 0x2f], KEY8);
  }

  lemma TableKey9()
    ensures Sbox(0xbf) == 0x08 && Sbox(0x7a) == 0xda && Sbox(0xd2) == 0xb5 && Sbox(0xae) == 0xe4
  {}

  lemma Chain9()
    ensures Follows(KEY8, KEY9)
  {
    hide Follows;
    FollowsIf(KEY8, KEY9);
  }

  lemma Temp9()
    ensures Temp(KEY8[12..], 36, 4) == [0x13, 0xda, 0xb5, 0xe4]
    ensures XorWord(KEY8[..4], [0x13, 0xda, 0xb5, 0xe4]) == KEY9[..4]
  {
    hide Sbox, Temp, XorWord;
    TableKey9();
    TempsTo(KEY8[12..], 9, [0x13, 0xda, 0xb5, 0xe4]);
    XorsTo(KEY8[..4], [0x13, 0xda, 0xb5, 0xe4], KEY9[..4]);
  }

  lemma Key9()
    ensures Expand(KEY0, 4, 40)[144..] == KEY9
  {
    hide Expand, Follows, Temp, XorWord;
    Key8();
    Chain9();
    Temp9();
    KeysTo(KEY0, 9, Expand(KEY0, 4, 36), KEY8, [0x13, 0xda, 0xb5, 0xe4], KEY9);
  }

  lemma TableKey10()
    ensures Sbox(0x2c) == 0x71 && Sbox(0x97) == 0x88 && Sbox(0x4e) == 0x2f && Sbox(0xbe) == 0xae
  {}

  lemma Chain10()
    ensures Follows(KEY9, KEY10)
  {
    hide Follows;
    FollowsIf(KEY9, KEY10);
  }

  lemma Temp10()
    ensures Temp(KEY9[12..], 40, 4) == [0x47, 0x88, 0x2f, 0xae]
    ensures XorWord(KEY9[..4], [0x47, 0x88, 0x2f, 0xae]) == KEY10[..4]
  {
    hide Sbox, Temp, XorWord;
    TableKey10();
    TempsTo(KEY9[12..], 10, [0x47, 0x88, 0x2f, 0xae]);
    XorsTo(KEY9[..4], [0x47, 0x88, 0x2f, 0xae], KEY10[..4]);
  }

  lemma Key10()
    ensures Expand(KEY0, 4, 44)[160..] == KEY10
  {
    hide Expand, Follows, Temp, XorWord;
    Key9();
    Chain10();
    Temp10();
    KeysTo(KEY0, 10, Expand(KEY0, 4, 40), KEY9, [0x47, 0x88, 0x2f, 0xae], KEY10);
  }

  // ----- the whole

  lemma {:induction false} ExpandGrows(key: seq<byte>, m: nat, n: nat)
    requires |key| == 16 && 4 <= m <= n <= 44
    ensures Expand(key, 4, m) <= Expand(key, 4, n)
  {
    hide Expand, XorWord, Temp;
    if m < n {
      ExpandGrows(key, m, n - 1);
      ExpandNext(key, 4, n - 1);
    }
  }

  lemma KeyOfRound(r: nat, k: State)
    requires r <= 10 && Expand(KEY0, 4, 4 * r + 4)[16 * r..] == k
    ensures RoundKey(Expand(KEY0, 4, 44), r) == k
  {
    hide Expand;
    ExpandGrows(KEY0, 4 * r + 4, 44);
  }

  lemma Start(rk: seq<byte>, k: State, x: State, y: State)
    requires |rk| == 176 && RoundKey(rk, 0) == k && AddRoundKey(x, k) == y
    ensures Forward(rk, x, 0) == y
  {
    hide AddRoundKey, RoundKey;
  }

  lemma NextRound(rk: seq<byte>, x: State, r: nat, s: State, t: State, m: State, k: State, y: State)
    requires 1 <= r <= 9 && |rk| == 176 && Forward(rk, x, r - 1) == s && ShiftRows(SubBytes(s)) == t
    requires MixColumns(t) == m && RoundKey(rk, r) == k && AddRoundKey(m, k) == y
    ensures Forward(rk, x, r) == y
  {
    hide AddRoundKey, MixColumns, ShiftRows, SubBytes, RoundKey;
  }

  lemma FirstAdd()
    ensures AddRoundKey(PLAIN, KEY0) == START1
  {
    hide AddRoundKey;
    AddsTo(PLAIN, KEY0, START1);
  }

  lemma LastAdd()
    ensures AddRoundKey(SHIFTED10, KEY10) == ANSWER
  {
    hide AddRoundKey;
    AddsTo(SHIFTED10, KEY10, ANSWER);
  }

  lemma Round0()
    ensures Forward(Expand(KEY0, 4, 44), PLAIN, 0) == START1
  {
    hide Expand, Forward, AddRoundKey, MixColumns, ShiftRows, SubBytes, RoundKey;
    ExpandStart(KEY0, 4);
    assert KEY0[0..] == KEY0;
    KeyOfRound(0, KEY0);
    FirstAdd();
    Start(Expand(KEY0, 4, 44), KEY0, PLAIN, START1);
  }

  lemma Round1()
    ensures Forward(Expand(KEY0, 4, 44), PLAIN, 1) == START2
  {
    hide Expand, Forward, AddRoundKey, MixColumns, ShiftRows, SubBytes, RoundKey;
    Round0();
    Key1();
    KeyOfRound(1, KEY1);
    Shift1();
    Mix1();
    Add1();
    NextRound(Expand(KEY0, 4, 44), PLAIN, 1, START1, SHIFTED1, MIXED1, KEY1, START2);
  }

  lemma Round2()
    ensures Forward(Expand(KEY0, 4, 44), PLAIN, 2) == START3
  {
    hide Expand, Forward, AddRoundKey, MixColumns, ShiftRows, SubBytes, RoundKey;
    Round1();
    Key2();
    KeyOfRound(2, KEY2);
    Shift2();
    Mix2();
    Add2();
    NextRound(Expand(KEY0, 4, 44), PLAIN, 2, START2, SHIFTED2, MIXED2, KEY2, START3);
  }

  lemma Round3()
    ensures Forward(Expand(KEY0, 4, 44), PLAIN, 3) == START4
  {
    hide Expand, Forward, AddRoundKey, MixColumns, ShiftRows, SubBytes, RoundKey;
    Round2();
    Key3();
    KeyOfRound(3, KEY3);
    Shift3();
    Mix3();
    Add3();
    NextRound(Expand(KEY0, 4, 44), PLAIN, 3, START3, SHIFTED3, MIXED3, KEY3, START4);
  }

  lemma Round4()
    ensures Forward(Expand(KEY0, 4, 44), PLAIN, 4) == START5
  {
    hide Expand, Forward, AddRoundKey, MixColumns, ShiftRows, SubBytes, RoundKey;
    Round3();
    Key4();
    KeyOfRound(4, KEY4);
    Shift4();
    Mix4();
    Add4();
    NextRound(Expand(KEY0, 4, 44), PLAIN, 4, START4, SHIFTED4, MIXED4, KEY4, START5);
  }

  lemma Round5()
    ensures Forward(Expand(KEY0, 4, 44), PLAIN, 5) == START6
  {
    hide Expand, Forward, AddRoundKey, MixColumns, ShiftRows, SubBytes, RoundKey;
    Round4();
    Key5();
    KeyOfRound(5, KEY5);
    Shift5();
    Mix5();
    Add5();
    NextRound(Expand(KEY0, 4, 44), PLAIN, 5, START5, SHIFTED5, MIXED5, KEY5, START6);
  }

  lemma Round6()
    ensures Forward(Expand(KEY0, 4, 44), PLAIN, 6) == START7
  {
    hide Expand, Forward, AddRoundKey, MixColumns, ShiftRows, SubBytes, RoundKey;
    Round5();
    Key6();
    KeyOfRound(6, KEY6);
    Shift6();
    Mix6();
    Add6();
    NextRound(Expand(KEY0, 4, 44), PLAIN, 6, START6, SHIFTED6, MIXED6, KEY6, START7);
  }

  lemma Round7()
    ensures Forward(Expand(KEY0, 4, 44), PLAIN, 7) == START8
  {
    hide Expand, Forward, AddRoundKey, MixColumns, ShiftRows, SubBytes, RoundKey;
    Round6();
    Key7();
    KeyOfRound(7, KEY7);
    Shift7();
    Mix7();
    Add7();
    NextRound(Expand(KEY0, 4, 44), PLAIN, 7, START7, SHIFTED7, MIXED7, KEY7, START8);
  }

  lemma Round8()
    ensures Forward(Expand(KEY0, 4, 44), PLAIN, 8) == START9
  {
    hide Expand, Forward, AddRoundKey, MixColumns, ShiftRows, SubBytes, RoundKey;
    Round7();
    Key8();
    KeyOfRound(8, KEY8);
    Shift8();
    Mix8();
    Add8();
    NextRound(Expand(KEY0, 4, 44), PLAIN, 8, START8, SHIFTED8, MIXED8, KEY8, START9);
  }

  lemma Round9()
    ensures Forward(Expand(KEY0, 4, 44), PLAIN, 9) == START10
  {
    hide Expand, Forward, AddRoundKey, MixColumns, ShiftRows, SubBytes, RoundKey;
    Round8();
    Key9();
    KeyOfRound(9, KEY9);
    Shift9();
    Mix9();
    Add9();
    NextRound(Expand(KEY0, 4, 44), PLAIN, 9, START9, SHIFTED9, MIXED9, KEY9, START10);
  }

  /** Appendix C.1 of FIPS 197: this key makes this block of that one, and back. */
  lemma KnownAnswer()
    ensures Encrypted(KEY0, PLAIN) == ANSWER && Decrypted(KEY0, ANSWER) == PLAIN
  {
    hide Expand, Forward, AddRoundKey, ShiftRows, SubBytes, RoundKey, Cipher, InvCipher;
    Round9();
    Key10();
    KeyOfRound(10, KEY10);
    Shift10();
    LastAdd();
    CipherIs(Expand(KEY0, 4, 44), PLAIN, START10, SHIFTED10, KEY10, ANSWER);
    RoundTrip(KEY0, PLAIN);
  }

  lemma CipherIs(rk: seq<byte>, x: State, s: State, t: State, k: State, y: State)
    requires |rk| == 176 && Forward(rk, x, 9) == s && ShiftRows(SubBytes(s)) == t
    requires RoundKey(rk, 10) == k && AddRoundKey(t, k) == y
    ensures Cipher(rk, 10, x) == y
  {
    hide AddRoundKey, ShiftRows, SubBytes, RoundKey, Forward;
  }

  // ----- a longer key

  const LONG: seq<byte> := [0x60, 0x3d, 0xeb, 0x10, 0x15, 0xca, 0x71, 0xbe,
                            0x2b, 0x73, 0xae, 0xf0, 0x85, 0x7d, 0x77, 0x81,
                            0x1f, 0x35, 0x2c, 0x07, 0x3b, 0x61, 0x08, 0xd7,
                            0x2d, 0x98, 0x10, 0xa3, 0x09, 0x14, 0xdf, 0xf4]
  const NEW1: seq<byte> := [0x9b, 0xa3, 0x54, 0x11]
  const NEW2: seq<byte> := [0x9b, 0xa3, 0x54, 0x11, 0x8e, 0x69, 0x25, 0xaf]
  const NEW3: seq<byte> := [0x9b, 0xa3, 0x54, 0x11, 0x8e, 0x69, 0x25, 0xaf, 0xa5, 0x1a, 0x8b, 0x5f]
  const NEW4: seq<byte> := [0x9b, 0xa3, 0x54, 0x11, 0x8e, 0x69, 0x25, 0xaf, 0xa5, 0x1a, 0x8b, 0x5f,
                            0x20, 0x67, 0xfc, 0xde]
  const NEW5: seq<byte> := [0x9b, 0xa3, 0x54, 0x11, 0x8e, 0x69, 0x25, 0xaf, 0xa5, 0x1a, 0x8b, 0x5f,
                            0x20, 0x67, 0xfc, 0xde, 0xa8, 0xb0, 0x9c, 0x1a]
  const NEW6: seq<byte> := [0x9b, 0xa3, 0x54, 0x11, 0x8e, 0x69, 0x25, 0xaf, 0xa5, 0x1a, 0x8b, 0x5f,
                            0x20, 0x67, 0xfc, 0xde, 0xa8, 0xb0, 0x9c, 0x1a, 0x93, 0xd1, 0x94, 0xcd]
  const NEW7: seq<byte> := [0x9b, 0xa3, 0x54, 0x11, 0x8e, 0x69, 0x25, 0xaf, 0xa5, 0x1a, 0x8b, 0x5f,
                            0x20, 0x67, 0xfc, 0xde, 0xa8, 0xb0, 0x9c, 0x1a, 0x93, 0xd1, 0x94, 0xcd,
                            0xbe, 0x49, 0x84, 0x6e]
  const NEW8: seq<byte> := [0x9b, 0xa3, 0x54, 0x11, 0x8e, 0x69, 0x25, 0xaf, 0xa5, 0x1a, 0x8b, 0x5f,
                            0x20, 0x67, 0xfc, 0xde, 0xa8, 0xb0, 0x9c, 0x1a, 0x93, 0xd1, 0x94, 0xcd,
                            0xbe, 0x49, 0x84, 0x6e, 0xb7, 0x5d, 0x5b, 0x9a]

  lemma LongTemp(v: seq<byte>, n: nat)
    requires |v| == 4 && 8 <= n < 16
    ensures n != 8 && n != 12 ==> Temp(v, n, 8) == v
    ensures n == 12 ==> Temp(v, n, 8) == [Sbox(v[0]), Sbox(v[1]), Sbox(v[2]), Sbox(v[3])]
    ensures n == 8 ==> Temp(v, n, 8) == [Sbox(v[1]) ^ 1, Sbox(v[2]), Sbox(v[3]), Sbox(v[0])]
  {
    hide Sbox, XorWord, Temp, SubWord, RotWord;
    TempIs(v, n, 8);
    SubRot(v);
    SubAll(v);
    XorHead(SubWord(RotWord(v)), RCON[0]);
  }

  lemma SubAll(w: seq<byte>)
    requires |w| == 4
    ensures SubWord(w) == [Sbox(w[0]), Sbox(w[1]), Sbox(w[2]), Sbox(w[3])]
  {
    hide Sbox;
  }

  lemma LongTable8()
    ensures Sbox(0x09) == 0x01 && Sbox(0x14) == 0xfa && Sbox(0xdf) == 0x9e && Sbox(0xf4) == 0xbf
  {}

  lemma Long8()
    ensures Expand(LONG, 8, 9) == LONG + NEW1
  {
    hide Expand, Sbox, Temp, XorWord, Plus;
    ExpandStart(LONG, 8);
    LongTable8();
    var w: seq<byte>, v: seq<byte>, t: seq<byte>, y: seq<byte> :=
      [0x60, 0x3d, 0xeb, 0x10], [0x09, 0x14, 0xdf, 0xf4],
      [0xfb, 0x9e, 0xbf, 0x01], [0x9b, 0xa3, 0x54, 0x11];
    WordAre(LONG, 0, w);
    WordAre(LONG, 7, v);
    LongTemp(v, 8);
    Xor4(w, t, y);
    OneWord(LONG, 8, 8, LONG, w, v, y);
    assert y == NEW1;
  }

  lemma Long9()
    ensures Expand(LONG, 8, 10) == LONG + NEW2
  {
    hide Expand, Sbox, Temp, XorWord, Plus;
    Long8();
    var w: seq<byte>, v: seq<byte>, t: seq<byte>, y: seq<byte> :=
      [0x15, 0xca, 0x71, 0xbe], [0x9b, 0xa3, 0x54, 0x11],
      [0x9b, 0xa3, 0x54, 0x11], [0x8e, 0x69, 0x25, 0xaf];
    WordAre(LONG + NEW1, 1, w);
    WordAre(LONG + NEW1, 8, v);
    LongTemp(v, 9);
    Xor4(w, t, y);
    OneWord(LONG, 8, 9, LONG + NEW1, w, v, y);
    assert LONG + NEW1 + y == LONG + NEW2;
  }

  lemma Long10()
    ensures Expand(LONG, 8, 11) == LONG + NEW3
  {
    hide Expand, Sbox, Temp, XorWord, Plus;
    Long9();
    var w: seq<byte>, v: seq<byte>, t: seq<byte>, y: seq<byte> :=
      [0x2b, 0x73, 0xae, 0xf0], [0x8e, 0x69, 0x25, 0xaf],
      [0x8e, 0x69, 0x25, 0xaf], [0xa5, 0x1a, 0x8b, 0x5f];
    WordAre(LONG + NEW2, 2, w);
    WordAre(LONG + NEW2, 9, v);
    LongTemp(v, 10);
    Xor4(w, t, y);
    OneWord(LONG, 8, 10, LONG + NEW2, w, v, y);
    assert LONG + NEW2 + y == LONG + NEW3;
  }

  lemma Long11()
    ensures Expand(LONG, 8, 12) == LONG + NEW4
  {
    hide Expand, Sbox, Temp, XorWord, Plus;
    Long10();
    var w: seq<byte>, v: seq<byte>, t: seq<byte>, y: seq<byte> :=
      [0x85, 0x7d, 0x77, 0x81], [0xa5, 0x1a, 0x8b, 0x5f],
      [0xa5, 0x1a, 0x8b, 0x5f], [0x20, 0x67, 0xfc, 0xde];
    WordAre(LONG + NEW3, 3, w);
    WordAre(LONG + NEW3, 10, v);
    LongTemp(v, 11);
    Xor4(w, t, y);
    OneWord(LONG, 8, 11, LONG + NEW3, w, v, y);
    assert LONG + NEW3 + y == LONG + NEW4;
  }

  lemma LongTable12()
    ensures Sbox(0x20) == 0xb7 && Sbox(0x67) == 0x85 && Sbox(0xfc) == 0xb0 && Sbox(0xde) == 0x1d
  {}

  lemma Long12()
    ensures Expand(LONG, 8, 13) == LONG + NEW5
  {
    hide Expand, Sbox, Temp, XorWord, Plus;
    Long11();
    LongTable12();
    var w: seq<byte>, v: seq<byte>, t: seq<byte>, y: seq<byte> :=
      [0x1f, 0x35, 0x2c, 0x07], [0x20, 0x67, 0xfc, 0xde],
      [0xb7, 0x85, 0xb0, 0x1d], [0xa8, 0xb0, 0x9c, 0x1a];
    WordAre(LONG + NEW4, 4, w);
    WordAre(LONG + NEW4, 11, v);
    LongTemp(v, 12);
    Xor4(w, t, y);
    OneWord(LONG, 8, 12, LONG + NEW4, w, v, y);
    assert LONG + NEW4 + y == LONG + NEW5;
  }

  lemma Long13()
    ensures Expand(LONG, 8, 14) == LONG + NEW6
  {
    hide Expand, Sbox, Temp, XorWord, Plus;
    Long12();
    var w: seq<byte>, v: seq<byte>, t: seq<byte>, y: seq<byte> :=
      [0x3b, 0x61, 0x08, 0xd7], [0xa8, 0xb0, 0x9c, 0x1a],
      [0xa8, 0xb0, 0x9c, 0x1a], [0x93, 0xd1, 0x94, 0xcd];
    WordAre(LONG + NEW5, 5, w);
    WordAre(LONG + NEW5, 12, v);
    LongTemp(v, 13);
    Xor4(w, t, y);
    OneWord(LONG, 8, 13, LONG + NEW5, w, v, y);
    assert LONG + NEW5 + y == LONG + NEW6;
  }

  lemma Long14()
    ensures Expand(LONG, 8, 15) == LONG + NEW7
  {
    hide Expand, Sbox, Temp, XorWord, Plus;
    Long13();
    var w: seq<byte>, v: seq<byte>, t: seq<byte>, y: seq<byte> :=
      [0x2d, 0x98, 0x10, 0xa3], [0x93, 0xd1, 0x94, 0xcd],
      [0x93, 0xd1, 0x94, 0xcd], [0xbe, 0x49, 0x84, 0x6e];
    WordAre(LONG + NEW6, 6, w);
    WordAre(LONG + NEW6, 13, v);
    LongTemp(v, 14);
    Xor4(w, t, y);
    OneWord(LONG, 8, 14, LONG + NEW6, w, v, y);
    assert LONG + NEW6 + y == LONG + NEW7;
  }

  lemma Long15()
    ensures Expand(LONG, 8, 16) == LONG + NEW8
  {
    hide Expand, Sbox, Temp, XorWord, Plus;
    Long14();
    var w: seq<byte>, v: seq<byte>, t: seq<byte>, y: seq<byte> :=
      [0x09, 0x14, 0xdf, 0xf4], [0xbe, 0x49, 0x84, 0x6e],
      [0xbe, 0x49, 0x84, 0x6e], [0xb7, 0x5d, 0x5b, 0x9a];
    WordAre(LONG + NEW7, 7, w);
    WordAre(LONG + NEW7, 14, v);
    LongTemp(v, 15);
    Xor4(w, t, y);
    OneWord(LONG, 8, 15, LONG + NEW7, w, v, y);
    assert LONG + NEW7 + y == LONG + NEW8;
  }

  lemma WordAre(s: seq<byte>, i: nat, w: seq<byte>)
    requires 4 * i + 4 <= |s| && |w| == 4 && s[4 * i] == w[0] && s[4 * i + 1] == w[1] && s[4 * i + 2] == w[2]
    requires s[4 * i + 3] == w[3]
    ensures Word(s, i) == w
  {}

  lemma Xor4(u: seq<byte>, v: seq<byte>, y: seq<byte>)
    requires |u| == |v| == |y| == 4
    requires y[0] == u[0] ^ v[0] && y[1] == u[1] ^ v[1] && y[2] == u[2] ^ v[2] && y[3] == u[3] ^ v[3]
    ensures XorWord(u, v) == y
  {
    XorWordIs(u, v);
  }

  /** Words 8 to 15 of the schedule in appendix A.3 of FIPS 197. */
  lemma KnownSchedule()
    ensures Expand(LONG, 8, 16) == LONG + NEW8
  {
    hide Expand;
    Long15();
  }
}
