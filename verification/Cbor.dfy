/**
 CBOR (RFC 8949) over fixed buffers: heads of at most five bytes, the flat encoder and decoder calls,
 and the recursive skip.
 */
module Cbor {
  import Radix

  type byte = x: int | 0 <= x < 0x100

  datatype Status = OK | ErrOverflow | ErrUnderflow | ErrType | ErrCorrupt

  const UINT := 0
  const NEGINT := 1
  const BSTR := 2
  const TSTR := 3
  const ARRAY := 4
  const MAP := 5
  const SIMPLE := 7

  const FALSE := 20
  const TRUE := 21
  const NULL := 22

  // ----- heads

  predicate IsMajor(m: int) {
    0 <= m < 8
  }

  predicate IsArgument(v: int) {
    0 <= v < 0x1_0000_0000
  }

  function HeadSize(v: int): nat {
    if v <= 23 then 1 else if v <= 0xFF then 2 else if v <= 0xFFFF then 3 else 5
  }

  /** Byte k of an argument, the lowest first. */
  function Part(v: int, k: nat): byte
    requires v >= 0 && k < 4
  {
    if k == 0 then v % 0x100
    else if k == 1 then v / 0x100 % 0x100
    else if k == 2 then v / 0x1_0000 % 0x100
    else v / 0x100_0000 % 0x100
  }

  /** The head of a major type and its argument. */
  function Head(m: int, v: int): (h: seq<byte>)
    requires IsMajor(m) && IsArgument(v)
    ensures |h| == HeadSize(v)
  {
    if v <= 23 then [32 * m + v]
    else if v <= 0xFF then [32 * m + 24, v]
    else if v <= 0xFFFF then [32 * m + 25, Part(v, 1), Part(v, 0)]
    else [32 * m + 26, Part(v, 3), Part(v, 2), Part(v, 1), Part(v, 0)]
  }

  function Join(a: int, b: int, c: int, d: int): int {
    0x100_0000 * a + 0x1_0000 * b + 0x100 * c + d
  }

  datatype Read = Read(rc: Status, major: int, value: int, consumed: nat)

  /** What the decoder makes of the bytes at its position. */
  function ReadHead(s: seq<byte>): (h: Read)
    ensures h.rc == OK ==> IsMajor(h.major) && IsArgument(h.value) && 1 <= h.consumed <= |s|
    ensures h.rc == OK || h.rc == ErrUnderflow || h.rc == ErrCorrupt
  {
    if |s| == 0 then Read(ErrUnderflow, 0, 0, 0)
    else
      var m, ai := s[0] / 32, s[0] % 32;
      if ai <= 23 then Read(OK, m, ai, 1)
      else if ai == 24 then if |s| < 2 then Read(ErrUnderflow, m, 0, 0) else Read(OK, m, s[1], 2)
      else if ai == 25 then if |s| < 3 then Read(ErrUnderflow, m, 0, 0) else Read(OK, m, Join(0, 0, s[1], s[2]), 3)
      else if ai == 26 then if |s| < 5 then Read(ErrUnderflow, m, 0, 0)
        else Read(OK, m, Join(s[1], s[2], s[3], s[4]), 5)
      else Read(ErrCorrupt, m, 0, 0)
  }

  lemma Parts(v: int)
    requires IsArgument(v)
    ensures v == Join(Part(v, 3), Part(v, 2), Part(v, 1), Part(v, 0))
    ensures v <= 0xFFFF ==> v == Join(0, 0, Part(v, 1), Part(v, 0))
  {
    var a := v / 0x100;
    var b := a / 0x100;
    assert v / 0x1_0000 == b && v / 0x100_0000 == b / 0x100 && b / 0x100 < 0x100;
  }

  /** A head is read back, whatever follows it. */
  lemma ReadHeadHead(m: int, v: int, rest: seq<byte>)
    requires IsMajor(m) && IsArgument(v)
    ensures ReadHead(Head(m, v) + rest) == Read(OK, m, v, HeadSize(v))
  {
    hide Part, Join;
    var s := Head(m, v) + rest;
    Parts(v);
    if v <= 23 {
      Initial(m, v);
      assert s[0] == 32 * m + v;
    } else if v <= 0xFF {
      Initial(m, 24);
      assert s[0] == 32 * m + 24 && s[1] == v;
    } else if v <= 0xFFFF {
      Initial(m, 25);
      assert s[0] == 32 * m + 25 && s[1] == Part(v, 1) && s[2] == Part(v, 0);
    } else {
      Initial(m, 26);
      assert s[0] == 32 * m + 26 && s[1] == Part(v, 3) && s[2] == Part(v, 2);
      assert s[3] == Part(v, 1) && s[4] == Part(v, 0);
    }
  }

  lemma Initial(m: int, a: int)
    requires 0 <= a < 32
    ensures (32 * m + a) / 32 == m && (32 * m + a) % 32 == a
  {}

  /**
   No reading of a major type and argument takes fewer bytes than their head, and one that takes as many is the head.
   */
  lemma HeadShortest(s: seq<byte>)
    requires ReadHead(s).rc == OK
    ensures var h := ReadHead(s);
            && HeadSize(h.value) <= h.consumed
            && (HeadSize(h.value) == h.consumed ==> s[..h.consumed] == Head(h.major, h.value))
  {
    var h := ReadHead(s);
    if |s| >= 5 && h.consumed == 5 {
      Unparts(s[1], s[2], s[3], s[4]);
    } else if h.consumed == 3 {
      Unparts(0, 0, s[1], s[2]);
    }
  }

  lemma Unparts(a: byte, b: byte, c: byte, d: byte)
    ensures var v := Join(a, b, c, d);
            v >= 0 && Part(v, 3) == a && Part(v, 2) == b && Part(v, 1) == c && Part(v, 0) == d
  {
    var v, v1, v2 := Join(a, b, c, d), Join(0, a, b, c), Join(0, 0, a, b);
    LowByte(v1, d);
    LowByte(v2, c);
    LowByte(a, b);
    assert v / 0x1_0000 == v / 0x100 / 0x100 && v / 0x100_0000 == v / 0x1_0000 / 0x100;
  }

  lemma LowByte(x: int, d: byte)
    ensures (0x100 * x + d) / 0x100 == x && (0x100 * x + d) % 0x100 == d
  {}

  /** A head is read from its own bytes alone. */
  lemma ReadHeadLocal(s: seq<byte>, t: seq<byte>)
    requires ReadHead(s).rc == OK
    ensures ReadHead(s[..ReadHead(s).consumed] + t) == ReadHead(s)
  {}

  // ----- the flat calls

  /** One call of the encoder, and what one call of the decoder gives. */
  datatype Token =
    | UInt(value: int)
    | NegInt(value: int)
    | ByteString(data: seq<byte>)
    | TextString(data: seq<byte>)
    | ArrayOf(count: int)
    | MapOf(count: int)
    | Bool(b: bool)
    | Null

  /** The arguments the calls' types admit. */
  predicate Admitted(t: Token) {
    match t
    case UInt(v) => IsArgument(v)
    case NegInt(v) => IsArgument(v)
    case ByteString(d) => |d| <= 0xFFFF
    case TextString(d) => |d| <= 0xFFFF
    case ArrayOf(n) => 0 <= n <= 0xFFFF
    case MapOf(n) => 0 <= n <= 0xFFFF
    case Bool(_) => true
    case Null => true
  }

  function Encoded(t: Token): (s: seq<byte>)
    requires Admitted(t)
    ensures |s| >= 1
  {
    match t
    case UInt(v) => Head(UINT, v)
    case NegInt(v) => Head(NEGINT, v)
    case ByteString(d) => Head(BSTR, |d|) + d
    case TextString(d) => Head(TSTR, |d|) + d
    case ArrayOf(n) => Head(ARRAY, n)
    case MapOf(n) => Head(MAP, n)
    case Bool(b) => Head(SIMPLE, if b then TRUE else FALSE)
    case Null => Head(SIMPLE, NULL)
  }

  datatype Decoded = Decoded(rc: Status, token: Token, moved: nat)

  /** A head of an expected type. */
  function TypedHead(s: seq<byte>, expected: int): (h: Read)
    ensures h.rc == OK ==> h.major == expected && IsArgument(h.value) && 1 <= h.consumed <= |s|
  {
    var h := ReadHead(s);
    if h.rc != OK then Read(h.rc, h.major, h.value, 0)
    else if h.major != expected then Read(ErrType, h.major, h.value, 0)
    else h
  }

  /** The decoder's calls. `moved` says how far the position goes, in the error cases too. */
  function DecodeArgument(s: seq<byte>, major: int): (d: Decoded)
    requires major == UINT || major == NEGINT
  {
    var h := TypedHead(s, major);
    Decoded(h.rc, if major == UINT then UInt(h.value) else NegInt(h.value), h.consumed)
  }

  function DecodeString(s: seq<byte>, major: int): (d: Decoded)
    requires major == BSTR || major == TSTR
    ensures d.moved <= |s|
  {
    var h := TypedHead(s, major);
    if h.rc != OK then Decoded(h.rc, Null, 0)
    else if h.value > 0xFFFF then Decoded(ErrCorrupt, Null, h.consumed)
    else if h.consumed + h.value > |s| then Decoded(ErrUnderflow, Null, h.consumed)
    else
      var data := s[h.consumed..h.consumed + h.value];
      Decoded(OK, if major == BSTR then ByteString(data) else TextString(data), h.consumed + h.value)
  }

  function DecodeCount(s: seq<byte>, major: int): (d: Decoded)
    requires major == ARRAY || major == MAP
  {
    var h := TypedHead(s, major);
    if h.rc != OK then Decoded(h.rc, Null, 0)
    else if h.value > 0xFFFF then Decoded(ErrCorrupt, Null, h.consumed)
    else Decoded(OK, if major == ARRAY then ArrayOf(h.value) else MapOf(h.value), h.consumed)
  }

  function DecodeBool(s: seq<byte>): (d: Decoded) {
    var h := TypedHead(s, SIMPLE);
    if h.rc != OK then Decoded(h.rc, Null, 0)
    else if h.value == TRUE then Decoded(OK, Bool(true), h.consumed)
    else if h.value == FALSE then Decoded(OK, Bool(false), h.consumed)
    else Decoded(ErrType, Null, h.consumed)
  }

  function DecodeNull(s: seq<byte>): (d: Decoded) {
    var h := TypedHead(s, SIMPLE);
    if h.rc != OK then Decoded(h.rc, Null, 0)
    else if h.value != NULL then Decoded(ErrType, Null, h.consumed)
    else Decoded(OK, Null, h.consumed)
  }

  /** The call that decodes the kind of token that t is. */
  function DecodeLike(t: Token, s: seq<byte>): Decoded {
    match t
    case UInt(_) => DecodeArgument(s, UINT)
    case NegInt(_) => DecodeArgument(s, NEGINT)
    case ByteString(_) => DecodeString(s, BSTR)
    case TextString(_) => DecodeString(s, TSTR)
    case ArrayOf(_) => DecodeCount(s, ARRAY)
    case MapOf(_) => DecodeCount(s, MAP)
    case Bool(_) => DecodeBool(s)
    case Null => DecodeNull(s)
  }

  /** Each call reads back what its counterpart wrote, and nothing more. */
  lemma DecodeEncoded(t: Token, rest: seq<byte>)
    requires Admitted(t)
    ensures DecodeLike(t, Encoded(t) + rest) == Decoded(OK, t, |Encoded(t)|)
  {
    hide Head, ReadHead, HeadSize;
    match t
    case UInt(v) => ReadHeadHead(UINT, v, rest);
    case NegInt(v) => ReadHeadHead(NEGINT, v, rest);
    case ByteString(d) =>
      StringAfter(BSTR, d, rest);
    case TextString(d) =>
      StringAfter(TSTR, d, rest);
    case ArrayOf(n) => ReadHeadHead(ARRAY, n, rest);
    case MapOf(n) => ReadHeadHead(MAP, n, rest);
    case Bool(b) => ReadHeadHead(SIMPLE, if b then TRUE else FALSE, rest);
    case Null => ReadHeadHead(SIMPLE, NULL, rest);
  }

  lemma StringAfter(major: int, d: seq<byte>, rest: seq<byte>)
    requires (major == BSTR || major == TSTR) && |d| <= 0xFFFF
    ensures var s := Head(major, |d|) + d + rest;
            DecodeString(s, major)
            == Decoded(OK, if major == BSTR then ByteString(d) else TextString(d), HeadSize(|d|) + |d|)
  {
    hide Head, ReadHead, HeadSize;
    var h := Head(major, |d|);
    assert h + d + rest == h + (d + rest);
    ReadHeadHead(major, |d|, d + rest);
    assert (h + d + rest)[|h|..|h| + |d|] == d;
  }

  /** A run of encoder calls. */
  function EncodedAll(ts: seq<Token>): seq<byte>
    requires forall i :: 0 <= i < |ts| ==> Admitted(ts[i])
  {
    if ts == [] then [] else Encoded(ts[0]) + EncodedAll(ts[1..])
  }

  /** The same run of decoder calls succeeds throughout and gives the same tokens. */
  predicate DecodesTo(ts: seq<Token>, s: seq<byte>) {
    ts == [] ||
    (var d := DecodeLike(ts[0], s);
     d.rc == OK && d.token == ts[0] && d.moved <= |s| && DecodesTo(ts[1..], s[d.moved..]))
  }

  lemma {:induction false} DecodeAllEncoded(ts: seq<Token>, rest: seq<byte>)
    requires forall i :: 0 <= i < |ts| ==> Admitted(ts[i])
    ensures DecodesTo(ts, EncodedAll(ts) + rest)
  {
    hide Encoded, DecodeLike;
    if ts != [] {
      var e := Encoded(ts[0]);
      assert EncodedAll(ts) + rest == e + (EncodedAll(ts[1..]) + rest);
      DecodeEncoded(ts[0], EncodedAll(ts[1..]) + rest);
      assert (EncodedAll(ts) + rest)[|e|..] == EncodedAll(ts[1..]) + rest;
      DecodeAllEncoded(ts[1..], rest);
    }
  }

  /**
   When the bytes run out, the position stays where it was exactly when already the head was incomplete: a string
   whose head is there but whose data is not leaves the position between the two.
   */
  lemma UnderflowPosition(t: Token, s: seq<byte>)
    requires DecodeLike(t, s).rc == ErrUnderflow
    ensures DecodeLike(t, s).moved == 0 <==> ReadHead(s).rc == ErrUnderflow
  {}

  lemma HeadTruncated(m: int, v: int, n: nat)
    requires IsMajor(m) && IsArgument(v) && n < HeadSize(v)
    ensures ReadHead(Head(m, v)[..n]).rc == ErrUnderflow
  {
    if n > 0 {
      Initial(m, if v <= 0xFF then 24 else if v <= 0xFFFF then 25 else 26);
    }
  }

  /** The length of a token's head. */
  function HeadLength(t: Token): (n: nat)
    requires Admitted(t)
    ensures n <= |Encoded(t)|
  {
    if t.ByteString? || t.TextString? then HeadSize(|t.data|) else |Encoded(t)|
  }

  /** A token cut short is reported as such, wherever the cut is; the position moves only over a string's whole head. */
  lemma DecodeTruncated(t: Token, n: nat)
    requires Admitted(t) && n < |Encoded(t)|
    ensures var d := DecodeLike(t, Encoded(t)[..n]);
            d.rc == ErrUnderflow && d.moved == if n < HeadLength(t) then 0 else HeadLength(t)
  {
    hide Head, ReadHead, HeadSize;
    match t
    case UInt(v) => HeadTruncated(UINT, v, n);
    case NegInt(v) => HeadTruncated(NEGINT, v, n);
    case ByteString(d) => StringTruncated(BSTR, d, n);
    case TextString(d) => StringTruncated(TSTR, d, n);
    case ArrayOf(c) => HeadTruncated(ARRAY, c, n);
    case MapOf(c) => HeadTruncated(MAP, c, n);
    case Bool(b) => HeadTruncated(SIMPLE, if b then TRUE else FALSE, n);
    case Null => HeadTruncated(SIMPLE, NULL, n);
  }

  lemma StringTruncated(major: int, d: seq<byte>, n: nat)
    requires (major == BSTR || major == TSTR) && |d| <= 0xFFFF && n < HeadSize(|d|) + |d|
    ensures var c := DecodeString((Head(major, |d|) + d)[..n], major);
            c.rc == ErrUnderflow && c.moved == if n < HeadSize(|d|) then 0 else HeadSize(|d|)
  {
    hide Head, ReadHead, HeadSize;
    var h := Head(major, |d|);
    if n < |h| {
      HeadTruncated(major, |d|, n);
      assert (h + d)[..n] == h[..n];
    } else {
      assert (h + d)[..n] == h + d[..n - |h|];
      ReadHeadHead(major, |d|, d[..n - |h|]);
    }
  }

  /** For one, the head of a one-byte string alone. */
  lemma UnderflowMoves()
    ensures var d := DecodeString([0x41], BSTR); d.rc == ErrUnderflow && d.moved == 1
  {
    assert ReadHead([0x41]) == Read(OK, BSTR, 1, 1);
  }

  // ----- what the bytes mean

  /**
   A head of section 3 of RFC 8949: the initial byte holds the major type in its upper three bits, so that `base` is a
   multiple of 0x20, and below them the argument or 24, 25 or 26 for an argument in the next one, two or four bytes.
   */
  ghost predicate HeadMeans(h: seq<byte>, base: int, a: int) {
    || (a <= 23 && h == [base + a])
    || (|h| == 2 && h[0] == base + 24 && Radix.BeVal(h[1..]) == a)
    || (|h| == 3 && h[0] == base + 25 && Radix.BeVal(h[1..]) == a)
    || (|h| == 5 && h[0] == base + 26 && Radix.BeVal(h[1..]) == a)
  }

  /** The bytes are an encoding of the token, with an argument of any admitted width. */
  ghost predicate Means(s: seq<byte>, t: Token) {
    match t
    case UInt(v) => HeadMeans(s, 0x00, v)
    case NegInt(v) => HeadMeans(s, 0x20, v)
    case ByteString(d) => |d| <= |s| && s[|s| - |d|..] == d && HeadMeans(s[..|s| - |d|], 0x40, |d|)
    case TextString(d) => |d| <= |s| && s[|s| - |d|..] == d && HeadMeans(s[..|s| - |d|], 0x60, |d|)
    case ArrayOf(n) => HeadMeans(s, 0x80, n)
    case MapOf(n) => HeadMeans(s, 0xA0, n)
    case Bool(b) => s == if b then [0xF5] else [0xF4]
    case Null => s == [0xF6]
  }

  lemma BeBytes(a: byte, b: byte, c: byte, d: byte)
    ensures Radix.BeVal([a]) == a && Radix.BeVal([a, b]) == Join(0, 0, a, b)
    ensures Radix.BeVal([a, b, c, d]) == Join(a, b, c, d)
  {
    var s: seq<int> := [a, b, c, d];
    assert s[..3][..2] == [a, b] && s[..2][..1] == [a] && s[..1][..0] == [];
    assert s[..3] == [a, b, c];
    assert Radix.BeVal([a]) == a;
    assert [a as int, b as int][..1] == [a];
    assert [a as int, b as int, c as int][..2] == [a, b];
  }

  /** A head that is read from s is one, for the major type and argument found. */
  lemma ReadHeadMeans(s: seq<byte>)
    requires ReadHead(s).rc == OK
    ensures var h := ReadHead(s); HeadMeans(s[..h.consumed], 0x20 * h.major, h.value)
  {
    hide Join, Radix.BeVal;
    var h := ReadHead(s);
    var m, ai := s[0] / 32, s[0] % 32;
    assert s[0] == 0x20 * m + ai;
    if ai <= 23 {
      assert s[..1] == [s[0]];
    } else if ai == 24 {
      BeBytes(s[1], 0, 0, 0);
      assert s[..2][1..] == [s[1]];
    } else if ai == 25 {
      BeBytes(s[1], s[2], 0, 0);
      assert s[..3][1..] == [s[1], s[2]];
    } else {
      BeBytes(s[1], s[2], s[3], s[4]);
      assert s[..5][1..] == [s[1], s[2], s[3], s[4]];
    }
  }

  /**
   What a decoder accepts is an encoding of the token it gives. For booleans and null that holds exactly when one byte
   was taken: the decoder also accepts their numbers in a longer head, which is no encoding of theirs.
   */
  lemma DecodedMeans(t: Token, s: seq<byte>)
    requires DecodeLike(t, s).rc == OK
    ensures var d := DecodeLike(t, s);
            && d.moved <= |s| && (d.token.UInt? <==> t.UInt?) && (d.token.NegInt? <==> t.NegInt?)
            && (Means(s[..d.moved], d.token) <==> !(t.Bool? || t.Null?) || d.moved == 1)
  {
    hide ReadHead, HeadMeans, Radix.BeVal;
    var h := ReadHead(s);
    ReadHeadMeans(s);
    if t.ByteString? || t.TextString? {
      var d := DecodeLike(t, s);
      assert s[..d.moved][h.consumed..] == s[h.consumed..d.moved];
      assert s[..d.moved][..h.consumed] == s[..h.consumed];
    } else if t.Bool? || t.Null? {
      SimpleHead(s);
    }
  }

  lemma SimpleHead(s: seq<byte>)
    requires ReadHead(s).rc == OK && ReadHead(s).major == SIMPLE
    ensures var h := ReadHead(s);
            h.consumed == 1 ==> h.value <= 23 && s[..1] == [0xE0 + h.value]
  {
    var h := ReadHead(s);
    if h.consumed == 1 {
      assert s[0] == 0x20 * (s[0] / 32) + s[0] % 32;
    }
  }

  /** The shortest such bytes that are not: false as simple value 20 in two bytes. */
  lemma LongFalse()
    ensures DecodeBool([0xF8, 0x14]) == Decoded(OK, Bool(false), 2) && !Means([0xF8, 0x14], Bool(false))
  {
    assert ReadHead([0xF8, 0x14]) == Read(OK, SIMPLE, 20, 2);
  }

  /** The encoder writes an encoding of the token, the one whose argument is shortest. */
  lemma EncodedMeans(t: Token)
    requires Admitted(t)
    ensures Means(Encoded(t), t)
    ensures forall s {:trigger Means(s, t)} :: Means(s, t) ==> |Encoded(t)| <= |s|
  {
    hide Radix.BeVal;
    DecodeEncoded(t, []);
    assert Encoded(t) + [] == Encoded(t);
    assert Encoded(t)[..|Encoded(t)|] == Encoded(t);
    DecodedMeans(t, Encoded(t));
    forall s | Means(s, t)
      ensures |Encoded(t)| <= |s|
    {
      ShortestMeans(t, s);
    }
  }

  lemma ShortestMeans(t: Token, s: seq<byte>)
    requires Admitted(t) && Means(s, t)
    ensures |Encoded(t)| <= |s|
  {
    hide Radix.BeVal, HeadMeans, Head, HeadSize;
    match t
    case UInt(v) => ShortestHead(s, 0x00, v);
    case NegInt(v) => ShortestHead(s, 0x20, v);
    case ByteString(d) => ShortestHead(s[..|s| - |d|], 0x40, |d|);
    case TextString(d) => ShortestHead(s[..|s| - |d|], 0x60, |d|);
    case ArrayOf(n) => ShortestHead(s, 0x80, n);
    case MapOf(n) => ShortestHead(s, 0xA0, n);
    case Bool(b) => SimpleSize(if b then TRUE else FALSE);
    case Null => SimpleSize(NULL);
  }

  lemma SimpleSize(v: int)
    requires 0 <= v <= 23
    ensures HeadSize(v) == 1
  {}

  lemma ShortestHead(h: seq<byte>, base: int, a: int)
    requires HeadMeans(h, base, a)
    ensures HeadSize(a) <= |h|
  {
    if |h| == 2 {
      BeBytes(h[1], 0, 0, 0);
      assert h[1..] == [h[1]];
    } else if |h| == 3 {
      BeBytes(h[1], h[2], 0, 0);
      assert h[1..] == [h[1], h[2]];
    } else if |h| == 5 {
      BeBytes(h[1], h[2], h[3], h[4]);
      assert h[1..] == [h[1], h[2], h[3], h[4]];
    }
  }

  /** A signed integer: its value under 0x00, or -1 minus its value under 0x20. */
  lemma IntegerMeans(v: int)
    requires -0x8000_0000 <= v < 0x8000_0000
    ensures v >= 0 ==> HeadMeans(Encoded(IntToken(v)), 0x00, v)
    ensures v < 0 ==> HeadMeans(Encoded(IntToken(v)), 0x20, -1 - v)
  {
    hide Encoded, HeadMeans;
    EncodedMeans(IntToken(v));
  }

  /** So small integers are single bytes: v from 0 on, and 0x20 + (-1 - v) below 0. */
  lemma SmallIntegers(v: int)
    requires -24 <= v <= 23
    ensures Encoded(IntToken(v)) == if v >= 0 then [v] else [0x20 + (-1 - v)]
  {}

  // ----- items and skip

  /** A data item. The entries of a map are key, value, key, value, ... */
  datatype Item = Atom(t: Token) | List(items: seq<Item>) | Pairs(entries: seq<Item>)

  ghost predicate Proper(i: Item)
    decreases i
  {
    match i
    case Atom(t) => Admitted(t) && !t.ArrayOf? && !t.MapOf?
    case List(items) => |items| <= 0xFFFF && forall k :: 0 <= k < |items| ==> Proper(items[k])
    case Pairs(es) => |es| % 2 == 0 && |es| / 2 <= 0xFFFF && forall k :: 0 <= k < |es| ==> Proper(es[k])
  }

  /** The encoder calls for an item: a container's head, and then its items one by one. */
  ghost function Tokens(i: Item): (ts: seq<Token>)
    requires Proper(i)
    ensures forall k :: 0 <= k < |ts| ==> Admitted(ts[k])
    decreases i, 0
  {
    match i
    case Atom(t) => [t]
    case List(items) => [ArrayOf(|items|)] + TokensOf(items)
    case Pairs(es) => [MapOf(|es| / 2)] + TokensOf(es)
  }

  ghost function TokensOf(items: seq<Item>): (ts: seq<Token>)
    requires forall k :: 0 <= k < |items| ==> Proper(items[k])
    ensures forall k :: 0 <= k < |ts| ==> Admitted(ts[k])
    decreases items, 1
  {
    if items == [] then [] else Tokens(items[0]) + TokensOf(items[1..])
  }

  lemma {:induction false} EncodedJoin(a: seq<Token>, b: seq<Token>)
    requires forall i :: 0 <= i < |a| ==> Admitted(a[i])
    requires forall i :: 0 <= i < |b| ==> Admitted(b[i])
    ensures EncodedAll(a + b) == EncodedAll(a) + EncodedAll(b)
  {
    hide Encoded;
    if a == [] {
      assert a + b == b;
    } else {
      EncodedJoin(a[1..], b);
      assert (a + b)[1..] == a[1..] + b;
    }
  }

  datatype Skipped = Skipped(rc: Status, moved: nat)

  /** Skip one item: the outcome, and how far the position goes whatever the outcome. */
  function Skip(s: seq<byte>): (k: Skipped)
    ensures k.moved <= |s| && (k.rc == OK ==> k.moved >= 1)
    decreases |s|, 0
  {
    var h := ReadHead(s);
    if h.rc != OK then Skipped(h.rc, 0)
    else if h.major == UINT || h.major == NEGINT || h.major == SIMPLE then Skipped(OK, h.consumed)
    else if h.major == BSTR || h.major == TSTR then
      if h.value > 0xFFFF || h.consumed + h.value > |s| then Skipped(ErrUnderflow, h.consumed)
      else Skipped(OK, h.consumed + h.value)
    else if h.major == ARRAY || h.major == MAP then
      var k := SkipMany(s[h.consumed..], if h.major == ARRAY then h.value else 2 * h.value);
      Skipped(k.rc, h.consumed + k.moved)
    else Skipped(ErrCorrupt, h.consumed)
  }

  function SkipMany(s: seq<byte>, n: nat): (k: Skipped)
    ensures k.moved <= |s|
    decreases |s|, 1
  {
    if n == 0 then Skipped(OK, 0)
    else
      var k := Skip(s);
      if k.rc != OK then k
      else
        var m := SkipMany(s[k.moved..], n - 1);
        Skipped(m.rc, k.moved + m.moved)
  }

  /** Skip leaves the position alone, when the bytes run out, exactly when already the item's first head was short. */
  lemma SkipUnderflowPosition(s: seq<byte>)
    requires Skip(s).rc == ErrUnderflow
    ensures Skip(s).moved == 0 <==> ReadHead(s).rc == ErrUnderflow
  {
    hide SkipMany;
  }

  /** Skip stops exactly at the end of an encoded item, whatever follows it. */
  lemma {:induction false} SkipPastItem(i: Item, rest: seq<byte>)
    requires Proper(i)
    ensures Skip(EncodedAll(Tokens(i)) + rest) == Skipped(OK, |EncodedAll(Tokens(i))|)
    decreases i, 0
  {
    hide Head, ReadHead, HeadSize, SkipMany;
    match i
    case Atom(t) =>
      EncodedOne(t);
      SkipAtom(t, rest);
    case List(items) =>
      ContainerEncoded(ARRAY, |items|, ArrayOf(|items|), TokensOf(items));
      ContainerRead(ARRAY, |items|, EncodedAll(TokensOf(items)), rest);
      SkipPastItems(items, rest);
    case Pairs(es) =>
      ContainerEncoded(MAP, |es| / 2, MapOf(|es| / 2), TokensOf(es));
      ContainerRead(MAP, |es| / 2, EncodedAll(TokensOf(es)), rest);
      SkipPastItems(es, rest);
  }

  lemma EncodedOne(t: Token)
    requires Admitted(t)
    ensures EncodedAll([t]) == Encoded(t)
  {
    hide Encoded;
    assert EncodedAll([]) == [];
  }

  lemma SkipAtom(t: Token, rest: seq<byte>)
    requires Admitted(t) && !t.ArrayOf? && !t.MapOf?
    ensures Skip(Encoded(t) + rest) == Skipped(OK, |Encoded(t)|)
  {
    hide Head, ReadHead, HeadSize, SkipMany;
    match t
    case UInt(v) => ReadHeadHead(UINT, v, rest);
    case NegInt(v) => ReadHeadHead(NEGINT, v, rest);
    case ByteString(d) =>
      ReadHeadHead(BSTR, |d|, d + rest);
      assert Encoded(t) + rest == Head(BSTR, |d|) + (d + rest);
    case TextString(d) =>
      ReadHeadHead(TSTR, |d|, d + rest);
      assert Encoded(t) + rest == Head(TSTR, |d|) + (d + rest);
    case Bool(b) => ReadHeadHead(SIMPLE, if b then TRUE else FALSE, rest);
    case Null => ReadHeadHead(SIMPLE, NULL, rest);
  }

  lemma ContainerEncoded(major: int, n: nat, t: Token, ts: seq<Token>)
    requires (major == ARRAY && t == ArrayOf(n)) || (major == MAP && t == MapOf(n))
    requires n <= 0xFFFF && forall k :: 0 <= k < |ts| ==> Admitted(ts[k])
    ensures EncodedAll([t] + ts) == Head(major, n) + EncodedAll(ts)
  {
    hide Head, EncodedAll, Encoded;
    EncodedJoin([t], ts);
    EncodedOne(t);
    CountHead(major, n);
  }

  lemma ContainerRead(major: int, n: nat, body: seq<byte>, rest: seq<byte>)
    requires IsMajor(major) && n <= 0xFFFF
    ensures var s := Head(major, n) + body + rest;
            ReadHead(s) == Read(OK, major, n, HeadSize(n)) && s[HeadSize(n)..] == body + rest
  {
    hide Head, ReadHead, HeadSize;
    assert Head(major, n) + body + rest == Head(major, n) + (body + rest);
    ReadHeadHead(major, n, body + rest);
  }

  lemma CountHead(major: int, n: nat)
    requires (major == ARRAY || major == MAP) && n <= 0xFFFF
    ensures Encoded(if major == ARRAY then ArrayOf(n) else MapOf(n)) == Head(major, n)
  {
    hide Head;
  }

  lemma TokensFirst(items: seq<Item>)
    requires items != [] && forall k :: 0 <= k < |items| ==> Proper(items[k])
    ensures EncodedAll(TokensOf(items)) == EncodedAll(Tokens(items[0])) + EncodedAll(TokensOf(items[1..]))
  {
    hide EncodedAll, Tokens;
    EncodedJoin(Tokens(items[0]), TokensOf(items[1..]));
  }

  lemma {:induction false} SkipPastItems(items: seq<Item>, rest: seq<byte>)
    requires forall k :: 0 <= k < |items| ==> Proper(items[k])
    ensures SkipMany(EncodedAll(TokensOf(items)) + rest, |items|) == Skipped(OK, |EncodedAll(TokensOf(items))|)
    decreases items, 1
  {
    hide Skip, Tokens, Proper, Admitted, Encoded;
    if items != [] {
      hide EncodedAll, TokensOf;
      TokensFirst(items);
      var a, tail := EncodedAll(Tokens(items[0])), EncodedAll(TokensOf(items[1..])) + rest;
      assert EncodedAll(TokensOf(items)) + rest == a + tail;
      SkipPastItem(items[0], tail);
      assert (a + tail)[|a|..] == tail;
      SkipPastItems(items[1..], rest);
    }
  }

  /** What skip does to an item depends on that item's bytes alone. */
  lemma {:induction false} SkipLocal(s: seq<byte>, t: seq<byte>)
    requires Skip(s).rc == OK
    ensures Skip(s[..Skip(s).moved] + t) == Skip(s)
    decreases |s|, 0
  {
    hide ReadHead, SkipMany;
    var h := ReadHead(s);
    var k := Skip(s);
    ReadHeadLocal(s, s[h.consumed..k.moved] + t);
    assert s[..h.consumed] + (s[h.consumed..k.moved] + t) == s[..k.moved] + t;
    if h.major == ARRAY || h.major == MAP {
      var n := if h.major == ARRAY then h.value else 2 * h.value;
      SkipManyLocal(s[h.consumed..], n, t);
      assert s[h.consumed..][..k.moved - h.consumed] + t == (s[..k.moved] + t)[h.consumed..];
    }
  }

  lemma {:induction false} SkipManyLocal(s: seq<byte>, n: nat, t: seq<byte>)
    requires SkipMany(s, n).rc == OK
    ensures SkipMany(s[..SkipMany(s, n).moved] + t, n) == SkipMany(s, n)
    decreases |s|, 1
  {
    hide Skip;
    if n > 0 {
      var k := Skip(s);
      var m := SkipMany(s[k.moved..], n - 1);
      var u := s[k.moved..][..m.moved] + t;
      SkipManyLocal(s[k.moved..], n - 1, t);
      assert s[..k.moved + m.moved] + t == s[..k.moved] + u;
      SkipLocal(s, u);
      assert (s[..k.moved] + u)[k.moved..] == u;
    }
  }

  // ----- bounds tests

  /** The test that n bytes from pos on go beyond the end, where unsigned sums are reduced modulo w. */
  predicate Exceeds(pos: nat, n: nat, end: nat, w: nat)
    requires w > 0
  {
    (pos + n) % w > end
  }

  /**
   For a 32-bit int the sum never wraps and the test is right. For a 16-bit one it is right exactly when the sum fits,
   or when what is left of it after wrapping is still beyond the end, which takes more than 65536 bytes with the head.
   */
  lemma ExceedsExactly(pos: nat, n: nat, end: nat, w: nat)
    requires pos <= end <= 0xFFFF && n <= 0x1_0002 && (w == 0x1_0000 || w == 0x1_0000_0000)
    ensures (Exceeds(pos, n, end, w) <==> pos + n > end) <==> pos + n < w || (end < pos + n - w < w)
    ensures n <= 0xFFFF && pos + n >= w ==> !Exceeds(pos, n, end, w)
  {
    if pos + n < w {
      Reduced(pos + n + w, w);
    } else {
      Reduced(pos + n, w);
      if pos + n >= 2 * w {
        Reduced(pos + n - w, w);
      }
    }
  }

  lemma Reduced(x: int, w: int)
    requires (w == 0x1_0000 || w == 0x1_0000_0000) && w <= x
    ensures x % w == (x - w) % w
    ensures x < 2 * w ==> (x - w) % w == x - w
  {
    if w == 0x1_0000 {
    } else {
    }
  }

  /** Whether the string decoders and skip find the data of the string at pos complete, with sums modulo w. */
  predicate AcceptsString(buf: seq<byte>, pos: nat, major: int, w: nat)
    requires pos <= |buf| && (major == BSTR || major == TSTR) && w > 0
  {
    var h := TypedHead(buf[pos..], major);
    h.rc == OK && h.value <= 0xFFFF && !Exceeds(pos + h.consumed, h.value, |buf|, w)
  }

  /**
   The decoder on a target with a 32-bit int is DecodeString. With a 16-bit int it accepts the same buffers except
   those that announce data up to position 65536 or beyond; these it accepts although the data is not there.
   */
  lemma AcceptsExactly(buf: seq<byte>, pos: nat, major: int)
    requires pos <= |buf| <= 0xFFFF && (major == BSTR || major == TSTR)
    ensures AcceptsString(buf, pos, major, 0x1_0000_0000) <==> DecodeString(buf[pos..], major).rc == OK
    ensures var h := TypedHead(buf[pos..], major);
            AcceptsString(buf, pos, major, 0x1_0000) <==>
            DecodeString(buf[pos..], major).rc == OK
            || (h.rc == OK && h.value <= 0xFFFF && pos + h.consumed + h.value >= 0x1_0000)
  {
    hide TypedHead, Exceeds;
    var h := TypedHead(buf[pos..], major);
    if h.rc == OK && h.value <= 0xFFFF {
      ExceedsExactly(pos + h.consumed, h.value, |buf|, 0x1_0000_0000);
      ExceedsExactly(pos + h.consumed, h.value, |buf|, 0x1_0000);
    }
  }

  /** One of those: a text string of 65535 bytes of which only the head is there. */
  lemma LongestString()
    ensures DecodeString([0x79, 0xFF, 0xFF], TSTR) == Decoded(ErrUnderflow, Null, 3)
    ensures !AcceptsString([0x79, 0xFF, 0xFF], 0, TSTR, 0x1_0000_0000)
    ensures AcceptsString([0x79, 0xFF, 0xFF], 0, TSTR, 0x1_0000)
  {
    var s: seq<byte> := [0x79, 0xFF, 0xFF];
    assert s[0..] == s;
    assert ReadHead(s) == Read(OK, TSTR, 0xFFFF, 3);
    AcceptsExactly(s, 0, TSTR);
  }

  // ----- the program

  lemma Spliced(b: seq<byte>, b': seq<byte>, at: nat, h: seq<byte>)
    requires |b'| == |b| && at + |h| <= |b| && (forall j :: 0 <= j < at ==> b'[j] == b[j])
    requires forall j :: 0 <= j < |h| ==> b'[at + j] == h[j]
    ensures b'[..at + |h|] == b[..at] + h
  {}

  class Writer {
    const buf: array<byte>
    const capacity: nat
    var pos: nat

    constructor (b: array<byte>, cap: nat)
      requires cap <= b.Length && cap <= 0xFFFF
      ensures buf == b && capacity == cap && pos == 0 && Valid()
    {
      buf := b;
      capacity := cap;
      pos := 0;
    }

    ghost predicate Valid()
      reads this
    {
      pos <= capacity <= buf.Length && capacity <= 0xFFFF
    }

    /** Everything written so far. */
    ghost function Written(): seq<byte>
      requires Valid()
      reads this, buf
    {
      buf[..pos]
    }

    /** The bytes of a head at `at`; the caller has checked that they fit. */
    method WriteHead(at: nat, major: int, value: int) returns (n: nat)
      requires IsMajor(major) && IsArgument(value) && at + HeadSize(value) <= buf.Length
      modifies buf
      ensures n == HeadSize(value)
      ensures buf[..at + n] == old(buf[..at]) + Head(major, value)
    {
      hide Part;
      if value <= 23 {
        buf[at] := 32 * major + value;
        n := 1;
      } else if value <= 0xFF {
        buf[at] := 32 * major + 24;
        buf[at + 1] := value;
        n := 2;
      } else if value <= 0xFFFF {
        buf[at] := 32 * major + 25;
        buf[at + 1] := Part(value, 1);
        buf[at + 2] := Part(value, 0);
        n := 3;
      } else {
        buf[at] := 32 * major + 26;
        buf[at + 1] := Part(value, 3);
        buf[at + 2] := Part(value, 2);
        buf[at + 3] := Part(value, 1);
        buf[at + 4] := Part(value, 0);
        n := 5;
      }
      Spliced(old(buf[..]), buf[..], at, Head(major, value));
    }

    method PutBytes(at: nat, data: seq<byte>)
      requires at + |data| <= buf.Length
      modifies buf
      ensures buf[..at + |data|] == old(buf[..at]) + data
    {
      for i := 0 to |data|
        invariant forall j :: 0 <= j < at ==> buf[j] == old(buf[j])
        invariant forall j :: 0 <= j < i ==> buf[at + j] == data[j]
      {
        buf[at + i] := data[i];
      }
      Spliced(old(buf[..]), buf[..], at, data);
    }

    /** A token that is a head only. Refused, with nothing changed, iff it does not fit. */
    method EncodeHead(major: int, value: int) returns (rc: Status)
      requires Valid() && IsMajor(major) && IsArgument(value)
      modifies this`pos, buf
      ensures Valid()
      ensures rc == if old(pos) + HeadSize(value) > capacity then ErrOverflow else OK
      ensures rc == OK ==> Written() == old(Written()) + Head(major, value)
      ensures rc != OK ==> pos == old(pos) && buf[..] == old(buf[..])
    {
      hide Head, HeadSize;
      var needed := HeadSize(value);
      if pos + needed > capacity {
        return ErrOverflow;
      }
      var n := WriteHead(pos, major, value);
      pos := pos + n;
      rc := OK;
    }

    method EncodeUint(value: int) returns (rc: Status)
      requires Valid() && IsArgument(value)
      modifies this`pos, buf
      ensures Valid() && Appended(UInt(value), old(Written()), Written(), rc, capacity)
      ensures rc != OK ==> buf[..] == old(buf[..])
    {
      rc := EncodeHead(UINT, value);
    }

    method EncodeNegint(value: int) returns (rc: Status)
      requires Valid() && IsArgument(value)
      modifies this`pos, buf
      ensures Valid() && Appended(NegInt(value), old(Written()), Written(), rc, capacity)
      ensures rc != OK ==> buf[..] == old(buf[..])
    {
      rc := EncodeHead(NEGINT, value);
    }

    /** A signed integer. */
    method EncodeInt(value: int) returns (rc: Status)
      requires Valid() && -0x8000_0000 <= value < 0x8000_0000
      modifies this`pos, buf
      ensures Valid() && Appended(IntToken(value), old(Written()), Written(), rc, capacity)
      ensures rc != OK ==> buf[..] == old(buf[..])
    {
      if value >= 0 {
        rc := EncodeHead(UINT, value);
      } else {
        rc := EncodeHead(NEGINT, -(value + 1));
      }
    }

    /** A head and the bytes of a string. */
    method EncodeString(major: int, data: seq<byte>) returns (rc: Status)
      requires Valid() && (major == BSTR || major == TSTR) && |data| <= 0xFFFF
      modifies this`pos, buf
      ensures Valid()
      ensures Appended(if major == BSTR then ByteString(data) else TextString(data),
                       old(Written()), Written(), rc, capacity)
      ensures rc != OK ==> buf[..] == old(buf[..])
    {
      hide Head, HeadSize, Appended, Encoded;
      ghost var w := Written();
      StringAppended(major, data, w, capacity);
      if pos + HeadSize(|data|) + |data| > capacity {
        return ErrOverflow;
      }
      var n := WriteHead(pos, major, |data|);
      pos := pos + n;
      if |data| > 0 {
        PutBytes(pos, data);
        pos := pos + |data|;
      }
      assert Written() == w + Head(major, |data|) + data;
      rc := OK;
    }

    method EncodeArray(count: nat) returns (rc: Status)
      requires Valid() && count <= 0xFFFF
      modifies this`pos, buf
      ensures Valid() && Appended(ArrayOf(count), old(Written()), Written(), rc, capacity)
      ensures rc != OK ==> buf[..] == old(buf[..])
    {
      rc := EncodeHead(ARRAY, count);
    }

    method EncodeMap(count: nat) returns (rc: Status)
      requires Valid() && count <= 0xFFFF
      modifies this`pos, buf
      ensures Valid() && Appended(MapOf(count), old(Written()), Written(), rc, capacity)
      ensures rc != OK ==> buf[..] == old(buf[..])
    {
      rc := EncodeHead(MAP, count);
    }

    method EncodeBool(value: bool) returns (rc: Status)
      requires Valid()
      modifies this`pos, buf
      ensures Valid() && Appended(Bool(value), old(Written()), Written(), rc, capacity)
      ensures rc != OK ==> buf[..] == old(buf[..])
    {
      rc := EncodeHead(SIMPLE, if value then TRUE else FALSE);
    }

    method EncodeNull() returns (rc: Status)
      requires Valid()
      modifies this`pos, buf
      ensures Valid() && Appended(Null, old(Written()), Written(), rc, capacity)
      ensures rc != OK ==> buf[..] == old(buf[..])
    {
      rc := EncodeHead(SIMPLE, NULL);
    }
  }

  /** A call of the encoder: it appends the token, or refuses because the token does not fit and appends nothing. */
  ghost predicate Appended(t: Token, before: seq<byte>, after: seq<byte>, rc: Status, capacity: nat)
    requires Admitted(t)
  {
    && rc == (if |before| + |Encoded(t)| > capacity then ErrOverflow else OK)
    && after == if rc == OK then before + Encoded(t) else before
  }

  lemma StringAppended(major: int, d: seq<byte>, w: seq<byte>, capacity: nat)
    requires (major == BSTR || major == TSTR) && |d| <= 0xFFFF
    ensures var t := if major == BSTR then ByteString(d) else TextString(d);
            if |w| + HeadSize(|d|) + |d| > capacity then Appended(t, w, w, ErrOverflow, capacity)
            else Appended(t, w, w + Head(major, |d|) + d, OK, capacity)
  {
    hide Head, HeadSize;
    assert w + Head(major, |d|) + d == w + (Head(major, |d|) + d);
  }

  function IntToken(v: int): Token {
    if v >= 0 then UInt(v) else NegInt(-1 - v)
  }

  class Reader {
    const buf: array<byte>
    const len: nat
    var pos: nat

    constructor (b: array<byte>, n: nat)
      requires n <= b.Length && n <= 0xFFFF
      ensures buf == b && len == n && pos == 0 && Valid()
    {
      buf := b;
      len := n;
      pos := 0;
    }

    ghost predicate Valid()
      reads this
    {
      pos <= len <= buf.Length && len <= 0xFFFF
    }

    ghost function Left(): seq<byte>
      requires Valid()
      reads this, buf
    {
      buf[pos..len]
    }

    /** What read_head finds; the position does not move. */
    method PeekHead() returns (h: Read)
      requires Valid()
      ensures h == ReadHead(Left())
    {
      var avail := len - pos;
      if avail == 0 {
        return Read(ErrUnderflow, 0, 0, 0);
      }
      var ib := buf[pos];
      var m, ai := ib / 32, ib % 32;
      if ai <= 23 {
        return Read(OK, m, ai, 1);
      }
      if ai == 24 {
        if avail < 2 {
          return Read(ErrUnderflow, m, 0, 0);
        }
        return Read(OK, m, buf[pos + 1], 2);
      }
      if ai == 25 {
        if avail < 3 {
          return Read(ErrUnderflow, m, 0, 0);
        }
        return Read(OK, m, Join(0, 0, buf[pos + 1], buf[pos + 2]), 3);
      }
      if ai == 26 {
        if avail < 5 {
          return Read(ErrUnderflow, m, 0, 0);
        }
        return Read(OK, m, Join(buf[pos + 1], buf[pos + 2], buf[pos + 3], buf[pos + 4]), 5);
      }
      h := Read(ErrCorrupt, m, 0, 0);
    }

    method DecodeTypedHead(expected: int) returns (rc: Status, value: int)
      requires Valid()
      modifies this`pos
      ensures Valid()
      ensures var h := TypedHead(old(Left()), expected);
              rc == h.rc && (rc == OK ==> value == h.value) && pos == old(pos) + (if rc == OK then h.consumed else 0)
    {
      hide ReadHead;
      var h := PeekHead();
      if h.rc != OK {
        return h.rc, 0;
      }
      if h.major != expected {
        return ErrType, 0;
      }
      pos := pos + h.consumed;
      rc, value := OK, h.value;
    }

    method DecodeArgumentOf(major: int) returns (rc: Status, value: int)
      requires Valid() && (major == UINT || major == NEGINT)
      modifies this`pos
      ensures Valid() && pos >= old(pos) && rc == DecodeArgument(old(Left()), major).rc
      ensures rc == OK ==> DecodeArgument(old(Left()), major)
                           == Decoded(OK, if major == UINT then UInt(value) else NegInt(value), pos - old(pos))
      ensures rc != OK ==> pos == old(pos)
    {
      hide ReadHead;
      rc, value := DecodeTypedHead(major);
    }

    /** A signed integer: the value whose token comes next, if it fits 32 bits. */
    method DecodeInt() returns (rc: Status, value: int)
      requires Valid()
      modifies this`pos
      ensures Valid() && pos >= old(pos)
      ensures rc == OK ==> -0x8000_0000 <= value < 0x8000_0000
                           && DecodeLike(IntToken(value), old(Left())) == Decoded(OK, IntToken(value), pos - old(pos))
      ensures forall v {:trigger IntToken(v)} :: -0x8000_0000 <= v < 0x8000_0000
                && DecodeLike(IntToken(v), old(Left())).rc == OK
                && DecodeLike(IntToken(v), old(Left())).token == IntToken(v)
                ==> rc == OK && value == v
      ensures rc != OK ==> pos == old(pos)
    {
      hide ReadHead;
      var h := PeekHead();
      if h.rc != OK {
        return h.rc, 0;
      }
      if h.major == UINT {
        if h.value > 0x7FFF_FFFF {
          return ErrCorrupt, 0;
        }
        value := h.value;
      } else if h.major == NEGINT {
        if h.value > 0x7FFF_FFFF {
          return ErrCorrupt, 0;
        }
        value := -1 - h.value;
      } else {
        return ErrType, 0;
      }
      pos := pos + h.consumed;
      rc := OK;
    }

    method DecodeStringOf(major: int) returns (rc: Status, data: seq<byte>)
      requires Valid() && (major == BSTR || major == TSTR)
      modifies this`pos
      ensures Valid()
      ensures var d := DecodeString(old(Left()), major);
              && rc == d.rc && pos == old(pos) + d.moved
              && (rc == OK ==> d.token == if major == BSTR then ByteString(data) else TextString(data))
    {
      hide ReadHead;
      ghost var s := Left();
      data := [];
      var n: int;
      rc, n := DecodeTypedHead(major);
      if rc != OK {
        return;
      }
      if n > 0xFFFF {
        return ErrCorrupt, [];
      }
      if pos + n > len {
        return ErrUnderflow, [];
      }
      data := buf[pos..pos + n];
      ghost var k := pos - old(pos);
      assert s[k..] == buf[pos..len];
      assert data == s[k..][..n] == s[k..k + n];
      pos := pos + n;
    }

    method DecodeCountOf(major: int) returns (rc: Status, count: int)
      requires Valid() && (major == ARRAY || major == MAP)
      modifies this`pos
      ensures Valid()
      ensures var d := DecodeCount(old(Left()), major);
              && rc == d.rc && pos == old(pos) + d.moved
              && (rc == OK ==> d.token == if major == ARRAY then ArrayOf(count) else MapOf(count))
    {
      hide ReadHead;
      rc, count := DecodeTypedHead(major);
      if rc == OK && count > 0xFFFF {
        return ErrCorrupt, 0;
      }
    }

    method DecodeBoolValue() returns (rc: Status, value: bool)
      requires Valid()
      modifies this`pos
      ensures Valid()
      ensures var d := DecodeBool(old(Left()));
              rc == d.rc && pos == old(pos) + d.moved && (rc == OK ==> d.token == Bool(value))
    {
      hide ReadHead;
      value := false;
      var raw: int;
      rc, raw := DecodeTypedHead(SIMPLE);
      if rc != OK {
        return;
      }
      if raw == TRUE {
        value := true;
      } else if raw == FALSE {
        value := false;
      } else {
        return ErrType, false;
      }
    }

    method DecodeNullValue() returns (rc: Status)
      requires Valid()
      modifies this`pos
      ensures Valid()
      ensures var d := DecodeNull(old(Left())); rc == d.rc && pos == old(pos) + d.moved
    {
      hide ReadHead;
      var raw: int;
      rc, raw := DecodeTypedHead(SIMPLE);
      if rc == OK && raw != NULL {
        rc := ErrType;
      }
    }

    /** Skip one item, whatever the bytes are. */
    method SkipItem() returns (rc: Status)
      requires Valid()
      modifies this`pos
      ensures Valid() && pos >= old(pos) && Skip(old(Left())) == Skipped(rc, pos - old(pos))
      ensures rc == OK ==> pos > old(pos)
      decreases len - pos, 0
    {
      hide ReadHead, SkipMany;
      ghost var s := Left();
      var h := PeekHead();
      if h.rc != OK {
        return h.rc;
      }
      pos := pos + h.consumed;
      if h.major == UINT || h.major == NEGINT || h.major == SIMPLE {
        return OK;
      }
      if h.major == BSTR || h.major == TSTR {
        if h.value > 0xFFFF || pos + h.value > len {
          return ErrUnderflow;
        }
        pos := pos + h.value;
        return OK;
      }
      if h.major == ARRAY || h.major == MAP {
        assert Left() == s[h.consumed..];
        rc := SkipItems(if h.major == ARRAY then h.value else 2 * h.value);
        return;
      }
      rc := ErrCorrupt;
    }

    /** The loop over a container's items; a map's pairs are two items each. */
    method SkipItems(n: nat) returns (rc: Status)
      requires Valid()
      modifies this`pos
      ensures Valid() && pos >= old(pos) && SkipMany(old(Left()), n) == Skipped(rc, pos - old(pos))
      decreases len - pos, 1
    {
      hide Skip, SkipMany, After;
      ghost var s := Left();
      var i := 0;
      rc := OK;
      NoMove(SkipMany(s, n));
      while i < n
        invariant Valid() && i <= n && rc == OK && old(pos) <= pos
        invariant SkipMany(s, n) == After(pos - old(pos), SkipMany(Left(), n - i))
      {
        SkipManyNext(Left(), n - i);
        ghost var before, at := Left(), pos;
        rc := SkipItem();
        if rc != OK {
          Moves(at - old(pos), pos - at, rc);
          return;
        }
        assert Left() == before[pos - at..];
        AfterAfter(at - old(pos), pos - at, SkipMany(Left(), n - i - 1));
        i := i + 1;
      }
      NoneSkipped(Left());
      Moves(pos - old(pos), 0, OK);
    }
  }

  ghost function After(moved: nat, k: Skipped): Skipped {
    Skipped(k.rc, moved + k.moved)
  }

  lemma SkipManyNext(s: seq<byte>, n: nat)
    requires n > 0
    ensures SkipMany(s, n) == var k := Skip(s); if k.rc != OK then k else After(k.moved, SkipMany(s[k.moved..], n - 1))
  {}

  lemma NoMove(k: Skipped)
    ensures After(0, k) == k
  {}

  lemma AfterAfter(a: nat, b: nat, k: Skipped)
    ensures After(a, After(b, k)) == After(a + b, k)
  {}

  lemma Moves(a: nat, b: nat, rc: Status)
    ensures After(a, Skipped(rc, b)) == Skipped(rc, a + b)
  {}

  lemma NoneSkipped(s: seq<byte>)
    ensures SkipMany(s, 0) == Skipped(OK, 0)
  {}
}
