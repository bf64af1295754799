/**
 JSON (RFC 8259) for small systems: a streaming writer that tracks nesting and commas, and a pull parser.
 Strings are byte sequences; numbers are 32-bit integers.
 */
module Json {
  import Radix

  type byte = x: int | 0 <= x < 0x100

  datatype Status = OK | ErrOverflow | ErrUnderflow | ErrParam | ErrCorrupt

  const TAB: byte := 9
  const LF: byte := 10
  const CR: byte := 13
  const SPACE: byte := 32
  const QUOTE: byte := 34
  const COMMA: byte := 44
  const MINUS: byte := 45
  const ZERO: byte := 48
  const COLON: byte := 58
  const LBRACKET: byte := 91
  const BACKSLASH: byte := 92
  const RBRACKET: byte := 93
  const LETTER_N: byte := 110
  const LETTER_R: byte := 114
  const LETTER_T: byte := 116
  const LETTER_U: byte := 117
  const LBRACE: byte := 123
  const RBRACE: byte := 125

  // ----- strings

  function HexDigit(nibble: int): byte
    requires 0 <= nibble < 16
  {
    if nibble < 10 then 48 + nibble else 97 + nibble - 10
  }

  function EscapeByte(ch: byte): seq<byte> {
    if ch == QUOTE || ch == BACKSLASH then [BACKSLASH, ch]
    else if ch == LF then [BACKSLASH, LETTER_N]
    else if ch == CR then [BACKSLASH, LETTER_R]
    else if ch == TAB then [BACKSLASH, LETTER_T]
    else if ch < 0x20 then [BACKSLASH, LETTER_U, 48, 48, HexDigit(ch / 16), HexDigit(ch % 16)]
    else [ch]
  }

  function Escape(s: seq<byte>): seq<byte> {
    if s == [] then [] else Escape(s[..|s| - 1]) + EscapeByte(s[|s| - 1])
  }

  function HexValue(ch: byte): int {
    if 48 <= ch <= 57 then ch - 48 else if 97 <= ch <= 102 then ch - 87 else if 65 <= ch <= 70 then ch - 55 else -1
  }

  datatype Option<T> = None | Some(value: T)

  /** The meaning of a string's contents (section 7 of RFC 8259), for escapes that denote one byte. */
  function Unescape(s: seq<byte>): Option<seq<byte>> {
    if s == [] then Some([])
    else if s[0] == QUOTE || s[0] < 0x20 then None
    else if s[0] != BACKSLASH then Prepend(s[0], Unescape(s[1..]))
    else if |s| < 2 then None
    else if s[1] == QUOTE || s[1] == BACKSLASH || s[1] == 47 then Prepend(s[1], Unescape(s[2..]))
    else if s[1] == 98 then Prepend(8, Unescape(s[2..]))
    else if s[1] == 102 then Prepend(12, Unescape(s[2..]))
    else if s[1] == LETTER_N then Prepend(LF, Unescape(s[2..]))
    else if s[1] == LETTER_R then Prepend(CR, Unescape(s[2..]))
    else if s[1] == LETTER_T then Prepend(TAB, Unescape(s[2..]))
    else if s[1] == LETTER_U && |s| >= 6 && s[2] == 48 && s[3] == 48 && HexValue(s[4]) >= 0 && HexValue(s[5]) >= 0 then
      Prepend(16 * HexValue(s[4]) + HexValue(s[5]), Unescape(s[6..]))
    else None
  }

  function Prepend(ch: byte, rest: Option<seq<byte>>): Option<seq<byte>> {
    match rest
    case None => None
    case Some(t) => Some([ch] + t)
  }

  lemma UnescapeByte(ch: byte, rest: seq<byte>)
    ensures Unescape(EscapeByte(ch) + rest) == Prepend(ch, Unescape(rest))
  {
    var e := EscapeByte(ch);
    assert (e + rest)[|e|..] == rest;
    if ch < 0x20 {
      assert HexValue(HexDigit(ch / 16)) == ch / 16 && HexValue(HexDigit(ch % 16)) == ch % 16;
    }
  }

  /** Unescaping undoes escaping: in particular the escaped form is always a legal string body. */
  lemma {:induction false} UnescapeEscape(s: seq<byte>, t: seq<byte>)
    requires Unescape(t).Some?
    ensures Unescape(Escape(s) + t) == Some(s + Unescape(t).value)
  {
    hide Unescape, EscapeByte;
    if s == [] {
      assert Escape(s) + t == t;
      assert s + Unescape(t).value == Unescape(t).value;
    } else {
      var n := |s| - 1;
      UnescapeByte(s[n], t);
      assert Escape(s) + t == Escape(s[..n]) + (EscapeByte(s[n]) + t);
      UnescapeEscape(s[..n], EscapeByte(s[n]) + t);
      assert s[..n] + ([s[n]] + Unescape(t).value) == s + Unescape(t).value;
    }
  }

  datatype Scanned = Scanned(rc: Status, n: nat)

  /** The search for the closing quote: its place, or how far the search went before it failed. */
  function Scan(s: seq<byte>): (r: Scanned)
    ensures r.n <= |s| && (r.rc == OK ==> r.n < |s| && s[r.n] == QUOTE)
  {
    if s == [] then Scanned(ErrUnderflow, 0)
    else if s[0] == QUOTE then Scanned(OK, 0)
    else if s[0] == BACKSLASH then
      if |s| < 2 then Scanned(ErrCorrupt, 1) else Further(2, Scan(s[2..]))
    else Further(1, Scan(s[1..]))
  }

  function Further(k: nat, r: Scanned): Scanned {
    Scanned(r.rc, k + r.n)
  }

  lemma ScanPlain(ch: byte, rest: seq<byte>)
    requires ch != QUOTE && ch != BACKSLASH
    ensures Scan([ch] + rest) == Further(1, Scan(rest))
  {
    assert ([ch] + rest)[1..] == rest;
  }

  lemma ScanPair(ch: byte, rest: seq<byte>)
    ensures Scan([BACKSLASH, ch] + rest) == Further(2, Scan(rest))
  {
    assert ([BACKSLASH, ch] + rest)[2..] == rest;
  }

  lemma ScanByte(ch: byte, rest: seq<byte>)
    ensures Scan(EscapeByte(ch) + rest) == Further(|EscapeByte(ch)|, Scan(rest))
  {
    hide Scan, HexDigit;
    if ch == QUOTE || ch == BACKSLASH {
      ScanPair(ch, rest);
    } else if ch == LF {
      ScanPair(LETTER_N, rest);
    } else if ch == CR {
      ScanPair(LETTER_R, rest);
    } else if ch == TAB {
      ScanPair(LETTER_T, rest);
    } else if ch < 0x20 {
      HexPlain(ch / 16);
      HexPlain(ch % 16);
      ScanHex(HexDigit(ch / 16), HexDigit(ch % 16), rest);
    } else {
      ScanPlain(ch, rest);
    }
  }

  lemma HexPlain(nibble: int)
    requires 0 <= nibble < 16
    ensures HexDigit(nibble) != QUOTE && HexDigit(nibble) != BACKSLASH
  {}

  lemma ScanHex(a: byte, b: byte, rest: seq<byte>)
    requires a != QUOTE && a != BACKSLASH && b != QUOTE && b != BACKSLASH
    ensures Scan([BACKSLASH, LETTER_U, 48, 48, a, b] + rest) == Further(6, Scan(rest))
  {
    hide Scan;
    var s1 := [b] + rest;
    var s2 := [a] + s1;
    var s3 := [48 as byte] + s2;
    var s4 := [48 as byte] + s3;
    ScanPlain(b, rest);
    ScanPlain(a, s1);
    ScanPlain(48, s2);
    ScanPlain(48, s3);
    ScanPair(LETTER_U, s4);
    assert [BACKSLASH, LETTER_U, 48, 48, a, b] + rest == [BACKSLASH, LETTER_U] + s4;
  }

  /** No quote inside an escaped string is taken for the closing one. */
  lemma {:induction false} ScanEscape(s: seq<byte>, t: seq<byte>)
    ensures Scan(Escape(s) + t) == Further(|Escape(s)|, Scan(t))
  {
    hide Scan, EscapeByte;
    if s == [] {
      assert Escape(s) + t == t;
    } else {
      var n := |s| - 1;
      ScanByte(s[n], t);
      assert Escape(s) + t == Escape(s[..n]) + (EscapeByte(s[n]) + t);
      ScanEscape(s[..n], EscapeByte(s[n]) + t);
    }
  }

  // ----- numbers

  predicate IsDigit(ch: int) {
    48 <= ch <= 57
  }

  function Digits(u: nat): (ds: seq<byte>)
    ensures |ds| >= 1 && forall i :: 0 <= i < |ds| ==> IsDigit(ds[i])
  {
    if u < 10 then [48 + u] else Digits(u / 10) + [48 + u % 10]
  }

  function Decimal(v: int): seq<byte> {
    if v < 0 then [MINUS] + Digits(-v) else Digits(v)
  }

  function DigitValue(ch: int): (d: int)
    ensures IsDigit(ch) ==> 0 <= d < 10
  {
    ch - 48
  }

  /** The number that decimal digits denote, leading zeros included. */
  function DecValue(ds: seq<byte>): (v: nat)
    requires forall i :: 0 <= i < |ds| ==> IsDigit(ds[i])
  {
    if ds == [] then 0 else DecValue(ds[..|ds| - 1]) * 10 + DigitValue(ds[|ds| - 1])
  }

  lemma {:induction false} DecValueDigits(u: nat)
    ensures DecValue(Digits(u)) == u
  {
    if u >= 10 {
      DecValueDigits(u / 10);
      assert Digits(u)[..|Digits(u)| - 1] == Digits(u / 10);
    } else {
      assert Digits(u)[..0] == [];
    }
  }

  /** No leading zero, as the grammar of numbers demands (section 6 of RFC 8259). */
  lemma {:induction false} DigitsLead(u: nat)
    ensures Digits(u)[0] == ZERO <==> u == 0
  {
    if u >= 10 {
      DigitsLead(u / 10);
    }
  }

  lemma {:induction false} DigitCount(u: nat, k: nat)
    requires k >= 1 && u < Radix.Pow(10, k)
    ensures |Digits(u)| <= k
  {
    if u >= 10 {
      DigitCount(u / 10, k - 1);
    }
  }

  /** The number of leading digits. */
  function DigitRun(s: seq<byte>): (n: nat)
    ensures n <= |s| && forall i :: 0 <= i < n ==> IsDigit(s[i])
    ensures n < |s| ==> !IsDigit(s[n])
  {
    if s == [] || !IsDigit(s[0]) then 0 else 1 + DigitRun(s[1..])
  }

  /** No digit follows. */
  predicate Ends(s: seq<byte>) {
    s == [] || !IsDigit(s[0])
  }

  lemma {:induction false} DigitRunIs(ds: seq<byte>, rest: seq<byte>)
    requires (forall i :: 0 <= i < |ds| ==> IsDigit(ds[i])) && Ends(rest)
    ensures DigitRun(ds + rest) == |ds|
  {
    if ds == [] {
      assert ds + rest == rest;
    } else {
      DigitRunIs(ds[1..], rest);
      assert (ds + rest)[1..] == ds[1..] + rest;
    }
  }

  /** Conversion to a signed 32-bit integer: the one residue of v modulo 2^32 that is in range. */
  function I32(v: int): (r: int)
    ensures -0x8000_0000 <= r < 0x8000_0000
    ensures r == v <==> -0x8000_0000 <= v < 0x8000_0000
  {
    (v + 0x8000_0000) % 0x1_0000_0000 - 0x8000_0000
  }

  /** It does not matter whether the value has been reduced before. */
  lemma I32Reduced(v: int)
    ensures I32(v % 0x1_0000_0000) == I32(v)
  {
    var q := v / 0x1_0000_0000;
    I32Shift(v % 0x1_0000_0000, q);
  }

  lemma I32Shift(v: int, q: int)
    ensures I32(v + q * 0x1_0000_0000) == I32(v)
  {
    Radix.DivModUnique(v + q * 0x1_0000_0000 + 0x8000_0000, (v + 0x8000_0000) / 0x1_0000_0000 + q,
                       (v + 0x8000_0000) % 0x1_0000_0000, 0x1_0000_0000);
  }

  lemma I32Negated(v: int)
    ensures I32(-I32(v)) == I32(-v)
  {
    var q := (v + 0x8000_0000) / 0x1_0000_0000;
    assert -I32(v) == -v + q * 0x1_0000_0000;
    I32Shift(-v, q);
  }

  // ----- tokens

  datatype Token =
    | End | LBrace | RBrace | LBracket | RBracket | Colon | Comma
    | String(raw: seq<byte>) | Number(value: int) | True | False | Null

  /** A call of the parser: the outcome, the token if there is one, and how far the position goes in either case. */
  datatype Lexed = Lexed(rc: Status, token: Token, moved: nat)

  function WhiteRun(s: seq<byte>): (n: nat)
    ensures n <= |s|
  {
    if s != [] && (s[0] == SPACE || s[0] == TAB || s[0] == CR || s[0] == LF) then 1 + WhiteRun(s[1..]) else 0
  }

  function StringToken(s: seq<byte>): (l: Lexed)
    requires |s| > 0
    ensures l.moved <= |s| && l.moved >= 1 && (l.rc == OK ==> l.token.String?)
  {
    var r := Scan(s[1..]);
    if r.rc == OK then Lexed(OK, String(s[1..][..r.n]), r.n + 2) else Lexed(r.rc, End, r.n + 1)
  }

  /** A number is taken modulo 2^32. The count of its digits is kept in a byte, and zero means none. */
  function NumberToken(s: seq<byte>): (l: Lexed)
    requires |s| > 0 && (s[0] == MINUS || IsDigit(s[0]))
    ensures l.moved <= |s| && (l.rc == OK ==> l.moved >= 1 && l.token.Number?)
  {
    var sign := if s[0] == MINUS then 1 else 0;
    if sign == |s| then Lexed(ErrCorrupt, End, 1)
    else
      var n := DigitRun(s[sign..]);
      if n % 0x100 == 0 then Lexed(ErrCorrupt, End, sign + n)
      else
        var v: int := DecValue(s[sign..][..n]);
        Lexed(OK, Number(I32(if sign == 1 then -v else v)), sign + n)
  }

  const WORD_TRUE: seq<byte> := [116, 114, 117, 101]
  const WORD_FALSE: seq<byte> := [102, 97, 108, 115, 101]
  const WORD_NULL: seq<byte> := [110, 117, 108, 108]

  function WordToken(s: seq<byte>, word: seq<byte>, t: Token): Lexed {
    if word <= s then Lexed(OK, t, |word|) else Lexed(ErrCorrupt, End, 0)
  }

  /** The token at the very start of a non-empty text. */
  function TokenHere(s: seq<byte>): (l: Lexed)
    requires |s| > 0
    ensures l.moved <= |s| && (l.rc == OK ==> l.moved >= 1 && l.token != End)
  {
    var ch := s[0];
    if ch == LBRACE then Lexed(OK, LBrace, 1)
    else if ch == RBRACE then Lexed(OK, RBrace, 1)
    else if ch == LBRACKET then Lexed(OK, LBracket, 1)
    else if ch == RBRACKET then Lexed(OK, RBracket, 1)
    else if ch == COLON then Lexed(OK, Colon, 1)
    else if ch == COMMA then Lexed(OK, Comma, 1)
    else if ch == QUOTE then StringToken(s)
    else if ch == 116 then WordToken(s, WORD_TRUE, True)
    else if ch == 102 then WordToken(s, WORD_FALSE, False)
    else if ch == 110 then WordToken(s, WORD_NULL, Null)
    else if ch == MINUS || IsDigit(ch) then NumberToken(s)
    else Lexed(ErrCorrupt, End, 0)
  }

  function NextToken(s: seq<byte>): (l: Lexed)
    ensures l.moved <= |s| && (l.rc == OK && l.token != End ==> l.moved >= 1)
  {
    var w := WhiteRun(s);
    if w == |s| then Lexed(OK, End, w)
    else
      var l := TokenHere(s[w..]);
      Lexed(l.rc, l.token, w + l.moved)
  }

  /** Calls of the parser from s on give these tokens and leave exactly `rest`. */
  ghost predicate Reads(s: seq<byte>, ts: seq<Token>, rest: seq<byte>)
    decreases ts
  {
    if ts == [] then s == rest
    else
      var l := NextToken(s);
      l.rc == OK && l.token == ts[0] && Reads(s[l.moved..], ts[1..], rest)
  }

  lemma {:induction false} ReadsJoin(s: seq<byte>, a: seq<Token>, m: seq<byte>, b: seq<Token>, rest: seq<byte>)
    requires Reads(s, a, m) && Reads(m, b, rest)
    ensures Reads(s, a + b, rest)
    decreases a
  {
    hide NextToken;
    if a == [] {
      assert a + b == b;
    } else {
      ReadsJoin(s[NextToken(s).moved..], a[1..], m, b, rest);
      assert (a + b)[1..] == a[1..] + b;
    }
  }

  lemma ReadsOne(s: seq<byte>, t: Token, rest: seq<byte>)
    requires |s| > 0 && !(s[0] == SPACE || s[0] == TAB || s[0] == CR || s[0] == LF)
    requires |rest| <= |s| && TokenHere(s) == Lexed(OK, t, |s| - |rest|) && s[|s| - |rest|..] == rest
    ensures Reads(s, [t], rest)
  {
    hide TokenHere;
    assert WhiteRun(s) == 0 && s[0..] == s;
    assert NextToken(s) == Lexed(OK, t, |s| - |rest|);
    assert Reads(rest, [], rest);
  }

  lemma ReadsString(s: seq<byte>, rest: seq<byte>)
    ensures Reads([QUOTE] + Escape(s) + [QUOTE] + rest, [String(Escape(s))], rest)
  {
    hide Escape;
    var e := Escape(s);
    var text := [QUOTE] + e + [QUOTE] + rest;
    assert text[1..] == e + ([QUOTE] + rest);
    ScanEscape(s, [QUOTE] + rest);
    assert Scan([QUOTE] + rest) == Scanned(OK, 0);
    assert text[1..][..|e|] == e;
    assert text[|e| + 2..] == rest;
    ReadsOne(text, String(e), rest);
  }

  lemma NumberText(v: int, rest: seq<byte>)
    requires -0x8000_0000 <= v < 0x8000_0000 && Ends(rest)
    ensures var s := Decimal(v) + rest;
            |s| > 0 && (s[0] == MINUS || IsDigit(s[0])) && NumberToken(s) == Lexed(OK, Number(v), |Decimal(v)|)
  {
    hide Digits, DecValue, DigitRun, I32;
    var u := if v < 0 then -v else v;
    var ds, s, sign := Digits(u), Decimal(v) + rest, if v < 0 then 1 else 0;
    assert s[0] == if v < 0 then MINUS else ds[0];
    assert s[sign..] == ds + rest;
    DigitRunIs(ds, rest);
    DecValueDigits(u);
    FewDigits(u);
    assert s[sign..][..|ds|] == ds;
  }

  lemma ReadsNumber(v: int, rest: seq<byte>)
    requires -0x8000_0000 <= v < 0x8000_0000 && Ends(rest)
    ensures Reads(Decimal(v) + rest, [Number(v)], rest)
  {
    hide NumberToken, Decimal, Reads;
    NumberText(v, rest);
    assert (Decimal(v) + rest)[|Decimal(v)|..] == rest;
    ReadsOne(Decimal(v) + rest, Number(v), rest);
  }

  // What the parser makes of any run of digits, signed or not.

  /** An unsigned run is read as the number it denotes iff its length is not a multiple of 256 and the number fits. */
  lemma ReadsRun(ds: seq<byte>, rest: seq<byte>)
    requires ds != [] && (forall i :: 0 <= i < |ds| ==> IsDigit(ds[i])) && Ends(rest)
    ensures var l := NumberToken(ds + rest);
            && l.moved == |ds|
            && (l.rc == OK <==> |ds| % 0x100 != 0)
            && (l.rc == OK ==> l.token == Number(I32(DecValue(ds))))
            && (l.rc == OK && l.token == Number(DecValue(ds)) <==> |ds| % 0x100 != 0 && DecValue(ds) < 0x8000_0000)
  {
    hide DecValue, DigitRun, I32, NumberToken;
    var s := ds + rest;
    DigitRunIs(ds, rest);
    assert s[0] == ds[0] && s[0..] == s && s[..|ds|] == ds;
    NumberTokenIs(s, 0, ds);
  }

  lemma NumberTokenIs(s: seq<byte>, sign: nat, ds: seq<byte>)
    requires |s| > 0 && sign < |s| && (forall i :: 0 <= i < |ds| ==> IsDigit(ds[i]))
    requires if s[0] == MINUS then sign == 1 else sign == 0 && IsDigit(s[0])
    requires DigitRun(s[sign..]) == |ds| && s[sign..][..|ds|] == ds
    ensures NumberToken(s) == if |ds| % 0x100 == 0 then Lexed(ErrCorrupt, End, sign + |ds|)
                              else Lexed(OK, Number(I32(if sign == 1 then 0 - DecValue(ds) else DecValue(ds))),
                                         sign + |ds|)
  {
    hide DecValue, DigitRun, I32;
  }

  /** With a minus sign the number may be one greater. */
  lemma ReadsSignedRun(ds: seq<byte>, rest: seq<byte>)
    requires ds != [] && (forall i :: 0 <= i < |ds| ==> IsDigit(ds[i])) && Ends(rest)
    ensures var l := NumberToken([MINUS] + ds + rest);
            && l.moved == |ds| + 1
            && (l.rc == OK <==> |ds| % 0x100 != 0)
            && (l.rc == OK ==> l.token == Number(I32(0 - DecValue(ds))))
            && (l.rc == OK && l.token == Number(0 - DecValue(ds)) <==> |ds| % 0x100 != 0 && DecValue(ds) <= 0x8000_0000)
  {
    hide DecValue, DigitRun, I32, NumberToken;
    var s := [MINUS] + ds + rest;
    DigitRunIs(ds, rest);
    SignedParts(ds, rest);
    NumberTokenIs(s, 1, ds);
  }

  lemma SignedParts(ds: seq<byte>, rest: seq<byte>)
    ensures var s := [MINUS] + ds + rest; s[0] == MINUS && s[1..] == ds + rest && s[1..][..|ds|] == ds
  {
    var s := [MINUS] + ds + rest;
    assert s == [MINUS] + (ds + rest);
    assert s[1..] == ds + rest;
  }

  /** 256 digits are taken for none. */
  lemma ReadsLongRun()
    ensures var ones := seq(256, _ => ZERO + 1); NumberToken(ones) == Lexed(ErrCorrupt, End, 256)
  {
    hide DigitRun;
    var ones := seq(256, _ => ZERO + 1);
    DigitRunIs(ones, []);
    assert ones + [] == ones && ones[0..] == ones;
  }

  /** 4294967296, which is 2^32, is taken for zero. */
  lemma ReadsOverlargeRun()
    ensures NumberToken([52, 50, 57, 52, 57, 54, 55, 50, 57, 54]) == Lexed(OK, Number(0), 10)
  {
    hide NumberToken, DecValue;
    var ds := [52, 50, 57, 52, 57, 54, 55, 50, 57, 54];
    assert ds + [] == ds;
    ReadsRun(ds, []);
    OverlargeRun();
    I32Shift(0, 1);
  }

  lemma OverlargeRun()
    ensures DecValue([52, 50, 57, 52, 57, 54, 55, 50, 57, 54]) == 0x1_0000_0000
  {
    hide Digits, DecValue;
    DigitsOne(4);
    DigitsAfter(4, 2);
    DigitsAfter(42, 9);
    DigitsAfter(429, 4);
    DigitsAfter(4294, 9);
    DigitsAfter(42949, 6);
    DigitsAfter(429496, 7);
    DigitsAfter(4294967, 2);
    DigitsAfter(42949672, 9);
    DigitsAfter(429496729, 6);
    assert Digits(0x1_0000_0000) == [52, 50, 57, 52, 57, 54, 55, 50, 57, 54];
    DecValueDigits(0x1_0000_0000);
  }

  lemma DigitsOne(d: nat)
    requires d < 10
    ensures Digits(d) == [48 + d]
  {}

  lemma DigitsAfter(u: nat, d: nat)
    requires u > 0 && d < 10
    ensures Digits(10 * u + d) == Digits(u) + [48 + d]
  {}

  lemma FewDigits(u: nat)
    requires u < 0x1_0000_0000
    ensures |Digits(u)| <= 10
  {
    assert Radix.Pow(10, 10) == 10000000000;
    DigitCount(u, 10);
  }

  lemma ReadsWord(word: seq<byte>, t: Token, rest: seq<byte>)
    requires (word == WORD_TRUE && t == True) || (word == WORD_FALSE && t == False) || (word == WORD_NULL && t == Null)
    ensures Reads(word + rest, [t], rest)
  {
    assert (word + rest)[|word|..] == rest;
    ReadsOne(word + rest, t, rest);
  }

  lemma ReadsPunctuation(ch: byte, t: Token, rest: seq<byte>)
    requires (ch == LBRACE && t == LBrace) || (ch == RBRACE && t == RBrace) || (ch == LBRACKET && t == LBracket)
             || (ch == RBRACKET && t == RBracket) || (ch == COLON && t == Colon) || (ch == COMMA && t == Comma)
    ensures Reads([ch] + rest, [t], rest)
  {
    assert ([ch] + rest)[1..] == rest;
    ReadsOne([ch] + rest, t, rest);
  }

  // ----- values and their text

  datatype Value =
    | Str(s: seq<byte>) | Int(n: int) | Bool(b: bool) | Nil | Arr(items: seq<Value>) | Obj(members: seq<Member>)

  datatype Member = Member(key: seq<byte>, value: Value)

  ghost function Quoted(s: seq<byte>): seq<byte> {
    [QUOTE] + Escape(s) + [QUOTE]
  }

  /** The text of a value by the grammar of RFC 8259, without white space. */
  ghost function Text(v: Value): seq<byte>
    decreases v, 0
  {
    match v
    case Str(s) => Quoted(s)
    case Int(n) => Decimal(n)
    case Bool(b) => if b then WORD_TRUE else WORD_FALSE
    case Nil => WORD_NULL
    case Arr(items) => [LBRACKET] + ItemsText(items) + [RBRACKET]
    case Obj(ms) => [LBRACE] + MembersText(ms) + [RBRACE]
  }

  ghost function ItemsText(items: seq<Value>): seq<byte>
    decreases items, 1
  {
    if items == [] then []
    else Text(items[0]) + if |items| == 1 then [] else [COMMA] + ItemsText(items[1..])
  }

  ghost function MemberText(m: Member): seq<byte>
    decreases m, 1
  {
    Quoted(m.key) + [COLON] + Text(m.value)
  }

  ghost function MembersText(ms: seq<Member>): seq<byte>
    decreases ms, 1
  {
    if ms == [] then []
    else MemberText(ms[0]) + if |ms| == 1 then [] else [COMMA] + MembersText(ms[1..])
  }

  /** The tokens of a value. */
  ghost function Tokens(v: Value): seq<Token>
    decreases v, 0
  {
    match v
    case Str(s) => [String(Escape(s))]
    case Int(n) => [Number(n)]
    case Bool(b) => [if b then True else False]
    case Nil => [Null]
    case Arr(items) => [LBracket] + ItemsTokens(items) + [RBracket]
    case Obj(ms) => [LBrace] + MembersTokens(ms) + [RBrace]
  }

  ghost function ItemsTokens(items: seq<Value>): seq<Token>
    decreases items, 1
  {
    if items == [] then []
    else Tokens(items[0]) + if |items| == 1 then [] else [Comma] + ItemsTokens(items[1..])
  }

  ghost function MemberTokens(m: Member): seq<Token>
    decreases m, 1
  {
    [String(Escape(m.key))] + [Colon] + Tokens(m.value)
  }

  ghost function MembersTokens(ms: seq<Member>): seq<Token>
    decreases ms, 1
  {
    if ms == [] then []
    else MemberTokens(ms[0]) + if |ms| == 1 then [] else [Comma] + MembersTokens(ms[1..])
  }

  /** All integers fit 32 bits. */
  ghost predicate Readable(v: Value)
    decreases v
  {
    match v
    case Str(_) => true
    case Int(n) => -0x8000_0000 <= n < 0x8000_0000
    case Bool(_) => true
    case Nil => true
    case Arr(items) => forall i :: 0 <= i < |items| ==> Readable(items[i])
    case Obj(ms) => forall i :: 0 <= i < |ms| ==> Readable(ms[i].value)
  }

  /** The parser reads a value's text as exactly the value's tokens; a number must not be followed by a digit. */
  lemma {:induction false} ReadsValue(v: Value, rest: seq<byte>)
    requires Readable(v) && (v.Int? ==> Ends(rest))
    ensures Reads(Text(v) + rest, Tokens(v), rest)
    decreases v, 0
  {
    hide Reads, Escape, Decimal, ItemsText, MembersText, ItemsTokens, MembersTokens;
    match v
    case Str(s) => ReadsString(s, rest);
    case Int(n) => ReadsNumber(n, rest);
    case Bool(b) =>
      ReadsWord(if b then WORD_TRUE else WORD_FALSE, if b then True else False, rest);
    case Nil => ReadsWord(WORD_NULL, Null, rest);
    case Arr(items) =>
      ReadsItems(items, [RBRACKET] + rest);
      ReadsBracketed(LBRACKET, LBracket, ItemsText(items), ItemsTokens(items), RBRACKET, RBracket, rest);
    case Obj(ms) =>
      ReadsMembers(ms, [RBRACE] + rest);
      ReadsBracketed(LBRACE, LBrace, MembersText(ms), MembersTokens(ms), RBRACE, RBrace, rest);
  }

  lemma ReadsBracketed(a: byte, t: Token, body: seq<byte>, ts: seq<Token>, z: byte, u: Token, rest: seq<byte>)
    requires (a == LBRACE && t == LBrace && z == RBRACE && u == RBrace)
             || (a == LBRACKET && t == LBracket && z == RBRACKET && u == RBracket)
    requires Reads(body + ([z] + rest), ts, [z] + rest)
    ensures Reads([a] + body + [z] + rest, [t] + ts + [u], rest)
  {
    hide Reads;
    ReadsPunctuation(a, t, body + ([z] + rest));
    ReadsPunctuation(z, u, rest);
    ReadsJoin(body + ([z] + rest), ts, [z] + rest, [u], rest);
    ReadsJoin([a] + (body + ([z] + rest)), [t], body + ([z] + rest), ts + [u], rest);
    assert [a] + body + [z] + rest == [a] + (body + ([z] + rest));
    assert [t] + ts + [u] == [t] + (ts + [u]);
  }

  lemma {:induction false} ReadsItems(items: seq<Value>, rest: seq<byte>)
    requires (forall i :: 0 <= i < |items| ==> Readable(items[i])) && Ends(rest)
    ensures Reads(ItemsText(items) + rest, ItemsTokens(items), rest)
    decreases items, 1
  {
    hide Text, Tokens;
    if items == [] {
      assert ItemsText(items) + rest == rest;
    } else if |items| == 1 {
      ReadsValue(items[0], rest);
      assert ItemsText(items) == Text(items[0]) && ItemsTokens(items) == Tokens(items[0]);
    } else {
      hide Reads;
      var more := ItemsText(items[1..]) + rest;
      ReadsValue(items[0], [COMMA] + more);
      ReadsItems(items[1..], rest);
      ReadsAfterComma(Text(items[0]), Tokens(items[0]), ItemsText(items[1..]), ItemsTokens(items[1..]), rest);
    }
  }

  lemma ReadsAfterComma(first: seq<byte>, ts: seq<Token>, others: seq<byte>, us: seq<Token>, rest: seq<byte>)
    requires Reads(first + ([COMMA] + (others + rest)), ts, [COMMA] + (others + rest)) && Reads(others + rest, us, rest)
    ensures Reads(first + ([COMMA] + others) + rest, ts + ([Comma] + us), rest)
  {
    hide Reads;
    var more := others + rest;
    ReadsPunctuation(COMMA, Comma, more);
    ReadsJoin([COMMA] + more, [Comma], more, us, rest);
    ReadsJoin(first + ([COMMA] + more), ts, [COMMA] + more, [Comma] + us, rest);
    assert first + ([COMMA] + others) + rest == first + ([COMMA] + more);
  }

  lemma {:induction false} ReadsMembers(ms: seq<Member>, rest: seq<byte>)
    requires (forall i :: 0 <= i < |ms| ==> Readable(ms[i].value)) && Ends(rest)
    ensures Reads(MembersText(ms) + rest, MembersTokens(ms), rest)
    decreases ms, 1
  {
    hide MemberText, MemberTokens;
    if ms == [] {
      assert MembersText(ms) + rest == rest;
    } else if |ms| == 1 {
      ReadsMember(ms[0], rest);
      assert MembersText(ms) == MemberText(ms[0]) && MembersTokens(ms) == MemberTokens(ms[0]);
    } else {
      hide Reads;
      var more := MembersText(ms[1..]) + rest;
      ReadsMember(ms[0], [COMMA] + more);
      ReadsMembers(ms[1..], rest);
      ReadsAfterComma(MemberText(ms[0]), MemberTokens(ms[0]), MembersText(ms[1..]), MembersTokens(ms[1..]), rest);
    }
  }

  lemma {:induction false} ReadsMember(m: Member, rest: seq<byte>)
    requires Readable(m.value) && Ends(rest)
    ensures Reads(MemberText(m) + rest, MemberTokens(m), rest)
    decreases m, 1
  {
    hide Reads, Text, Tokens, Escape;
    var value := Text(m.value) + rest;
    var k := [String(Escape(m.key))];
    ReadsString(m.key, [COLON] + value);
    ReadsPunctuation(COLON, Colon, value);
    ReadsValue(m.value, rest);
    ReadsJoin([COLON] + value, [Colon], value, Tokens(m.value), rest);
    ReadsJoin(Quoted(m.key) + ([COLON] + value), k, [COLON] + value, [Colon] + Tokens(m.value), rest);
    assert MemberText(m) + rest == Quoted(m.key) + ([COLON] + value);
    assert MemberTokens(m) == k + ([Colon] + Tokens(m.value));
  }

  // ----- skipping a value

  datatype Skipped = Skipped(rc: Status, moved: nat)

  function Deeper(d: nat, t: Token): int {
    if t == LBrace || t == LBracket then d + 1 else if t == RBrace || t == RBracket then d - 1 else d
  }

  /** Consume tokens until d open brackets are closed. */
  function SkipRest(s: seq<byte>, d: nat): (k: Skipped)
    ensures k.moved <= |s|
    decreases |s|
  {
    if d == 0 then Skipped(OK, 0)
    else
      var l := NextToken(s);
      if l.rc != OK then Skipped(l.rc, l.moved)
      else if l.token == End then Skipped(ErrUnderflow, l.moved)
      else
        var k := SkipRest(s[l.moved..], Deeper(d, l.token));
        Skipped(k.rc, l.moved + k.moved)
  }

  function SkipValue(s: seq<byte>): (k: Skipped)
    ensures k.moved <= |s|
  {
    var l := NextToken(s);
    if l.rc != OK then Skipped(l.rc, l.moved)
    else match l.token
      case String(_) => Skipped(OK, l.moved)
      case Number(_) => Skipped(OK, l.moved)
      case True => Skipped(OK, l.moved)
      case False => Skipped(OK, l.moved)
      case Null => Skipped(OK, l.moved)
      case LBrace => var k := SkipRest(s[l.moved..], 1); Skipped(k.rc, l.moved + k.moved)
      case LBracket => var k := SkipRest(s[l.moved..], 1); Skipped(k.rc, l.moved + k.moved)
      case _ => Skipped(ErrCorrupt, l.moved)
  }

  /** Reading ts with d >= 1 brackets open never closes the last of them, and leaves e open. */
  ghost predicate Stays(ts: seq<Token>, d: int, e: int)
    decreases ts
  {
    if ts == [] then d == e
    else ts[0] != End && d >= 1 && Deeper(d, ts[0]) >= 1 && Stays(ts[1..], Deeper(d, ts[0]), e)
  }

  lemma {:induction false} StaysJoin(a: seq<Token>, b: seq<Token>, d: int, e: int, f: int)
    requires Stays(a, d, e) && Stays(b, e, f)
    ensures Stays(a + b, d, f)
    decreases a
  {
    if a == [] {
      assert a + b == b;
    } else {
      StaysJoin(a[1..], b, Deeper(d, a[0]), e, f);
      assert (a + b)[1..] == a[1..] + b;
    }
  }

  lemma StaysOne(t: Token, d: int, e: int)
    requires t != End && d >= 1 && Deeper(d, t) == e >= 1
    ensures Stays([t], d, e)
  {
    assert Stays([], e, e);
  }

  lemma {:induction false} StaysValue(v: Value, d: int)
    requires d >= 1
    ensures Stays(Tokens(v), d, d)
    decreases v, 0
  {
    hide Stays, Escape;
    match v
    case Str(s) => StaysOne(String(Escape(s)), d, d);
    case Int(n) => StaysOne(Number(n), d, d);
    case Bool(b) => StaysOne(if b then True else False, d, d);
    case Nil => StaysOne(Null, d, d);
    case Arr(items) =>
      StaysOne(LBracket, d, d + 1);
      StaysItems(items, d + 1);
      StaysOne(RBracket, d + 1, d);
      StaysJoin([LBracket], ItemsTokens(items), d, d + 1, d + 1);
      StaysJoin([LBracket] + ItemsTokens(items), [RBracket], d, d + 1, d);
    case Obj(ms) =>
      StaysOne(LBrace, d, d + 1);
      StaysMembers(ms, d + 1);
      StaysOne(RBrace, d + 1, d);
      StaysJoin([LBrace], MembersTokens(ms), d, d + 1, d + 1);
      StaysJoin([LBrace] + MembersTokens(ms), [RBrace], d, d + 1, d);
  }

  lemma {:induction false} StaysItems(items: seq<Value>, d: int)
    requires d >= 1
    ensures Stays(ItemsTokens(items), d, d)
    decreases items, 1
  {
    hide Tokens;
    if items != [] {
      StaysValue(items[0], d);
      if |items| > 1 {
        StaysOne(Comma, d, d);
        StaysItems(items[1..], d);
        StaysJoin([Comma], ItemsTokens(items[1..]), d, d, d);
        StaysJoin(Tokens(items[0]), [Comma] + ItemsTokens(items[1..]), d, d, d);
      } else {
        assert ItemsTokens(items) == Tokens(items[0]);
      }
    }
  }

  lemma {:induction false} StaysMembers(ms: seq<Member>, d: int)
    requires d >= 1
    ensures Stays(MembersTokens(ms), d, d)
    decreases ms, 1
  {
    hide Tokens, MemberTokens;
    if ms != [] {
      StaysMember(ms[0], d);
      if |ms| > 1 {
        StaysOne(Comma, d, d);
        StaysMembers(ms[1..], d);
        StaysJoin([Comma], MembersTokens(ms[1..]), d, d, d);
        StaysJoin(MemberTokens(ms[0]), [Comma] + MembersTokens(ms[1..]), d, d, d);
      } else {
        assert MembersTokens(ms) == MemberTokens(ms[0]);
      }
    }
  }

  lemma {:induction false} StaysMember(m: Member, d: int)
    requires d >= 1
    ensures Stays(MemberTokens(m), d, d)
    decreases m, 1
  {
    hide Tokens, Stays, Escape;
    StaysOne(String(Escape(m.key)), d, d);
    StaysOne(Colon, d, d);
    StaysValue(m.value, d);
    StaysJoin([String(Escape(m.key))], [Colon], d, d, d);
    StaysJoin([String(Escape(m.key))] + [Colon], Tokens(m.value), d, d, d);
  }

  lemma {:induction false} SkipsPast(s: seq<byte>, ts: seq<Token>, rest: seq<byte>, d: nat, e: nat)
    requires Reads(s, ts, rest) && Stays(ts, d, e)
    ensures |rest| <= |s| && SkipRest(s, d) == var k := SkipRest(rest, e); Skipped(k.rc, |s| - |rest| + k.moved)
    decreases ts
  {
    hide NextToken;
    if ts != [] {
      SkipsPast(s[NextToken(s).moved..], ts[1..], rest, Deeper(d, ts[0]), e);
    }
  }

  /** Skipping consumes exactly the tokens of a value, however they are laid out. */
  lemma SkipsTokens(v: Value, s: seq<byte>, rest: seq<byte>)
    requires Reads(s, Tokens(v), rest)
    ensures |rest| <= |s| && SkipValue(s) == Skipped(OK, |s| - |rest|)
  {
    hide NextToken, Escape;
    match v
    case Str(t) => ReadsSingle(s, String(Escape(t)), rest);
    case Int(n) => ReadsSingle(s, Number(n), rest);
    case Bool(b) => ReadsSingle(s, if b then True else False, rest);
    case Nil => ReadsSingle(s, Null, rest);
    case Arr(items) =>
      StaysItems(items, 1);
      SkipsContainer(s, LBracket, ItemsTokens(items), RBracket, rest);
    case Obj(ms) =>
      StaysMembers(ms, 1);
      SkipsContainer(s, LBrace, MembersTokens(ms), RBrace, rest);
  }

  /** In particular the text of the value. */
  lemma SkipsValue(v: Value, rest: seq<byte>)
    requires Readable(v) && (v.Int? ==> Ends(rest))
    ensures SkipValue(Text(v) + rest) == Skipped(OK, |Text(v)|)
  {
    hide Reads, Text, Tokens, SkipValue;
    ReadsValue(v, rest);
    SkipsTokens(v, Text(v) + rest, rest);
  }

  lemma ReadsSingle(s: seq<byte>, t: Token, rest: seq<byte>)
    requires Reads(s, [t], rest)
    ensures |rest| <= |s| && NextToken(s) == Lexed(OK, t, |s| - |rest|)
  {
    hide NextToken;
    var m := NextToken(s).moved;
    assert Reads(s[m..], [], rest);
  }

  lemma SkipsContainer(s: seq<byte>, open: Token, ts: seq<Token>, close: Token, rest: seq<byte>)
    requires (open == LBracket && close == RBracket) || (open == LBrace && close == RBrace)
    requires Reads(s, [open] + ts + [close], rest) && Stays(ts, 1, 1)
    ensures |rest| <= |s| && SkipValue(s) == Skipped(OK, |s| - |rest|)
  {
    hide NextToken;
    var l := NextToken(s);
    var body := s[l.moved..];
    assert ([open] + ts + [close])[1..] == ts + [close];
    SkipsToClose(body, ts, close, rest, 1);
  }

  lemma {:induction false} SkipsToClose(s: seq<byte>, ts: seq<Token>, close: Token, rest: seq<byte>, d: nat)
    requires (close == RBracket || close == RBrace) && Reads(s, ts + [close], rest) && Stays(ts, d, 1)
    ensures |rest| <= |s| && SkipRest(s, d) == Skipped(OK, |s| - |rest|)
    decreases ts
  {
    hide NextToken;
    var l := NextToken(s);
    if ts == [] {
      assert ts + [close] == [close];
      assert Reads(s[l.moved..], [], rest);
      assert SkipRest(rest, 0) == Skipped(OK, 0);
    } else {
      assert (ts + [close])[1..] == ts[1..] + [close];
      SkipsToClose(s[l.moved..], ts[1..], close, rest, Deeper(d, ts[0]));
    }
  }

  // ----- the writer's calls

  datatype Call =
    | OpenObject | CloseObject | OpenArray | CloseArray | Key(key: seq<byte>)
    | PutStr(s: seq<byte>) | PutInt(n: int) | PutBool(b: bool) | PutNull

  /** The text so far, and for every open container whether its next entry needs a comma. */
  datatype State = State(out: seq<byte>, commas: seq<bool>)

  datatype Applied = Applied(rc: Status, st: State)

  ghost function Flagged(commas: seq<bool>, flag: bool): seq<bool> {
    if commas == [] then [] else commas[..|commas| - 1] + [flag]
  }

  ghost function Pending(st: State): seq<byte> {
    if st.commas != [] && st.commas[|st.commas| - 1] then [COMMA] else []
  }

  /** A value is due: a comma if one is needed, and the next entry will need one. */
  ghost function Put(st: State, text: seq<byte>): State {
    State(st.out + (Pending(st) + text), Flagged(st.commas, true))
  }

  /** One call without regard to the buffer's size, for containers nested at most max deep. */
  ghost function Apply(st: State, c: Call, max: nat): Applied {
    match c
    case OpenObject =>
      if |st.commas| >= max then Applied(ErrParam, st)
      else Applied(OK, State(Put(st, [LBRACE]).out, Put(st, [LBRACE]).commas + [false]))
    case CloseObject =>
      if st.commas == [] then Applied(ErrParam, st)
      else Applied(OK, State(st.out + [RBRACE], st.commas[..|st.commas| - 1]))
    case OpenArray =>
      if |st.commas| >= max then Applied(ErrParam, st)
      else Applied(OK, State(Put(st, [LBRACKET]).out, Put(st, [LBRACKET]).commas + [false]))
    case CloseArray =>
      if st.commas == [] then Applied(ErrParam, st)
      else Applied(OK, State(st.out + [RBRACKET], st.commas[..|st.commas| - 1]))
    case Key(k) => Applied(OK, State(st.out + (Pending(st) + (Quoted(k) + [COLON])), Flagged(st.commas, false)))
    case PutStr(t) => Applied(OK, Put(st, Quoted(t)))
    case PutInt(n) => Applied(OK, Put(st, Decimal(n)))
    case PutBool(b) => Applied(OK, Put(st, if b then WORD_TRUE else WORD_FALSE))
    case PutNull => Applied(OK, Put(st, WORD_NULL))
  }

  /** A run of calls, none of which is refused. */
  ghost predicate Runs(st: State, cs: seq<Call>, st': State, max: nat)
    decreases cs
  {
    if cs == [] then st == st'
    else Apply(st, cs[0], max).rc == OK && Runs(Apply(st, cs[0], max).st, cs[1..], st', max)
  }

  /** The calls that write a value. */
  function Calls(v: Value): seq<Call>
    decreases v, 0
  {
    match v
    case Str(s) => [PutStr(s)]
    case Int(n) => [PutInt(n)]
    case Bool(b) => [PutBool(b)]
    case Nil => [PutNull]
    case Arr(items) => [OpenArray] + ItemsCalls(items) + [CloseArray]
    case Obj(ms) => [OpenObject] + MembersCalls(ms) + [CloseObject]
  }

  function ItemsCalls(items: seq<Value>): seq<Call>
    decreases items, 1
  {
    if items == [] then [] else Calls(items[0]) + ItemsCalls(items[1..])
  }

  function MembersCalls(ms: seq<Member>): seq<Call>
    decreases ms, 1
  {
    if ms == [] then [] else [Key(ms[0].key)] + Calls(ms[0].value) + MembersCalls(ms[1..])
  }

  /** The value nests at most n containers deep. */
  ghost predicate Nests(v: Value, n: nat)
    decreases v
  {
    match v
    case Str(_) => true
    case Int(_) => true
    case Bool(_) => true
    case Nil => true
    case Arr(items) => n > 0 && forall i :: 0 <= i < |items| ==> Nests(items[i], n - 1)
    case Obj(ms) => n > 0 && forall i :: 0 <= i < |ms| ==> Nests(ms[i].value, n - 1)
  }

  lemma {:induction false} RunsJoin(st: State, a: seq<Call>, m: State, b: seq<Call>, st': State, max: nat)
    requires Runs(st, a, m, max) && Runs(m, b, st', max)
    ensures Runs(st, a + b, st', max)
    decreases a
  {
    hide Apply;
    if a == [] {
      assert a + b == b;
    } else {
      RunsJoin(Apply(st, a[0], max).st, a[1..], m, b, st', max);
      assert (a + b)[1..] == a[1..] + b;
    }
  }

  lemma RunsOne(st: State, c: Call, st': State, max: nat)
    requires Apply(st, c, max) == Applied(OK, st')
    ensures Runs(st, [c], st', max)
  {
    hide Apply;
    assert Runs(st', [], st', max);
  }

  /** The calls for a value write its text, after a comma where one is needed. */
  lemma {:induction false} WritesValue(v: Value, st: State, max: nat)
    requires |st.commas| <= max && Nests(v, max - |st.commas|)
    ensures Runs(st, Calls(v), Put(st, Text(v)), max)
    decreases v, 0
  {
    hide Runs, Quoted, Decimal, Pending;
    match v
    case Str(s) => RunsOne(st, PutStr(s), Put(st, Text(v)), max);
    case Int(n) => RunsOne(st, PutInt(n), Put(st, Text(v)), max);
    case Bool(b) => RunsOne(st, PutBool(b), Put(st, Text(v)), max);
    case Nil => RunsOne(st, PutNull, Put(st, Text(v)), max);
    case Arr(items) => WritesArray(items, st, max);
    case Obj(ms) => WritesObject(ms, st, max);
  }

  lemma {:induction false} WritesArray(items: seq<Value>, st: State, max: nat)
    requires |st.commas| < max && forall i :: 0 <= i < |items| ==> Nests(items[i], max - |st.commas| - 1)
    ensures Runs(st, [OpenArray] + ItemsCalls(items) + [CloseArray],
                 Put(st, [LBRACKET] + ItemsText(items) + [RBRACKET]), max)
    decreases items, 3
  {
    hide Runs, Pending, ItemsCalls, ItemsText;
    var s0 := Put(st, [LBRACKET]);
    var s1 := State(s0.out, s0.commas + [false]);
    var s2 := State(s0.out + ItemsText(items), s0.commas + [items != []]);
    var s3 := Put(st, [LBRACKET] + ItemsText(items) + [RBRACKET]);
    RunsOne(st, OpenArray, s1, max);
    WritesItems(items, s0.out, s0.commas, false, max);
    NoText();
    assert s2.out == s0.out + if items == [] then [] else Separated(false, ItemsText(items));
    assert Apply(s2, CloseArray, max) == Applied(OK, s3) by {
      assert s2.commas[..|s2.commas| - 1] == s0.commas;
      assert s2.out + [RBRACKET] == s3.out;
    }
    RunsOne(s2, CloseArray, s3, max);
    RunsJoin(st, [OpenArray], s1, ItemsCalls(items), s2, max);
    RunsJoin(st, [OpenArray] + ItemsCalls(items), s2, [CloseArray], s3, max);
  }

  lemma {:induction false} WritesObject(ms: seq<Member>, st: State, max: nat)
    requires |st.commas| < max && forall i :: 0 <= i < |ms| ==> Nests(ms[i].value, max - |st.commas| - 1)
    ensures Runs(st, [OpenObject] + MembersCalls(ms) + [CloseObject],
                 Put(st, [LBRACE] + MembersText(ms) + [RBRACE]), max)
    decreases ms, 3
  {
    hide Runs, Pending, MembersCalls, MembersText;
    var s0 := Put(st, [LBRACE]);
    var s1 := State(s0.out, s0.commas + [false]);
    var s2 := State(s0.out + MembersText(ms), s0.commas + [ms != []]);
    var s3 := Put(st, [LBRACE] + MembersText(ms) + [RBRACE]);
    RunsOne(st, OpenObject, s1, max);
    WritesMembers(ms, s0.out, s0.commas, false, max);
    NoText();
    assert s2.out == s0.out + if ms == [] then [] else Separated(false, MembersText(ms));
    assert Apply(s2, CloseObject, max) == Applied(OK, s3) by {
      assert s2.commas[..|s2.commas| - 1] == s0.commas;
      assert s2.out + [RBRACE] == s3.out;
    }
    RunsOne(s2, CloseObject, s3, max);
    RunsJoin(st, [OpenObject], s1, MembersCalls(ms), s2, max);
    RunsJoin(st, [OpenObject] + MembersCalls(ms), s2, [CloseObject], s3, max);
  }

  lemma NoText()
    ensures ItemsText([]) == [] && MembersText([]) == []
  {}

  ghost function Separated(flag: bool, text: seq<byte>): seq<byte> {
    (if flag then [COMMA] else []) + text
  }

  lemma PutFlag(out: seq<byte>, commas: seq<bool>, flag: bool, text: seq<byte>)
    ensures Put(State(out, commas + [flag]), text) == State(out + Separated(flag, text), commas + [true])
  {
    assert (commas + [flag])[..|commas|] == commas;
  }

  lemma {:induction false} WritesItems(items: seq<Value>, out: seq<byte>, commas: seq<bool>, flag: bool, max: nat)
    requires |commas| < max && forall i :: 0 <= i < |items| ==> Nests(items[i], max - |commas| - 1)
    ensures Runs(State(out, commas + [flag]), ItemsCalls(items),
                 State(out + (if items == [] then [] else Separated(flag, ItemsText(items))),
                       commas + [flag || items != []]), max)
    decreases items, 2
  {
    hide Text, Calls, Put, Apply;
    var st := State(out, commas + [flag]);
    if items == [] {
      assert out + [] == out;
    } else {
      var mid := State(out + Separated(flag, Text(items[0])), commas + [true]);
      WritesValue(items[0], st, max);
      PutFlag(out, commas, flag, Text(items[0]));
      WritesItems(items[1..], mid.out, commas, true, max);
      ItemsAfter(items, out, flag);
      RunsJoin(st, Calls(items[0]), mid, ItemsCalls(items[1..]),
               State(out + Separated(flag, ItemsText(items)), commas + [true]), max);
    }
  }

  lemma ItemsAfter(items: seq<Value>, out: seq<byte>, flag: bool)
    requires items != []
    ensures out + Separated(flag, Text(items[0]))
            + (if |items| == 1 then [] else Separated(true, ItemsText(items[1..])))
            == out + Separated(flag, ItemsText(items))
  {
    hide Text;
  }

  lemma {:induction false} WritesMembers(ms: seq<Member>, out: seq<byte>, commas: seq<bool>, flag: bool, max: nat)
    requires |commas| < max && forall i :: 0 <= i < |ms| ==> Nests(ms[i].value, max - |commas| - 1)
    ensures Runs(State(out, commas + [flag]), MembersCalls(ms),
                 State(out + (if ms == [] then [] else Separated(flag, MembersText(ms))),
                       commas + [flag || ms != []]), max)
    decreases ms, 2
  {
    hide Text, Calls, Put, Apply, MemberText, Quoted;
    var st := State(out, commas + [flag]);
    if ms == [] {
      assert out + [] == out;
    } else {
      var m := ms[0];
      var keyed := State(out + Separated(flag, Quoted(m.key) + [COLON]), commas + [false]);
      var mid := State(out + Separated(flag, MemberText(m)), commas + [true]);
      KeyFlag(out, commas, flag, m.key, max);
      RunsOne(st, Key(m.key), keyed, max);
      WritesValue(m.value, keyed, max);
      PutFlag(keyed.out, commas, false, Text(m.value));
      MemberAfter(m, out, flag);
      WritesMembers(ms[1..], mid.out, commas, true, max);
      MembersAfter(ms, out, flag);
      RunsJoin(st, [Key(m.key)], keyed, Calls(m.value), mid, max);
      RunsJoin(st, [Key(m.key)] + Calls(m.value), mid, MembersCalls(ms[1..]),
               State(out + Separated(flag, MembersText(ms)), commas + [true]), max);
    }
  }

  lemma KeyFlag(out: seq<byte>, commas: seq<bool>, flag: bool, key: seq<byte>, max: nat)
    ensures Apply(State(out, commas + [flag]), Key(key), max)
            == Applied(OK, State(out + Separated(flag, Quoted(key) + [COLON]), commas + [false]))
  {
    hide Quoted;
    assert (commas + [flag])[..|commas|] == commas;
  }

  lemma MemberAfter(m: Member, out: seq<byte>, flag: bool)
    ensures out + Separated(flag, Quoted(m.key) + [COLON]) + Separated(false, Text(m.value))
            == out + Separated(flag, MemberText(m))
  {
    hide Text, Quoted;
  }

  lemma MembersAfter(ms: seq<Member>, out: seq<byte>, flag: bool)
    requires ms != []
    ensures out + Separated(flag, MemberText(ms[0])) + (if |ms| == 1 then [] else Separated(true, MembersText(ms[1..])))
            == out + Separated(flag, MembersText(ms))
  {
    hide MemberText;
  }

  /**
   The round trip. From an empty writer, the calls for a value of admissible depth write its text and close every
   container; the parser turns that text into exactly the value's tokens, and skip_value consumes exactly that text.
   */
  lemma RoundTrip(v: Value, max: nat)
    requires Nests(v, max) && Readable(v)
    ensures Runs(State([], []), Calls(v), State(Text(v), []), max)
    ensures Reads(Text(v), Tokens(v), [])
    ensures SkipValue(Text(v)) == Skipped(OK, |Text(v)|)
  {
    hide Runs, Reads, Text, Calls, Tokens, SkipValue, Nests, Readable;
    WritesValue(v, State([], []), max);
    assert Put(State([], []), Text(v)) == State(Text(v), []);
    ReadsValue(v, []);
    SkipsValue(v, []);
    assert Text(v) + [] == Text(v);
  }

  /** A parsed string means the original one. */
  lemma StringMeaning(s: seq<byte>)
    ensures Unescape(Escape(s)) == Some(s)
  {
    hide Escape;
    UnescapeEscape(s, []);
    assert Escape(s) + [] == Escape(s) && s + [] == s;
  }

  predicate Plain(ch: byte) {
    ch != QUOTE && ch != BACKSLASH && ch >= 0x20
  }

  lemma EscapedByte(ch: byte)
    ensures |EscapeByte(ch)| >= 1 && (|EscapeByte(ch)| == 1 ==> Plain(ch)) && (Plain(ch) ==> EscapeByte(ch) == [ch])
  {}

  ghost predicate AllPlain(s: seq<byte>) {
    forall i :: 0 <= i < |s| ==> Plain(s[i])
  }

  lemma AllPlainSnoc(s: seq<byte>)
    requires s != []
    ensures AllPlain(s) <==> AllPlain(s[..|s| - 1]) && Plain(s[|s| - 1])
  {
    hide Plain;
    assert forall i :: 0 <= i < |s| - 1 ==> s[..|s| - 1][i] == s[i];
  }

  lemma {:induction false} EscapeLength(s: seq<byte>)
    ensures |Escape(s)| >= |s| && (|Escape(s)| == |s| ==> AllPlain(s)) && (AllPlain(s) ==> Escape(s) == s)
  {
    hide EscapeByte, Plain, AllPlain;
    if s == [] {
      NoneEscaped();
    } else {
      var n := |s| - 1;
      EscapeLength(s[..n]);
      EscapedByte(s[n]);
      AllPlainSnoc(s);
      assert s == s[..n] + [s[n]];
    }
  }

  lemma NoneEscaped()
    ensures Escape([]) == [] && AllPlain([])
  {}

  /** The slice that the parser returns is the original string exactly when nothing in that is escaped. */
  lemma SliceIsOriginal(s: seq<byte>)
    ensures Escape(s) == s <==> forall i :: 0 <= i < |s| ==> s[i] != QUOTE && s[i] != BACKSLASH && s[i] >= 0x20
  {
    hide Escape;
    EscapeLength(s);
    assert AllPlain(s) <==> forall i :: 0 <= i < |s| ==> s[i] != QUOTE && s[i] != BACKSLASH && s[i] >= 0x20;
  }

  /** A quote, for one: what is read back has two bytes. */
  lemma SliceOfQuote(rest: seq<byte>)
    ensures NextToken([QUOTE] + Escape([QUOTE]) + [QUOTE] + rest) == Lexed(OK, String([BACKSLASH, QUOTE]), 4)
  {
    assert Escape([]) == [];
    assert Escape([QUOTE]) == [BACKSLASH, QUOTE];
    ReadsString([QUOTE], rest);
  }

  // ----- emitting bytes

  /** The outcome of emitting data into a buffer of a given capacity; a refusal may leave a part of it. */
  ghost predicate Emitted(before: seq<byte>, data: seq<byte>, after: seq<byte>, rc: Status, capacity: nat) {
    && rc == (if |before| + |data| <= capacity then OK else ErrOverflow)
    && (if rc == OK then after == before + data else before <= after <= before + data && |after| <= capacity)
  }

  lemma EmittedThen(a: seq<byte>, d: seq<byte>, b: seq<byte>, e: seq<byte>, c: seq<byte>, rc: Status, capacity: nat)
    requires Emitted(a, d, b, OK, capacity) && Emitted(b, e, c, rc, capacity)
    ensures Emitted(a, d + e, c, rc, capacity)
  {
    assert a + (d + e) == a + d + e;
  }

  lemma EmittedNot(a: seq<byte>, d: seq<byte>, b: seq<byte>, e: seq<byte>, rc: Status, capacity: nat)
    requires Emitted(a, d, b, rc, capacity) && rc != OK
    ensures Emitted(a, d + e, b, rc, capacity)
  {
    assert a + (d + e) == a + d + e;
  }

  lemma EmittedNone(a: seq<byte>, capacity: nat)
    requires |a| <= capacity
    ensures Emitted(a, [], a, OK, capacity)
  {}

  lemma {:induction false} EscapeTail(s: seq<byte>, i: nat)
    requires i <= |s|
    ensures Escape(s[..i]) <= Escape(s)
    decreases |s| - i
  {
    if i < |s| {
      assert s[..i + 1][..i] == s[..i];
      EscapeTail(s, i + 1);
    } else {
      assert s[..i] == s;
    }
  }

  lemma EmittedPrefix(a: seq<byte>, d: seq<byte>, b: seq<byte>, e: seq<byte>, rc: Status, capacity: nat)
    requires Emitted(a, d, b, rc, capacity) && rc != OK && d <= e
    ensures Emitted(a, e, b, rc, capacity)
  {
    assert a + d <= a + e;
  }

  /** A public call: refused outright, or carried out, or stopped by the end of the buffer. */
  ghost predicate Performed(st: State, c: Call, st': State, rc: Status, capacity: nat, max: nat) {
    var a := Apply(st, c, max);
    if a.rc != OK then rc == a.rc && st' == st
    else
      && rc == (if |a.st.out| <= capacity then OK else ErrOverflow)
      && (if rc == OK then st' == a.st else st.out <= st'.out <= a.st.out && st'.commas == Stopped(st.commas, c))
  }

  /** What a call stopped by the end of the buffer has done to the open containers. */
  ghost function Stopped(commas: seq<bool>, c: Call): seq<bool> {
    match c
    case CloseObject => if commas == [] then [] else commas[..|commas| - 1]
    case CloseArray => if commas == [] then [] else commas[..|commas| - 1]
    case Key(_) => commas
    case _ => Flagged(commas, true)
  }

  /** A separator that is stopped was due. */
  lemma SeparatorStopped(st: State, after: seq<byte>, rc: Status, capacity: nat)
    requires Emitted(st.out, Pending(st), after, rc, capacity) && rc != OK && |st.out| <= capacity
    ensures Flagged(st.commas, true) == st.commas
  {}

  // ----- the program

  /** The digits of uv, in reverse. */
  method DigitsInto(value: nat, tmp: array<byte>) returns (j: nat)
    requires value < 0x1_0000_0000 && tmp.Length == 12
    modifies tmp
    ensures j <= 10 && Digits(value) == Reversed(tmp[..j])
  {
    hide Digits, Reversed;
    var uv := value;
    j := 0;
    FewDigits(value);
    ReversedNone();
    if uv == 0 {
      tmp[j] := ZERO;
      j := j + 1;
      DigitsZero();
      assert tmp[..1] == [ZERO];
      return;
    }
    while uv > 0
      invariant 0 <= uv < 0x1_0000_0000 && 0 <= j <= 10
      invariant |Digits(value)| == j + if uv > 0 then |Digits(uv)| else 0
      invariant Digits(value) == (if uv > 0 then Digits(uv) else []) + Reversed(tmp[..j])
    {
      ghost var before := tmp[..j];
      tmp[j] := ZERO + uv % 10;
      DigitsStep(Digits(value), uv, tmp[j], before);
      assert tmp[..j + 1] == before + [tmp[j]];
      uv := uv / 10;
      j := j + 1;
    }
  }

  /** Copy j bytes in reverse to place i of the output. */
  method ReverseInto(tmp: array<byte>, count: nat, out: array<byte>, at: nat) returns (i: nat)
    requires count <= tmp.Length && at + count <= out.Length && tmp != out
    modifies out
    ensures i == at + count && out[..i] == old(out[..at]) + Reversed(tmp[..count])
  {
    hide Reversed;
    ghost var ds, start := tmp[..count], out[..at];
    var j := count;
    i := at;
    ReversedNone();
    while j > 0
      invariant j <= count && i == at + count - j && tmp[..count] == ds
      invariant out[..i] == start + Reversed(ds[j..])
    {
      j := j - 1;
      ghost var before := out[..i];
      out[i] := tmp[j];
      assert out[..i + 1] == before + [ds[j]];
      ReversedLast(ds, j);
      i := i + 1;
    }
    assert ds[0..] == ds;
  }

  /** Decimal digits of a signed integer; the sign is taken off without overflow. */
  method Int32ToStr(value: int, out: array<byte>) returns (n: nat)
    requires -0x8000_0000 <= value < 0x8000_0000 && out.Length == 12
    modifies out
    ensures n <= 11 && out[..n] == Decimal(value)
  {
    hide Digits, Reversed;
    var tmp := new byte[12];
    var i, uv := 0, value;
    if value < 0 {
      out[i] := MINUS;
      i := i + 1;
      uv := -(value + 1) + 1;
    }
    assert out[..i] == if value < 0 then [MINUS] else [];
    var j := DigitsInto(uv, tmp);
    i := ReverseInto(tmp, j, out, i);
    ghost var text := out[..i];
    out[i] := 0;
    assert out[..i] == text;
    n := i;
  }

  lemma ReversedNone()
    ensures Reversed([]) == []
  {}

  ghost function Reversed(s: seq<byte>): (r: seq<byte>)
    ensures |r| == |s|
  {
    if s == [] then [] else [s[|s| - 1]] + Reversed(s[..|s| - 1])
  }

  lemma ReversedNext(s: seq<byte>, x: byte)
    ensures Reversed(s + [x]) == [x] + Reversed(s)
  {
    assert (s + [x])[..|s|] == s;
  }

  lemma {:induction false} ReversedFirst(s: seq<byte>)
    requires s != []
    ensures Reversed(s) == Reversed(s[1..]) + [s[0]]
  {
    if |s| > 1 {
      ReversedFirst(s[..|s| - 1]);
      assert s[..|s| - 1][1..] == s[1..][..|s| - 2];
    } else {
      assert s[..0] == [] && s[1..] == [];
    }
  }

  lemma ReversedLast(s: seq<byte>, j: nat)
    requires j < |s|
    ensures Reversed(s[j..]) == Reversed(s[j + 1..]) + [s[j]]
  {
    ReversedFirst(s[j..]);
    assert s[j..][1..] == s[j + 1..];
  }

  lemma DigitsZero()
    ensures Digits(0) == [ZERO] && Reversed([ZERO]) == [ZERO]
  {
    assert [ZERO][..0] == [];
  }

  /** The digits above the lowest one, x. */
  ghost function Higher(u: nat): seq<byte> {
    if u / 10 > 0 then Digits(u / 10) else []
  }

  /** One more digit of an integer whose lower digits are known. */
  lemma {:induction false} DigitsStep(ds: seq<byte>, u: nat, x: byte, low: seq<byte>)
    requires u > 0 && ds == Digits(u) + Reversed(low) && x == ZERO + u % 10
    ensures ds == Higher(u) + Reversed(low + [x])
    ensures |ds| == |low| + 1 + |Higher(u)|
  {
    hide Digits, Reversed, Higher;
    DigitsNext(u, x);
    ReversedNext(low, x);
  }

  lemma {:induction false} DigitsNext(u: nat, x: byte)
    requires u > 0 && x == ZERO + u % 10
    ensures Digits(u) == Higher(u) + [x]
  {}

  class Writer {
    const buf: array<byte>
    const capacity: nat
    const needComma: array<bool>
    const maxDepth: nat
    var pos: nat
    var depth: nat

    /** The nesting depth is fixed when the program is built; it fits a byte. */
    constructor (b: array<byte>, cap: nat, max: nat)
      requires cap <= b.Length && cap <= 0xFFFF && max <= 0xFF
      ensures buf == b && capacity == cap && maxDepth == max && Valid() && fresh(needComma)
              && Current() == State([], [])
    {
      buf := b;
      capacity := cap;
      maxDepth := max;
      needComma := new bool[max](_ => false);
      pos := 0;
      depth := 0;
    }

    ghost predicate Valid()
      reads this
    {
      pos <= capacity <= buf.Length && capacity <= 0xFFFF && depth <= maxDepth == needComma.Length
    }

    ghost function Written(): seq<byte>
      requires Valid()
      reads this, buf
    {
      buf[..pos]
    }

    ghost function Current(): State
      requires Valid()
      reads this, buf, needComma
    {
      State(buf[..pos], needComma[..depth])
    }

    method EmitByte(ch: byte) returns (rc: Status)
      requires Valid()
      modifies this`pos, buf
      ensures Valid() && Emitted(old(Written()), [ch], Written(), rc, capacity)
    {
      if pos >= capacity {
        return ErrOverflow;
      }
      ghost var before := buf[..pos];
      buf[pos] := ch;
      pos := pos + 1;
      assert buf[..pos] == before + [ch];
      rc := OK;
    }

    method EmitRaw(data: seq<byte>) returns (rc: Status)
      requires Valid()
      modifies this`pos, buf
      ensures Valid() && Emitted(old(Written()), data, Written(), rc, capacity)
    {
      if pos + |data| > capacity {
        return ErrOverflow;
      }
      ghost var before, start := buf[..pos], pos;
      for i := 0 to |data|
        invariant pos == start && buf[..start] == before && buf[start..start + i] == data[..i]
      {
        buf[pos + i] := data[i];
      }
      pos := pos + |data|;
      assert buf[..pos] == before + data;
      rc := OK;
    }

    /** A comma, if one is needed here. */
    method EmitComma() returns (rc: Status)
      requires Valid()
      modifies this`pos, buf
      ensures Valid() && Emitted(old(Written()), Pending(old(Current())), Written(), rc, capacity)
    {
      hide Emitted;
      EmittedNone(Written(), capacity);
      rc := OK;
      if depth > 0 && needComma[depth - 1] {
        rc := EmitByte(COMMA);
      }
    }

    /** The separator before a value; the next entry will need one. */
    method EmitSeparator() returns (rc: Status)
      requires Valid()
      modifies this`pos, buf, needComma
      ensures Valid() && Emitted(old(Written()), Pending(old(Current())), Written(), rc, capacity)
      ensures needComma[..depth] == Flagged(old(needComma[..depth]), true)
    {
      hide Emitted, Pending;
      ghost var st := Current();
      rc := EmitComma();
      if rc != OK {
        SeparatorStopped(st, Written(), rc, capacity);
        return;
      }
      if depth > 0 {
        needComma[depth - 1] := true;
      }
    }

    /** The contents of a string. */
    method EmitEscaped(str: seq<byte>) returns (rc: Status)
      requires Valid()
      modifies this`pos, buf
      ensures Valid() && Emitted(old(Written()), Escape(str), Written(), rc, capacity)
    {
      hide Emitted, EscapeByte, Escape, HexDigit;
      ghost var start := Written();
      NoEscape();
      EmittedNone(start, capacity);
      for i := 0 to |str|
        invariant Valid() && Emitted(start, Escape(str[..i]), Written(), OK, capacity)
      {
        ghost var mid := Written();
        rc := EmitEscapedByte(str[i]);
        EscapeNext(str, i);
        if rc != OK {
          EmittedThen(start, Escape(str[..i]), mid, EscapeByte(str[i]), Written(), rc, capacity);
          EscapeTail(str, i + 1);
          EmittedPrefix(start, Escape(str[..i + 1]), Written(), Escape(str), rc, capacity);
          return;
        }
        EmittedThen(start, Escape(str[..i]), mid, EscapeByte(str[i]), Written(), rc, capacity);
      }
      assert str[..|str|] == str;
      rc := OK;
    }

    method EmitPair(a: byte, b: byte) returns (rc: Status)
      requires Valid()
      modifies this`pos, buf
      ensures Valid() && Emitted(old(Written()), [a, b], Written(), rc, capacity)
    {
      hide Emitted;
      ghost var start := Written();
      rc := EmitByte(a);
      assert [a, b] == [a] + [b];
      if rc != OK {
        EmittedNot(start, [a], Written(), [b], rc, capacity);
        return;
      }
      ghost var mid := Written();
      rc := EmitByte(b);
      EmittedThen(start, [a], mid, [b], Written(), rc, capacity);
    }

    method EmitEscapedByte(ch: byte) returns (rc: Status)
      requires Valid()
      modifies this`pos, buf
      ensures Valid() && Emitted(old(Written()), EscapeByte(ch), Written(), rc, capacity)
    {
      hide Emitted;
      if ch == QUOTE || ch == BACKSLASH {
        rc := EmitPair(BACKSLASH, ch);
      } else if ch == LF {
        rc := EmitPair(BACKSLASH, LETTER_N);
      } else if ch == CR {
        rc := EmitPair(BACKSLASH, LETTER_R);
      } else if ch == TAB {
        rc := EmitPair(BACKSLASH, LETTER_T);
      } else if ch < 0x20 {
        rc := EmitRaw([BACKSLASH, LETTER_U, 48, 48, HexDigit(ch / 16), HexDigit(ch % 16)]);
      } else {
        rc := EmitByte(ch);
      }
    }

    /** A quoted, escaped string. */
    method EmitQuoted(str: seq<byte>) returns (rc: Status)
      requires Valid()
      modifies this`pos, buf
      ensures Valid() && Emitted(old(Written()), Quoted(str), Written(), rc, capacity)
    {
      hide Emitted, Escape;
      ghost var a := Written();
      assert Quoted(str) == [QUOTE] + (Escape(str) + [QUOTE]);
      rc := EmitByte(QUOTE);
      if rc != OK {
        EmittedNot(a, [QUOTE], Written(), Escape(str) + [QUOTE], rc, capacity);
        return;
      }
      ghost var b := Written();
      rc := EmitEscaped(str);
      if rc != OK {
        EmittedNot(b, Escape(str), Written(), [QUOTE], rc, capacity);
        EmittedThen(a, [QUOTE], b, Escape(str) + [QUOTE], Written(), rc, capacity);
        return;
      }
      ghost var c := Written();
      rc := EmitByte(QUOTE);
      EmittedThen(b, Escape(str), c, [QUOTE], Written(), rc, capacity);
      EmittedThen(a, [QUOTE], b, Escape(str) + [QUOTE], Written(), rc, capacity);
    }

    /** The opening bracket of a container. */
    method Open(ch: byte, ghost c: Call) returns (rc: Status)
      requires Valid() && ((c == OpenObject && ch == LBRACE) || (c == OpenArray && ch == LBRACKET))
      modifies this`pos, this`depth, buf, needComma
      ensures Valid() && Performed(old(Current()), c, Current(), rc, capacity, maxDepth)
    {
      hide Emitted, Pending;
      ghost var st := Current();
      if depth >= maxDepth {
        return ErrParam;
      }
      rc := EmitSeparator();
      ghost var b := Written();
      if rc != OK {
        EmittedNot(st.out, Pending(st), b, [ch], rc, capacity);
        PutStopped(st, [ch], Current(), rc, capacity);
        return;
      }
      rc := EmitByte(ch);
      EmittedThen(st.out, Pending(st), b, [ch], Written(), rc, capacity);
      if rc != OK {
        PutStopped(st, [ch], Current(), rc, capacity);
        return;
      }
      PutDone(st, [ch], Written(), capacity);
      ghost var flags := needComma[..depth];
      needComma[depth] := false;
      depth := depth + 1;
      assert needComma[..depth] == flags + [false];
    }

    method Close(ch: byte, ghost c: Call) returns (rc: Status)
      requires Valid() && ((c == CloseObject && ch == RBRACE) || (c == CloseArray && ch == RBRACKET))
      modifies this`pos, this`depth, buf
      ensures Valid() && Performed(old(Current()), c, Current(), rc, capacity, maxDepth)
    {
      if depth == 0 {
        return ErrParam;
      }
      ghost var flags := needComma[..depth];
      depth := depth - 1;
      assert needComma[..depth] == flags[..depth];
      rc := EmitByte(ch);
    }

    method WriteKey(key: seq<byte>) returns (rc: Status)
      requires Valid()
      modifies this`pos, buf, needComma
      ensures Valid() && Performed(old(Current()), Key(key), Current(), rc, capacity, maxDepth)
    {
      hide Emitted, Quoted, Pending, Performed;
      ghost var st, a := Current(), Written();
      ghost var text := Quoted(key) + [COLON];
      rc := EmitComma();
      if rc != OK {
        EmittedNot(a, Pending(st), Written(), text, rc, capacity);
        KeyStopped(st, key, Current(), rc, capacity, maxDepth);
        return;
      }
      ghost var b := Written();
      rc := EmitQuoted(key);
      if rc != OK {
        EmittedNot(b, Quoted(key), Written(), [COLON], rc, capacity);
        EmittedThen(a, Pending(st), b, text, Written(), rc, capacity);
        KeyStopped(st, key, Current(), rc, capacity, maxDepth);
        return;
      }
      ghost var c := Written();
      rc := EmitByte(COLON);
      EmittedThen(b, Quoted(key), c, [COLON], Written(), rc, capacity);
      EmittedThen(a, Pending(st), b, text, Written(), rc, capacity);
      if rc != OK {
        KeyStopped(st, key, Current(), rc, capacity, maxDepth);
        return;
      }
      if depth > 0 {
        needComma[depth - 1] := false;
      }
      KeyDone(st, key, Written(), capacity, maxDepth);
      assert needComma[..depth] == Flagged(st.commas, false);
    }

    /** A scalar's text, after the separator. */
    method EmitValue(text: seq<byte>) returns (rc: Status)
      requires Valid()
      modifies this`pos, buf, needComma
      ensures Valid() && Emitted(old(Written()), Pending(old(Current())) + text, Written(), rc, capacity)
      ensures needComma[..depth] == Flagged(old(needComma[..depth]), true)
    {
      hide Emitted, Pending;
      ghost var st := Current();
      rc := EmitSeparator();
      ghost var b := Written();
      if rc != OK {
        EmittedNot(st.out, Pending(st), b, text, rc, capacity);
        return;
      }
      rc := EmitRaw(text);
      EmittedThen(st.out, Pending(st), b, text, Written(), rc, capacity);
    }

    method WriteStr(str: seq<byte>) returns (rc: Status)
      requires Valid()
      modifies this`pos, buf, needComma
      ensures Valid() && Performed(old(Current()), PutStr(str), Current(), rc, capacity, maxDepth)
    {
      hide Emitted, Pending, Quoted;
      ghost var st := Current();
      rc := EmitSeparator();
      ghost var b := Written();
      if rc != OK {
        EmittedNot(st.out, Pending(st), b, Quoted(str), rc, capacity);
        PutStopped(st, Quoted(str), Current(), rc, capacity);
        return;
      }
      rc := EmitQuoted(str);
      EmittedThen(st.out, Pending(st), b, Quoted(str), Written(), rc, capacity);
      if rc != OK {
        PutStopped(st, Quoted(str), Current(), rc, capacity);
      } else {
        PutDone(st, Quoted(str), Written(), capacity);
      }
    }

    method WriteInt(value: int) returns (rc: Status)
      requires Valid() && -0x8000_0000 <= value < 0x8000_0000
      modifies this`pos, buf, needComma
      ensures Valid() && Performed(old(Current()), PutInt(value), Current(), rc, capacity, maxDepth)
    {
      hide Emitted, Pending, Decimal;
      ghost var st := Current();
      var tmp := new byte[12];
      var n := Int32ToStr(value, tmp);
      var text := tmp[..n];
      rc := EmitValue(text);
      if rc != OK {
        PutStopped(st, text, Current(), rc, capacity);
      } else {
        PutDone(st, text, Written(), capacity);
      }
    }

    method WriteBool(value: bool) returns (rc: Status)
      requires Valid()
      modifies this`pos, buf, needComma
      ensures Valid() && Performed(old(Current()), PutBool(value), Current(), rc, capacity, maxDepth)
    {
      hide Emitted, Pending;
      ghost var st := Current();
      var text := if value then WORD_TRUE else WORD_FALSE;
      rc := EmitValue(text);
      if rc != OK {
        PutStopped(st, text, Current(), rc, capacity);
      } else {
        PutDone(st, text, Written(), capacity);
      }
    }

    method WriteNull() returns (rc: Status)
      requires Valid()
      modifies this`pos, buf, needComma
      ensures Valid() && Performed(old(Current()), PutNull, Current(), rc, capacity, maxDepth)
    {
      hide Emitted, Pending;
      ghost var st := Current();
      rc := EmitValue(WORD_NULL);
      if rc != OK {
        PutStopped(st, WORD_NULL, Current(), rc, capacity);
      } else {
        PutDone(st, WORD_NULL, Written(), capacity);
      }
    }
  }

  lemma NoEscape()
    ensures Escape([]) == []
  {}

  lemma EscapeNext(s: seq<byte>, i: nat)
    requires i < |s|
    ensures Escape(s[..i + 1]) == Escape(s[..i]) + EscapeByte(s[i])
  {
    assert s[..i + 1][..i] == s[..i];
  }

  /** What a stopped or finished emission of a separator and some text means for the state. */
  lemma PutStopped(st: State, text: seq<byte>, st': State, rc: Status, capacity: nat)
    requires Emitted(st.out, Pending(st) + text, st'.out, rc, capacity) && rc != OK
    ensures rc == ErrOverflow && |Put(st, text).out| > capacity && st.out <= st'.out <= Put(st, text).out
  {}

  lemma PutDone(st: State, text: seq<byte>, out: seq<byte>, capacity: nat)
    requires Emitted(st.out, Pending(st) + text, out, OK, capacity)
    ensures out == Put(st, text).out && |out| <= capacity
  {}

  lemma KeyStopped(st: State, key: seq<byte>, st': State, rc: Status, capacity: nat, max: nat)
    requires Emitted(st.out, Pending(st) + (Quoted(key) + [COLON]), st'.out, rc, capacity) && rc != OK
    requires st'.commas == st.commas
    ensures Performed(st, Key(key), st', rc, capacity, max)
  {
    hide Quoted;
  }

  lemma KeyDone(st: State, key: seq<byte>, out: seq<byte>, capacity: nat, max: nat)
    requires Emitted(st.out, Pending(st) + (Quoted(key) + [COLON]), out, OK, capacity)
    ensures Performed(st, Key(key), State(out, Flagged(st.commas, false)), OK, capacity, max)
  {
    hide Quoted;
  }

  /** The kinds of token the parser reports; a string's place and a number's value are kept in the reader. */
  datatype Kind = TokEnd | TokLBrace | TokRBrace | TokLBracket | TokRBracket | TokString | TokNumber
                | TokTrue | TokFalse | TokNull | TokColon | TokComma

  function KindOf(t: Token): Kind {
    match t
    case End => TokEnd
    case LBrace => TokLBrace
    case RBrace => TokRBrace
    case LBracket => TokLBracket
    case RBracket => TokRBracket
    case Colon => TokColon
    case Comma => TokComma
    case String(_) => TokString
    case Number(_) => TokNumber
    case True => TokTrue
    case False => TokFalse
    case Null => TokNull
  }

  class Reader {
    const buf: array<byte>
    const len: nat
    var pos: nat
    var tokStart: nat
    var tokLen: nat
    var tokInt: int

    constructor (b: array<byte>, n: nat)
      requires n <= b.Length && n <= 0xFFFF
      ensures buf == b && len == n && pos == 0 && Valid()
    {
      buf := b;
      len := n;
      pos, tokStart, tokLen, tokInt := 0, 0, 0, 0;
    }

    ghost predicate Valid()
      reads this
    {
      pos <= len <= buf.Length && len <= 0xFFFF && tokStart + tokLen <= len
    }

    ghost function Left(): seq<byte>
      requires Valid()
      reads this, buf
    {
      buf[pos..len]
    }

    /** The token a successful call has found. */
    ghost predicate Holds(t: Token)
      requires Valid()
      reads this, buf
    {
      (t.String? ==> buf[tokStart..tokStart + tokLen] == t.raw) && (t.Number? ==> tokInt == t.value)
    }

    method SkipWs()
      requires Valid()
      modifies this`pos
      ensures Valid() && pos == old(pos) + WhiteRun(old(Left()))
    {
      ghost var s := Left();
      while pos < len
        invariant old(pos) <= pos <= len && WhiteRun(s) == pos - old(pos) + WhiteRun(buf[pos..len])
        decreases len - pos
      {
        var ch := buf[pos];
        ghost var t := buf[pos..len];
        assert t[1..] == buf[pos + 1..len];
        if ch == SPACE || ch == TAB || ch == CR || ch == LF {
          pos := pos + 1;
        } else {
          break;
        }
      }
    }

    method MatchKeyword(word: seq<byte>) returns (rc: Status)
      requires Valid()
      modifies this`pos
      ensures Valid() && rc == (if word <= old(Left()) then OK else ErrCorrupt)
      ensures pos == old(pos) + if rc == OK then |word| else 0
    {
      if pos + |word| > len {
        return ErrCorrupt;
      }
      if buf[pos..pos + |word|] != word {
        assert Left()[..|word|] == buf[pos..pos + |word|];
        return ErrCorrupt;
      }
      assert Left()[..|word|] == buf[pos..pos + |word|];
      pos := pos + |word|;
      rc := OK;
    }

    method ParseString() returns (rc: Status)
      requires Valid() && pos < len && buf[pos] == QUOTE
      modifies this`pos, this`tokStart, this`tokLen
      ensures Valid()
      ensures var l := StringToken(old(Left()));
              rc == l.rc && pos == old(pos) + l.moved && (rc == OK ==> Holds(l.token))
    {
      hide Scan, Further;
      ghost var s := Left();
      pos := pos + 1;
      var start := pos;
      assert s[1..] == buf[start..len];
      FurtherNone(Scan(s[1..]));
      while pos < len
        invariant start <= pos <= len && tokStart == old(tokStart) && tokLen == old(tokLen)
        invariant Scan(s[1..]) == Further(pos - start, Scan(buf[pos..len]))
        decreases len - pos
      {
        var ch := buf[pos];
        ghost var t := buf[pos..len];
        ScanNext(t);
        if ch == QUOTE {
          FurtherTo(pos - start, 0, OK);
          tokStart := start;
          tokLen := pos - start;
          assert s[1..][..tokLen] == buf[start..pos];
          pos := pos + 1;
          return OK;
        }
        ghost var at := pos - start;
        assert t[1..] == buf[pos + 1..len];
        if ch == BACKSLASH {
          pos := pos + 1;
          if pos >= len {
            FurtherTo(at, 1, ErrCorrupt);
            return ErrCorrupt;
          }
          assert t[2..] == buf[pos + 1..len];
        }
        pos := pos + 1;
        FurtherTwice(at, pos - start - at, Scan(buf[pos..len]));
      }
      assert buf[pos..len] == [];
      ScanNone();
      FurtherTo(pos - start, 0, ErrUnderflow);
      rc := ErrUnderflow;
    }

    /** The digits from here on; the accumulator wraps around, and so does the byte that counts them. */
    method ParseDigits() returns (accum: nat, digits: nat)
      requires Valid()
      modifies this`pos
      ensures Valid()
      ensures var s := old(Left()); var n := DigitRun(s);
              pos == old(pos) + n && accum == DecValue(s[..n]) % 0x1_0000_0000 && digits == n % 0x100
    {
      hide DecValue, DigitRun;
      ghost var start := pos;
      accum, digits := 0, 0;
      DecValueNone();
      assert buf[start..pos] == [];
      while pos < len
        invariant start <= pos <= len
        invariant forall i :: start <= i < pos ==> IsDigit(buf[i])
        invariant accum == DecValue(buf[start..pos]) % 0x1_0000_0000 && digits == (pos - start) % 0x100
        decreases len - pos
      {
        var ch := buf[pos];
        if !IsDigit(ch) {
          break;
        }
        DecValueNext(buf[start..pos], ch);
        assert buf[start..pos + 1] == buf[start..pos] + [ch];
        accum := (accum * 10 + DigitValue(ch)) % 0x1_0000_0000;
        NextCount(pos - start);
        digits := (digits + 1) % 0x100;
        pos := pos + 1;
      }
      DigitRunEnds(buf[start..len], pos - start);
      assert buf[start..len][..pos - start] == buf[start..pos];
    }

    method ParseNumber() returns (rc: Status)
      requires Valid() && pos < len && (buf[pos] == MINUS || IsDigit(buf[pos]))
      modifies this`pos, this`tokInt
      ensures Valid()
      ensures var l := NumberToken(old(Left()));
              rc == l.rc && pos == old(pos) + l.moved && (rc == OK ==> Holds(l.token))
    {
      hide I32, DecValue, DigitRun;
      ghost var s := Left();
      var sign := 1;
      if buf[pos] == MINUS {
        sign := -1;
        pos := pos + 1;
        if pos >= len {
          return ErrCorrupt;
        }
      }
      assert s[pos - old(pos)..] == Left();
      var accum, digits := ParseDigits();
      if digits == 0 {
        return ErrCorrupt;
      }
      ghost var t := s[if sign < 0 then 1 else 0..];
      ghost var v := DecValue(t[..DigitRun(t)]);
      I32Reduced(v);
      I32Negated(v);
      tokInt := if sign < 0 then I32(-I32(accum)) else I32(accum);
      rc := OK;
    }

    /** The token that starts here. */
    method TokHere() returns (rc: Status, tok: Kind)
      requires Valid() && pos < len
      modifies this`pos, this`tokStart, this`tokLen, this`tokInt
      ensures Valid()
      ensures var l := TokenHere(old(Left()));
              rc == l.rc && pos == old(pos) + l.moved && (rc == OK ==> tok == KindOf(l.token) && Holds(l.token))
    {
      hide StringToken, NumberToken;
      var ch := buf[pos];
      if ch == LBRACE {
        pos := pos + 1;
        return OK, TokLBrace;
      }
      if ch == RBRACE {
        pos := pos + 1;
        return OK, TokRBrace;
      }
      if ch == LBRACKET {
        pos := pos + 1;
        return OK, TokLBracket;
      }
      if ch == RBRACKET {
        pos := pos + 1;
        return OK, TokRBracket;
      }
      if ch == COLON {
        pos := pos + 1;
        return OK, TokColon;
      }
      if ch == COMMA {
        pos := pos + 1;
        return OK, TokComma;
      }
      if ch == QUOTE {
        rc := ParseString();
        return rc, TokString;
      }
      if ch == 116 {
        rc := MatchKeyword(WORD_TRUE);
        return rc, TokTrue;
      }
      if ch == 102 {
        rc := MatchKeyword(WORD_FALSE);
        return rc, TokFalse;
      }
      if ch == 110 {
        rc := MatchKeyword(WORD_NULL);
        return rc, TokNull;
      }
      if ch == MINUS || IsDigit(ch) {
        rc := ParseNumber();
        return rc, TokNumber;
      }
      rc, tok := ErrCorrupt, TokEnd;
    }

    method NextTok() returns (rc: Status, tok: Kind)
      requires Valid()
      modifies this`pos, this`tokStart, this`tokLen, this`tokInt
      ensures Valid()
      ensures var l := NextToken(old(Left()));
              rc == l.rc && pos == old(pos) + l.moved && (rc == OK ==> tok == KindOf(l.token) && Holds(l.token))
    {
      hide TokenHere, WhiteRun;
      ghost var s := Left();
      SkipWs();
      if pos >= len {
        return OK, TokEnd;
      }
      ghost var w := pos - old(pos);
      assert s[w..] == Left();
      rc, tok := TokHere();
    }

    /** One token of a container of which `depth` brackets are open. */
    method SkipToken(depth: nat) returns (rc: Status, depth': nat)
      requires Valid() && depth > 0
      modifies this`pos, this`tokStart, this`tokLen, this`tokInt
      ensures Valid() && pos >= old(pos) && (rc == OK ==> pos > old(pos) && depth' <= depth + 1)
      ensures SkipRest(old(Left()), depth) == if rc != OK then Skipped(rc, pos - old(pos))
                                              else Onwards(pos - old(pos), SkipRest(Left(), depth'))
    {
      hide NextToken, SkipRest, Onwards, Deeper, Holds;
      ghost var s := Left();
      SkipRestNext(s, depth);
      depth' := depth;
      var tok;
      rc, tok := NextTok();
      assert s[pos - old(pos)..] == Left();
      DeeperKind(depth, NextToken(s).token);
      if rc != OK {
        return;
      }
      if tok == TokLBrace || tok == TokLBracket {
        depth' := depth + 1;
      } else if tok == TokRBrace || tok == TokRBracket {
        depth' := depth - 1;
      } else if tok == TokEnd {
        rc := ErrUnderflow;
      }
    }

    /**
     Consume tokens until the one open bracket is closed. The 16-bit counter cannot wrap: every bracket takes a byte.
     */
    method SkipDeep() returns (rc: Status)
      requires Valid() && pos >= 1
      modifies this`pos, this`tokStart, this`tokLen, this`tokInt
      ensures Valid() && pos >= old(pos) && SkipRest(old(Left()), 1) == Skipped(rc, pos - old(pos))
    {
      hide SkipRest, Onwards;
      ghost var s := Left();
      var depth: nat := 1;
      OnwardsNone(SkipRest(s, 1));
      while depth > 0
        invariant Valid() && old(pos) <= pos && depth <= pos - old(pos) + 1
        invariant SkipRest(s, 1) == Onwards(pos - old(pos), SkipRest(Left(), depth))
        decreases len - pos, depth
      {
        ghost var at := pos;
        rc, depth := SkipToken(depth);
        if rc != OK {
          OnwardsTo(at - old(pos), pos - at, rc);
          return;
        }
        assert depth <= 0xFFFF;
        OnwardsTwice(at - old(pos), pos - at, SkipRest(Left(), depth));
      }
      SkipRestDone(Left());
      OnwardsTo(pos - old(pos), 0, OK);
      rc := OK;
    }

    method SkipOne() returns (rc: Status)
      requires Valid()
      modifies this`pos, this`tokStart, this`tokLen, this`tokInt
      ensures Valid() && pos >= old(pos) && SkipValue(old(Left())) == Skipped(rc, pos - old(pos))
    {
      hide NextToken, SkipRest, SkipValue, Holds, KindOf;
      ghost var s := Left();
      SkipValueIs(s);
      var tok;
      rc, tok := NextTok();
      if rc != OK {
        return;
      }
      if tok == TokString || tok == TokNumber || tok == TokTrue || tok == TokFalse || tok == TokNull {
        return OK;
      }
      if tok == TokLBrace || tok == TokLBracket {
        ghost var at, rest := pos, Left();
        assert rest == s[NextToken(s).moved..];
        SkipOpenIs(s);
        rc := SkipDeep();
        OnwardsTo(at - old(pos), pos - at, rc);
        return;
      }
      rc := ErrCorrupt;
    }
  }

  lemma FurtherNone(r: Scanned)
    ensures Further(0, r) == r
  {}

  lemma FurtherTo(k: nat, n: nat, rc: Status)
    ensures Further(k, Scanned(rc, n)) == Scanned(rc, k + n)
  {}

  lemma FurtherTwice(k: nat, n: nat, r: Scanned)
    ensures Further(k, Further(n, r)) == Further(k + n, r)
  {}

  lemma ScanNone()
    ensures Scan([]) == Scanned(ErrUnderflow, 0)
  {}

  lemma ScanNext(s: seq<byte>)
    requires s != []
    ensures Scan(s) == if s[0] == QUOTE then Scanned(OK, 0)
                       else if s[0] != BACKSLASH then Further(1, Scan(s[1..]))
                       else if |s| < 2 then Scanned(ErrCorrupt, 1) else Further(2, Scan(s[2..]))
  {}

  lemma DecValueNone()
    ensures DecValue([]) == 0
  {}

  lemma NextCount(n: nat)
    ensures (n % 0x100 + 1) % 0x100 == (n + 1) % 0x100
  {}

  /** One step of the 32-bit accumulator. */
  lemma DecValueNext(ds: seq<byte>, ch: byte)
    requires (forall i :: 0 <= i < |ds| ==> IsDigit(ds[i])) && IsDigit(ch)
    ensures DecValue(ds + [ch]) % 0x1_0000_0000 == (DecValue(ds) % 0x1_0000_0000 * 10 + DigitValue(ch)) % 0x1_0000_0000
  {
    hide DecValue;
    DecValueSnoc(ds, ch);
    ReduceStep(DecValue(ds), DigitValue(ch));
  }

  lemma DecValueSnoc(ds: seq<byte>, ch: byte)
    requires (forall i :: 0 <= i < |ds| ==> IsDigit(ds[i])) && IsDigit(ch)
    ensures DecValue(ds + [ch]) == DecValue(ds) * 10 + DigitValue(ch)
  {
    assert (ds + [ch])[..|ds|] == ds;
  }

  lemma ReduceStep(v: int, d: int)
    ensures (v * 10 + d) % 0x1_0000_0000 == (v % 0x1_0000_0000 * 10 + d) % 0x1_0000_0000
  {
    var r, q := v % 0x1_0000_0000, v / 0x1_0000_0000;
    var w := r * 10 + d;
    Radix.DivModUnique(v * 10 + d, w / 0x1_0000_0000 + 10 * q, w % 0x1_0000_0000, 0x1_0000_0000);
  }

  lemma {:induction false} DigitRunEnds(s: seq<byte>, n: nat)
    requires n <= |s| && (forall i :: 0 <= i < n ==> IsDigit(s[i])) && (n < |s| ==> !IsDigit(s[n]))
    ensures DigitRun(s) == n
  {
    if n > 0 {
      DigitRunEnds(s[1..], n - 1);
    }
  }

  ghost function Onwards(n: nat, k: Skipped): Skipped {
    Skipped(k.rc, n + k.moved)
  }

  /** A value that is not a container. */
  lemma SkipValueIs(s: seq<byte>)
    ensures var l := NextToken(s); var k := KindOf(l.token);
            if l.rc != OK then SkipValue(s) == Skipped(l.rc, l.moved)
            else if k == TokString || k == TokNumber || k == TokTrue || k == TokFalse || k == TokNull
            then SkipValue(s) == Skipped(OK, l.moved)
            else k != TokLBrace && k != TokLBracket ==> SkipValue(s) == Skipped(ErrCorrupt, l.moved)
  {
    hide NextToken, SkipRest;
  }

  /** And one that is. */
  lemma SkipOpenIs(s: seq<byte>)
    requires NextToken(s).rc == OK
    requires KindOf(NextToken(s).token) == TokLBrace || KindOf(NextToken(s).token) == TokLBracket
    ensures var l := NextToken(s);
            l.moved >= 1 && SkipValue(s) == Onwards(l.moved, SkipRest(s[l.moved..], 1))
  {
    hide NextToken, SkipRest;
  }

  lemma DeeperKind(d: nat, t: Token)
    ensures Deeper(d, t) == match KindOf(t)
                            case TokLBrace => d + 1
                            case TokLBracket => d + 1
                            case TokRBrace => d - 1
                            case TokRBracket => d - 1
                            case _ => d
    ensures t == End <==> KindOf(t) == TokEnd
  {}

  lemma OnwardsNone(k: Skipped)
    ensures Onwards(0, k) == k
  {}

  lemma OnwardsTo(n: nat, m: nat, rc: Status)
    ensures Onwards(n, Skipped(rc, m)) == Skipped(rc, n + m)
  {}

  lemma OnwardsTwice(n: nat, m: nat, k: Skipped)
    ensures Onwards(n, Onwards(m, k)) == Onwards(n + m, k)
  {}

  lemma SkipRestNext(s: seq<byte>, d: nat)
    requires d > 0
    ensures var l := NextToken(s);
            SkipRest(s, d) == if l.rc != OK then Skipped(l.rc, l.moved)
                              else if l.token == End then Skipped(ErrUnderflow, l.moved)
                              else Onwards(l.moved, SkipRest(s[l.moved..], Deeper(d, l.token)))
  {
    hide NextToken;
  }

  lemma SkipRestDone(s: seq<byte>)
    ensures SkipRest(s, 0) == Skipped(OK, 0)
  {}
}
