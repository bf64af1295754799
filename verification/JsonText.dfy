/**
 What the JSON bytes are, by the grammar of RFC 8259 and with the bytes spelled out: tokens, strings with any legal
 escapes, and white space wherever the grammar allows it.
 */
module JsonText {
  import opened Json
  import Radix

  // ----- white space

  /** Section 2 of RFC 8259: space, tab, line feed, carriage return. */
  predicate White(w: seq<byte>) {
    forall i :: 0 <= i < |w| ==> w[i] == 0x20 || w[i] == 0x09 || w[i] == 0x0A || w[i] == 0x0D
  }

  lemma {:induction false} WhiteRunIs(w: seq<byte>, s: seq<byte>)
    requires White(w)
    ensures WhiteRun(w + s) == |w| + WhiteRun(s)
  {
    if w == [] {
      assert w + s == s;
    } else {
      WhiteRunIs(w[1..], s);
      assert (w + s)[1..] == w[1..] + s;
    }
  }

  /** White space before a token makes no difference but to the position. */
  lemma WhiteSkipped(w: seq<byte>, s: seq<byte>)
    requires White(w)
    ensures NextToken(w + s) == var l := NextToken(s); Lexed(l.rc, l.token, |w| + l.moved)
  {
    hide WhiteRun, TokenHere;
    WhiteRunIs(w, s);
    assert (w + s)[|w| + WhiteRun(s)..] == s[WhiteRun(s)..];
  }

  /** And nothing else is skipped: the token starts at the first byte that is not white space. */
  lemma {:induction false} OnlyWhiteSkipped(s: seq<byte>)
    ensures White(s[..WhiteRun(s)]) && (WhiteRun(s) < |s| ==> !White([s[WhiteRun(s)]]))
  {
    if s != [] && (s[0] == SPACE || s[0] == TAB || s[0] == CR || s[0] == LF) {
      OnlyWhiteSkipped(s[1..]);
      assert s[..WhiteRun(s)] == [s[0]] + s[1..][..WhiteRun(s[1..])];
    } else if s != [] {
      assert [s[0]][0] == s[0];
    }
  }

  /** After the last token there may be white space as well. */
  lemma WhiteEnds(w: seq<byte>)
    requires White(w)
    ensures NextToken(w) == Lexed(OK, End, |w|)
  {
    WhiteRunIs(w, []);
    assert w + [] == w;
  }

  // ----- strings

  predicate Hex(ch: byte) {
    0x30 <= ch <= 0x39 || 0x41 <= ch <= 0x46 || 0x61 <= ch <= 0x66
  }

  /** The characters of a string by section 7 of RFC 8259: unescaped ones, two-byte escapes and \u with four digits. */
  predicate Legal(s: seq<byte>) {
    if s == [] then true
    else if s[0] != 0x5C then s[0] >= 0x20 && s[0] != 0x22 && Legal(s[1..])
    else if |s| < 2 then false
    else if s[1] == 0x75 then |s| >= 6 && Hex(s[2]) && Hex(s[3]) && Hex(s[4]) && Hex(s[5]) && Legal(s[6..])
    else s[1] in [0x22, 0x5C, 0x2F, 0x62, 0x66, 0x6E, 0x72, 0x74] && Legal(s[2..])
  }

  lemma ScanFour(a: byte, b: byte, c: byte, d: byte, t: seq<byte>)
    requires Hex(a) && Hex(b) && Hex(c) && Hex(d)
    ensures Scan([a, b, c, d] + t) == Further(4, Scan(t))
  {
    hide Scan;
    ScanPlain(d, t);
    ScanPlain(c, [d] + t);
    ScanPlain(b, [c] + ([d] + t));
    ScanPlain(a, [b] + ([c] + ([d] + t)));
    assert [a, b, c, d] + t == [a] + ([b] + ([c] + ([d] + t)));
  }

  /** The scan for the closing quote runs through any legal string. */
  lemma {:induction false} ScanLegal(s: seq<byte>, t: seq<byte>)
    requires Legal(s)
    ensures Scan(s + t) == Further(|s|, Scan(t))
  {
    hide Scan;
    if s == [] {
      assert s + t == t;
    } else if s[0] != 0x5C {
      ScanLegal(s[1..], t);
      ScanPlain(s[0], s[1..] + t);
      assert s + t == [s[0]] + (s[1..] + t);
    } else if s[1] == 0x75 {
      ScanLegal(s[6..], t);
      ScanFour(s[2], s[3], s[4], s[5], s[6..] + t);
      ScanPair(s[1], [s[2], s[3], s[4], s[5]] + (s[6..] + t));
      assert s + t == [BACKSLASH, s[1]] + ([s[2], s[3], s[4], s[5]] + (s[6..] + t));
    } else {
      ScanLegal(s[2..], t);
      ScanPair(s[1], s[2..] + t);
      assert s + t == [BACKSLASH, s[1]] + (s[2..] + t);
    }
  }

  /** What the writer makes of each byte. */
  lemma EscapeByteIs(ch: byte)
    ensures EscapeByte(ch) ==
            if ch == 0x22 || ch == 0x5C then [0x5C, ch]
            else if ch == 0x0A then [0x5C, 0x6E] else if ch == 0x0D then [0x5C, 0x72]
            else if ch == 0x09 then [0x5C, 0x74]
            else if ch >= 0x20 then [ch]
            else [0x5C, 0x75, 0x30, 0x30, 0x30 + ch / 16, if ch % 16 < 10 then 0x30 + ch % 16 else 0x61 + ch % 16 - 10]
  {}

  lemma LegalByte(ch: byte, t: seq<byte>)
    requires Legal(t)
    ensures Legal(EscapeByte(ch) + t)
  {
    hide EscapeByte;
    EscapeByteIs(ch);
    var e := EscapeByte(ch);
    assert (e + t)[|e|..] == t;
  }

  lemma {:induction false} LegalEscape(s: seq<byte>, t: seq<byte>)
    requires Legal(t)
    ensures Legal(Escape(s) + t)
  {
    hide Legal, EscapeByte;
    if s == [] {
      assert Escape(s) + t == t;
    } else {
      var n := |s| - 1;
      LegalByte(s[n], t);
      LegalEscape(s[..n], EscapeByte(s[n]) + t);
      assert Escape(s) + t == Escape(s[..n]) + (EscapeByte(s[n]) + t);
    }
  }

  // ----- numbers

  /** Digit i from the right is that of the number. */
  lemma {:induction false} DigitIs(u: nat, i: nat)
    requires i < |Digits(u)|
    ensures Radix.Pow(10, i) > 0 && Digits(u)[|Digits(u)| - 1 - i] == 0x30 + (u / Radix.Pow(10, i)) % 10
  {
    if i > 0 {
      DigitIs(u / 10, i - 1);
      Radix.DivDiv(u, 10, Radix.Pow(10, i - 1));
    } else {
      assert Radix.Pow(10, 0) == 1;
    }
  }

  /** A minus sign for a negative number, and then the digits of its absolute value. */
  lemma DecimalIs(v: int)
    ensures Decimal(v) == if v < 0 then [0x2D] + Digits(0 - v) else Digits(v)
  {
    assert 0 - v == -v;
  }

  // ----- tokens

  function Spell(t: Token): seq<byte> {
    match t
    case End => []
    case LBrace => [0x7B]
    case RBrace => [0x7D]
    case LBracket => [0x5B]
    case RBracket => [0x5D]
    case Colon => [0x3A]
    case Comma => [0x2C]
    case String(raw) => [0x22] + raw + [0x22]
    case Number(n) => Decimal(n)
    case True => [0x74, 0x72, 0x75, 0x65]
    case False => [0x66, 0x61, 0x6C, 0x73, 0x65]
    case Null => [0x6E, 0x75, 0x6C, 0x6C]
  }

  predicate Spellable(t: Token) {
    t != End && (t.String? ==> Legal(t.raw)) && (t.Number? ==> -0x8000_0000 <= t.value < 0x8000_0000)
  }

  /** A token is read from its spelling; a number must not be followed by a digit. */
  lemma SpellReads(t: Token, rest: seq<byte>)
    requires Spellable(t) && (t.Number? ==> Ends(rest))
    ensures Reads(Spell(t) + rest, [t], rest)
  {
    hide Reads, Scan, Legal, Decimal, Ends;
    match t
    case LBrace => ReadsPunctuation(0x7B, LBrace, rest);
    case RBrace => ReadsPunctuation(0x7D, RBrace, rest);
    case LBracket => ReadsPunctuation(0x5B, LBracket, rest);
    case RBracket => ReadsPunctuation(0x5D, RBracket, rest);
    case Colon => ReadsPunctuation(0x3A, Colon, rest);
    case Comma => ReadsPunctuation(0x2C, Comma, rest);
    case String(raw) => ReadsLegal(raw, rest);
    case Number(n) => ReadsNumber(n, rest);
    case True => ReadsWord([0x74, 0x72, 0x75, 0x65], True, rest);
    case False => ReadsWord([0x66, 0x61, 0x6C, 0x73, 0x65], False, rest);
    case Null => ReadsWord([0x6E, 0x75, 0x6C, 0x6C], Null, rest);
  }

  lemma ReadsLegal(raw: seq<byte>, rest: seq<byte>)
    requires Legal(raw)
    ensures Reads([0x22] + raw + [0x22] + rest, [String(raw)], rest)
  {
    hide Legal;
    var text := [0x22] + raw + [0x22] + rest;
    assert text[1..] == raw + ([0x22] + rest);
    ScanLegal(raw, [0x22] + rest);
    assert Scan([0x22] + rest) == Scanned(OK, 0);
    assert text[1..][..|raw|] == raw;
    assert text[|raw| + 2..] == rest;
    ReadsOne(text, String(raw), rest);
  }

  // ----- texts

  /** The tokens with the white space gap(i), gap(i + 1), ... before them. */
  ghost function Laid(ts: seq<Token>, gap: nat -> seq<byte>, i: nat): seq<byte>
    decreases ts
  {
    if ts == [] then [] else gap(i) + Spell(ts[0]) + Laid(ts[1..], gap, i + 1)
  }

  /** The tokens can be spelled, and no two numbers meet. */
  ghost predicate Apart(ts: seq<Token>) {
    && (forall i :: 0 <= i < |ts| ==> Spellable(ts[i]))
    && (forall i :: 0 < i < |ts| && ts[i].Number? ==> !ts[i - 1].Number?)
  }

  ghost predicate AllWhite(gap: nat -> seq<byte>) {
    forall i: nat :: White(gap(i))
  }

  lemma WhiteReads(w: seq<byte>, s: seq<byte>, ts: seq<Token>, rest: seq<byte>)
    requires White(w) && ts != [] && Reads(s, ts, rest)
    ensures Reads(w + s, ts, rest)
  {
    hide NextToken, White;
    WhiteSkipped(w, s);
    var l := NextToken(s);
    assert (w + s)[|w| + l.moved..] == s[l.moved..];
  }

  /** What follows a number starts with no digit. */
  lemma LaidEnds(ts: seq<Token>, gap: nat -> seq<byte>, i: nat, rest: seq<byte>)
    requires AllWhite(gap) && (forall k :: 0 <= k < |ts| ==> Spellable(ts[k]))
    requires if ts == [] then Ends(rest) else !ts[0].Number?
    ensures Ends(Laid(ts, gap, i) + rest)
  {
    hide Decimal, Legal;
    if ts == [] {
      assert Laid(ts, gap, i) + rest == rest;
    } else {
      assert White(gap(i));
      var s := Laid(ts, gap, i) + rest;
      if gap(i) != [] {
        assert s[0] == gap(i)[0];
      } else {
        assert gap(i) + Spell(ts[0]) == Spell(ts[0]);
        assert s[0] == Spell(ts[0])[0];
      }
    }
  }

  /** However white space is put in, exactly these tokens are read. */
  lemma {:induction false} LaidReads(ts: seq<Token>, gap: nat -> seq<byte>, i: nat, rest: seq<byte>)
    requires AllWhite(gap) && Apart(ts) && (ts != [] && ts[|ts| - 1].Number? ==> Ends(rest))
    ensures Reads(Laid(ts, gap, i) + rest, ts, rest)
    decreases ts
  {
    hide Spell, Spellable, White, Ends, Laid, Reads, Apart;
    if ts == [] {
      LaidNone(gap, i, rest);
    } else {
      var t, more := ts[0], Laid(ts[1..], gap, i + 1) + rest;
      ApartNext(ts);
      LaidReads(ts[1..], gap, i + 1, rest);
      if t.Number? {
        LaidEnds(ts[1..], gap, i + 1, rest);
      }
      SpellReads(t, more);
      ReadsJoin(Spell(t) + more, [t], more, ts[1..], rest);
      assert [t] + ts[1..] == ts;
      assert White(gap(i));
      WhiteReads(gap(i), Spell(t) + more, ts, rest);
      LaidNext(ts, gap, i, rest);
    }
  }

  lemma LaidNone(gap: nat -> seq<byte>, i: nat, rest: seq<byte>)
    ensures Reads(Laid([], gap, i) + rest, [], rest)
  {
    assert Laid([], gap, i) + rest == rest;
  }

  lemma LaidNext(ts: seq<Token>, gap: nat -> seq<byte>, i: nat, rest: seq<byte>)
    requires ts != []
    ensures Laid(ts, gap, i) + rest == gap(i) + (Spell(ts[0]) + (Laid(ts[1..], gap, i + 1) + rest))
  {
    hide Spell;
    var more := Laid(ts[1..], gap, i + 1);
    assert gap(i) + Spell(ts[0]) + more + rest == gap(i) + (Spell(ts[0]) + (more + rest));
  }

  lemma ApartNext(ts: seq<Token>)
    requires ts != [] && Apart(ts)
    ensures Spellable(ts[0]) && Apart(ts[1..]) && (forall k :: 0 <= k < |ts[1..]| ==> Spellable(ts[1..][k]))
    ensures ts[0].Number? && ts[1..] != [] ==> !ts[1..][0].Number?
  {
    hide Spellable;
  }

  // ----- the text of a value

  /** The tokens one after the other. */
  function Spelled(ts: seq<Token>): seq<byte> {
    if ts == [] then [] else Spell(ts[0]) + Spelled(ts[1..])
  }

  lemma {:induction false} SpelledJoin(a: seq<Token>, b: seq<Token>)
    ensures Spelled(a + b) == Spelled(a) + Spelled(b)
  {
    hide Spell, Spelled;
    if a == [] {
      assert a + b == b;
      SpelledNone(b);
    } else {
      SpelledJoin(a[1..], b);
      assert (a + b)[1..] == a[1..] + b;
      SpelledNext(a);
      SpelledNext(a + b);
      var x, y, z := Spell(a[0]), Spelled(a[1..]), Spelled(b);
      assert x + y + z == x + (y + z);
    }
  }

  lemma SpelledNone(b: seq<Token>)
    ensures Spelled([]) + Spelled(b) == Spelled(b)
  {
    hide Spell;
    assert Spelled([]) == [];
  }

  lemma SpelledNext(ts: seq<Token>)
    requires ts != []
    ensures Spelled(ts) == Spell(ts[0]) + Spelled(ts[1..])
  {
    hide Spell;
  }

  lemma SpelledOne(t: Token)
    ensures Spelled([t]) == Spell(t)
  {
    hide Spell;
    assert Spelled([]) == [];
  }

  lemma SpelledAround(a: Token, ts: seq<Token>, z: Token)
    ensures Spelled([a] + ts + [z]) == Spell(a) + Spelled(ts) + Spell(z)
  {
    hide Spell, Spelled;
    SpelledJoin([a] + ts, [z]);
    SpelledJoin([a], ts);
    SpelledOne(a);
    SpelledOne(z);
  }

  lemma SpelledBetween(ts: seq<Token>, c: Token, us: seq<Token>)
    ensures Spelled(ts + ([c] + us)) == Spelled(ts) + (Spell(c) + Spelled(us))
  {
    hide Spell, Spelled;
    SpelledJoin(ts, [c] + us);
    SpelledJoin([c], us);
    SpelledOne(c);
  }

  /** Without white space the text of a value is that of its tokens. */
  lemma {:induction false} TextIs(v: Value)
    ensures Text(v) == Spelled(Tokens(v))
    decreases v, 0
  {
    hide Spelled, Escape, Decimal, ItemsText, MembersText, ItemsTokens, MembersTokens;
    match v
    case Str(s) => SpelledOne(String(Escape(s)));
    case Int(n) => SpelledOne(Number(n));
    case Bool(b) => SpelledOne(if b then True else False);
    case Nil => SpelledOne(Null);
    case Arr(items) =>
      ItemsTextIs(items);
      SpelledAround(LBracket, ItemsTokens(items), RBracket);
    case Obj(ms) =>
      MembersTextIs(ms);
      SpelledAround(LBrace, MembersTokens(ms), RBrace);
  }

  lemma {:induction false} ItemsTextIs(items: seq<Value>)
    ensures ItemsText(items) == Spelled(ItemsTokens(items))
    decreases items, 1
  {
    hide Text, Tokens;
    if items != [] {
      hide Spelled;
      TextIs(items[0]);
      if |items| > 1 {
        ItemsTextIs(items[1..]);
        SpelledBetween(Tokens(items[0]), Comma, ItemsTokens(items[1..]));
      } else {
        assert ItemsTokens(items) == Tokens(items[0]) && ItemsText(items) == Text(items[0]);
      }
    }
  }

  lemma {:induction false} MembersTextIs(ms: seq<Member>)
    ensures MembersText(ms) == Spelled(MembersTokens(ms))
    decreases ms, 1
  {
    hide MemberText, MemberTokens;
    if ms != [] {
      hide Spelled;
      MemberTextIs(ms[0]);
      if |ms| > 1 {
        MembersTextIs(ms[1..]);
        SpelledBetween(MemberTokens(ms[0]), Comma, MembersTokens(ms[1..]));
      } else {
        assert MembersTokens(ms) == MemberTokens(ms[0]) && MembersText(ms) == MemberText(ms[0]);
      }
    }
  }

  lemma {:induction false} MemberTextIs(m: Member)
    ensures MemberText(m) == Spelled(MemberTokens(m))
    decreases m, 1
  {
    hide Text, Tokens, Spelled, Escape;
    TextIs(m.value);
    var k := String(Escape(m.key));
    SpelledBetween([k], Colon, Tokens(m.value));
    SpelledOne(k);
    assert [k] + [Colon] + Tokens(m.value) == [k] + ([Colon] + Tokens(m.value));
    assert Quoted(m.key) + [0x3A] + Text(m.value) == Quoted(m.key) + ([0x3A] + Text(m.value));
  }

  // Its tokens can be laid out.

  lemma ApartOne(t: Token)
    requires Spellable(t)
    ensures Apart([t])
  {
    hide Spellable;
  }

  lemma ApartJoin(a: seq<Token>, b: seq<Token>)
    requires Apart(a) && Apart(b) && (a != [] && b != [] ==> !(a[|a| - 1].Number? && b[0].Number?))
    ensures Apart(a + b)
  {
    hide Spellable;
  }

  lemma ApartAround(a: Token, ts: seq<Token>, z: Token)
    requires Spellable(a) && Spellable(z) && !a.Number? && !z.Number? && Apart(ts)
    ensures Apart([a] + ts + [z])
  {
    hide Spellable, Apart;
    ApartOne(a);
    ApartOne(z);
    ApartJoin([a], ts);
    ApartJoin([a] + ts, [z]);
  }

  lemma ApartBetween(ts: seq<Token>, c: Token, us: seq<Token>)
    requires Apart(ts) && Apart(us) && Spellable(c) && !c.Number?
    ensures Apart(ts + ([c] + us))
  {
    hide Spellable, Apart;
    ApartOne(c);
    ApartJoin([c], us);
    ApartJoin(ts, [c] + us);
  }

  lemma SpellableString(s: seq<byte>)
    ensures Spellable(String(Escape(s)))
  {
    LegalEscape(s, []);
    assert Escape(s) + [] == Escape(s);
  }

  lemma {:induction false} TokensApart(v: Value)
    requires Readable(v)
    ensures Apart(Tokens(v))
    decreases v, 0
  {
    hide Apart, Escape, Legal, ItemsTokens, MembersTokens;
    match v
    case Str(s) =>
      SpellableString(s);
      ApartOne(String(Escape(s)));
    case Int(n) => ApartOne(Number(n));
    case Bool(b) => ApartOne(if b then True else False);
    case Nil => ApartOne(Null);
    case Arr(items) =>
      ItemsApart(items);
      ApartAround(LBracket, ItemsTokens(items), RBracket);
    case Obj(ms) =>
      MembersApart(ms);
      ApartAround(LBrace, MembersTokens(ms), RBrace);
  }

  lemma NoneApart()
    ensures Apart([])
  {}

  lemma {:induction false} ItemsApart(items: seq<Value>)
    requires forall i :: 0 <= i < |items| ==> Readable(items[i])
    ensures Apart(ItemsTokens(items))
    decreases items, 1
  {
    hide Apart, Tokens, Readable;
    NoneApart();
    if items != [] {
      TokensApart(items[0]);
      if |items| > 1 {
        ItemsApart(items[1..]);
        ApartBetween(Tokens(items[0]), Comma, ItemsTokens(items[1..]));
      } else {
        assert ItemsTokens(items) == Tokens(items[0]);
      }
    }
  }

  lemma {:induction false} MembersApart(ms: seq<Member>)
    requires forall i :: 0 <= i < |ms| ==> Readable(ms[i].value)
    ensures Apart(MembersTokens(ms))
    decreases ms, 1
  {
    hide Apart, MemberTokens, Readable;
    NoneApart();
    if ms != [] {
      MemberApart(ms[0]);
      if |ms| > 1 {
        MembersApart(ms[1..]);
        ApartBetween(MemberTokens(ms[0]), Comma, MembersTokens(ms[1..]));
      } else {
        assert MembersTokens(ms) == MemberTokens(ms[0]);
      }
    }
  }

  lemma {:induction false} MemberApart(m: Member)
    requires Readable(m.value)
    ensures Apart(MemberTokens(m))
    decreases m, 1
  {
    hide Apart, Tokens, Readable, Escape, Legal;
    var k := String(Escape(m.key));
    SpellableString(m.key);
    ApartOne(k);
    TokensApart(m.value);
    ApartBetween([k], Colon, Tokens(m.value));
    assert [k] + [Colon] + Tokens(m.value) == [k] + ([Colon] + Tokens(m.value));
  }

  /**
   Any text of a value, with white space before each of its tokens, is read as exactly the value's tokens, and
   skip_value stops exactly at its end; what follows may start with white space too.
   */
  lemma SpacedText(v: Value, gap: nat -> seq<byte>, rest: seq<byte>)
    requires Readable(v) && AllWhite(gap) && (v.Int? ==> Ends(rest))
    ensures var s := Laid(Tokens(v), gap, 0);
            && Reads(s + rest, Tokens(v), rest)
            && SkipValue(s + rest) == Skipped(OK, |s|)
            && ((forall i: nat :: gap(i) == []) ==> s == Text(v))
  {
    hide Reads, Tokens, Text, SkipValue, Apart, Laid, Ends, White, Readable;
    var s := Laid(Tokens(v), gap, 0);
    TokensApart(v);
    LastNumber(v);
    LaidReads(Tokens(v), gap, 0, rest);
    SkipsTokens(v, s + rest, rest);
    if forall i: nat :: gap(i) == [] {
      LaidBare(Tokens(v), gap, 0);
      TextIs(v);
    }
  }

  /** Only a number ends in one. */
  lemma LastNumber(v: Value)
    ensures Tokens(v) != [] && (Tokens(v)[|Tokens(v)| - 1].Number? ==> v.Int?)
  {
    hide Escape, ItemsTokens, MembersTokens;
  }

  lemma {:induction false} LaidBare(ts: seq<Token>, gap: nat -> seq<byte>, i: nat)
    requires forall k: nat :: gap(k) == []
    ensures Laid(ts, gap, i) == Spelled(ts)
    decreases ts
  {
    hide Spell;
    if ts != [] {
      LaidBare(ts[1..], gap, i + 1);
    }
  }
}
