/**
 Tokens written into a buffer through the encoder's calls, and read back from it through the decoder's.
 */
module CborRoundTrip {
  import opened Cbor

  ghost predicate AllAdmitted(ts: seq<Token>) {
    forall i :: 0 <= i < |ts| ==> Admitted(ts[i])
  }

  // ----- writing

  /** The encoder call for a token. */
  method Emit(w: Writer, t: Token) returns (rc: Status)
    requires w.Valid() && Admitted(t)
    modifies w`pos, w.buf
    ensures w.Valid() && Appended(t, old(w.Written()), w.Written(), rc, w.capacity)
  {
    hide Appended;
    match t
    case UInt(v) => rc := w.EncodeUint(v);
    case NegInt(v) => rc := w.EncodeNegint(v);
    case ByteString(d) => rc := w.EncodeString(BSTR, d);
    case TextString(d) => rc := w.EncodeString(TSTR, d);
    case ArrayOf(n) => rc := w.EncodeArray(n);
    case MapOf(n) => rc := w.EncodeMap(n);
    case Bool(b) => rc := w.EncodeBool(b);
    case Null => rc := w.EncodeNull();
  }

  /** A run of calls, up to the first that is refused: none is iff the whole output fits. */
  method WriteAll(w: Writer, ts: seq<Token>) returns (rc: Status)
    requires w.Valid() && AllAdmitted(ts)
    modifies w`pos, w.buf
    ensures w.Valid()
    ensures rc == if old(w.pos) + |EncodedAll(ts)| <= w.capacity then OK else ErrOverflow
    ensures rc == OK ==> w.Written() == old(w.Written()) + EncodedAll(ts)
  {
    hide Encoded, EncodedAll;
    var i := 0;
    FirstEncoded(ts, 0);
    while i < |ts|
      invariant i <= |ts| && w.Valid() && w.Written() == old(w.Written()) + EncodedAll(ts[..i])
    {
      FirstEncoded(ts, i);
      assert w.Written() + Encoded(ts[i]) == old(w.Written()) + EncodedAll(ts[..i + 1]);
      rc := Emit(w, ts[i]);
      if rc != OK {
        return;
      }
      i := i + 1;
    }
    assert ts[..i] == ts;
    rc := OK;
  }

  /** The output of the first i calls is part of the whole output, and call i adds its token. */
  lemma FirstEncoded(ts: seq<Token>, i: nat)
    requires AllAdmitted(ts) && i <= |ts|
    ensures EncodedAll(ts[..0]) == [] && |EncodedAll(ts[..i])| <= |EncodedAll(ts)|
    ensures i < |ts| ==> EncodedAll(ts[..i + 1]) == EncodedAll(ts[..i]) + Encoded(ts[i])
                         && |EncodedAll(ts[..i + 1])| <= |EncodedAll(ts)|
  {
    hide Encoded;
    PrefixFits(ts, i);
    if i < |ts| {
      PrefixFits(ts, i + 1);
      assert ts[..i + 1] == ts[..i] + [ts[i]];
      EncodedJoin(ts[..i], [ts[i]]);
      EncodedOne(ts[i]);
    }
  }

  lemma PrefixFits(ts: seq<Token>, i: nat)
    requires AllAdmitted(ts) && i <= |ts|
    ensures |EncodedAll(ts[..i])| <= |EncodedAll(ts)|
  {
    hide Encoded;
    assert ts == ts[..i] + ts[i..];
    EncodedJoin(ts[..i], ts[i..]);
  }

  // ----- reading

  /** The decoder call for the kind of token that t is. */
  method ReadLike(r: Reader, t: Token) returns (rc: Status, got: Token)
    requires r.Valid()
    modifies r`pos
    ensures r.Valid()
    ensures var d := DecodeLike(t, old(r.Left()));
            rc == d.rc && (rc == OK ==> got == d.token && r.pos == old(r.pos) + d.moved)
  {
    hide TypedHead, ReadHead;
    got := Null;
    match t
    case UInt(_) =>
      var v;
      rc, v := r.DecodeArgumentOf(UINT);
      got := UInt(v);
    case NegInt(_) =>
      var v;
      rc, v := r.DecodeArgumentOf(NEGINT);
      got := NegInt(v);
    case ByteString(_) =>
      var d;
      rc, d := r.DecodeStringOf(BSTR);
      got := ByteString(d);
    case TextString(_) =>
      var d;
      rc, d := r.DecodeStringOf(TSTR);
      got := TextString(d);
    case ArrayOf(_) =>
      var n;
      rc, n := r.DecodeCountOf(ARRAY);
      got := ArrayOf(n);
    case MapOf(_) =>
      var n;
      rc, n := r.DecodeCountOf(MAP);
      got := MapOf(n);
    case Bool(_) =>
      var b;
      rc, b := r.DecodeBoolValue();
      got := Bool(b);
    case Null =>
      rc := r.DecodeNullValue();
  }

  /** One decoder call for each of the kinds, up to the first that fails. */
  method ReadAll(r: Reader, kinds: seq<Token>) returns (rc: Status, ts: seq<Token>)
    requires r.Valid()
    modifies r`pos
    ensures r.Valid()
    ensures AllAdmitted(kinds) && old(r.Left()) == EncodedAll(kinds) ==> rc == OK && ts == kinds && r.pos == r.len
  {
    hide Encoded, EncodedAll, DecodeLike, Admitted;
    ts := [];
    var i := 0;
    ghost var good := AllAdmitted(kinds) && r.Left() == EncodedAll(kinds);
    assert kinds[0..] == kinds;
    while i < |kinds|
      invariant i <= |kinds| && r.Valid()
      invariant good ==> AllAdmitted(kinds[i..]) && r.Left() == EncodedAll(kinds[i..]) && ts == kinds[..i]
    {
      ghost var s := r.Left();
      if good {
        NextDecoded(kinds[i..]);
        assert kinds[i..][1..] == kinds[i + 1..] && kinds[..i + 1] == kinds[..i] + [kinds[i]];
      }
      var t;
      rc, t := ReadLike(r, kinds[i]);
      if rc != OK {
        return;
      }
      assert good ==> r.Left() == s[|Encoded(kinds[i])|..];
      ts := ts + [t];
      i := i + 1;
    }
    if good {
      NoneEncoded(kinds[i..]);
    }
    rc := OK;
  }

  lemma NextDecoded(ts: seq<Token>)
    requires AllAdmitted(ts) && ts != []
    ensures AllAdmitted(ts[1..]) && Admitted(ts[0])
    ensures DecodeLike(ts[0], EncodedAll(ts)) == Decoded(OK, ts[0], |Encoded(ts[0])|)
    ensures |Encoded(ts[0])| <= |EncodedAll(ts)| && EncodedAll(ts)[|Encoded(ts[0])|..] == EncodedAll(ts[1..])
  {
    hide Encoded, DecodeLike;
    DecodeEncoded(ts[0], EncodedAll(ts[1..]));
  }

  lemma NoneEncoded(ts: seq<Token>)
    requires ts == []
    ensures AllAdmitted(ts) && EncodedAll(ts) == []
  {}

  // ----- both

  /**
   The round trip on one buffer: a list of tokens is written iff its encoding fits, and the decoder's calls then give
   back exactly these tokens and stop at the end of what was written.
   */
  method WriteAndReadBack(ts: seq<Token>, buf: array<byte>, cap: nat)
    returns (rc: Status, back: seq<Token>, written: nat, read: nat)
    requires cap <= buf.Length && cap <= 0xFFFF && AllAdmitted(ts)
    modifies buf
    ensures rc == if |EncodedAll(ts)| <= cap then OK else ErrOverflow
    ensures rc == OK ==> written == read == |EncodedAll(ts)| && buf[..written] == EncodedAll(ts) && back == ts
  {
    hide EncodedAll, AllAdmitted;
    back, written, read := [], 0, 0;
    var w := new Writer(buf, cap);
    rc := WriteAll(w, ts);
    if rc != OK {
      return;
    }
    written := w.pos;
    var r := new Reader(buf, w.pos);
    rc, back := ReadAll(r, ts);
    read := r.pos;
  }

  /** And when the tokens are those of a data item, skip passes over exactly what was written. */
  method WriteAndSkip(ghost i: Item, ts: seq<Token>, buf: array<byte>, cap: nat)
    returns (rc: Status, written: nat, skipped: nat)
    requires cap <= buf.Length && cap <= 0xFFFF && Proper(i) && ts == Tokens(i)
    modifies buf
    ensures rc == if |EncodedAll(ts)| <= cap then OK else ErrOverflow
    ensures rc == OK ==> written == skipped == |EncodedAll(ts)| && buf[..written] == EncodedAll(ts)
  {
    hide EncodedAll, AllAdmitted, Skip, Proper, Tokens;
    written, skipped := 0, 0;
    ItemAdmitted(i);
    var w := new Writer(buf, cap);
    rc := WriteAll(w, ts);
    if rc != OK {
      return;
    }
    written := w.pos;
    SkipPastItem(i, []);
    assert EncodedAll(ts) + [] == EncodedAll(ts);
    var r := new Reader(buf, w.pos);
    rc := r.SkipItem();
    skipped := r.pos;
  }

  lemma ItemAdmitted(i: Item)
    requires Proper(i)
    ensures AllAdmitted(Tokens(i))
  {
    hide Tokens, Proper, Admitted;
  }
}
