/**
 A value written into a buffer through the writer's calls, and read back from it through the parser's.
 */
module JsonRoundTrip {
  import opened Json

  // ----- runs of calls

  /** The integers that write_int takes. */
  predicate Takes(c: Call) {
    c.PutInt? ==> -0x8000_0000 <= c.n < 0x8000_0000
  }

  lemma ApplyGrows(st: State, c: Call, max: nat)
    ensures st.out <= Apply(st, c, max).st.out
  {
    hide Quoted, Decimal, Pending;
  }

  /** No call takes back what has been written. */
  lemma {:induction false} RunsGrow(st: State, cs: seq<Call>, st': State, max: nat)
    requires Runs(st, cs, st', max)
    ensures st.out <= st'.out
    decreases cs
  {
    hide Apply;
    if cs != [] {
      ApplyGrows(st, cs[0], max);
      RunsGrow(Apply(st, cs[0], max).st, cs[1..], st', max);
    }
  }

  lemma {:induction false} CallsTaken(v: Value)
    requires Readable(v)
    ensures forall c :: c in Calls(v) ==> Takes(c)
    decreases v, 0
  {
    match v
    case Str(_) =>
    case Int(_) =>
    case Bool(_) =>
    case Nil =>
    case Arr(items) => ItemsTaken(items);
    case Obj(ms) => MembersTaken(ms);
  }

  lemma {:induction false} ItemsTaken(items: seq<Value>)
    requires forall i :: 0 <= i < |items| ==> Readable(items[i])
    ensures forall c :: c in ItemsCalls(items) ==> Takes(c)
    decreases items, 1
  {
    hide Calls, Takes, Readable;
    if items != [] {
      CallsTaken(items[0]);
      ItemsTaken(items[1..]);
    }
  }

  lemma {:induction false} MembersTaken(ms: seq<Member>)
    requires forall i :: 0 <= i < |ms| ==> Readable(ms[i].value)
    ensures forall c :: c in MembersCalls(ms) ==> Takes(c)
    decreases ms, 1
  {
    hide Calls, Readable;
    if ms != [] {
      CallsTaken(ms[0].value);
      MembersTaken(ms[1..]);
    }
  }

  lemma {:induction false} NoEnd(ts: seq<Token>, d: int, e: int)
    requires Stays(ts, d, e)
    ensures End !in ts
    decreases ts
  {
    if ts != [] {
      NoEnd(ts[1..], Deeper(d, ts[0]), e);
    }
  }

  // ----- writing

  method Perform(w: Writer, c: Call) returns (rc: Status)
    requires w.Valid() && Takes(c)
    modifies w, w.buf, w.needComma
    ensures w.Valid() && Performed(old(w.Current()), c, w.Current(), rc, w.capacity, w.maxDepth)
  {
    hide Performed;
    match c
    case OpenObject => rc := w.Open(LBRACE, OpenObject);
    case CloseObject => rc := w.Close(RBRACE, CloseObject);
    case OpenArray => rc := w.Open(LBRACKET, OpenArray);
    case CloseArray => rc := w.Close(RBRACKET, CloseArray);
    case Key(key) => rc := w.WriteKey(key);
    case PutStr(s) => rc := w.WriteStr(s);
    case PutInt(n) => rc := w.WriteInt(n);
    case PutBool(b) => rc := w.WriteBool(b);
    case PutNull => rc := w.WriteNull();
  }

  /** A run of calls succeeds throughout iff its whole output fits. */
  method WriteAll(w: Writer, cs: seq<Call>, ghost st': State) returns (rc: Status)
    requires w.Valid() && Runs(w.Current(), cs, st', w.maxDepth) && forall c :: c in cs ==> Takes(c)
    modifies w, w.buf, w.needComma
    ensures w.Valid()
    ensures rc == if |st'.out| <= w.capacity then OK else ErrOverflow
    ensures rc == OK ==> w.Current() == st'
  {
    hide Apply, Takes;
    var i := 0;
    assert cs[0..] == cs;
    while i < |cs|
      invariant i <= |cs| && w.Valid() && Runs(w.Current(), cs[i..], st', w.maxDepth)
    {
      ghost var a := Apply(w.Current(), cs[i], w.maxDepth);
      assert cs[i..][1..] == cs[i + 1..];
      RunsGrow(a.st, cs[i + 1..], st', w.maxDepth);
      rc := Perform(w, cs[i]);
      if rc != OK {
        return;
      }
      i := i + 1;
    }
    rc := OK;
  }

  // ----- reading

  /** The next token, with the string or number that the reader holds for it. */
  method ReadToken(r: Reader) returns (rc: Status, t: Token)
    requires r.Valid()
    modifies r
    ensures r.Valid()
    ensures var l := NextToken(old(r.Left()));
            rc == l.rc && r.pos == old(r.pos) + l.moved && (rc == OK ==> t == l.token)
  {
    hide NextToken;
    var k;
    rc, k := r.NextTok();
    match k
    case TokEnd => t := End;
    case TokLBrace => t := LBrace;
    case TokRBrace => t := RBrace;
    case TokLBracket => t := LBracket;
    case TokRBracket => t := RBracket;
    case TokString => t := String(r.buf[r.tokStart..r.tokStart + r.tokLen]);
    case TokNumber => t := Number(r.tokInt);
    case TokTrue => t := True;
    case TokFalse => t := False;
    case TokNull => t := Null;
    case TokColon => t := Colon;
    case TokComma => t := Comma;
  }

  /** All tokens up to the end of the text. */
  method ReadAll(r: Reader, ghost all: seq<Token>) returns (rc: Status, ts: seq<Token>)
    requires r.Valid() && Reads(r.Left(), all, []) && End !in all
    modifies r
    ensures r.Valid() && rc == OK && ts == all && r.pos == r.len
  {
    hide NextToken, Reads;
    ts := [];
    ghost var n := 0;
    assert all[0..] == all && all[..0] == [];
    while true
      invariant n <= |all| && ts == all[..n] && r.Valid() && Reads(r.Left(), all[n..], [])
      decreases |all| - n
    {
      ghost var s := r.Left();
      ReadsStep(s, all, n);
      var t;
      rc, t := ReadToken(r);
      assert s[NextToken(s).moved..] == r.Left();
      if rc != OK || t == End {
        return;
      }
      assert all[..n + 1] == all[..n] + [all[n]];
      ts := ts + [t];
      n := n + 1;
    }
  }

  /** The next call gives the next of the tokens, or the end after the last one. */
  lemma ReadsStep(s: seq<byte>, all: seq<Token>, n: nat)
    requires n <= |all| && Reads(s, all[n..], []) && End !in all
    ensures var l := NextToken(s);
            if n == |all| then s == [] && l == Lexed(OK, End, 0)
            else l.rc == OK && l.token == all[n] && l.token != End && Reads(s[l.moved..], all[n + 1..], [])
  {
    hide NextToken;
    if n == |all| {
      AtEnd();
    } else {
      assert all[n..][0] == all[n] && all[n..][1..] == all[n + 1..];
    }
  }

  lemma AtEnd()
    ensures NextToken([]) == Lexed(OK, End, 0)
  {}

  // ----- both

  /**
   The round trip on buffers: a value that nests no deeper than the writer allows is written iff its text fits, all
   containers are then closed, the parser reads exactly its tokens back, and skip_value ends where the text does.
   */
  method WriteAndReadBack(v: Value, buf: array<byte>, cap: nat, max: nat)
    returns (rc: Status, ts: seq<Token>, skipped: nat)
    requires cap <= buf.Length && cap <= 0xFFFF && max <= 0xFF && Nests(v, max) && Readable(v)
    modifies buf
    ensures rc == if |Text(v)| <= cap then OK else ErrOverflow
    ensures rc == OK ==> buf[..|Text(v)|] == Text(v) && ts == Tokens(v) && skipped == |Text(v)|
  {
    hide Runs, Reads, Text, Calls, Tokens, SkipValue, Nests, Readable, Stays;
    RoundTrip(v, max);
    CallsTaken(v);
    StaysValue(v, 1);
    NoEnd(Tokens(v), 1, 1);
    ts, skipped := [], 0;
    var w := new Writer(buf, cap, max);
    rc := WriteAll(w, Calls(v), State(Text(v), []));
    if rc != OK {
      return;
    }
    var r := new Reader(buf, w.pos);
    rc, ts := ReadAll(r, Tokens(v));
    var k := new Reader(buf, w.pos);
    rc := k.SkipOne();
    skipped := k.pos;
  }
}
