/**
 AES key wrap (sections 2.2.1 and 2.2.2 of RFC 3394): six passes over n blocks of eight bytes, each block
 enciphered together with an integrity register. The steps of all passes are numbered 1 to 6n.
 */
module AesKw {
  import opened Aes128
  import Radix

  const PASSES: nat := 6

  datatype Status = OK | ErrSize | ErrCorrupt

  datatype Option<T> = None | Some(value: T)

  /** The integrity register and the data blocks. */
  datatype Register = Register(a: seq<byte>, r: seq<byte>)

  ghost predicate Sized(g: Register, n: nat) {
    |g.a| == 8 && |g.r| == 8 * n
  }

  ghost function IV(): seq<byte> {
    [0xA6, 0xA6, 0xA6, 0xA6, 0xA6, 0xA6, 0xA6, 0xA6]
  }

  /** Byte k of a 32-bit counter, the lowest first. */
  function CounterByte(t: nat, k: nat): byte
    requires k < 4
  {
    ((t / (if k == 0 then 1 else if k == 1 then 0x100 else if k == 2 then 0x1_0000 else 0x100_0000)) % 0x100) as byte
  }

  /** The low four bytes of the register, big-endian, take in the counter. */
  ghost function XorT(a: seq<byte>, t: nat): (r: seq<byte>)
    requires |a| == 8
    ensures |r| == 8
  {
    seq(8, i requires 0 <= i < 8 => if i < 4 then a[i] else Plus(a[i], CounterByte(t, 7 - i)))
  }

  lemma XorTTwice(a: seq<byte>, t: nat)
    requires |a| == 8
    ensures XorT(XorT(a, t), t) == a
  {
    hide Plus, CounterByte;
    forall i | 4 <= i < 8
      ensures XorT(XorT(a, t), t)[i] == a[i]
    {
      PlusTwice(a[i], CounterByte(t, 7 - i));
    }
  }

  lemma PlusTwice(x: byte, k: byte)
    ensures Plus(Plus(x, k), k) == x
  {}

  function Block(r: seq<byte>, i: nat): (b: seq<byte>)
    requires 8 * i + 8 <= |r|
    ensures |b| == 8
  {
    r[8 * i..8 * i + 8]
  }

  function PutBlock(r: seq<byte>, i: nat, b: seq<byte>): (r': seq<byte>)
    requires 8 * i + 8 <= |r| && |b| == 8
    ensures |r'| == |r|
  {
    r[..8 * i] + b + r[8 * i + 8..]
  }

  lemma PutGet(r: seq<byte>, i: nat, b: seq<byte>)
    requires 8 * i + 8 <= |r| && |b| == 8
    ensures Block(PutBlock(r, i, b), i) == b
    ensures PutBlock(PutBlock(r, i, b), i, Block(r, i)) == r
  {
    var r' := PutBlock(r, i, b);
    assert r'[..8 * i] == r[..8 * i] && r'[8 * i + 8..] == r[8 * i + 8..];
    assert r == r[..8 * i] + Block(r, i) + r[8 * i + 8..];
  }

  /** The block that step s works on. */
  function Place(n: nat, s: nat): (i: nat)
    requires n > 0 && s > 0
    ensures i < n
  {
    (s - 1) % n
  }

  ghost function WrapStep(rk: seq<byte>, rounds: nat, g: Register, n: nat, s: nat): (g': Register)
    requires rounds >= 1 && 16 * rounds + 16 <= |rk| && Sized(g, n) && n > 0 && s > 0
    ensures Sized(g', n)
  {
    var i := Place(n, s);
    var b: seq<byte> := Cipher(rk, rounds, g.a + Block(g.r, i));
    Register(XorT(b[..8], s % 0x1_0000_0000), PutBlock(g.r, i, b[8..]))
  }

  ghost function UnwrapStep(rk: seq<byte>, rounds: nat, g: Register, n: nat, s: nat): (g': Register)
    requires rounds >= 1 && 16 * rounds + 16 <= |rk| && Sized(g, n) && n > 0 && s > 0
    ensures Sized(g', n)
  {
    var i := Place(n, s);
    var b: seq<byte> := InvCipher(rk, rounds, XorT(g.a, s % 0x1_0000_0000) + Block(g.r, i));
    Register(b[..8], PutBlock(g.r, i, b[8..]))
  }

  /** Steps 1 to s. */
  ghost function Wrapped(rk: seq<byte>, rounds: nat, g: Register, n: nat, s: nat): (g': Register)
    requires rounds >= 1 && 16 * rounds + 16 <= |rk| && Sized(g, n) && n > 0
    ensures Sized(g', n)
  {
    if s == 0 then g else WrapStep(rk, rounds, Wrapped(rk, rounds, g, n, s - 1), n, s)
  }

  /** The inverse steps, s down to 1. */
  ghost function Unwrapped(rk: seq<byte>, rounds: nat, g: Register, n: nat, s: nat): (g': Register)
    requires rounds >= 1 && 16 * rounds + 16 <= |rk| && Sized(g, n) && n > 0
    ensures Sized(g', n)
    decreases s
  {
    if s == 0 then g else Unwrapped(rk, rounds, UnwrapStep(rk, rounds, g, n, s), n, s - 1)
  }

  lemma UnwrapStepWrapStep(rk: seq<byte>, rounds: nat, g: Register, n: nat, s: nat)
    requires rounds >= 1 && 16 * rounds + 16 <= |rk| && Sized(g, n) && n > 0 && s > 0
    ensures UnwrapStep(rk, rounds, WrapStep(rk, rounds, g, n, s), n, s) == g
  {
    hide Cipher, InvCipher, XorT, PutBlock, Block, Place;
    var i := Place(n, s);
    var x: seq<byte> := g.a + Block(g.r, i);
    var b: seq<byte> := Cipher(rk, rounds, x);
    InvCipherCipher(rk, rounds, x);
    XorTTwice(b[..8], s % 0x1_0000_0000);
    PutGet(g.r, i, b[8..]);
    assert b == b[..8] + b[8..];
    assert x[..8] == g.a && x[8..] == Block(g.r, i);
  }

  lemma WrapStepUnwrapStep(rk: seq<byte>, rounds: nat, g: Register, n: nat, s: nat)
    requires rounds >= 1 && 16 * rounds + 16 <= |rk| && Sized(g, n) && n > 0 && s > 0
    ensures WrapStep(rk, rounds, UnwrapStep(rk, rounds, g, n, s), n, s) == g
  {
    hide Cipher, InvCipher, XorT, PutBlock, Block, Place;
    var i := Place(n, s);
    var y: seq<byte> := XorT(g.a, s % 0x1_0000_0000) + Block(g.r, i);
    var b: seq<byte> := InvCipher(rk, rounds, y);
    CipherInvCipher(rk, rounds, y);
    XorTTwice(g.a, s % 0x1_0000_0000);
    PutGet(g.r, i, b[8..]);
    assert b == b[..8] + b[8..];
    assert y[..8] == XorT(g.a, s % 0x1_0000_0000) && y[8..] == Block(g.r, i);
  }

  lemma {:induction false} UnwrappedWrapped(rk: seq<byte>, rounds: nat, g: Register, n: nat, s: nat)
    requires rounds >= 1 && 16 * rounds + 16 <= |rk| && Sized(g, n) && n > 0
    ensures Unwrapped(rk, rounds, Wrapped(rk, rounds, g, n, s), n, s) == g
  {
    hide WrapStep, UnwrapStep;
    if s > 0 {
      UnwrapStepWrapStep(rk, rounds, Wrapped(rk, rounds, g, n, s - 1), n, s);
      UnwrappedWrapped(rk, rounds, g, n, s - 1);
    }
  }

  lemma {:induction false} WrappedUnwrapped(rk: seq<byte>, rounds: nat, g: Register, n: nat, s: nat)
    requires rounds >= 1 && 16 * rounds + 16 <= |rk| && Sized(g, n) && n > 0
    ensures Wrapped(rk, rounds, Unwrapped(rk, rounds, g, n, s), n, s) == g
    decreases s
  {
    hide WrapStep, UnwrapStep;
    if s > 0 {
      WrappedUnwrapped(rk, rounds, UnwrapStep(rk, rounds, g, n, s), n, s - 1);
      WrapStepUnwrapStep(rk, rounds, g, n, s);
    }
  }

  // ----- wrapping and unwrapping n blocks as functions of a key schedule and the data

  ghost function KeyWrap(rk: seq<byte>, rounds: nat, x: seq<byte>, n: nat): (c: seq<byte>)
    requires rounds >= 1 && 16 * rounds + 16 <= |rk| && |x| == 8 * n && n > 0
    ensures |c| == |x| + 8
  {
    var g := Wrapped(rk, rounds, Register(IV(), x), n, n * PASSES);
    g.a + g.r
  }

  ghost function KeyUnwrap(rk: seq<byte>, rounds: nat, c: seq<byte>, n: nat): Option<seq<byte>>
    requires rounds >= 1 && 16 * rounds + 16 <= |rk| && |c| == 8 * n + 8 && n > 0
  {
    var g := Unwrapped(rk, rounds, Register(c[..8], c[8..]), n, n * PASSES);
    if g.a == IV() then Some(g.r) else None
  }

  /** Unwrapping accepts what wrapping made, giving the data back, and accepts nothing else. */
  lemma UnwrapExactly(rk: seq<byte>, rounds: nat, c: seq<byte>, x: seq<byte>, n: nat)
    requires rounds >= 1 && 16 * rounds + 16 <= |rk| && |x| == 8 * n && |c| == 8 * n + 8 && n > 0
    ensures KeyUnwrap(rk, rounds, c, n) == Some(x) <==> c == KeyWrap(rk, rounds, x, n)
  {
    hide Wrapped, Unwrapped;
    var g, h := Register(IV(), x), Register(c[..8], c[8..]);
    var w := Wrapped(rk, rounds, g, n, n * PASSES);
    UnwrappedWrapped(rk, rounds, g, n, n * PASSES);
    WrappedUnwrapped(rk, rounds, h, n, n * PASSES);
    assert (w.a + w.r)[..8] == w.a && (w.a + w.r)[8..] == w.r;
    assert c == c[..8] + c[8..];
  }

  // ----- the program

  /** Ten rounds for a 16-byte key, fourteen for a 32-byte one. */
  function Rounds(size: nat): nat {
    size / 4 + 6
  }

  ghost function Schedule(kek: seq<byte>): (rk: seq<byte>)
    requires |kek| == 16 || |kek| == 32
    ensures |rk| == 16 * Rounds(|kek|) + 16
  {
    Expand(kek, |kek| / 4, |kek| + 28)
  }

  /** With a 16-byte key, Unwrap answers OK with x exactly on what Wrap makes of x. */
  lemma UnwrapUndoesWrap(kek: seq<byte>, c: seq<byte>, x: seq<byte>, n: nat)
    requires |kek| == 16 && |x| == 8 * n && |c| == 8 * n + 8 && n > 0
    ensures KeyUnwrap(Schedule(kek)[..176], ROUNDS, c, n) == Some(x) <==> c == KeyWrap(Schedule(kek), Rounds(16), x, n)
  {
    hide KeyWrap, KeyUnwrap, Schedule;
    assert Schedule(kek)[..176] == Schedule(kek);
    UnwrapExactly(Schedule(kek), ROUNDS, c, x, n);
  }

  /** The cipher for a key, or none. */
  method KwKey(ctx: Context, kek: array<byte>) returns (ok: bool)
    requires ctx.roundKeys.Length == 240 && kek != ctx.roundKeys
    modifies ctx, ctx.roundKeys
    ensures ok <==> kek.Length == 16 || kek.Length == 32
    ensures ok ==> ctx.rounds == Rounds(kek.Length)
                   && ctx.roundKeys[..16 * ctx.rounds + 16] == Schedule(old(kek[..]))
  {
    hide Expand;
    if kek.Length == 16 {
      ctx.Init128(kek);
      return true;
    }
    if kek.Length == 32 {
      ctx.Init256(kek);
      assert ctx.roundKeys[..240] == ctx.roundKeys[..];
      return true;
    }
    ok := false;
  }

  method KwXorT(a: array<byte>, t: nat)
    requires a.Length == 16 && t < 0x1_0000_0000
    modifies a
    ensures a[..8] == XorT(old(a[..8]), t) && a[8..] == old(a[8..])
  {
    hide Plus, CounterByte;
    a[4] := Plus(a[4], CounterByte(t, 3));
    a[5] := Plus(a[5], CounterByte(t, 2));
    a[6] := Plus(a[6], CounterByte(t, 1));
    a[7] := Plus(a[7], CounterByte(t, 0));
  }

  /** memmove: the ranges may overlap. */
  method Move(src: array<byte>, from: nat, dst: array<byte>, to: nat, n: nat)
    requires from + n <= src.Length && to + n <= dst.Length
    modifies dst
    ensures dst[..] == old(dst[..to]) + old(src[from..from + n]) + old(dst[to + n..])
  {
    ghost var d, s := dst[..], src[from..from + n];
    forall i | 0 <= i < n {
      dst[to + i] := src[from + i];
    }
    assert dst[..to] == d[..to] && dst[to..to + n] == s && dst[to + n..] == d[to + n..];
    assert dst[..] == dst[..to] + dst[to..to + n] + dst[to + n..];
  }

  /** The steps numbered from base + 1 on are those of one pass. */
  ghost predicate Aligned(n: nat, base: nat) {
    exists j: nat :: base == n * j
  }

  lemma PassAligned(n: nat, j: nat)
    ensures Aligned(n, n * j)
  {}

  /** The counter n * j + i is the number of the step, and i - 1 its block. */
  lemma StepNumber(n: nat, i: nat, base: nat)
    requires 1 <= i <= n && Aligned(n, base)
    ensures Place(n, base + i) == i - 1
  {
    var j: nat :| base == n * j;
    Radix.DivModUnique(base + i - 1, j, i - 1, n);
  }

  /** The register in the first half of b, with the blocks at `off` in r. */
  ghost function Held(b: array<byte>, r: array<byte>, off: nat, n: nat): (g: Register)
    requires b.Length == 16 && off + 8 * n <= r.Length
    reads b, r
    ensures Sized(g, n)
  {
    Register(b[..8], r[off..off + 8 * n])
  }

  ghost predicate Ready(ctx: Context, b: array<byte>, r: array<byte>, off: nat, n: nat)
    reads ctx
  {
    && ctx.roundKeys.Length == 240 && 1 <= ctx.rounds <= 14 && b.Length == 16 && off + 8 * n <= r.Length && n > 0
    && b != r && b != ctx.roundKeys && r != ctx.roundKeys
  }

  /** Nothing has changed outside [lo, hi). */
  ghost predicate Beside(r: seq<byte>, r': seq<byte>, lo: nat, hi: nat) {
    |r'| == |r| && lo <= hi <= |r| && r'[..lo] == r[..lo] && r'[hi..] == r[hi..]
  }

  lemma BesideStays(r: seq<byte>, r': seq<byte>, r'': seq<byte>, lo: nat, hi: nat)
    requires Beside(r, r', lo, hi) && Beside(r', r'', lo, hi)
    ensures Beside(r, r'', lo, hi)
  {}

  lemma BesideSame(r: seq<byte>, lo: nat, hi: nat)
    requires lo <= hi <= |r|
    ensures Beside(r, r, lo, hi)
  {}

  lemma HeldIs(b: array<byte>, r: array<byte>, off: nat, n: nat)
    requires b.Length == 16 && off + 8 * n <= r.Length
    ensures Held(b, r, off, n) == Register(b[..8], r[off..off + 8 * n])
  {}

  lemma ReadyIs(ctx: Context, b: array<byte>, r: array<byte>, off: nat, n: nat)
    requires Ready(ctx, b, r, off, n)
    ensures ctx.roundKeys.Length == 240 && 1 <= ctx.rounds <= 14 && b.Length == 16 && off + 8 * n <= r.Length && n > 0
    ensures b != r && b != ctx.roundKeys && r != ctx.roundKeys
  {}

  lemma HeldBlock(r: seq<byte>, off: nat, n: nat, i: nat)
    requires off + 8 * n <= |r| && i < n
    ensures Block(r[off..off + 8 * n], i) == r[off + 8 * i..off + 8 * i + 8]
  {
    var b := Block(r[off..off + 8 * n], i);
    assert forall j :: 0 <= j < 8 ==> b[j] == r[off..off + 8 * n][8 * i + j];
  }

  /** Writing back block i. */
  lemma HeldPut(r: seq<byte>, r': seq<byte>, off: nat, n: nat, i: nat, x: seq<byte>)
    requires off + 8 * n <= |r| && i < n && |x| == 8
    requires r' == r[..off + 8 * i] + x + r[off + 8 * i + 8..]
    ensures |r'| == |r| && r'[off..off + 8 * n] == PutBlock(r[off..off + 8 * n], i, x)
    ensures Beside(r, r', off, off + 8 * n)
  {
    assert forall j :: off + 8 * i + 8 <= j < |r| ==> r'[j] == r[off + 8 * i + 8..][j - (off + 8 * i + 8)];
    var s, s' := r[off..off + 8 * n], PutBlock(r[off..off + 8 * n], i, x);
    assert forall j :: 8 * i + 8 <= j < 8 * n ==> s'[j] == s[8 * i + 8..][j - (8 * i + 8)];
  }

  lemma WrapStepIs(rk: seq<byte>, rounds: nat, g: Register, n: nat, s: nat, y: seq<byte>, x: seq<byte>)
    requires rounds >= 1 && 16 * rounds + 16 <= |rk| && Sized(g, n) && n > 0 && s > 0
    requires y == g.a + Block(g.r, Place(n, s)) && x == Cipher(rk, rounds, y)
    ensures WrapStep(rk, rounds, g, n, s)
            == Register(XorT(x[..8], s % 0x1_0000_0000), PutBlock(g.r, Place(n, s), x[8..]))
  {
    hide Cipher, XorT, PutBlock, Block, Place;
  }

  lemma UnwrapStepIs(rk: seq<byte>, rounds: nat, g: Register, n: nat, s: nat, y: seq<byte>, x: seq<byte>)
    requires rounds >= 1 && 16 * rounds + 16 <= |rk| && Sized(g, n) && n > 0 && s > 0
    requires y == XorT(g.a, s % 0x1_0000_0000) + Block(g.r, Place(n, s)) && x == InvCipher(rk, rounds, y)
    ensures UnwrapStep(rk, rounds, g, n, s) == Register(x[..8], PutBlock(g.r, Place(n, s), x[8..]))
  {
    hide InvCipher, XorT, PutBlock, Block, Place;
  }

  /** What WrapOne does to b and r, in snapshots: before, with the block in b, and after. */
  lemma WrapOneIs(rk: seq<byte>, rounds: nat, b: seq<byte>, r: seq<byte>, b1: seq<byte>, x: seq<byte>, b2: seq<byte>,
                  r2: seq<byte>, off: nat, n: nat, i: nat, t: nat)
    requires rounds >= 1 && 16 * rounds + 16 <= |rk| && |b| == |b2| == 16 && off + 8 * n <= |r|
    requires 1 <= i <= n && t > 0 && Place(n, t) == i - 1
    requires b1 == b[..8] + r[off + (i - 1) * 8..off + (i - 1) * 8 + 8] && x == Cipher(rk, rounds, b1)
    requires b2[..8] == XorT(x[..8], t % 0x1_0000_0000) && b2[8..] == x[8..]
    requires r2 == r[..off + (i - 1) * 8] + b2[8..] + r[off + (i - 1) * 8 + 8..]
    ensures Beside(r, r2, off, off + 8 * n)
    ensures Register(b2[..8], r2[off..off + 8 * n])
            == WrapStep(rk, rounds, Register(b[..8], r[off..off + 8 * n]), n, t)
  {
    hide Cipher, XorT, PutBlock, Block, Place, Beside, WrapStep;
    HeldBlock(r, off, n, i - 1);
    WrapStepIs(rk, rounds, Register(b[..8], r[off..off + 8 * n]), n, t, b1, x);
    HeldPut(r, r2, off, n, i - 1, b2[8..]);
  }

  lemma UnwrapOneIs(rk: seq<byte>, rounds: nat, b: seq<byte>, r: seq<byte>, b1: seq<byte>, x: seq<byte>, r2: seq<byte>,
                    off: nat, n: nat, i: nat, t: nat)
    requires rounds >= 1 && 16 * rounds + 16 <= |rk| && |b| == 16 && off + 8 * n <= |r|
    requires 1 <= i <= n && t > 0 && Place(n, t) == i - 1
    requires b1 == XorT(b[..8], t % 0x1_0000_0000) + r[off + (i - 1) * 8..off + (i - 1) * 8 + 8]
             && x == InvCipher(rk, rounds, b1)
    requires r2 == r[..off + (i - 1) * 8] + x[8..] + r[off + (i - 1) * 8 + 8..]
    ensures Beside(r, r2, off, off + 8 * n)
    ensures Register(x[..8], r2[off..off + 8 * n])
            == UnwrapStep(rk, rounds, Register(b[..8], r[off..off + 8 * n]), n, t)
  {
    hide InvCipher, XorT, PutBlock, Block, Place, Beside, UnwrapStep;
    HeldBlock(r, off, n, i - 1);
    UnwrapStepIs(rk, rounds, Register(b[..8], r[off..off + 8 * n]), n, t, b1, x);
    HeldPut(r, r2, off, n, i - 1, x[8..]);
  }

  /** rk is the used part of the context's key schedule. */
  ghost predicate Loaded(ctx: Context, rk: seq<byte>)
    reads ctx.roundKeys
  {
    |rk| <= ctx.roundKeys.Length && ctx.roundKeys[..|rk|] == rk
  }

  lemma LoadedIs(ctx: Context, rk: seq<byte>, n: nat)
    requires n <= ctx.roundKeys.Length && rk == ctx.roundKeys[..n]
    ensures Loaded(ctx, rk) && |rk| == n
  {}

  /** Bring a block into the second half of b. */
  method Load(r: array<byte>, at: nat, b: array<byte>)
    requires at + 8 <= r.Length && b.Length == 16
    modifies b
    ensures b[..] == old(b[..8]) + old(r[at..at + 8])
  {
    Move(r, at, b, 8, 8);
  }

  /** And back. */
  method Store(b: array<byte>, r: array<byte>, at: nat)
    requires at + 8 <= r.Length && b.Length == 16 && b != r
    modifies r
    ensures r[..] == old(r[..at]) + b[8..] + old(r[at + 8..])
  {
    assert b[8..16] == b[8..];
    Move(b, 8, r, at, 8);
  }

  /** Encipher the register and a block in b, and fold the counter in. */
  method EncipherCount(ctx: Context, b: array<byte>, t: nat, ghost rk: seq<byte>) returns (ghost x: seq<byte>)
    requires ctx.roundKeys.Length == 240 && 1 <= ctx.rounds <= 14 && b.Length == 16 && b != ctx.roundKeys
    requires Loaded(ctx, rk) && |rk| == 16 * ctx.rounds + 16
    modifies b
    ensures x == Cipher(rk, ctx.rounds, old(b[..]))
    ensures b[..8] == XorT(x[..8], t % 0x1_0000_0000) && b[8..] == x[8..]
  {
    hide Cipher, XorT;
    assert b[..16] == b[..];
    ctx.Encrypt(b, b);
    assert b[..16] == b[..];
    x := b[..];
    KwXorT(b, t % 0x1_0000_0000);
  }

  /** One step: block i - 1 is enciphered with the register. */
  method WrapOne(ctx: Context, b: array<byte>, r: array<byte>, off: nat, n: nat, i: nat, t: nat, ghost rk: seq<byte>)
    requires Ready(ctx, b, r, off, n) && Loaded(ctx, rk) && |rk| == 16 * ctx.rounds + 16 && 1 <= i <= n && t > 0
             && Place(n, t) == i - 1
    modifies b, r
    ensures Held(b, r, off, n) == WrapStep(rk, ctx.rounds, old(Held(b, r, off, n)), n, t)
    ensures Beside(old(r[..]), r[..], off, off + 8 * n)
  {
    hide Held, Ready, Cipher, XorT, Place, WrapStep, Beside, Loaded;
    ReadyIs(ctx, b, r, off, n);
    HeldIs(b, r, off, n);
    ghost var b0, r0 := b[..], r[..];
    Load(r, off + (i - 1) * 8, b);
    ghost var b1 := b[..];
    ghost var x := EncipherCount(ctx, b, t, rk);
    Store(b, r, off + (i - 1) * 8);
    WrapOneIs(rk, ctx.rounds, b0, r0, b1, x, b[..], r[..], off, n, i, t);
    HeldIs(b, r, off, n);
  }

  method Decipher(ctx: Context, b: array<byte>, ghost rk: seq<byte>)
    requires ctx.roundKeys.Length == 240 && b.Length == 16 && b != ctx.roundKeys && Loaded(ctx, rk) && |rk| == 176
    modifies b
    ensures b[..] == InvCipher(rk, ROUNDS, old(b[..]))
  {
    hide InvCipher;
    assert b[..16] == b[..];
    ctx.Decrypt(b, b);
    assert b[..16] == b[..];
  }

  /** One inverse step. */
  method UnwrapOne(ctx: Context, b: array<byte>, r: array<byte>, off: nat, n: nat, i: nat, t: nat, ghost rk: seq<byte>)
    requires Ready(ctx, b, r, off, n) && Loaded(ctx, rk) && |rk| == 176 && 1 <= i <= n && t > 0 && Place(n, t) == i - 1
    modifies b, r
    ensures Held(b, r, off, n) == UnwrapStep(rk, ROUNDS, old(Held(b, r, off, n)), n, t)
    ensures Beside(old(r[..]), r[..], off, off + 8 * n)
  {
    hide Held, Ready, InvCipher, XorT, Place, UnwrapStep, Beside, Loaded;
    ReadyIs(ctx, b, r, off, n);
    HeldIs(b, r, off, n);
    ghost var b0, r0 := b[..], r[..];
    KwXorT(b, t % 0x1_0000_0000);
    Load(r, off + (i - 1) * 8, b);
    ghost var b1 := b[..];
    Decipher(ctx, b, rk);
    Store(b, r, off + (i - 1) * 8);
    UnwrapOneIs(rk, ROUNDS, b0, r0, b1, b[..], r[..], off, n, i, t);
    HeldIs(b, r, off, n);
  }

  lemma WrappedNext(rk: seq<byte>, rounds: nat, g: Register, n: nat, s: nat)
    requires rounds >= 1 && 16 * rounds + 16 <= |rk| && Sized(g, n) && n > 0 && s > 0
    ensures Wrapped(rk, rounds, g, n, s) == WrapStep(rk, rounds, Wrapped(rk, rounds, g, n, s - 1), n, s)
    ensures Unwrapped(rk, rounds, g, n, s) == Unwrapped(rk, rounds, UnwrapStep(rk, rounds, g, n, s), n, s - 1)
  {
    hide WrapStep, UnwrapStep;
  }

  lemma NoSteps(rk: seq<byte>, rounds: nat, g: Register, n: nat)
    requires rounds >= 1 && 16 * rounds + 16 <= |rk| && Sized(g, n) && n > 0
    ensures Wrapped(rk, rounds, g, n, 0) == g && Unwrapped(rk, rounds, g, n, 0) == g
  {
    hide WrapStep, UnwrapStep;
  }

  /** One pass; its steps are numbered from base + 1 on. */
  method Pass(ctx: Context, b: array<byte>, r: array<byte>, off: nat, n: nat, base: nat, ghost g: Register,
              ghost rk: seq<byte>)
    requires Ready(ctx, b, r, off, n) && Sized(g, n) && Loaded(ctx, rk) && |rk| == 16 * ctx.rounds + 16
    requires Held(b, r, off, n) == Wrapped(rk, ctx.rounds, g, n, base)
    requires Aligned(n, base)
    modifies b, r
    ensures Held(b, r, off, n) == Wrapped(rk, ctx.rounds, g, n, base + n)
    ensures Beside(old(r[..]), r[..], off, off + 8 * n)
  {
    hide WrapStep, Wrapped, Place, Beside, Held, Ready, Aligned, Loaded;
    ReadyIs(ctx, b, r, off, n);
    BesideSame(r[..], off, off + 8 * n);
    for i := 1 to n + 1
      invariant Held(b, r, off, n) == Wrapped(rk, ctx.rounds, g, n, base + i - 1)
      invariant Beside(old(r[..]), r[..], off, off + 8 * n)
    {
      StepNumber(n, i, base);
      WrappedNext(rk, ctx.rounds, g, n, base + i);
      ghost var before := r[..];
      WrapOne(ctx, b, r, off, n, i, base + i, rk);
      BesideStays(old(r[..]), before, r[..], off, off + 8 * n);
    }
  }

  /** One inverse step of a pass; what is left to undo gets one step shorter. */
  method StepBack(ctx: Context, b: array<byte>, r: array<byte>, off: nat, n: nat, i: nat, base: nat,
                  ghost rk: seq<byte>)
    requires Ready(ctx, b, r, off, n) && Loaded(ctx, rk) && |rk| == 176 && 1 <= i <= n && Aligned(n, base)
    modifies b, r
    ensures Unwrapped(rk, ROUNDS, Held(b, r, off, n), n, base + i - 1)
            == Unwrapped(rk, ROUNDS, old(Held(b, r, off, n)), n, base + i)
    ensures Beside(old(r[..]), r[..], off, off + 8 * n)
  {
    hide UnwrapStep, Unwrapped, Place, Beside, Held, Ready, Aligned, Loaded;
    ReadyIs(ctx, b, r, off, n);
    StepNumber(n, i, base);
    WrappedNext(rk, ROUNDS, Held(b, r, off, n), n, base + i);
    UnwrapOne(ctx, b, r, off, n, i, base + i, rk);
  }

  /** One pass backwards. */
  method PassBack(ctx: Context, b: array<byte>, r: array<byte>, off: nat, n: nat, base: nat, ghost rk: seq<byte>)
    requires Ready(ctx, b, r, off, n) && Loaded(ctx, rk) && |rk| == 176
    requires Aligned(n, base)
    modifies b, r
    ensures Unwrapped(rk, ROUNDS, Held(b, r, off, n), n, base)
            == Unwrapped(rk, ROUNDS, old(Held(b, r, off, n)), n, base + n)
    ensures Beside(old(r[..]), r[..], off, off + 8 * n)
  {
    hide UnwrapStep, Unwrapped, Place, Beside, Held, Ready, Aligned, Loaded;
    ReadyIs(ctx, b, r, off, n);
    ghost var r0 := r[..];
    ghost var goal := Unwrapped(rk, ROUNDS, Held(b, r, off, n), n, base + n);
    BesideSame(r0, off, off + 8 * n);
    var i := n;
    while i >= 1
      invariant 0 <= i <= n
      invariant Unwrapped(rk, ROUNDS, Held(b, r, off, n), n, base + i) == goal
      invariant Beside(r0, r[..], off, off + 8 * n)
    {
      ghost var before := r[..];
      StepBack(ctx, b, r, off, n, i, base, rk);
      BesideStays(r0, before, r[..], off, off + 8 * n);
      i := i - 1;
    }
  }

  lemma NextPass(n: nat, j: nat)
    ensures n * j + n == n * (j + 1)
  {}

  /** The six passes, first to last. */
  method Passes(ctx: Context, b: array<byte>, r: array<byte>, off: nat, n: nat)
    requires Ready(ctx, b, r, off, n)
    modifies b, r
    ensures Held(b, r, off, n)
            == old(Wrapped(ctx.roundKeys[..16 * ctx.rounds + 16], ctx.rounds, Held(b, r, off, n), n, n * PASSES))
    ensures Beside(old(r[..]), r[..], off, off + 8 * n)
  {
    hide WrapStep, Wrapped, Place, Beside, Held, Ready, Aligned, Loaded;
    ReadyIs(ctx, b, r, off, n);
    BesideSame(r[..], off, off + 8 * n);
    ReadyIs(ctx, b, r, off, n);
    ghost var g, rk := Held(b, r, off, n), ctx.roundKeys[..16 * ctx.rounds + 16];
    LoadedIs(ctx, rk, 16 * ctx.rounds + 16);
    NoSteps(rk, ctx.rounds, g, n);
    for j := 0 to PASSES
      invariant Held(b, r, off, n) == Wrapped(rk, ctx.rounds, g, n, n * j)
      invariant Beside(old(r[..]), r[..], off, off + 8 * n)
    {
      ghost var before := r[..];
      NextPass(n, j);
      PassAligned(n, j);
      Pass(ctx, b, r, off, n, n * j, g, rk);
      BesideStays(old(r[..]), before, r[..], off, off + 8 * n);
    }
  }

  /** The six passes backwards. */
  method PassesBack(ctx: Context, b: array<byte>, r: array<byte>, off: nat, n: nat)
    requires Ready(ctx, b, r, off, n)
    modifies b, r
    ensures Held(b, r, off, n) == old(Unwrapped(ctx.roundKeys[..176], ROUNDS, Held(b, r, off, n), n, n * PASSES))
    ensures Beside(old(r[..]), r[..], off, off + 8 * n)
  {
    hide UnwrapStep, Unwrapped, Place, Beside, Held, Ready, Aligned, Loaded;
    ReadyIs(ctx, b, r, off, n);
    BesideSame(r[..], off, off + 8 * n);
    ReadyIs(ctx, b, r, off, n);
    ghost var g, rk := Held(b, r, off, n), ctx.roundKeys[..176];
    LoadedIs(ctx, rk, 176);
    ghost var goal := Unwrapped(rk, ROUNDS, g, n, n * PASSES);
    var j := PASSES;
    while j > 0
      invariant 0 <= j <= PASSES
      invariant Unwrapped(rk, ROUNDS, Held(b, r, off, n), n, n * j) == goal
      invariant Beside(old(r[..]), r[..], off, off + 8 * n)
    {
      j := j - 1;
      ghost var before := r[..];
      NextPass(n, j);
      PassAligned(n, j);
      PassBack(ctx, b, r, off, n, n * j, rk);
      BesideStays(old(r[..]), before, r[..], off, off + 8 * n);
    }
    NoSteps(rk, ROUNDS, Held(b, r, off, n), n);
  }

  lemma KeyWrapIs(rk: seq<byte>, rounds: nat, x: seq<byte>, n: nat, g: Register)
    requires rounds >= 1 && 16 * rounds + 16 <= |rk| && n > 0 && |x| == 8 * n
    requires g == Wrapped(rk, rounds, Register(IV(), x), n, n * PASSES)
    ensures KeyWrap(rk, rounds, x, n) == g.a + g.r
  {
    hide Wrapped;
  }

  lemma KeyUnwrapIs(rk: seq<byte>, rounds: nat, c: seq<byte>, n: nat, g: Register)
    requires rounds >= 1 && 16 * rounds + 16 <= |rk| && n > 0 && |c| == 8 * n + 8
    requires g == Unwrapped(rk, rounds, Register(c[..8], c[8..]), n, n * PASSES)
    ensures KeyUnwrap(rk, rounds, c, n) == if g.a == IV() then Some(g.r) else None
  {
    hide Unwrapped;
  }

  method Fill(a: array<byte>, to: nat, v: byte)
    requires to <= a.Length
    modifies a
    ensures (forall i :: 0 <= i < to ==> a[i] == v) && a[to..] == old(a[to..])
  {
    forall i | 0 <= i < to {
      a[i] := v;
    }
  }

  lemma FilledIV(b: seq<byte>)
    requires |b| == 16 && forall i :: 0 <= i < 8 ==> b[i] == 0xA6
    ensures b[..8] == IV()
  {}

  lemma IsReady(ctx: Context, b: array<byte>, r: array<byte>, off: nat, n: nat)
    requires ctx.roundKeys.Length == 240 && 1 <= ctx.rounds <= 14 && b.Length == 16 && off + 8 * n <= r.Length && n > 0
    requires b != r && b != ctx.roundKeys && r != ctx.roundKeys
    ensures Ready(ctx, b, r, off, n)
  {}

  /** The data behind room for the register. */
  lemma LaidOut(o0: seq<byte>, x: seq<byte>, o1: seq<byte>, n: nat)
    requires |x| == 8 * n && 8 * n + 8 <= |o0| && o1 == o0[..8] + x + o0[8 + 8 * n..]
    ensures |o1| == |o0| && o1[8..8 + 8 * n] == x && o1[8 + 8 * n..] == o0[8 + 8 * n..]
  {}

  /** The register goes in front. */
  lemma HeadPut(o0: seq<byte>, o1: seq<byte>, o2: seq<byte>, o3: seq<byte>, b: seq<byte>, n: nat)
    requires |b| == 16 && |o1| == |o0| && 8 * n + 8 <= |o0| && o1[8 + 8 * n..] == o0[8 + 8 * n..]
    requires Beside(o1, o2, 8, 8 + 8 * n) && o3 == o2[..0] + b[0..8] + o2[8..]
    ensures o3[..8 * n + 8] == b[..8] + o2[8..8 + 8 * n] && o3[8 * n + 8..] == o0[8 * n + 8..]
  {
    assert o3 == b[..8] + o2[8..];
  }

  /** Wrap len bytes; the output may be the input's buffer. */
  method Wrap(kek: array<byte>, inp: array<byte>, len: nat, out: array<byte>) returns (rc: Status)
    requires len <= inp.Length && len + 8 <= out.Length
    modifies out
    ensures rc == if len < 16 || len % 8 != 0 || (kek.Length != 16 && kek.Length != 32) then ErrSize else OK
    ensures rc == OK ==> out[..len + 8] == KeyWrap(Schedule(old(kek[..])), Rounds(kek.Length), old(inp[..len]), len / 8)
    ensures rc == OK ==> out[len + 8..] == old(out[len + 8..])
    ensures rc != OK ==> out[..] == old(out[..])
  {
    hide Wrapped, Schedule, KeyWrap, Beside, Held, Ready;
    if len < 16 || len % 8 != 0 {
      return ErrSize;
    }
    var ctx := new Context();
    var known := KwKey(ctx, kek);
    if !known {
      return ErrSize;
    }
    var n := len / 8;
    assert len == 8 * n;
    ghost var x, o0, rk := inp[..len], out[..], ctx.roundKeys[..16 * ctx.rounds + 16];
    Move(inp, 0, out, 8, len);
    var b := new byte[16];
    Fill(b, 8, 0xA6);
    FilledIV(b[..]);
    ghost var o1 := out[..];
    LaidOut(o0, x, o1, n);
    HeldIs(b, out, 8, n);
    IsReady(ctx, b, out, 8, n);
    Passes(ctx, b, out, 8, n);
    HeldIs(b, out, 8, n);
    ghost var o2 := out[..];
    KeyWrapIs(rk, ctx.rounds, x, n, Held(b, out, 8, n));
    Move(b, 0, out, 0, 8);
    HeadPut(o0, o1, o2, out[..], b[..], n);
    rc := OK;
  }

  /** Unwrap len bytes into len - 8. When the check fails the output is zero. */
  method Unwrap(kek: array<byte>, inp: array<byte>, len: nat, out: array<byte>) returns (rc: Status)
    requires len <= inp.Length && len <= out.Length + 8
    modifies out
    ensures rc == ErrSize <==> len < 24 || len % 8 != 0 || (kek.Length != 16 && kek.Length != 32)
    ensures rc != ErrSize ==> var x := KeyUnwrap(Schedule(old(kek[..]))[..176], ROUNDS, old(inp[..len]), len / 8 - 1);
              && rc == (if x.Some? then OK else ErrCorrupt)
              && (x.Some? ==> out[..len - 8] == x.value) && (x.None? ==> forall i :: 0 <= i < len - 8 ==> out[i] == 0)
              && out[len - 8..] == old(out[len - 8..])
    ensures rc == ErrSize ==> out[..] == old(out[..])
  {
    hide Unwrapped, Schedule, KeyUnwrap, Held;
    if len < 24 || len % 8 != 0 {
      return ErrSize;
    }
    var ctx := new Context();
    var known := KwKey(ctx, kek);
    if !known {
      return ErrSize;
    }
    var n := len / 8 - 1;
    assert len == 8 * n + 8;
    ghost var c, rk := inp[..len], ctx.roundKeys[..176];
    assert rk == ctx.roundKeys[..16 * ctx.rounds + 16][..176];
    var b := new byte[16];
    Move(inp, 0, b, 0, 8);
    assert b[..8] == c[..8];
    Move(inp, 8, out, 0, n * 8);
    HeldIs(b, out, 0, n);
    assert out[0..8 * n] == c[8..];
    PassesBack(ctx, b, out, 0, n);
    ghost var g := Held(b, out, 0, n);
    HeldIs(b, out, 0, n);
    KeyUnwrapIs(rk, ROUNDS, c, n, g);
    assert g.a == b[..8] && g.r == out[..len - 8];
    var ok := b[..8] == [0xA6, 0xA6, 0xA6, 0xA6, 0xA6, 0xA6, 0xA6, 0xA6];
    assert ok <==> g.a == IV();
    if !ok {
      Fill(out, n * 8, 0);
      return ErrCorrupt;
    }
    rc := OK;
  }
}
