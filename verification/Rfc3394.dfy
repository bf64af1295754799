/**
 Key wrap as the shifting register of sections 2.2.1 and 2.2.2 of RFC 3394, and that the program's passes over indexed
 blocks come to the same.
 */
module Rfc3394 {
  import opened Aes128
  import opened AesKw
  import Radix

  /** Byte i of a 64-bit number, the highest first. */
  function BigEndian(t: nat, i: nat): byte
    requires i < 8
  {
    (t / (if i == 0 then 0x100_0000_0000_0000 else if i == 1 then 0x1_0000_0000_0000
          else if i == 2 then 0x100_0000_0000 else if i == 3 then 0x1_0000_0000
          else if i == 4 then 0x100_0000 else if i == 5 then 0x1_0000 else if i == 6 then 0x100 else 1) % 0x100) as byte
  }

  /** The register A takes in the step counter. */
  ghost function Counted(a: seq<byte>, t: nat): (r: seq<byte>)
    requires |a| == 8
    ensures |r| == 8
  {
    seq(8, i requires 0 <= i < 8 => a[i] ^ BigEndian(t, i))
  }

  /** One step: A and the first block are enciphered, the blocks move down, the low half enters last. */
  ghost function Shift(rk: seq<byte>, rounds: nat, g: Register, t: nat): (g': Register)
    requires rounds >= 1 && 16 * rounds + 16 <= |rk| && |g.a| == 8 && |g.r| >= 8
    ensures |g'.a| == 8 && |g'.r| == |g.r|
  {
    var b: seq<byte> := Cipher(rk, rounds, g.a + g.r[..8]);
    Register(Counted(b[..8], t), g.r[8..] + b[8..])
  }

  ghost function Shifted(rk: seq<byte>, rounds: nat, g: Register, t: nat): (g': Register)
    requires rounds >= 1 && 16 * rounds + 16 <= |rk| && |g.a| == 8 && |g.r| >= 8
    ensures |g'.a| == 8 && |g'.r| == |g.r|
  {
    if t == 0 then g else Shift(rk, rounds, Shifted(rk, rounds, g, t - 1), t)
  }

  /** One step back: the counter is taken out, A and the last block are deciphered, the blocks move up. */
  ghost function Unshift(rk: seq<byte>, rounds: nat, g: Register, t: nat): (g': Register)
    requires rounds >= 1 && 16 * rounds + 16 <= |rk| && |g.a| == 8 && |g.r| >= 8
    ensures |g'.a| == 8 && |g'.r| == |g.r|
  {
    var b: seq<byte> := InvCipher(rk, rounds, Counted(g.a, t) + g.r[|g.r| - 8..]);
    Register(b[..8], b[8..] + g.r[..|g.r| - 8])
  }

  ghost function Unshifted(rk: seq<byte>, rounds: nat, g: Register, t: nat): (g': Register)
    requires rounds >= 1 && 16 * rounds + 16 <= |rk| && |g.a| == 8 && |g.r| >= 8
    ensures |g'.a| == 8 && |g'.r| == |g.r|
    decreases t
  {
    if t == 0 then g else Unshifted(rk, rounds, Unshift(rk, rounds, g, t), t - 1)
  }

  // ----- the register of the program is the shifting one, turned

  /** The blocks from the k-th on come first. */
  ghost function Turned(g: Register, k: nat): Register
    requires 8 * k <= |g.r|
  {
    Register(g.a, g.r[8 * k..] + g.r[..8 * k])
  }

  lemma CountedIs(a: seq<byte>, t: nat)
    requires |a| == 8 && t < 0x1_0000_0000
    ensures Counted(a, t) == XorT(a, t)
  {
    hide BigEndian, CounterByte, Plus;
    forall i | 0 <= i < 8
      ensures Counted(a, t)[i] == XorT(a, t)[i]
    {
      if i < 4 {
        HighBytes(t, i);
        PlusNone(a[i]);
      } else {
        LowBytes(t, i);
        PlusIs(a[i], CounterByte(t, 7 - i));
      }
    }
  }

  lemma HighBytes(t: nat, i: nat)
    requires t < 0x1_0000_0000 && i < 4
    ensures BigEndian(t, i) == 0
  {}

  lemma LowBytes(t: nat, i: nat)
    requires 4 <= i < 8
    ensures BigEndian(t, i) == CounterByte(t, 7 - i)
  {}

  lemma PlusNone(x: byte)
    ensures x ^ 0 == x
  {}

  /** The program's 32-bit counter is the standard's 64-bit one exactly for the first 2^32 - 1 steps. */
  lemma CounterFits(a: seq<byte>, t: nat)
    requires |a| == 8 && t < 0x1_0000_0000_0000_0000
    ensures Counted(a, t) == XorT(a, t) <==> t < 0x1_0000_0000
  {
    hide BigEndian, CounterByte, Plus;
    if t < 0x1_0000_0000 {
      CountedIs(a, t);
    } else {
      var i := HighByte(t);
      PlusSome(a[i], BigEndian(t, i));
      assert Counted(a, t)[i] != XorT(a, t)[i];
    }
  }

  lemma HighByte(t: nat) returns (i: nat)
    requires 0x1_0000_0000 <= t < 0x1_0000_0000_0000_0000
    ensures i < 4 && BigEndian(t, i) != 0
  {
    var a, b, c := t / 0x100_0000_0000_0000, t / 0x1_0000_0000_0000, t / 0x100_0000_0000;
    if a > 0 {
      return 0;
    } else if b > 0 {
      return 1;
    } else if c > 0 {
      return 2;
    } else {
      return 3;
    }
  }

  lemma PlusSome(x: byte, y: byte)
    requires y != 0
    ensures x ^ y != x
  {}

  /** The blocks done in the pass that step t + 1 belongs to. */
  function Turn(t: nat, n: nat): (k: nat)
    requires n > 0
    ensures k < n
  {
    t % n
  }

  lemma TurnedStep(rk: seq<byte>, rounds: nat, g: Register, n: nat, k: nat, t: nat)
    requires rounds >= 1 && 16 * rounds + 16 <= |rk| && Sized(g, n) && k < n && 0 < t < 0x1_0000_0000
    requires Place(n, t) == k
    ensures Shift(rk, rounds, Turned(g, k), t) == Turned(WrapStep(rk, rounds, g, n, t), k + 1)
  {
    hide Cipher, XorT, Counted;
    assert Turned(g, k).r[..8] == Block(g.r, k);
    var b: seq<byte> := Cipher(rk, rounds, g.a + Block(g.r, k));
    CountedIs(b[..8], t);
    var r' := PutBlock(g.r, k, b[8..]);
    assert r'[8 * k + 8..] == g.r[8 * k + 8..] && r'[..8 * k + 8] == g.r[..8 * k] + b[8..];
    assert Turned(g, k).r[8..] == g.r[8 * k + 8..] + g.r[..8 * k];
    assert Turned(g, k).r[8..] + b[8..] == r'[8 * k + 8..] + r'[..8 * k + 8];
  }

  lemma TurnedBack(rk: seq<byte>, rounds: nat, g: Register, n: nat, k: nat, t: nat)
    requires rounds >= 1 && 16 * rounds + 16 <= |rk| && Sized(g, n) && k < n && 0 < t < 0x1_0000_0000
    requires Place(n, t) == k
    ensures Unshift(rk, rounds, Turned(g, k + 1), t) == Turned(UnwrapStep(rk, rounds, g, n, t), k)
  {
    hide InvCipher, XorT, Counted;
    var h := Turned(g, k + 1);
    assert h.r[|h.r| - 8..] == Block(g.r, k);
    CountedIs(g.a, t);
    var b: seq<byte> := InvCipher(rk, rounds, XorT(g.a, t) + Block(g.r, k));
    var r' := PutBlock(g.r, k, b[8..]);
    assert r'[8 * k..] == b[8..] + g.r[8 * k + 8..] && r'[..8 * k] == g.r[..8 * k];
    assert h.r[..|h.r| - 8] == g.r[8 * k + 8..] + g.r[..8 * k];
    assert b[8..] + h.r[..|h.r| - 8] == r'[8 * k..] + r'[..8 * k];
  }

  /** Turning all the way round, or not at all, changes nothing. */
  lemma TurnedRound(g: Register, n: nat)
    requires Sized(g, n)
    ensures Turned(g, 0) == g && Turned(g, n) == g
  {
    assert g.r[8 * n..] == [] && g.r[..8 * n] == g.r;
  }

  lemma {:induction false} ShiftedNext(rk: seq<byte>, rounds: nat, g: Register, t: nat)
    requires rounds >= 1 && 16 * rounds + 16 <= |rk| && |g.a| == 8 && |g.r| >= 8 && t > 0
    ensures Shifted(rk, rounds, g, t) == Shift(rk, rounds, Shifted(rk, rounds, g, t - 1), t)
    ensures Unshifted(rk, rounds, g, t) == Unshifted(rk, rounds, Unshift(rk, rounds, g, t), t - 1)
    ensures Shifted(rk, rounds, g, 0) == g && Unshifted(rk, rounds, g, 0) == g
  {
    hide Shift, Unshift;
  }

  /** After t steps the register has been turned by t blocks. */
  lemma {:induction false} ShiftedIs(rk: seq<byte>, rounds: nat, g: Register, n: nat, t: nat)
    requires rounds >= 1 && 16 * rounds + 16 <= |rk| && Sized(g, n) && n > 0 && t < 0x1_0000_0000
    ensures Shifted(rk, rounds, g, t) == Turned(Wrapped(rk, rounds, g, n, t), Turn(t, n))
  {
    hide Shift, Shifted, Wrapped, WrapStep, Turned, Turn, Place;
    if t == 0 {
      NextTurn(0, n);
      TurnedRound(g, n);
      ShiftedNext(rk, rounds, g, 1);
      NoSteps(rk, rounds, g, n);
    } else {
      ShiftedIs(rk, rounds, g, n, t - 1);
      ShiftedNext(rk, rounds, g, t);
      WrappedNext(rk, rounds, g, n, t);
      TurnIs(t, n);
      TurnedStep(rk, rounds, Wrapped(rk, rounds, g, n, t - 1), n, Turn(t - 1, n), t);
      TurnedNext(Wrapped(rk, rounds, g, n, t), n, t);
    }
  }

  lemma UnshiftTurned(rk: seq<byte>, rounds: nat, g: Register, n: nat, t: nat)
    requires rounds >= 1 && 16 * rounds + 16 <= |rk| && Sized(g, n) && n > 0 && 0 < t < 0x1_0000_0000
    ensures Sized(Turned(g, Turn(t, n)), n)
    ensures Unshift(rk, rounds, Turned(g, Turn(t, n)), t) == Turned(UnwrapStep(rk, rounds, g, n, t), Turn(t - 1, n))
  {
    hide Unshift, UnwrapStep, Turned, Turn, Place;
    TurnIs(t, n);
    TurnedSized(g, n, Turn(t, n));
    TurnedNext(g, n, t);
    TurnedBack(rk, rounds, g, n, Turn(t - 1, n), t);
  }

  lemma {:induction false} UnshiftedIs(rk: seq<byte>, rounds: nat, g: Register, n: nat, t: nat)
    requires rounds >= 1 && 16 * rounds + 16 <= |rk| && Sized(g, n) && n > 0 && t < 0x1_0000_0000
    ensures Sized(Turned(g, Turn(t, n)), n)
    ensures Unshifted(rk, rounds, Turned(g, Turn(t, n)), t) == Unwrapped(rk, rounds, g, n, t)
    decreases t
  {
    hide Unshift, Unshifted, Unwrapped, UnwrapStep, Turned, Turn, Place;
    if t == 0 {
      NextTurn(0, n);
      TurnedRound(g, n);
      ShiftedNext(rk, rounds, g, 1);
      NoSteps(rk, rounds, g, n);
    } else {
      UnshiftTurned(rk, rounds, g, n, t);
      ShiftedNext(rk, rounds, Turned(g, Turn(t, n)), t);
      WrappedNext(rk, rounds, g, n, t);
      UnshiftedIs(rk, rounds, UnwrapStep(rk, rounds, g, n, t), n, t - 1);
    }
  }

  lemma TurnedSized(g: Register, n: nat, k: nat)
    requires Sized(g, n) && k <= n
    ensures Sized(Turned(g, k), n)
  {}

  lemma TurnIs(t: nat, n: nat)
    requires n > 0 && t > 0
    ensures Place(n, t) == Turn(t - 1, n)
  {}

  lemma TurnedNext(g: Register, n: nat, t: nat)
    requires Sized(g, n) && n > 0 && t > 0
    ensures Turned(g, Turn(t - 1, n) + 1) == Turned(g, Turn(t, n))
  {
    hide Turned, Turn;
    var u := t - 1;
    NextTurn(u, n);
    TurnedRound(g, n);
  }

  lemma NextTurn(t: nat, n: nat)
    requires n > 0
    ensures Turn(0, n) == 0 && Turn(t + 1, n) == if Turn(t, n) + 1 == n then 0 else Turn(t, n) + 1
  {
    var q, k := t / n, t % n;
    assert t == n * q + k;
    Radix.DivModUnique(0, 0, 0, n);
    if k + 1 == n {
      Radix.DivModUnique(t + 1, q + 1, 0, n);
    } else {
      Radix.DivModUnique(t + 1, q, k + 1, n);
    }
  }

  lemma WholeTurns(n: nat)
    requires n > 0
    ensures Turn(6 * n, n) == 0
  {
    Radix.DivModUnique(6 * n, 6, 0, n);
  }

  /** Wrapping is section 2.2.1 of RFC 3394: 6n steps of the register, from the initial value of section 2.2.3.1. */
  lemma WrapIsStandard(rk: seq<byte>, rounds: nat, x: seq<byte>, n: nat)
    requires rounds >= 1 && 16 * rounds + 16 <= |rk| && |x| == 8 * n && 0 < 6 * n < 0x1_0000_0000
    ensures var g := Shifted(rk, rounds, Register([0xA6, 0xA6, 0xA6, 0xA6, 0xA6, 0xA6, 0xA6, 0xA6], x), 6 * n);
            KeyWrap(rk, rounds, x, n) == g.a + g.r
  {
    hide Shifted, Wrapped, Turned, Turn;
    var g := Register(IV(), x);
    ShiftedIs(rk, rounds, g, n, 6 * n);
    WholeTurns(n);
    TurnedRound(Wrapped(rk, rounds, g, n, 6 * n), n);
    assert n * PASSES == 6 * n;
  }

  /** Unwrapping is section 2.2.2: 6n steps back, and the comparison with the initial value. */
  lemma UnwrapIsStandard(rk: seq<byte>, rounds: nat, c: seq<byte>, n: nat)
    requires rounds >= 1 && 16 * rounds + 16 <= |rk| && |c| == 8 * n + 8 && 0 < 6 * n < 0x1_0000_0000
    ensures var g := Unshifted(rk, rounds, Register(c[..8], c[8..]), 6 * n);
            KeyUnwrap(rk, rounds, c, n)
            == if g.a == [0xA6, 0xA6, 0xA6, 0xA6, 0xA6, 0xA6, 0xA6, 0xA6] then Some(g.r) else None
  {
    hide Unshifted, Unwrapped, Turned, Turn;
    var g := Register(c[..8], c[8..]);
    WholeTurns(n);
    TurnedRound(g, n);
    UnshiftedIs(rk, rounds, g, n, 6 * n);
    assert n * PASSES == 6 * n;
  }
}
