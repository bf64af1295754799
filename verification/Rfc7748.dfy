/**
 The X25519 function of section 5 of RFC 7748, over integers modulo p = 2^255 - 19: decoding of
 the scalar and the u-coordinate, and the Montgomery ladder with its deferred conditional swap.
 */
module Rfc7748 {
  import opened Radix

  ghost function Prime(): (p: int)
    ensures p > 0x8_0000
  {
    PrimeIsLarge();
    Pow(2, 255) - 19
  }

  lemma PrimeIsLarge()
    ensures Pow(2, 255) > 0xF_0000
  {
    hide Pow;
    PowAdd(2, 20, 235);
    SmallPowers();
    MulMono(1, Pow(2, 235), Pow(2, 20));
  }

  lemma SmallPowers()
    ensures Pow(2, 20) == 0x10_0000 && Pow(2, 16) == 0x1_0000 && Pow(2, 15) == 0x8000
    ensures Pow(2, 8) == 256 && Pow(2, 7) == 128 && Pow(2, 6) == 64 && Pow(2, 3) == 8 && Pow(2, 1) == 2
            && Pow(2, 0) == 1
  {
    PowAdd(2, 16, 4);
    PowAdd(2, 8, 8);
    PowAdd(2, 8, 7);
    assert Pow(2, 4) == 16;
  }

  // ----- the field

  ghost function FAdd(u: int, v: int): int { (u + v) % Prime() }

  ghost function FSub(u: int, v: int): int { (u - v) % Prime() }

  ghost function FMul(u: int, v: int): int { (u * v) % Prime() }

  ghost function FSqr(u: int): int { FMul(u, u) }

  ghost function FPow(u: int, e: nat): int { Pow(u, e) % Prime() }

  // ----- decoding

  /** Little-endian, bits 0-2 and 255 cleared, bit 254 set. */
  ghost function DecodeScalar(k: seq<int>): int
    requires |k| == 32
  {
    var v := Val(256, k) % Pow(2, 254);
    Pow(2, 254) + (v - v % 8)
  }

  /** Little-endian with the top bit masked off. */
  ghost function DecodeU(u: seq<int>): int
    requires |u| == 32
  {
    Val(256, u) % Pow(2, 255)
  }

  ghost function KBit(k: int, t: nat): int {
    SubDigit(2, k, t)
  }

  // ----- the ladder

  datatype State = State(x2: int, z2: int, x3: int, z3: int)

  function CSwap(swap: int, s: State): State {
    if swap == 1 then State(s.x3, s.z3, s.x2, s.z2) else s
  }

  ghost function A24(): int { 121665 }

  /** One differential addition-and-doubling. */
  ghost function Step(s: State, x1: int): State {
    var A := FAdd(s.x2, s.z2);
    var AA := FSqr(A);
    var B := FSub(s.x2, s.z2);
    var BB := FSqr(B);
    var E := FSub(AA, BB);
    var C := FAdd(s.x3, s.z3);
    var D := FSub(s.x3, s.z3);
    var DA := FMul(D, A);
    var CB := FMul(C, B);
    State(FMul(AA, BB), FMul(E, FAdd(AA, FMul(A24(), E))), FSqr(FAdd(DA, CB)), FMul(x1, FSqr(FSub(DA, CB))))
  }

  /** The loop of RFC 7748 for bits n-1 .. 0, carrying `swap` from one iteration to the next. */
  ghost function RfcLoop(k: int, x1: int, n: nat, s: State, swap: int): (State, int)
    decreases n
  {
    if n == 0 then (s, swap)
    else
      var kt := KBit(k, n - 1);
      var sw := if swap == kt then 0 else 1;  // swap ^= k_t
      RfcLoop(k, x1, n - 1, Step(CSwap(sw, s), x1), kt)
  }

  ghost function Start(x1: int): State {
    State(1, 0, x1, 1)
  }

  /** X25519(k, u): the affine x-coordinate x2 * z2^(p-2). */
  ghost function X25519(k: int, u: int): int {
    var x1 := u % Prime();
    var (s, swap) := RfcLoop(k, x1, 255, Start(x1), 0);
    var r := CSwap(swap, s);
    FMul(r.x2, FPow(r.z2, Prime() - 2))
  }

  // ----- swapping back after every step instead

  /** The same ladder, swapping before and after each step. */
  ghost function EagerLoop(k: int, x1: int, n: nat, s: State): State
    decreases n
  {
    if n == 0 then s
    else
      var kt := KBit(k, n - 1);
      EagerLoop(k, x1, n - 1, CSwap(kt, Step(CSwap(kt, s), x1)))
  }

  /** Undoing the swap at once or deferring it to the next iteration comes to the same. */
  lemma {:induction false} DeferredSwap(k: int, x1: int, n: nat, s: State, swap: int)
    requires 0 <= swap <= 1
    ensures var r := RfcLoop(k, x1, n, s, swap);
            EagerLoop(k, x1, n, CSwap(swap, s)) == CSwap(r.1, r.0)
    decreases n
  {
    if n > 0 {
      var kt := KBit(k, n - 1);
      var sw := if swap == kt then 0 else 1;
      assert CSwap(kt, CSwap(swap, s)) == CSwap(sw, s);
      DeferredSwap(k, x1, n - 1, Step(CSwap(sw, s), x1), kt);
    }
  }
}
