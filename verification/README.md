# Verified models of the TikuKits cores

TikuKits is a set of heap-free kits for small devices: everything lives in buffers, pools and structures of fixed size,
and every operation answers with a status code. This project models the parts of it where an error would be hard to see
from outside, and proves what each of them is for. There is one module for each source file or group of shared
definitions, and each module holds three layers: the specification as functions and predicates, lemmas about it, and the
program as methods that keep the source's loops, branches, buffers and status codes. Integer widths are explicit:
a sum or product that must fit a word is proved to fit it, and one that wraps around is written as wrapping. The one
assumption is that C's `int` has at least 32 bits, so that sums of 16-bit operands are exact before they are cast or
compared. `Cbor.ExceedsExactly` and `Cbor.AcceptsExactly` say what the codecs' bounds tests do where it has 16.

- **Modular arithmetic** (`Bignum`, `Montgomery`, `Rsa`). Little-endian 32-bit limb arrays of any length k, changed in
  place, with aliased operands where the source allows them. The chain of theorems: the multiply-accumulate is exact; a
  CIOS row is exact, drops only a zero limb and keeps the running value below a + m; the product is reduced and
  congruent; five Newton steps and 64k doublings give the right constants; exponentiation gives base^e mod m.
- **P-256** (`Curve`, `CurveGroup`, `P256`). `Curve` has the Jacobian formulas over the integers and the two facts that
  matter about them: they are the chord and tangent rule, and they keep Y^2 = X^3 - 3XZ^4 + bZ^6 modulo any p. The proof
  expresses the curve equation of the result as an integer combination of the equations of the operands, so neither
  primality nor inverses are needed. `CurveGroup` has the chord-and-tangent law on affine points with infinity and shows
  that doubling, addition in every branch, and scalar multiplication compute it modulo a prime. `P256` shows that the
  limb code computes those formulas out of Montgomery form, in every branch; its own copies of the limb loops are those
  of `Bignum` at eight limbs. `Fermat` proves Fermat's theorem, so the field inversions of P-256 and X25519 give
  inverses if their moduli are prime, which is a hypothesis here.
- **X25519** (`Rfc7748`, `Curve25519`, `X25519`). `Rfc7748` is section 5 of RFC 7748 over integers modulo 2^255 - 19.
  `Curve25519` shows that its ladder computes the x-coordinate of a multiple on y^2 = x^3 + 486662x^2 + x, from what a
  step does to the x-coordinates of two points whose difference is known. `X25519` is the limb program on signed
  radix-2^16 limbs; its contracts carry the residue and a bound on every limb together, so that no int64 intermediate
  overflows in any of the 255 steps, and end in the RFC's function of the input bytes.
- **B-tree** (`BTree`). A pool of nodes is described by a ghost tree whose nodes carry their slot numbers. The invariant
  says that the pool represents that tree, that it uses each allocated slot exactly once, that the in-order keys are
  sorted, that all leaves are at one depth and that nodes are filled between t - 1 and 2t - 1 keys, the root excepted. A
  refused root split leaves a root without keys over one full child; the invariant allows that state, and only when the
  pool is used up. The number of nodes an insertion needs is a function of the tree and the key, and the insertion is
  refused exactly when that many are not free.
- **Hash table** (`HTable`). Linear probing with tombstones against a finite map. The invariant and all lemmas about it
  take the hash function as a parameter, of which only the range is known; the table uses them with FNV-1a, whose byte
  loop is modelled as well and pinned by a published value. get and remove have the same probe, which is one method
  here.
- **Pool list** (`PoolList`). The active and the free chain share one array of nodes; together they hold each slot
  exactly once. Every operation is the sequence operation it stands for, and a stale index is refused with nothing
  changed.
- **AES and key wrap** (`Aes128`, `Fips197`, `AesKw`, `Rfc3394`). The S-box as inversion and affine map, the round
  transformations on 16-byte arrays, their inverses through the algebra of GF(2^8), both key expansions, and the
  six-pass register loop of RFC 3394 over any number of blocks with input and output in one buffer. `Fips197` computes
  an example of the standard through, which settles the round structure and the tables. `Rfc3394` is the standard's
  shifting register, and that the passes over indexed blocks come to the same.
- **Drawing** (`Gfx`, `GfxCurve`). A drawing is the sequence of pixels handed on. Line and circle are characterised
  exactly, and uniquely, by the nearest-pixel rule; the filled ellipse is the set of offsets inside it. The walks on
  16-bit variables are functions of their own, so that it can be said for which arguments they are right.
- **Codecs** (`Cbor`, `CborRoundTrip`, `Json`, `JsonText`, `JsonRoundTrip`). Writer and reader classes over fixed
  buffers against the text of a value, with the decoder, the recursive and the iterative skip, and round trips for all
  values that fit. What the bytes mean by section 3 of RFC 8949 and by the grammar of RFC 8259 is stated apart from the
  definitions that writer and reader share, with the bytes written out; `JsonText` also has texts with white space
  between the tokens and with escapes the writer does not make. The greatest nesting depth of the JSON writer, a
  constant at compile time, is a parameter.
- `Radix` holds the place-value arithmetic and congruences the others share.

Where the code and its documentation differ, the model follows the code:

- The comment at codec/cbor/tiku_kits_codec_cbor.h:267-269 promises that a decoder reporting `ERR_UNDERFLOW` leaves the
  position unchanged. The string decoders have then moved past a complete head. `Cbor.UnderflowPosition` says exactly
  when the promise holds for a decoder and `Cbor.SkipUnderflowPosition` when for skip, `Cbor.DecodeTruncated` where the
  position ends up for every cut of every token, and `Cbor.UnderflowMoves` gives the shortest example.
- The boolean and null decoders accept their number in a longer head too: F8 14 is read as false (`Cbor.LongFalse`).
  `Cbor.DecodedMeans` says that this is the only case in which a decoder accepts bytes that do not encode what it gives.
- Key wrap counts its steps in 32 bits where RFC 3394 has 64; `Rfc3394.CounterFits` says which steps that makes right.
- `modexp` returns 1 for e = 0 even modulo 1; `Rsa.ModExpIsPower` says that this is the only exception.
- `aes128_decrypt` always makes ten rounds, so the inverse theorems are about 16-byte keys.
- The JSON number parser accumulates modulo 2^32 and counts digits in a byte. So 4294967296 is read as 0 and a run of
  256 digits is reported as corrupt (`Json.ReadsOverlargeRun`, `Json.ReadsLongRun`); `Json.ReadsRun` and
  `Json.ReadsSignedRun` say exactly which runs are read as the number they denote.
- codec/json/tiku_kits_codec_json.h:29 promises strings unescaped on input, while line 319 of the same file and the code
  return the raw slice; the model returns that slice, and `Json.StringMeaning` says what it means. It is the original
  string exactly when that has nothing to escape (`Json.SliceIsOriginal`); a quote comes back as two bytes
  (`Json.SliceOfQuote`).
- `line` has no bound on its arguments, but its 16-bit variables do. For sides up to 32767 it is right exactly when the
  doubled error fits all along the line (`Gfx.LineFitsExactly`), which `Gfx.LineFitsIff` turns into an inequality
  between the sides; the horizontal line to (16384, 0) is the first that goes wrong (`Gfx.ShortestWrong`). Straight and
  diagonal lines of any length are settled by `Gfx.HorizontalExactly`, `Gfx.VerticalExactly` and `Gfx.DiagonalExactly`:
  some are right although their sides wrap around, and with a side of 32768 the loop does not end (`Gfx.Stuck`).
- `circle` is right for radii up to 16556 and for 16641, 16642 and 16643, and for no other up to 32767
  (`Gfx.CircleFitsExactly`, `Gfx.CircleStaysExactly`, `Gfx.FirstFailing`); above that it draws nothing.
- `fill_ellipse` with radii up to 32767 is right exactly when their product is below 2^16, which is more than the 46000
  that gfx/tiku_kits_gfx_curve.c:32-33 gives. With ry = 32767 and rx > 0 it does not end, because the 16-bit row counter
  cannot pass 32767; with every other ry it does (`GfxCurve.RowsEnd`, `GfxCurve.TallestNeverEnds`).

## Model

| member | source | states |
|---|---|---|
| Bignum.Mac | crypto/tiku_kits_crypto_bn.h:49-61 | the two result words hold exactly a*b + hi + lo; the 64-bit accumulator cannot overflow |
| Bignum.GeqK | crypto/rsa/tiku_kits_crypto_rsa.c:29-34 | true exactly when the k-limb number a is at least b |
| Bignum.AddK | crypto/rsa/tiku_kits_crypto_rsa.c:36-41 | d + carry*2^(32k) is the sum of the two old numbers, carry at most 1, limbs from k on untouched; d may be a or b |
| Bignum.SubK | crypto/rsa/tiku_kits_crypto_rsa.c:43-48 | d is the old difference plus borrow*2^(32k), borrow at most 1, limbs from k on untouched; d may be a or b |
| Bignum.DblMod | crypto/rsa/tiku_kits_crypto_rsa.c:74-79 | from any v <= m: 2v if that is below m, else 2v - m |
| Bignum.MuClearsLowLimb | crypto/rsa/tiku_kits_crypto_rsa.c:101-105 | with n0 = -m0^-1, the multiple of m chosen from the low limb makes that limb zero mod 2^32, so the shift drops nothing |
| Bignum.MontRow | crypto/rsa/tiku_kits_crypto_rsa.c:93-112 | one row, for every k >= 1: 2^32*t' + lo0 = t + a*b_i + mu*m exactly, and lo0 is 0 when n0 is the negated inverse; no multiply-accumulate or top-limb addition overflows |
| Bignum.RunningBound | crypto/rsa/tiku_kits_crypto_rsa.c:93-112 | whatever the quotient digits were, an accumulator with t*p + e = a*b + q*m is below a + m |
| Bignum.MontAccumulate | crypto/rsa/tiku_kits_crypto_rsa.c:90-112 | after all k rows t*2^(32k) = a*b + q*m exactly, and t < a + m |
| Bignum.MontMul | crypto/rsa/tiku_kits_crypto_rsa.c:82-118 | for every k >= 1, odd m and a <= m: the result is below m and result*2^(32k) = a*b mod m; out may be a, b or m; limbs from k on untouched |
| Montgomery.NewtonStep | crypto/rsa/tiku_kits_crypto_rsa.c:129-129 | an inverse modulo d becomes one modulo d^2 |
| Montgomery.NewtonNegInverse | crypto/rsa/tiku_kits_crypto_rsa.c:129-129 | five steps from 1 give -m0^-1 mod 2^32 if and only if m0 is odd; an even limb has none |
| Montgomery.RSquared | crypto/rsa/tiku_kits_crypto_rsa.c:131-134 | 64k doublings from 1 give 2^(64k) mod m, never above m |
| Montgomery.CancelR | crypto/rsa/tiku_kits_crypto_rsa.c:152-152 | the factor 2^(32k) can be cancelled from a congruence modulo any m that has a negated inverse of its low limb; m need not be prime |
| Montgomery.Setup | crypto/rsa/tiku_kits_crypto_rsa.c:128-140 | for odd m and base < m the two starting operands stand for base and for 1 in Montgomery form |
| Montgomery.ExpBit | crypto/rsa/tiku_kits_crypto_rsa.c:145-148 | an operand standing for base^E comes to stand for base^(2E + bit) |
| Rsa.ExpByte | crypto/rsa/tiku_kits_crypto_rsa.c:142-150 | over the eight bits of a byte the exponent E becomes 256E + byte; squaring starts at the first set bit of the whole exponent |
| Rsa.ModExp | crypto/rsa/tiku_kits_crypto_rsa.c:121-153 | for every odd m, base < m and big-endian exponent of any length, the output is base^e mod m, or 1 on the path for e = 0, which any modulus and base may take |
| Rsa.ModExpIsPower | crypto/rsa/tiku_kits_crypto_rsa.c:151-152 | that is the modular power exactly when m > 1 or e > 0 (for m = 1 the e = 0 path returns 1, not 0) |
| Rsa.FromBe | crypto/rsa/tiku_kits_crypto_rsa.c:51-60 | the limbs hold the value of the bytes read big-endian, for any length up to 4k |
| Rsa.ToBe | crypto/rsa/tiku_kits_crypto_rsa.c:63-71 | the bytes, read big-endian, are the number modulo 256^length: zero-padded on the left, or cut to the low bytes |
| Rsa.PubOp | crypto/rsa/tiku_kits_crypto_rsa.c:156-172 | fails, leaving em alone, exactly when n is empty or too long, sig is longer than n, or sig >= n; otherwise em holds sig^e mod n for odd n, and 1 for e = 0 and any n, cut to its length |
| P256.FromBe32 | crypto/p256/tiku_kits_crypto_p256.c:54-62 | the eight limbs hold the big-endian value of the 32 bytes |
| P256.MontInit | crypto/p256/tiku_kits_crypto_p256.c:107-128 | for every odd modulus above 2 the context holds the negated inverse, R^2 mod m and m - 2 |
| P256.MontMulC | crypto/p256/tiku_kits_crypto_p256.c:131-173 | result below m, result*2^256 = a*b mod m |
| P256.ToMont | crypto/p256/tiku_kits_crypto_p256.c:175-175 | the reduced Montgomery form of the number |
| P256.FromMont | crypto/p256/tiku_kits_crypto_p256.c:176-176 | the residue in [0, m) that a Montgomery form stands for |
| P256.MontInv | crypto/p256/tiku_kits_crypto_p256.c:179-190 | a^(m-2) mod m, for every odd m > 2 and a < m; if m is prime, the inverse of a, that is a number whose product with a is 1 modulo m, or 0 for a = 0 |
| Fermat.Euclid | crypto/p256/tiku_kits_crypto_p256.c:178-190 | a prime that divides a product divides one of the factors |
| Fermat.Binomial | crypto/p256/tiku_kits_crypto_p256.c:178-190 | (a + 1)^n is the sum of its binomial terms |
| Fermat.Little | crypto/p256/tiku_kits_crypto_p256.c:178-190 | a^p and a leave the same residue modulo every prime p, for every a |
| Fermat.Inverse | crypto/p256/tiku_kits_crypto_p256.c:178-190 | modulo a prime m the number a^(m-2) mod m is an inverse of a, unless m divides a |
| P256.FpAdd | crypto/p256/tiku_kits_crypto_p256.c:198-198 | reduced operands standing for u, v give a reduced one standing for u + v |
| P256.FpSub | crypto/p256/tiku_kits_crypto_p256.c:199-199 | likewise u - v |
| P256.FpMul | crypto/p256/tiku_kits_crypto_p256.c:200-201 | likewise u*v, for products and squares |
| P256.PtIsInf | crypto/p256/tiku_kits_crypto_p256.c:207-207 | true exactly when the residue Z stands for is 0 |
| P256.ZeroIsZero | crypto/p256/tiku_kits_crypto_p256.c:203-207 | a reduced element is the zero limb vector exactly when its residue is 0 (and not a multiple of m in another form) |
| P256.LimbsDetermined | crypto/p256/tiku_kits_crypto_p256.c:198-201 | two reduced elements with the same residue are the same limbs |
| P256.PtDouble | crypto/p256/tiku_kits_crypto_p256.c:211-241 | the reduced limbs stand for the doubling of the residues of P, infinity included; R may be P |
| P256.PtAdd | crypto/p256/tiku_kits_crypto_p256.c:244-280 | the reduced limbs stand for the sum of the residues of P and Q in every branch (either at infinity, P = Q, P = -Q, general); R may be P or Q |
| Curve.DoubleDefect | crypto/p256/tiku_kits_crypto_p256.c:211-241 | over the integers: doubling multiplies Y^2 - X^3 + 3XZ^4 - bZ^6 by 64Y^6 |
| Curve.AlignDefect | crypto/p256/tiku_kits_crypto_p256.c:250-255 | bringing a point to the common denominator multiplies that quantity by the other Z^6 |
| Curve.AddDefect | crypto/p256/tiku_kits_crypto_p256.c:257-277 | over the integers: what the addition formulas do to it is a combination of what the two aligned points have |
| Curve.DoubleOnCurve | crypto/p256/tiku_kits_crypto_p256.c:211-241 | a double of a point on the curve is on the curve, for any modulus |
| Curve.AddOnCurve | crypto/p256/tiku_kits_crypto_p256.c:244-280 | a sum of two points on the curve is on the curve, in every branch, for any modulus |
| Curve.DoubleIsTangent | crypto/p256/tiku_kits_crypto_p256.c:211-241 | the double is the mirrored third point of the tangent, with denominator 2YZ: the formulas are the group law and not just some map into the curve |
| Curve.AddIsChord | crypto/p256/tiku_kits_crypto_p256.c:263-277 | the sum is the mirrored third point of the chord through the two points |
| CurveGroup.DoubleStands | crypto/p256/tiku_kits_crypto_p256.c:211-241 | modulo a prime, doubling a point that stands for an affine one gives a point that stands for its sum with itself by the chord-and-tangent law, a vertical tangent giving infinity |
| CurveGroup.AddStands | crypto/p256/tiku_kits_crypto_p256.c:244-280 | for reduced points of the curve modulo a prime, the addition stands for the chord-and-tangent sum of the affine points in every branch: either at infinity, equal, opposite, general |
| CurveGroup.Opposite | crypto/p256/tiku_kits_crypto_p256.c:259-262 | two points of the curve with equal abscissas and different ordinates are opposite, so that the second test within h = 0 decides between doubling and infinity |
| CurveGroup.AddSpecial | crypto/p256/tiku_kits_crypto_p256.c:247-262 | infinity is neutral on both sides and P + P is the double, for any modulus |
| CurveGroup.AddMirror | crypto/p256/tiku_kits_crypto_p256.c:259-262 | a point and its mirror image add up to infinity |
| CurveGroup.StandsUnique | crypto/p256/tiku_kits_crypto_p256.c:205-208 | no point stands for two affine points |
| CurveGroup.StandsFor | crypto/p256/tiku_kits_crypto_p256.c:205-208 | and every one stands for some |
| P256.PtMul | crypto/p256/tiku_kits_crypto_p256.c:283-292 | for all 256-bit scalars, the limbs stand for the left-to-right double-and-add of the residues |
| Curve.MultiplyOnCurve | crypto/p256/tiku_kits_crypto_p256.c:283-292 | every intermediate and final point of that is on the curve, for every scalar |
| CurveGroup.MultiplyOne | crypto/p256/tiku_kits_crypto_p256.c:283-292 | the multiples by 0, 1 and 2 are infinity, the point itself and its double |
| CurveGroup.MultiplyStands | crypto/p256/tiku_kits_crypto_p256.c:283-292 | for every scalar the result stands for the double-and-add of the affine point with the chord-and-tangent sum |
| CurveGroup.MultipleIs | crypto/p256/tiku_kits_crypto_p256.c:283-292 | and that is the point number k of any sequence of points in which m + n always has the sum of those at m and n |
| P256.PtCSelect | crypto/p256/tiku_kits_crypto_p256.c:393-401 | each coordinate is taken from s when the low bit of flag is set and kept otherwise |
| P256.MaskSelects | crypto/p256/tiku_kits_crypto_p256.c:395-401 | the mask arithmetic on a limb is that selection, for all 32-bit values and flags |
| P256.PtMulCt | crypto/p256/tiku_kits_crypto_p256.c:407-418 | the always-add ladder ends in the same multiple as pt_mul, for every scalar; R may be P |
| P256.SameLimbs | crypto/p256/tiku_kits_crypto_p256.c:403-418 | reduced points that stand for the same residues are equal limb by limb, so the two ladders leave identical limbs |
| P256.MulBothWays | crypto/p256/tiku_kits_crypto_p256.c:283-418 | pt_mul and pt_mul_ct on the same scalar and point, one after the other, leave equal limbs in all three coordinates |
| P256.PtOnCurve | crypto/p256/tiku_kits_crypto_p256.c:434-446 | true exactly when the affine point satisfies y^2 = x^3 - 3x + b modulo the prime, with b read from its 32 bytes |
| P256.Setup256 | crypto/p256/tiku_kits_crypto_p256.c:294-303 | both contexts are right for the prime and the order, and G stands for the base point |
| P256.GeneratorOnCurve | crypto/p256/tiku_kits_crypto_p256.c:31-46 | the base point's constants satisfy the curve equation with the coefficient b |
| P256.MultiplesOnCurve | crypto/p256/tiku_kits_crypto_p256.c:283-303 | every multiple of the base point is on the curve |
| P256.MultiplesStand | crypto/p256/tiku_kits_crypto_p256.c:283-303 | every multiple of the base point stands for that multiple of (GX, GY) by the chord-and-tangent law, if the field modulus is prime |
| P256.ConstantsFit | crypto/p256/tiku_kits_crypto_p256.c:30-37 | the modulus is 2^256 - 2^224 + 2^192 + 2^96 - 1 of appendix D.1.2.3 of FIPS 186-4, and the order differs from it by no more than Hasse's theorem allows |
| X25519.CarryPass | crypto/x25519/tiku_kits_crypto_x25519.c:31-45 | the in-place pass leaves exactly the limbs of Carried, with no 64-bit overflow for limbs up to 2^46 |
| X25519.CarriedValue | crypto/x25519/tiku_kits_crypto_x25519.c:31-45 | a pass changes the value by a multiple of 2^255 - 19, whatever the signs of the limbs |
| X25519.AfterOne | crypto/x25519/tiku_kits_crypto_x25519.c:143-143 | after one pass from limbs up to 2^46 only limb 0 is still above 2^16, and that below 2^37 |
| X25519.AfterTwo | crypto/x25519/tiku_kits_crypto_x25519.c:144-144 | two passes bring every limb into the range each ladder state relies on |
| X25519.AfterThree | crypto/x25519/tiku_kits_crypto_x25519.c:71-73 | a third pass leaves every limb in [0, 2^16), so the value is below 2^256 = 2p + 38 |
| X25519.CondSwap | crypto/x25519/tiku_kits_crypto_x25519.c:49-59 | the two elements are exchanged for b = 1 and kept for b = 0 |
| X25519.MaskSwaps | crypto/x25519/tiku_kits_crypto_x25519.c:51-58 | the mask arithmetic is that exchange, for all 64-bit limbs |
| X25519.AddGf | crypto/x25519/tiku_kits_crypto_x25519.c:105-111 | limb-wise sum, within bounds |
| X25519.SubGf | crypto/x25519/tiku_kits_crypto_x25519.c:114-120 | limb-wise difference, within bounds |
| X25519.Schoolbook | crypto/x25519/tiku_kits_crypto_x25519.c:129-136 | the 31 column sums have the product's value and each stays within 16 partial products |
| X25519.FoldValue | crypto/x25519/tiku_kits_crypto_x25519.c:137-139 | multiplying columns 16 to 30 by 38 and adding them below keeps the value mod p |
| X25519.Fold | crypto/x25519/tiku_kits_crypto_x25519.c:137-142 | the folded limbs have the product's residue and fit the carry pass |
| X25519.MulGf | crypto/x25519/tiku_kits_crypto_x25519.c:124-145 | residue of the product, limbs tight again; o may be a or b; no intermediate leaves int64 |
| X25519.InvExponentIsPMinus2 | crypto/x25519/tiku_kits_crypto_x25519.c:163-168 | the exponent the square-and-multiply loop builds, skipping bits 2 and 4, is p - 2 |
| X25519.Invert | crypto/x25519/tiku_kits_crypto_x25519.c:155-172 | raises a field element to the power p - 2; o may be i |
| X25519.InvertIsInverse | crypto/x25519/tiku_kits_crypto_x25519.c:155-172 | if p is prime, that power is the inverse of every element but 0 |
| X25519.ClampDecodes | crypto/x25519/tiku_kits_crypto_x25519.c:184-189 | clamping the bytes gives the scalar decoded as section 5 of RFC 7748 says |
| X25519.Unpack | crypto/x25519/tiku_kits_crypto_x25519.c:94-102 | digits of the little-endian value with the top bit dropped, as decodeUCoordinate does |
| X25519.StepMatches | crypto/x25519/tiku_kits_crypto_x25519.c:202-219 | the code's eighteen field operations are one ladder step of the RFC, in another operand order |
| X25519.LadderBit | crypto/x25519/tiku_kits_crypto_x25519.c:198-221 | one iteration takes a state, limbs tight, to swap(step(swap(state))), limbs tight again |
| Rfc7748.DeferredSwap | crypto/x25519/tiku_kits_crypto_x25519.c:196-222 | swapping back after each step and deferring the swap to the next one end in the same state, for every scalar and number of steps |
| Curve25519.StepIs | crypto/x25519/tiku_kits_crypto_x25519.c:199-219 | one step as polynomials in the projective x-coordinates, with the curve's 486662: the doubling, and the differential addition |
| Curve25519.TangentX | crypto/x25519/tiku_kits_crypto_x25519.c:203-216 | the x-coordinate the tangent rule gives, cleared of denominators |
| Curve25519.ChordX | crypto/x25519/tiku_kits_crypto_x25519.c:203-218 | the x-coordinates of P + Q and P - Q by the chord rule: their product times (u - v)^2 is (uv - 1)^2 |
| Curve25519.DoubleShows | crypto/x25519/tiku_kits_crypto_x25519.c:203-216 | the doubling polynomials take the x-coordinate of any point of y^2 = x^3 + 486662x^2 + x to that of its double, infinity and the vertical tangent included |
| Curve25519.AddShows | crypto/x25519/tiku_kits_crypto_x25519.c:203-218 | the other two take those of P and Q to that of P + Q, given that of Q - P, if it is not 0: either at infinity, equal, opposite or general |
| Curve25519.LoopIsLadder | crypto/x25519/tiku_kits_crypto_x25519.c:196-222 | the loop from the top bit down is the recursion over the halves of the scalar |
| Curve25519.LadderShows | crypto/x25519/tiku_kits_crypto_x25519.c:196-222 | after n bits with value k the state holds the x-coordinates of kP and (k + 1)P |
| Curve25519.LadderIsMultiple | crypto/x25519/tiku_kits_crypto_x25519.c:175-226 | the X25519 function of k and u is the x-coordinate of kP, and 0 for infinity, for every P with the x-coordinate u whose multiples obey the chord-and-tangent law |
| Curve25519.AxisIsZero | crypto/x25519/tiku_kits_crypto_x25519.c:175-226 | for u = 0 the result is 0, whatever the scalar |
| Curve25519.ScalarRange | crypto/x25519/tiku_kits_crypto_x25519.c:184-189 | a decoded scalar is a multiple of 8 from 2^254 up to 2^255 |
| X25519.SubtractPrime | crypto/x25519/tiku_kits_crypto_x25519.c:76-83 | the rippling borrow reports whether the digits are below p, and otherwise leaves the difference in [0, 2^16) digits |
| X25519.Pack | crypto/x25519/tiku_kits_crypto_x25519.c:63-90 | the 32 bytes hold the representative in [0, p) of the residue: canonical output |
| X25519.ScalarMult | crypto/x25519/tiku_kits_crypto_x25519.c:175-226 | for every scalar and point the output bytes hold the value of the X25519 function of section 5 of RFC 7748 |
| BTree.Btree.constructor | ds/btree/tiku_kits_ds_btree.c:321-333 | an empty tree over a pool, satisfying the invariant |
| BTree.Btree.AllocNode | ds/btree/tiku_kits_ds_btree.c:33-57 | the next unused slot as an empty leaf, or NONE exactly when the pool is used up; other slots untouched |
| BTree.Btree.MoveKeys | ds/btree/tiku_kits_ds_btree.c:101-106 | the upper t - 1 keys of the full child become the new node's; every other slot is untouched |
| BTree.Btree.MoveChildren | ds/btree/tiku_kits_ds_btree.c:108-115 | the upper t children move with them |
| BTree.Btree.Promote | ds/btree/tiku_kits_ds_btree.c:120-132 | children and keys of the parent from pos on move up by one place, for the median and the new node |
| BTree.Btree.SplitChild | ds/btree/tiku_kits_ds_btree.c:75-135 | refused with nothing changed exactly when the pool is used up; otherwise the pool represents the tree with that child split |
| BTree.SplitFlat | ds/btree/tiku_kits_ds_btree.c:75-135 | a split keeps the in-order key sequence |
| BTree.SplitIds | ds/btree/tiku_kits_ds_btree.c:75-135 | a split uses the old nodes and one new one, each once |
| BTree.SplitShape | ds/btree/tiku_kits_ds_btree.c:75-135 | a split keeps equal leaf depth and the occupancy bounds, and gives the parent one key more |
| BTree.KeysSorted | ds/btree/tiku_kits_ds_btree.c:33-202 | the keys within a node of a sorted tree are in order |
| BTree.Separated | ds/btree/tiku_kits_ds_btree.c:33-202 | and every key below a child lies between the separators around it |
| BTree.SplitRep | ds/btree/tiku_kits_ds_btree.c:75-135 | the three slots written represent the split tree, and no other node is disturbed |
| BTree.PlaceKey | ds/btree/tiku_kits_ds_btree.c:161-169 | the key is put after every key not greater than it, among the first n: these gain exactly one copy of it and stay sorted |
| BTree.Btree.FindChild | ds/btree/tiku_kits_ds_btree.c:174-180 | the place after the last separator that is not greater than the key |
| BTree.Btree.InsertLeaf | ds/btree/tiku_kits_ds_btree.c:160-172 | the leaf still represents a sorted B-tree of the same height, with the key added |
| BTree.Btree.MakeRoom | ds/btree/tiku_kits_ds_btree.c:182-199 | a full child is split, or the call refused iff no slot is free; in-order keys are unchanged, the key lies between the separators of the chosen child, which is not full, and the splits still to come are one fewer for a split made |
| BTree.SplitsStep | ds/btree/tiku_kits_ds_btree.c:184-201 | splitting the full child a key meets is the first of the splits on its way, which goes on in one of the halves: the right one iff the key is above the median |
| BTree.SplitsBound | ds/btree/tiku_kits_ds_btree.c:150-202 | a key meets at most one full node on every level below |
| BTree.InsertFlat | ds/btree/tiku_kits_ds_btree.c:150-202 | a key inserted below separators it lies between is inserted in order in the whole tree |
| BTree.SubReplace | ds/btree/tiku_kits_ds_btree.c:201-201 | replacing a child by its insertion result keeps the whole tree a sorted B-tree over allocated slots |
| BTree.InsertedAfter | ds/btree/tiku_kits_ds_btree.c:150-202 | an insertion after a split counts as one from before it |
| BTree.Btree.InsertNonfull | ds/btree/tiku_kits_ds_btree.c:150-202 | refused iff there are fewer free slots than full nodes on the way of the key; otherwise adds exactly one copy of it. A refusal at any depth, after any splits, leaves the in-order keys unchanged and the pool used up |
| BTree.Btree.PlantRoot | ds/btree/tiku_kits_ds_btree.c:361-372 | the first key, or a refusal exactly for an empty pool |
| BTree.Btree.RaiseRoot | ds/btree/tiku_kits_ds_btree.c:377-389 | a new root over the old one, or nothing changed exactly when the pool is used up |
| BTree.Btree.GrowRoot | ds/btree/tiku_kits_ds_btree.c:374-395 | success exactly when two slots were left; after a refusal the keys are the same and the invariant holds with the keyless root that was left behind |
| BTree.Btree.Insert | ds/btree/tiku_kits_ds_btree.c:349-398 | keeps the whole invariant; ERR_FULL iff the insertion needs more nodes than are free (one for an empty tree, else one for each full node on the way and one more above a full root); OK adds one copy of the key to the key multiset, a refusal leaves the key sequence as it was |
| BTree.Btree.NeededBound | ds/btree/tiku_kits_ds_btree.c:349-398 | an insertion never needs more than height + 1 new nodes |
| BTree.SearchStep | ds/btree/tiku_kits_ds_btree.c:217-248 | at the first separator not below the key: it is that separator, or it is in the tree iff it is in the child there |
| BTree.Btree.SearchNode | ds/btree/tiku_kits_ds_btree.c:217-248 | OK iff the key occurs below the node |
| BTree.Btree.Search | ds/btree/tiku_kits_ds_btree.c:408-420 | ERR_EMPTY without a root, else OK iff the key occurs, duplicates included |
| BTree.Btree.CountNode | ds/btree/tiku_kits_ds_btree.c:259-280 | the number of keys below the node; the 16-bit total does not wrap |
| BTree.KeysBound | ds/btree/tiku_kits_ds_btree.c:259-280 | a tree has at most 2t - 1 keys for each of its nodes |
| BTree.CountFits | ds/btree/tiku_kits_ds_btree.c:259-280 | hence any tree over the pool has fewer than 2^16 keys |
| BTree.Btree.Count | ds/btree/tiku_kits_ds_btree.c:507-515 | the size of the key multiset |
| BTree.Btree.HeightNode | ds/btree/tiku_kits_ds_btree.c:291-309 | the common depth of the leaves, though only the leftmost path is walked |
| BTree.Btree.Height | ds/btree/tiku_kits_ds_btree.c:525-533 | 0 for no root, else the common leaf depth |
| BTree.LeastKeys | ds/btree/tiku_kits_ds_btree.c:291-309 | a tree of height h has at least (least + 1)*t^(h-1) - 1 keys |
| BTree.Btree.Min | ds/btree/tiku_kits_ds_btree.c:432-458 | ERR_EMPTY without a root, else a key that occurs and that no key is below |
| BTree.Btree.Max | ds/btree/tiku_kits_ds_btree.c:469-495 | ERR_EMPTY without a root, else a key that occurs and that no key is above |
| BTree.Btree.Clear | ds/btree/tiku_kits_ds_btree.c:546-558 | empty, with the whole pool free again |
| HTable.HashFnv1a | ds/htable/tiku_kits_ds_htable.c:39-53 | 32-bit FNV-1a over the four key bytes, low byte first, reduced to the capacity |
| HTable.KnownHash | ds/htable/tiku_kits_ds_htable.c:39-53 | the published value of the hash of the bytes abcd |
| HTable.HashTable.Init | ds/htable/tiku_kits_ds_htable.c:69-83 | ERR_PARAM with nothing changed for capacity 0 or above the storage, else the empty map |
| HTable.Advance | ds/htable/tiku_kits_ds_htable.c:115-152 | stepping the index round the table is back at the start exactly after capacity steps |
| HTable.PassedEnds | ds/htable/tiku_kits_ds_htable.c:102-257 | a probe that meets an empty slot or comes full circle has passed every slot the key could be in |
| HTable.ProbeProvesAbsent | ds/htable/tiku_kits_ds_htable.c:182-214 | so it proves the key absent from the map |
| HTable.InsertKeeps | ds/htable/tiku_kits_ds_htable.c:102-165 | filling the first reusable slot found keeps the invariant and updates the map |
| HTable.UpdateKeeps | ds/htable/tiku_kits_ds_htable.c:127-131 | overwriting a value in place keeps the invariant and updates the map |
| HTable.RemoveKeeps | ds/htable/tiku_kits_ds_htable.c:228-257 | a tombstone keeps every other key reachable and removes just one key |
| HTable.LiveAll | ds/htable/tiku_kits_ds_htable.c:102-168 | the live count reaches the capacity exactly when every slot is occupied |
| HTable.AllLiveRound | ds/htable/tiku_kits_ds_htable.c:102-168 | a full round without a free slot has seen every slot occupied |
| HTable.HashTable.SeekPlace | ds/htable/tiku_kits_ds_htable.c:115-167 | the probe of put: the slot that holds the key, else the first reusable slot passed, with the key proved absent; none only if every slot is occupied |
| HTable.HashTable.Put | ds/htable/tiku_kits_ds_htable.c:102-168 | map update; ERR_FULL, with nothing changed, iff the key is absent and every slot is occupied |
| HTable.HashTable.Lookup | ds/htable/tiku_kits_ds_htable.c:182-257 | the probe that get and remove share finds the key iff it is in the map, at the slot that holds it |
| HTable.HashTable.Get | ds/htable/tiku_kits_ds_htable.c:182-214 | OK iff the key is in the map, with its value |
| HTable.HashTable.Remove | ds/htable/tiku_kits_ds_htable.c:228-257 | OK iff the key was in the map, which then lacks it and nothing else |
| HTable.HashTable.Contains | ds/htable/tiku_kits_ds_htable.c:269-279 | whether the key is in the map |
| HTable.HashTable.Clear | ds/htable/tiku_kits_ds_htable.c:296-305 | the empty map |
| HTable.HashTable.Count | ds/htable/tiku_kits_ds_htable.c:318-325 | the size of the map |
| PoolList.List.PoolAlloc | ds/list/tiku_kits_ds_list.c:38-52 | NONE, nothing changed, iff the active chain has all slots; else a slot on neither chain, every active node untouched |
| PoolList.List.PoolFree | ds/list/tiku_kits_ds_list.c:61-68 | the slot heads the free chain; the list is untouched |
| PoolList.List.IsActiveNode | ds/list/tiku_kits_ds_list.c:79-98 | true iff the index is on the active chain, for any index; the walk ends |
| PoolList.List.Init | ds/list/tiku_kits_ds_list.c:112-140 | ERR_PARAM with nothing changed, or the empty list with all slots on the free chain |
| PoolList.CoversDistinct | ds/list/tiku_kits_ds_list.c:112-140 | active and free chains together holding each slot once makes all their entries distinct: both are acyclic and they are disjoint |
| PoolList.CoversSize | ds/list/tiku_kits_ds_list.c:79-98 | and their lengths add up to the capacity |
| PoolList.LinkedInsert | ds/list/tiku_kits_ds_list.c:152-254 | linking a node in at place p gives the chain with that entry inserted at p, and its values likewise |
| PoolList.LinkedRemove | ds/list/tiku_kits_ds_list.c:267-340 | unlinking the node at place p gives the chain without it, and its values likewise |
| PoolList.TakeFree | ds/list/tiku_kits_ds_list.c:38-52 | taking the head of the free chain keeps each slot accounted for once |
| PoolList.GiveBack | ds/list/tiku_kits_ds_list.c:61-68 | returning a slot keeps each slot accounted for once |
| PoolList.PutIn | ds/list/tiku_kits_ds_list.c:152-254 | entering a slot on the active chain at any place keeps each slot accounted for once |
| PoolList.TakeOut | ds/list/tiku_kits_ds_list.c:267-340 | so does taking one off the active chain |
| PoolList.List.PushFront | ds/list/tiku_kits_ds_list.c:152-172 | [value] + list, other nodes keep their indices; ERR_FULL with nothing changed iff full |
| PoolList.List.PushBack | ds/list/tiku_kits_ds_list.c:183-216 | list + [value], other nodes keep their indices; ERR_FULL with nothing changed iff full |
| PoolList.List.InsertAfter | ds/list/tiku_kits_ds_list.c:227-254 | the value enters right after the named node; a stale index is ERR_BOUNDS and a full pool ERR_FULL, both with nothing changed |
| PoolList.List.PopFront | ds/list/tiku_kits_ds_list.c:267-287 | the first value and the list without it; ERR_EMPTY with nothing changed iff empty |
| PoolList.List.Remove | ds/list/tiku_kits_ds_list.c:302-340 | exactly the named node goes; ERR_BOUNDS with nothing changed iff it is not on the list, an empty list included |
| PoolList.List.Find | ds/list/tiku_kits_ds_list.c:356-377 | OK iff the value occurs, with the node of its first occurrence |
| PoolList.List.Get | ds/list/tiku_kits_ds_list.c:388-402 | the named node's value, ERR_BOUNDS iff it is not on the list |
| PoolList.List.Next | ds/list/tiku_kits_ds_list.c:472-487 | the following node's index; NONE for the last one and for a stale index |
| PoolList.List.Clear | ds/list/tiku_kits_ds_list.c:415-424 | the empty list, same capacity |
| PoolList.List.Size | ds/list/tiku_kits_ds_list.c:436-442 | the length of the list |
| Aes128.SboxInverse | crypto/aes128/tiku_kits_crypto_aes128.c:27-99 | inv_sbox undoes sbox on every byte |
| Aes128.InvSboxInverse | crypto/aes128/tiku_kits_crypto_aes128.c:27-99 | sbox undoes inv_sbox on every byte |
| Aes128.SboxIs | crypto/aes128/tiku_kits_crypto_aes128.c:27-99 | sbox is the inverse in GF(2^8), or 0 for 0, followed by the affine map of section 5.1.1 of FIPS 197: it has an entry t through that map for x exactly if x*t = 1, or x = t = 0 |
| Aes128.NoDivisors | crypto/aes128/tiku_kits_crypto_aes128.c:27-99 | a product in GF(2^8) is 0 only if a factor is, so inverses are unique |
| Aes128.RconDoubles | crypto/aes128/tiku_kits_crypto_aes128.c:105-108 | the round constants are the powers of two of GF(2^8) |
| Aes128.XtimeLinear | crypto/aes128/tiku_kits_crypto_aes128.c:123-126 | doubling in GF(2^8) is additive |
| Aes128.GfMul | crypto/aes128/tiku_kits_crypto_aes128.c:138-151 | the shift-and-add loop is the sum of the doublings that the bits of y select |
| Aes128.GfLinear | crypto/aes128/tiku_kits_crypto_aes128.c:138-151 | the product is additive in the left factor |
| Aes128.GfLinearRight | crypto/aes128/tiku_kits_crypto_aes128.c:138-151 | and in the right factor |
| Aes128.GfUnits | crypto/aes128/tiku_kits_crypto_aes128.c:138-151 | its values at 1, 2, 4 and 8; with additivity they determine it |
| Aes128.AddRoundKeyTo | crypto/aes128/tiku_kits_crypto_aes128.c:286-293 | the state is the bytewise sum with the round key |
| Aes128.SubBytesIn | crypto/aes128/tiku_kits_crypto_aes128.c:300-307 | sbox on each byte |
| Aes128.ShiftRowsIn | crypto/aes128/tiku_kits_crypto_aes128.c:318-343 | row r turned left by r |
| Aes128.MixShortcut | crypto/aes128/tiku_kits_crypto_aes128.c:354-373 | a + (a + b + c + d) + xtime(a + b), which the program computes, is the byte 02*a + 03*b + c + d of section 5.1.3 of FIPS 197 |
| Aes128.MixColumnsIn | crypto/aes128/tiku_kits_crypto_aes128.c:354-373 | each column times the matrix {02 03 01 01} over GF(2^8) |
| Aes128.InvSubBytesIn | crypto/aes128/tiku_kits_crypto_aes128.c:385-392 | inv_sbox on each byte |
| Aes128.InvShiftRowsIn | crypto/aes128/tiku_kits_crypto_aes128.c:402-427 | row r turned right by r |
| Aes128.InvMixColumnsIn | crypto/aes128/tiku_kits_crypto_aes128.c:437-457 | each column times the matrix {0e 0b 0d 09} |
| Aes128.UnmixMix | crypto/aes128/tiku_kits_crypto_aes128.c:354-457 | the inverse matrix undoes the matrix, for all column bytes |
| Aes128.MixUnmix | crypto/aes128/tiku_kits_crypto_aes128.c:354-457 | and the matrix undoes the inverse matrix |
| Aes128.SubBytesUndone | crypto/aes128/tiku_kits_crypto_aes128.c:300-392 | SubBytes and InvSubBytes are inverse both ways round |
| Aes128.ShiftRowsUndone | crypto/aes128/tiku_kits_crypto_aes128.c:318-427 | ShiftRows and InvShiftRows are inverse both ways round |
| Aes128.MixColumnsUndone | crypto/aes128/tiku_kits_crypto_aes128.c:354-457 | MixColumns and InvMixColumns are inverse both ways round |
| Aes128.Context.Init128 | crypto/aes128/tiku_kits_crypto_aes128.c:157-236 | ten rounds and the 44 words of the key expansion of section 5.2 of FIPS 197 |
| Aes128.Context.Init256 | crypto/aes128/tiku_kits_crypto_aes128.c:238-274 | fourteen rounds and the 60 words of the expansion of a 32-byte key, with the extra SubWord |
| Aes128.Context.Encrypt | crypto/aes128/tiku_kits_crypto_aes128.c:463-503 | Cipher of section 5.1 of FIPS 197 with the context's rounds; the buffers may be the same |
| Aes128.Context.Decrypt | crypto/aes128/tiku_kits_crypto_aes128.c:509-553 | InvCipher of section 5.3, always in ten rounds; the buffers may be the same |
| Aes128.InvCipherCipher | crypto/aes128/tiku_kits_crypto_aes128.c:463-553 | for any round keys and number of rounds, InvCipher undoes Cipher |
| Aes128.CipherInvCipher | crypto/aes128/tiku_kits_crypto_aes128.c:463-553 | and Cipher undoes InvCipher: each is a permutation of the blocks |
| Aes128.RoundTrip | crypto/aes128/tiku_kits_crypto_aes128.c:157-553 | for every 16-byte key and block, decryption undoes encryption and the other way round |
| Fips197.KnownAnswer | crypto/aes128/tiku_kits_crypto_aes128.c:157-553 | the example of appendix C.1 of FIPS 197: its key makes its block of its plaintext, and back |
| Fips197.KnownSchedule | crypto/aes128/tiku_kits_crypto_aes128.c:238-274 | the first eight new words of the 32-byte key of appendix A.3 |
| AesKw.KwKey | crypto/aeskw/tiku_kits_crypto_aeskw.c:28-39 | succeeds iff the KEK has 16 or 32 bytes, with the matching schedule and rounds |
| AesKw.KwXorT | crypto/aeskw/tiku_kits_crypto_aeskw.c:42-47 | the 32-bit counter, big-endian, is folded into the last four bytes of A |
| AesKw.XorTTwice | crypto/aeskw/tiku_kits_crypto_aeskw.c:42-47 | doing so twice changes nothing |
| AesKw.StepNumber | crypto/aeskw/tiku_kits_crypto_aeskw.c:67-71 | the counter n*j + i is the number of the step among all 6n, and block i - 1 is its block |
| AesKw.WrapOne | crypto/aeskw/tiku_kits_crypto_aeskw.c:69-72 | one step on the buffers is one step of section 2.2.1 of RFC 3394; bytes outside the blocks untouched |
| AesKw.Passes | crypto/aeskw/tiku_kits_crypto_aeskw.c:67-74 | the nested loops are the 6n steps in order |
| AesKw.UnwrapOne | crypto/aeskw/tiku_kits_crypto_aeskw.c:100-103 | one step on the buffers is one inverse step of section 2.2.2 |
| AesKw.PassesBack | crypto/aeskw/tiku_kits_crypto_aeskw.c:98-105 | the nested loops are the 6n inverse steps in exactly reverse order |
| Rfc3394.WrapIsStandard | crypto/aeskw/tiku_kits_crypto_aeskw.c:49-79 | wrapping is the shifting register of section 2.2.1 of RFC 3394 from A6A6A6A6A6A6A6A6 on: exactly 6n times A and the first block are enciphered, A takes in the 64-bit step number, the blocks move down and the low half enters last; for 6n below 2^32 |
| Rfc3394.UnwrapIsStandard | crypto/aeskw/tiku_kits_crypto_aeskw.c:81-114 | unwrapping is the register run back as in section 2.2.2, and refused unless it ends in the initial value; for 6n below 2^32 |
| Rfc3394.CounterFits | crypto/aeskw/tiku_kits_crypto_aeskw.c:42-47 | the 32-bit counter folded into A is the standard's 64-bit one exactly for step numbers below 2^32 |
| AesKw.UnwrappedWrapped | crypto/aeskw/tiku_kits_crypto_aeskw.c:49-114 | any number of steps is undone by as many inverse steps, for any number of blocks |
| AesKw.WrappedUnwrapped | crypto/aeskw/tiku_kits_crypto_aeskw.c:49-114 | and the other way round |
| AesKw.Wrap | crypto/aeskw/tiku_kits_crypto_aeskw.c:49-79 | ERR_SIZE, output untouched, iff the length is below 16, not a multiple of 8, or the KEK is of no valid length; else the wrapping; output and input may share a buffer |
| AesKw.Unwrap | crypto/aeskw/tiku_kits_crypto_aeskw.c:81-114 | ERR_SIZE iff the sizes are wrong; OK with the data iff the recovered A is the initial value, else ERR_CORRUPT with an all-zero output |
| AesKw.UnwrapExactly | crypto/aeskw/tiku_kits_crypto_aeskw.c:49-114 | unwrapping in as many rounds yields x iff the input is the wrapping of x: round trip and rejection of everything else |
| AesKw.UnwrapUndoesWrap | crypto/aeskw/tiku_kits_crypto_aeskw.c:49-114 | for every 16-byte KEK and any number of blocks, unwrap answers OK with x iff its input is what wrap makes of x |
| Gfx.Hline | gfx/tiku_kits_gfx.c:221-229 | the w pixels of the row, left to right, with coordinates cast to 16 bits |
| Gfx.Vline | gfx/tiku_kits_gfx.c:232-240 | the h pixels of the column, top to bottom, with coordinates cast to 16 bits |
| Gfx.LineStep | gfx/tiku_kits_gfx.c:263-265 | from a point within half a pixel of the ideal line, one step moves on by one along the long axis and stays within half a pixel; err never leaves 3/2 of the longer side |
| Gfx.StepOn | gfx/tiku_kits_gfx.c:263-265 | one iteration on the program's variables, each cast included, is one step of Walk, whatever the error is |
| Gfx.LineFitsIff | gfx/tiku_kits_gfx.c:247-267 | for sides up to 32767: the doubled error fits 16 bits all along the line iff 3*max - 2*min - slack is at most 32767 (32768 for a steep line), where the slack is the greatest common divisor of the sides, or twice that if the longer side over it is even |
| Gfx.TopReached | gfx/tiku_kits_gfx.c:247-267 | the greatest doubled defect of a line is its long side less that slack, and a point before the end has it |
| Gfx.WrapLeavesLine | gfx/tiku_kits_gfx.c:263-265 | for sides up to 32767, where the doubled error does not fit, the step goes to a point off the line |
| Gfx.LineFitsExactly | gfx/tiku_kits_gfx.c:247-267 | for sides up to 32767: the whole 16-bit walk goes through the points of the line, one after the other, iff the doubled error fits at all of them |
| Gfx.ShortestWrong | gfx/tiku_kits_gfx.c:247-267 | the line from (0, 0) to (16384, 0) is the shortest horizontal one that goes wrong: its first step is to (0, -1) |
| Gfx.HorizontalExactly | gfx/tiku_kits_gfx.c:247-267 | horizontal lines of any length up to 65535: right iff the length is at most 16383 or at least 49153 |
| Gfx.VerticalExactly | gfx/tiku_kits_gfx.c:247-267 | vertical lines: right iff the length is at most 16384 or at least 49152 |
| Gfx.DiagonalExactly | gfx/tiku_kits_gfx.c:247-267 | diagonal lines: right for every length but 32768 |
| Gfx.Stuck | gfx/tiku_kits_gfx.c:247-267 | for a straight or diagonal line of length 32768 no number of iterations leaves the first point, so the loop does not end |
| Gfx.DrawableExactly | gfx/tiku_kits_gfx.c:247-267 | the precondition of Line is exact for sides up to 32767 and for straight and diagonal lines of any length |
| Gfx.OnLineUnique | gfx/tiku_kits_gfx.c:247-267 | at most one such point in each column (row, for a steep line) |
| Gfx.EndOnLine | gfx/tiku_kits_gfx.c:262-262 | the point of the last column is the end point, so the walk meets its stop test |
| Gfx.Line | gfx/tiku_kits_gfx.c:247-267 | if the doubled error fits all along the line, and for the long straight and diagonal lines named above: max(dx, dy) + 1 pixels from (x0, y0) to (x1, y1), consecutive ones 8-neighbours, each with 2(dx*j - dy*i) between -max(dx, dy) and max(dx, dy), that is within half a pixel of the ideal line; it terminates |
| Gfx.LineUnique | gfx/tiku_kits_gfx.c:247-267 | those conditions determine the pixel sequence |
| Gfx.CircleStep | gfx/tiku_kits_gfx.c:578-580 | one step keeps d = x^2 - x + (y+1)^2 - r^2 and takes the abscissa rounded for one row to that for the next |
| Gfx.CircleFitsExactly | gfx/tiku_kits_gfx.c:559-582 | for radii up to 32767: the decision variable fits 16 bits all along the octant iff the radius is at most 16556, or is 16641, 16642 or 16643 |
| Gfx.FirstFailing | gfx/tiku_kits_gfx.c:559-582 | the first radius for which it does not is 16557, at the point (16556, 129) |
| Gfx.WrapLeavesCircle | gfx/tiku_kits_gfx.c:578-580 | where it does not fit, the step goes to a point off the circle, and the walk draws it unless it was at its last point |
| Gfx.CircleStaysExactly | gfx/tiku_kits_gfx.c:559-582 | the whole 16-bit walk draws points of the circle only iff the radius is one of those |
| Gfx.CircleIs | gfx/tiku_kits_gfx.c:559-582 | and then, and only then, it draws exactly one point in every row of the octant: the circle's |
| Gfx.LargestRadius | gfx/tiku_kits_gfx.c:559-582 | with radius 32767 the first 182 rows are in column 32767, the decision variable of row n being (n + 1)^2 - 32767 |
| Gfx.TurnBounds | gfx/tiku_kits_gfx.c:578-580 | so the row counter wraps around for no radius, whatever the decision variable does |
| Gfx.TurnOn | gfx/tiku_kits_gfx.c:578-580 | one iteration on the program's variables is one step of CircleWalk |
| Gfx.OctantUnique | gfx/tiku_kits_gfx.c:559-582 | at most one abscissa is correctly rounded in each row |
| Gfx.OctantEnds | gfx/tiku_kits_gfx.c:569-569 | from the row where the walk stops on, the octant has no point |
| Gfx.Circle | gfx/tiku_kits_gfx.c:559-582 | terminates for every radius and centre; for radii up to 32767 the rows drawn are exactly those of the octant, each at the abscissa x with x^2 - x + y^2 <= r^2 < x^2 + x + y^2, iff the radius is one of those above; then a pixel, before its coordinates are cast to 16 bits, is drawn iff its offset is on the circle; nothing is drawn for radius 0 and above 32767 |
| Gfx.DrawnIsCircle | gfx/tiku_kits_gfx.c:570-577 | the eight reflections cover exactly the pixels of the circle in all octants |
| GfxCurve.DigitsFit | gfx/tiku_kits_gfx_curve.c:104-108 | sums in the loop fit 32 bits, and its comparison asks whether the next binary digit belongs to the root |
| GfxCurve.DigitsNext | gfx/tiku_kits_gfx_curve.c:106-115 | one iteration settles one digit; the last one leaves the root |
| GfxCurve.RootUnique | gfx/tiku_kits_gfx_curve.c:95-117 | r^2 <= v < (r+1)^2 has one solution |
| GfxCurve.Isqrt32 | gfx/tiku_kits_gfx_curve.c:101-117 | that solution, for every 32-bit v |
| GfxCurve.Quotient | gfx/tiku_kits_gfx_curve.c:154-159 | comparing a square with the truncated quotient is comparing a^2*ry^2 + y^2*rx^2 with rx^2*ry^2: the division loses nothing |
| GfxCurve.RowEndIs | gfx/tiku_kits_gfx_curve.c:150-160 | the root of the quotient is the last offset inside the ellipse in that row |
| GfxCurve.EllXAtY | gfx/tiku_kits_gfx_curve.c:151-160 | the last offset of the row, cast to 16 bits, if the 32-bit product of the squares does not wrap around, as for rx*ry < 2^16; 0 from row ry on; within the radius in any case, and short of it in row 0 if rx*ry >= 2^16 |
| GfxCurve.WrappedRoot | gfx/tiku_kits_gfx_curve.c:151-160 | a wrapped product never makes a row wider than the radius |
| GfxCurve.NarrowMiddle | gfx/tiku_kits_gfx_curve.c:151-160 | if rx*ry >= 2^16, the middle row comes out too short |
| GfxCurve.EllYAtX | gfx/tiku_kits_gfx_curve.c:163-172 | the same for the transposed ellipse |
| GfxCurve.RowInside | gfx/tiku_kits_gfx_curve.c:252-257 | in a row with last offset x exactly the offsets -x to x are inside |
| GfxCurve.PaintRow | gfx/tiku_kits_gfx_curve.c:252-258 | a painted row extends the part of the ellipse that is exactly painted |
| GfxCurve.RowsEnd | gfx/tiku_kits_gfx_curve.c:252-258 | the row counter passes ry iff ry is not 32767, for every 16-bit ry |
| GfxCurve.TallestNeverEnds | gfx/tiku_kits_gfx_curve.c:252-258 | with ry = 32767 the counter goes from 32767 to -32768 after 65535 rows, and no row is beyond ry |
| GfxCurve.FillEllipse | gfx/tiku_kits_gfx_curve.c:229-259 | for all radii and centres but ry = 32767 with rx > 0, where the loop does not end: for radii up to 32767 a pixel, before its coordinates are cast to 16 bits, is painted iff its offset satisfies x^2*ry^2 + y^2*rx^2 <= rx^2*ry^2, if and only if rx*ry < 2^16; degenerate radii included |
| Cbor.Writer.WriteHead | codec/cbor/tiku_kits_codec_cbor.c:69-93 | the bytes of the head, as many as head_size says |
| Cbor.ReadHeadHead | codec/cbor/tiku_kits_codec_cbor.c:44-181 | read_head gives back the major type and argument of every head, whatever follows |
| Cbor.HeadShortest | codec/cbor/tiku_kits_codec_cbor.c:44-93 | no reading of the same type and argument takes fewer bytes, and one of equal length is that head: the preferred form of section 4.1 of RFC 8949 |
| Cbor.ReadHeadMeans | codec/cbor/tiku_kits_codec_cbor.c:133-181 | what read_head takes is a head of section 3 of RFC 8949 for the type and argument found, byte by byte |
| Cbor.DecodedMeans | codec/cbor/tiku_kits_codec_cbor.c:433-650 | what a decoder accepts is an encoding of the token it gives, by the literal initial bytes 00, 20, 40, 60, 80, A0, F4, F5 and F6; for booleans and null iff one byte was taken |
| Cbor.LongFalse | codec/cbor/tiku_kits_codec_cbor.c:605-629 | F8 14 is accepted as false, which it does not encode |
| Cbor.EncodedMeans | codec/cbor/tiku_kits_codec_cbor.c:245-380 | what the encoders write is such an encoding of the token, and none is shorter |
| Cbor.IntegerMeans | codec/cbor/tiku_kits_codec_cbor.c:263-276 | for every int32 value: itself under 00, or -1 minus it under 20 |
| Cbor.SmallIntegers | codec/cbor/tiku_kits_codec_cbor.c:263-276 | -24 to 23 are the single bytes 37 down to 20 and 00 to 17 |
| Cbor.ReadHeadLocal | codec/cbor/tiku_kits_codec_cbor.c:133-181 | what read_head finds depends on the bytes it consumes alone |
| Cbor.Writer.EncodeHead | codec/cbor/tiku_kits_codec_cbor.c:103-114 | appends the head; ERR_OVERFLOW, position and bytes unchanged, iff it does not fit |
| Cbor.Writer.EncodeUint | codec/cbor/tiku_kits_codec_cbor.c:245-252 | appends the token; refused with nothing changed iff it does not fit |
| Cbor.Writer.EncodeNegint | codec/cbor/tiku_kits_codec_cbor.c:254-261 | likewise for -1 - n |
| Cbor.Writer.EncodeInt | codec/cbor/tiku_kits_codec_cbor.c:263-276 | likewise for the token of a signed value, -2^31 included |
| Cbor.Writer.EncodeString | codec/cbor/tiku_kits_codec_cbor.c:282-336 | likewise for byte and text strings: the check covers head and payload, so a refusal leaves no half-written head |
| Cbor.Writer.EncodeArray | codec/cbor/tiku_kits_codec_cbor.c:342-349 | likewise for an array head |
| Cbor.Writer.EncodeMap | codec/cbor/tiku_kits_codec_cbor.c:351-358 | likewise for a map head |
| Cbor.Writer.EncodeBool | codec/cbor/tiku_kits_codec_cbor.c:364-372 | likewise for a boolean |
| Cbor.Writer.EncodeNull | codec/cbor/tiku_kits_codec_cbor.c:374-380 | likewise for null |
| Cbor.Reader.PeekHead | codec/cbor/tiku_kits_codec_cbor.c:133-181 | the head at the position, or the error for reserved, 64-bit, indefinite and truncated heads; the position does not move |
| Cbor.Reader.DecodeTypedHead | codec/cbor/tiku_kits_codec_cbor.c:194-212 | moves past a head of the expected type and not otherwise |
| Cbor.Reader.DecodeArgumentOf | codec/cbor/tiku_kits_codec_cbor.c:433-449 | the argument of an unsigned or negative integer; position unchanged on error |
| Cbor.Reader.DecodeInt | codec/cbor/tiku_kits_codec_cbor.c:451-485 | OK with v iff the token of v comes next and v fits int32; position unchanged otherwise |
| Cbor.Reader.DecodeStringOf | codec/cbor/tiku_kits_codec_cbor.c:491-549 | the payload, or the error and the move of the position for a short one |
| Cbor.Reader.DecodeCountOf | codec/cbor/tiku_kits_codec_cbor.c:555-599 | the item count of an array or map, if it fits 16 bits |
| Cbor.Reader.DecodeBoolValue | codec/cbor/tiku_kits_codec_cbor.c:605-629 | the boolean; a head of another type leaves the position, another simple value is passed and reported as ERR_TYPE |
| Cbor.Reader.DecodeNullValue | codec/cbor/tiku_kits_codec_cbor.c:631-650 | null; the same two cases otherwise |
| Cbor.DecodeEncoded | codec/cbor/tiku_kits_codec_cbor.c:245-650 | the decoder for each kind of token gives back the token, moving by exactly its encoding, whatever follows |
| Cbor.DecodeAllEncoded | codec/cbor/tiku_kits_codec_cbor.c:245-650 | any sequence of tokens encoded one after the other decodes in order to the same tokens |
| Cbor.UnderflowPosition | codec/cbor/tiku_kits_codec_cbor.c:195-650 | a decoder reporting ERR_UNDERFLOW has left the position alone iff the head itself was short, so the header comment (tiku_kits_codec_cbor.h:267-269) holds for the decoders in exactly that case |
| Cbor.SkipUnderflowPosition | codec/cbor/tiku_kits_codec_cbor.c:663-726 | and likewise for skip: iff the first head of the item was short |
| Cbor.DecodeTruncated | codec/cbor/tiku_kits_codec_cbor.c:195-650 | every proper prefix of an encoded token is reported as ERR_UNDERFLOW; the position moves only over the whole head of a string |
| Cbor.UnderflowMoves | codec/cbor/tiku_kits_codec_cbor.c:501-512 | the head 0x41 alone is a case where it does not hold |
| Cbor.Reader.SkipItem | codec/cbor/tiku_kits_codec_cbor.c:663-726 | terminates on every byte string, with the result and position of the recursive definition; OK always moves on |
| Cbor.Reader.SkipItems | codec/cbor/tiku_kits_codec_cbor.c:696-718 | the loop over the items of a container |
| Cbor.SkipPastItem | codec/cbor/tiku_kits_codec_cbor.c:663-726 | on any encoded item tree skip stops exactly at its end, whatever follows |
| Cbor.SkipPastItems | codec/cbor/tiku_kits_codec_cbor.c:696-718 | and so does the loop over the items of a container |
| Cbor.SkipLocal | codec/cbor/tiku_kits_codec_cbor.c:663-726 | what skip does to an item depends on that item's bytes alone |
| Cbor.ExceedsExactly | codec/cbor/tiku_kits_codec_cbor.c:108-108 | the bounds test of position plus length against the end (also in lines 296, 324, 510, 540 and 690, and in lines 45 and 475 of tiku_kits_codec_json.c) is right on a 32-bit int; on a 16-bit int it is right iff the sum is below 2^16 or, for head and data of more than 65536 bytes, what is left of it after wrapping is still beyond the end |
| Cbor.AcceptsExactly | codec/cbor/tiku_kits_codec_cbor.c:501-516 | with a 32-bit int the string decoder accepts what the specification does; with a 16-bit int exactly the buffers that announce data up to position 65536 or beyond are accepted in addition |
| Cbor.LongestString | codec/cbor/tiku_kits_codec_cbor.c:540-542 | of which the three bytes 79 ff ff are one |
| CborRoundTrip.WriteAll | codec/cbor/tiku_kits_codec_cbor.c:245-380 | any run of encoder calls on a writer of given capacity: all OK iff the whole encoding fits, else ERR_OVERFLOW |
| CborRoundTrip.ReadAll | codec/cbor/tiku_kits_codec_cbor.c:433-650 | the decoder calls for the kinds of a token list, on its encoding, give back the tokens and stop at the end |
| CborRoundTrip.WriteAndReadBack | codec/cbor/tiku_kits_codec_cbor.c:245-650 | the round trip on one buffer: a token list is written iff its encoding fits, and the decoder's calls then give back exactly these tokens, stopping where the encoder did |
| CborRoundTrip.WriteAndSkip | codec/cbor/tiku_kits_codec_cbor.c:245-726 | the tokens of a data item are written iff they fit, and skip then passes over exactly what was written |
| Json.Writer.EmitEscaped | codec/json/tiku_kits_codec_json.c:96-144 | appends the escaped string, or a prefix of it and ERR_OVERFLOW iff it does not fit |
| Json.UnescapeEscape | codec/json/tiku_kits_codec_json.c:96-144 | undoing the escapes of section 7 of RFC 8259 gives back the string: the escaped form is always a legal string body |
| Json.StringMeaning | codec/json/tiku_kits_codec_json.c:96-144 | in particular a whole string means its original |
| Json.SliceIsOriginal | codec/json/tiku_kits_codec_json.c:492-519 | the slice the parser returns is the original string iff that has no quote, no backslash and no byte below 0x20 |
| Json.SliceOfQuote | codec/json/tiku_kits_codec_json.c:492-519 | the one-byte string that is a quote is returned as two bytes |
| Json.ScanEscape | codec/json/tiku_kits_codec_json.c:492-519 | the parser's scan runs through an escaped string without taking anything in it for the closing quote |
| Json.Int32ToStr | codec/json/tiku_kits_codec_json.c:153-186 | the decimal digits of every 32-bit value, INT32_MIN included |
| Json.DigitsLead | codec/json/tiku_kits_codec_json.c:153-186 | only zero starts with the digit 0 |
| JsonText.DigitIs | codec/json/tiku_kits_codec_json.c:153-186 | each digit is that of the number in its place |
| JsonText.EscapeByteIs | codec/json/tiku_kits_codec_json.c:96-144 | the escape of each byte, spelled out: six short forms, \u00 with two hexadecimal digits below 0x20, and itself |
| JsonText.LegalEscape | codec/json/tiku_kits_codec_json.c:96-144 | an escaped string is legal by section 7 of RFC 8259 |
| JsonText.TextIs | codec/json/tiku_kits_codec_json.c:63-419 | the text of a value tree is that of its tokens one after the other, each spelled out byte by byte |
| Json.DigitCount | codec/json/tiku_kits_codec_json.c:153-186 | a number below 10^k has at most k digits, which bounds the buffer |
| Json.Writer.EmitSeparator | codec/json/tiku_kits_codec_json.c:63-80 | a comma iff one is pending at this depth; one is pending afterwards, also when the comma did not fit |
| Json.Writer.Open | codec/json/tiku_kits_codec_json.c:221-279 | separator and bracket, one level deeper with no comma pending; ERR_PARAM with nothing changed at the greatest depth; after an overflow same depth, a comma pending |
| Json.Writer.Close | codec/json/tiku_kits_codec_json.c:244-293 | the bracket, one level up, also after an overflow; ERR_PARAM with nothing changed at depth 0 |
| Json.Writer.WriteKey | codec/json/tiku_kits_codec_json.c:299-337 | separator, quoted key and colon; no comma before the value that follows; after an overflow the comma flags are as before |
| Json.Writer.WriteStr | codec/json/tiku_kits_codec_json.c:343-367 | separator and quoted string, or a prefix of them and ERR_OVERFLOW iff they do not fit; a comma is pending afterwards in either case |
| Json.Writer.WriteInt | codec/json/tiku_kits_codec_json.c:369-386 | separator and decimal, or a prefix of them and ERR_OVERFLOW iff they do not fit; a comma is pending afterwards in either case |
| Json.Writer.WriteBool | codec/json/tiku_kits_codec_json.c:388-405 | separator and literal, or a prefix of them and ERR_OVERFLOW iff they do not fit; a comma is pending afterwards in either case |
| Json.Writer.WriteNull | codec/json/tiku_kits_codec_json.c:407-419 | separator and literal, or a prefix of them and ERR_OVERFLOW iff they do not fit; a comma is pending afterwards in either case |
| Json.WritesValue | codec/json/tiku_kits_codec_json.c:63-419 | the calls for any value tree within the depth left write exactly its grammar text (section 2 of RFC 8259), with commas and colons where they belong, for every greatest depth |
| Json.Reader.SkipWs | codec/json/tiku_kits_codec_json.c:456-466 | moves past the whole run of the four white-space bytes |
| JsonText.WhiteSkipped | codec/json/tiku_kits_codec_json.c:456-466 | any run of 20, 09, 0A and 0D before a token only moves the position |
| JsonText.OnlyWhiteSkipped | codec/json/tiku_kits_codec_json.c:456-466 | and the token starts at the first other byte |
| JsonText.WhiteEnds | codec/json/tiku_kits_codec_json.c:575-580 | such a run at the end is the end |
| Json.Reader.MatchKeyword | codec/json/tiku_kits_codec_json.c:472-483 | moves past the word iff it is there in full |
| Json.Reader.ParseString | codec/json/tiku_kits_codec_json.c:492-519 | the slice up to the first quote that no backslash precedes; ERR_UNDERFLOW without one |
| Json.Reader.ParseNumber | codec/json/tiku_kits_codec_json.c:527-564 | the token of the digit run by its unbounded decimal value, reduced to int32; the uint32 accumulator, the sign and the 8-bit digit count of the source compute it; ERR_CORRUPT when that count is 0 |
| Json.Reader.TokHere | codec/json/tiku_kits_codec_json.c:575-655 | the token that starts at a byte, or ERR_CORRUPT |
| Json.Reader.NextTok | codec/json/tiku_kits_codec_json.c:570-655 | the next token past white space (commas and colons are tokens), or the end |
| Json.ReadsString | codec/json/tiku_kits_codec_json.c:492-519 | a quoted escaped string is read as one token holding the escaped bytes |
| Json.ReadsNumber | codec/json/tiku_kits_codec_json.c:527-564 | the decimal of any int32 value is read as one token holding the value; other digit runs are the subject of the next rows |
| Json.ReadsRun | codec/json/tiku_kits_codec_json.c:527-564 | any run of digits, leading zeros included, before a non-digit or the end: OK iff its length is not a multiple of 256, and read as the number it denotes iff moreover that is below 2^31; otherwise as that number's signed residue mod 2^32 |
| Json.ReadsSignedRun | codec/json/tiku_kits_codec_json.c:527-564 | the same with a minus sign, where the number may be up to 2^31 |
| Json.ReadsLongRun | codec/json/tiku_kits_codec_json.c:533-556 | a run of 256 digits is reported as corrupt |
| Json.ReadsOverlargeRun | codec/json/tiku_kits_codec_json.c:544-561 | 4294967296 is read as 0 with OK |
| Json.ReadsValue | codec/json/tiku_kits_codec_json.c:456-655 | the text of any value tree is read as exactly the tree's token sequence, stopping at its end |
| JsonText.ScanLegal | codec/json/tiku_kits_codec_json.c:492-519 | the scan for the closing quote runs through any string that is legal by section 7 of RFC 8259, whatever escapes it has |
| JsonText.SpellReads | codec/json/tiku_kits_codec_json.c:570-655 | every token is read from its bytes as the grammar has them |
| JsonText.LaidReads | codec/json/tiku_kits_codec_json.c:456-655 | whatever white space is put before the tokens, exactly they are read; no two numbers may meet |
| Json.Reader.SkipDeep | codec/json/tiku_kits_codec_json.c:716-735 | consumes tokens until the open bracket is closed; after every token the depth is asserted to fit 16 bits |
| Json.Reader.SkipOne | codec/json/tiku_kits_codec_json.c:692-740 | terminates on every input with the result of the definition by tokens |
| Json.SkipsValue | codec/json/tiku_kits_codec_json.c:692-740 | skip_value consumes exactly the text of any value |
| Json.SkipsTokens | codec/json/tiku_kits_codec_json.c:692-740 | skip_value ends where the tokens of a value end, however they are laid out |
| JsonText.SpacedText | codec/json/tiku_kits_codec_json.c:456-740 | any text of a value, with white space wherever section 2 of RFC 8259 allows it, is read as exactly the value's tokens and skipped to exactly its end |
| Json.RoundTrip | codec/json/tiku_kits_codec_json.c:221-740 | for every value tree within the greatest depth: the calls write its text, reading that gives its tokens, and skipping it ends at its end |
| JsonRoundTrip.WriteAll | codec/json/tiku_kits_codec_json.c:221-419 | any admissible run of calls on a writer of given capacity: all OK iff the whole output fits, else ERR_OVERFLOW |
| JsonRoundTrip.ReadAll | codec/json/tiku_kits_codec_json.c:570-686 | calls of next_token up to the end return exactly the tokens of a text that has them, with their strings and numbers |
| JsonRoundTrip.WriteAndReadBack | codec/json/tiku_kits_codec_json.c:192-740 | the round trip on one buffer: a value tree is written iff its text fits, the parser then reads back exactly its tokens, and skip_value ends where the text does |

## Left out

- Rsa.ModExp: says nothing about the value for an even modulus or for base >= m, unless e = 0; Montgomery multiplication is not defined there, as an even limb has no negated inverse (Montgomery.NewtonNegInverse). The untouched limbs and termination are still proved.
- Rsa.PubOp: likewise says nothing about the bytes for an even modulus and e > 0.
- P256.MontInv: the primality of the modulus is a hypothesis; that the prime and the order of the curve are prime is not proved. The same goes for X25519.InvertIsInverse.
- CurveGroup.AddStands: the primality of the modulus is a hypothesis here too, as in P256.MultiplesStand and all of Curve25519.
- CurveGroup.MultipleIs: that the chord-and-tangent law is associative is not proved; the sequence of multiples is any one that obeys the law. The same goes for Curve25519.LadderIsMultiple.
- Curve25519.LadderIsMultiple: says nothing for a u that no point of the curve has (a point of the twist); X25519.ScalarMult covers it as the RFC's function.
- P256.MontMulC: passes limb vectors as values, as do the other P-256 field operations, so aliasing of their bn arguments is not modelled here (it is in Bignum.MontMul, which works on arrays); points are objects that are changed in place.
- P256.PtMul: requires the result and the point to be different objects, as every caller has it.
- P256.PtCSelect: selects by a conditional instead of the mask; P256.MaskSelects shows the mask arithmetic to be that selection, on bit vectors.
- X25519.CondSwap: the same, with X25519.MaskSwaps.
- Gfx.Line: says nothing about lines with a side above 32767 that are neither horizontal, vertical nor diagonal, and nothing about which pixels a walk draws once it has left the line, or whether it ends then.
- Gfx.Circle: for the other radii it says that points off the circle are drawn, and not which.
- GfxCurve.FillEllipse: for a radius above 32767 it says only that the loop ends; ry = 32767 with rx > 0, for which it does not, is excluded.
- GfxCurve.EllXAtY: in rows other than the middle one, where the product wraps around, only bounds are stated; GfxCurve.EllYAtX likewise.
- Cbor.Writer.EncodeHead: its bounds test is that of an int of at least 32 bits; Cbor.ExceedsExactly says what a 16-bit int would change, for this test and for those of Cbor.Writer.EncodeString, Cbor.Reader.DecodeStringOf and Cbor.Reader.SkipItem. The same goes for the other 16-bit sums of the project, as in Gfx.Line.
- AesKw.Unwrap: has no inverse theorem for a 32-byte KEK, since decryption makes ten rounds of the fourteen; its contract still says what it computes.
- Rfc3394.WrapIsStandard: says nothing for 2^32 steps or more, where the program's counter has wrapped around; Rfc3394.UnwrapIsStandard likewise.
- Fips197.KnownSchedule: stops at the first eight new words; no whole example with a 32-byte key is computed through.
- JsonText.ScanLegal: the parser takes other strings as well, as it checks neither escapes nor control characters; Json.Reader.ParseString says what it does with them.
- Json.RoundTrip: for INT32_MIN it rests on the parser's negation wrapping around, which C leaves undefined.
- Json.Writer.WriteStr: after an overflow, the bytes written are some prefix of the call's output, and it is not said which; the same goes for the other calls of the writer.
- BTree.Btree.SplitChild: key and child arrays of a node are sequences inside the pool's slots; the pool itself is an array changed in place.
- BTree.Btree.SearchNode: leaves out the guard against an index of NONE, which no walk of a valid tree reaches; the same goes for the other walks.
- Null-pointer checks are not modelled: references are non-null.
- Writing outside the buffers a caller passes, and overlapping buffers other than the stated cases, are preconditions.
- The umaal assembly and the hardware-crypto branches: the portable branch is the definition.
- P-384: the same code with other constants and another number of limbs.
- ECDSA, ECDH, PKCS#1, PSS, HKDF, HMAC, PBKDF2 and the conversion to affine coordinates: sequences of calls over the primitives.
- Cryptographic strength, constant-time behaviour and the clearing of key material.
- SHA, CRC, base64, hex, protobuf, GCM, CCM, RLE, time conversion, bitmap, Bloom filter: independent of the cores above and easier.
- Queue, ring buffer, deque, priority queue, circular log, array, state-machine table: short wrappers over a modular index.
- Clipping in put, thick lines, filled circles, ellipse outlines, arcs, pies, polygons, text and images.
- The accessors token_string, token_int, peek_type, writer_len, remaining and head, and text validity (UTF-8) in either codec.
- Stack use of the recursive CBOR skip, which is as deep as the items nest.
- UI widgets, e-paper, GPIO, SPI and power control: input and output.
