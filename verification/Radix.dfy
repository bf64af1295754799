/**
 Positional numbers and modular arithmetic, shared by every multi-precision module.
 `Val(b, s)` reads the digits `s`, least significant first, in base `b`; the digits may be
 signed, which is what the lazily reduced X25519 limbs need.
 */
module Radix {

  function Pow(b: int, n: nat): (p: int)
    ensures b > 0 ==> p > 0
  {
    if n == 0 then 1 else b * Pow(b, n - 1)
  }

  function Val(b: int, s: seq<int>): int
  {
    if |s| == 0 then 0 else Val(b, s[..|s| - 1]) + s[|s| - 1] * Pow(b, |s| - 1)
  }

  /** Big-endian reading of a byte string. */
  function BeVal(s: seq<int>): int
  {
    if |s| == 0 then 0 else BeVal(s[..|s| - 1]) * 256 + s[|s| - 1]
  }

  ghost predicate Digits(b: int, s: seq<int>) {
    forall i :: 0 <= i < |s| ==> 0 <= s[i] < b
  }

  /** a and b leave the same residue: their difference is a multiple of m. */
  ghost predicate Cong(a: int, b: int, m: int)
    requires m > 0
  {
    a % m == b % m
  }

  // ----- powers

  lemma {:induction false} PowAdd(b: int, i: nat, j: nat)
    ensures Pow(b, i + j) == Pow(b, i) * Pow(b, j)
  {
    if i > 0 {
      PowAdd(b, i - 1, j);
      MulAssoc(b, Pow(b, i - 1), Pow(b, j));
    }
  }

  lemma {:induction false} PowMul(b: int, i: nat, j: nat)
    ensures Pow(Pow(b, i), j) == Pow(b, i * j)
  {
    if j > 0 {
      PowMul(b, i, j - 1);
      assert i * j == i + i * (j - 1);
      PowAdd(b, i, i * (j - 1));
    }
  }

  lemma MulPositive(x: int, y: int)
    requires x > 0 && y > 0
    ensures x * y > 0
  {}

  lemma MulAssoc(x: int, y: int, z: int)
    ensures x * (y * z) == (x * y) * z
  {}

  lemma MulMono(x: int, y: int, z: int)
    requires x <= y && 0 <= z
    ensures x * z <= y * z
  {}

  lemma MulCancel(x: int, y: int, z: int)
    requires x * z < y * z && 0 <= z
    ensures x < y
  {
    if y <= x {
      MulMono(y, x, z);
    }
  }

  // ----- digit strings

  lemma ValNil(b: int)
    ensures Val(b, []) == 0 && Pow(b, 0) == 1
  {}

  lemma PowNext(b: int, n: nat)
    ensures Pow(b, n + 1) == b * Pow(b, n)
  {}

  lemma ValSnoc(b: int, s: seq<int>, x: int)
    ensures Val(b, s + [x]) == Val(b, s) + x * Pow(b, |s|)
  {
    assert (s + [x])[..|s|] == s;
  }

  /** One more digit of a prefix. */
  lemma ValPrefix(b: int, s: seq<int>, i: nat)
    requires i < |s|
    ensures Val(b, s[..i + 1]) == Val(b, s[..i]) + s[i] * Pow(b, i)
  {
    assert s[..i + 1] == s[..i] + [s[i]];
    ValSnoc(b, s[..i], s[i]);
  }

  lemma {:induction false} ValUpdate(b: int, s: seq<int>, i: nat, v: int)
    requires i < |s|
    ensures Val(b, s[i := v]) == Val(b, s) + (v - s[i]) * Pow(b, i)
  {
    var n := |s| - 1;
    if i == n {
      assert s[i := v][..n] == s[..n];
    } else {
      ValUpdate(b, s[..n], i, v);
      assert s[i := v][..n] == s[..n][i := v];
    }
  }

  lemma {:induction false} ValConcat(b: int, s: seq<int>, t: seq<int>)
    ensures Val(b, s + t) == Val(b, s) + Pow(b, |s|) * Val(b, t)
  {
    if |t| == 0 {
      assert s + t == s;
    } else {
      var n := |t| - 1;
      var x := t[n];
      ValConcat(b, s, t[..n]);
      assert s + t == (s + t[..n]) + [x];
      ValSnoc(b, s + t[..n], x);
      PowAdd(b, |s|, n);
      Distribute(Pow(b, |s|), Val(b, t[..n]), x, Pow(b, n));
    }
  }

  lemma Distribute(p: int, v: int, x: int, q: int)
    ensures p * (v + x * q) == p * v + x * (p * q)
  {
    MulAssoc(p, x, q);
    MulAssoc(x, p, q);
    assert p * (v + x * q) == p * v + p * (x * q);
  }

  lemma {:induction false} ValBounds(b: int, s: seq<int>)
    requires b > 0 && Digits(b, s)
    ensures 0 <= Val(b, s) < Pow(b, |s|)
  {
    if |s| > 0 {
      var n := |s| - 1;
      ValBounds(b, s[..n]);
      MulMono(0, s[n], Pow(b, n));
      MulMono(s[n], b - 1, Pow(b, n));
      assert (b - 1) * Pow(b, n) == b * Pow(b, n) - Pow(b, n);
    }
  }

  lemma {:induction false} ValZeros(b: int, s: seq<int>)
    requires forall i :: 0 <= i < |s| ==> s[i] == 0
    ensures Val(b, s) == 0
  {
    if |s| > 0 {
      ValZeros(b, s[..|s| - 1]);
    }
  }

  /** Reading the digits of a number: quotient by b^i, then residue by b. */
  lemma {:induction false} ValDigit(b: int, s: seq<int>, i: nat)
    requires b > 0 && Digits(b, s) && i < |s|
    ensures Pow(b, i) > 0
    ensures (Val(b, s) / Pow(b, i)) % b == s[i]
  {
    var lo, hi := s[..i], s[i + 1..];
    var P := Pow(b, i);
    assert s == lo + ([s[i]] + hi);
    ValConcat(b, lo, [s[i]] + hi);
    ValConcat(b, [s[i]], hi);
    ValSnoc(b, [], s[i]);
    assert [] + [s[i]] == [s[i]];
    assert Pow(b, 1) == b;
    ValBounds(b, lo);
    var q := s[i] + b * Val(b, hi);
    assert Val(b, s) == P * q + Val(b, lo);
    DivModUnique(Val(b, s), q, Val(b, lo), P);
    DivModUnique(q, Val(b, hi), s[i], b);
  }

  /** Two digit strings of one length that denote the same number are the same. */
  lemma {:induction false} ValInjective(b: int, s: seq<int>, t: seq<int>)
    requires b > 0 && Digits(b, s) && Digits(b, t) && |s| == |t|
    requires Val(b, s) == Val(b, t)
    ensures s == t
  {
    forall i | 0 <= i < |s|
      ensures s[i] == t[i]
    {
      ValDigit(b, s, i);
      ValDigit(b, t, i);
    }
  }

  /** Comparing the top digit decides, whatever lies below. */
  lemma ValCompareTop(b: int, s: seq<int>, t: seq<int>)
    requires b > 0 && Digits(b, s) && Digits(b, t) && |s| == |t| > 0
    requires s[|s| - 1] > t[|t| - 1]
    ensures Val(b, s) > Val(b, t)
  {
    var n := |s| - 1;
    var P := Pow(b, n);
    ValBounds(b, s[..n]);
    ValBounds(b, t[..n]);
    CompareDigits(s[n], t[n], Val(b, s[..n]), Val(b, t[..n]), P);
  }

  lemma CompareDigits(x: int, y: int, lo: int, lo': int, p: int)
    requires x > y && 0 <= lo && 0 <= lo' < p
    ensures lo + x * p > lo' + y * p
  {
    assert (x - y) * p == x * p - y * p;
    MulMono(1, x - y, p);
  }

  /** A longer string that agrees above `n` compares as its lower part does. */
  lemma {:induction false} ValCompareEqual(b: int, s: seq<int>, t: seq<int>, n: nat)
    requires |s| == |t| && n <= |s|
    requires forall i :: n <= i < |s| ==> s[i] == t[i]
    ensures Val(b, s) - Val(b, t) == Val(b, s[..n]) - Val(b, t[..n])
  {
    assert s == s[..n] + s[n..];
    assert t == t[..n] + t[n..];
    assert s[n..] == t[n..];
    ValConcat(b, s[..n], s[n..]);
    ValConcat(b, t[..n], t[n..]);
  }

  lemma {:induction false} BeValBounds(s: seq<int>)
    requires Digits(256, s)
    ensures 0 <= BeVal(s) < Pow(256, |s|)
  {
    if |s| > 0 {
      BeValBounds(s[..|s| - 1]);
    }
  }

  // ----- residues

  lemma DivModUnique(x: int, q: int, r: int, d: int)
    requires d > 0 && 0 <= r < d && x == d * q + r
    ensures x / d == q && x % d == r
  {
    var k := x / d - q;
    assert d * (x / d) + x % d == x;
    assert d * k == r - x % d by {
      assert d * (x / d - q) == d * (x / d) - d * q;
    }
    if k > 0 {
      MulMono(1, k, d);
    } else if k < 0 {
      MulMono(k, -1, d);
    }
  }

  lemma CongMultiple(a: int, b: int, k: int, m: int)
    requires m > 0 && a == b + k * m
    ensures Cong(a, b, m)
  {
    var q, r := b / m, b % m;
    assert m * q + r == b;
    assert m * (q + k) == m * q + k * m;
    DivModUnique(a, q + k, r, m);
  }

  lemma CongWitness(a: int, b: int, m: int) returns (k: int)
    requires m > 0 && Cong(a, b, m)
    ensures a == b + k * m
  {
    k := a / m - b / m;
    assert a == m * (a / m) + a % m;
    assert b == m * (b / m) + b % m;
    assert k * m == m * (a / m) - m * (b / m);
  }

  lemma CongTrans(a: int, b: int, c: int, m: int)
    requires m > 0 && Cong(a, b, m) && Cong(b, c, m)
    ensures Cong(a, c, m) && Cong(c, a, m) && Cong(b, a, m)
  {}

  lemma CongAdd(a: int, a': int, b: int, b': int, m: int)
    requires m > 0 && Cong(a, a', m) && Cong(b, b', m)
    ensures Cong(a + b, a' + b', m)
  {
    var k := CongWitness(a, a', m);
    var l := CongWitness(b, b', m);
    assert (k + l) * m == k * m + l * m;
    CongMultiple(a + b, a' + b', k + l, m);
  }

  lemma CongSub(a: int, a': int, b: int, b': int, m: int)
    requires m > 0 && Cong(a, a', m) && Cong(b, b', m)
    ensures Cong(a - b, a' - b', m)
  {
    var k := CongWitness(a, a', m);
    var l := CongWitness(b, b', m);
    assert (k - l) * m == k * m - l * m;
    CongMultiple(a - b, a' - b', k - l, m);
  }

  lemma CongMul(a: int, a': int, b: int, b': int, m: int)
    requires m > 0 && Cong(a, a', m) && Cong(b, b', m)
    ensures Cong(a * b, a' * b', m)
  {
    var k := CongWitness(a, a', m);
    var l := CongWitness(b, b', m);
    var w := k * b + a' * l;
    assert a * b == a' * b + (k * m) * b;
    assert a' * b == a' * b' + a' * (l * m);
    assert w * m == (k * m) * b + a' * (l * m);
    CongMultiple(a * b, a' * b', w, m);
  }

  lemma CongMod(a: int, m: int)
    requires m > 0
    ensures Cong(a % m, a, m)
  {
    CongMultiple(a, a % m, a / m, m);
  }

  lemma ModMul(a: int, b: int, m: int)
    requires m > 0
    ensures ((a % m) * b) % m == (a * b) % m && (b * (a % m)) % m == (b * a) % m
  {
    CongMod(a, m);
    CongMul(a % m, a, b, b, m);
    CongMul(b, b, a % m, a, m);
  }

  lemma CongSmall(a: int, b: int, m: int)
    requires m > 0 && Cong(a, b, m) && 0 <= a < m && 0 <= b < m
    ensures a == b
  {
    DivModUnique(a, 0, a, m);
    DivModUnique(b, 0, b, m);
  }

  lemma DivDiv(x: int, a: int, b: int)
    requires a > 0 && b > 0
    ensures a * b > 0 && x / (a * b) == (x / a) / b
  {
    var q := x / a;
    var r, r' := x % a, q % b;
    MulPositive(a, b);
    QuotientAndRest(x, a);
    QuotientAndRest(q, b);
    NestedQuotient(a, b, q / b, r', r);
    NestedRest(a, b, r', r);
    DivModUnique(x, q / b, a * r' + r, a * b);
  }

  lemma QuotientAndRest(x: int, a: int)
    requires a > 0
    ensures x == a * (x / a) + x % a && 0 <= x % a < a
  {}

  lemma NestedRest(a: int, b: int, r': int, r: int)
    requires 0 <= r < a && 0 <= r' < b
    ensures 0 <= a * r' + r < a * b
  {
    MulMono(0, r', a);
    MulMono(r' + 1, b, a);
  }

  lemma NestedQuotient(a: int, b: int, c: int, r': int, r: int)
    ensures a * (b * c + r') + r == (a * b) * c + (a * r' + r)
  {
    MulAssoc(a, b, c);
  }

  // ----- digits of digits

  /** Digit r, in base b, of x: `(x >> 8r) & 0xFF` for bytes, `(x >> r) & 1` for bits. */
  function SubDigit(b: nat, x: int, r: nat): (d: int)
    requires b > 0
    ensures 0 <= d < b
  {
    (x / Pow(b, r)) % b
  }

  /** When t digits in base b fill one in base B, digit t*q + r of a number is digit r of digit q. */
  lemma DigitOfDigit(b: nat, t: nat, B: nat, s: seq<int>, q: nat, r: nat)
    requires b > 0 && r < t && Pow(b, t) == B && Digits(B, s)
    ensures SubDigit(b, Val(B, s), t * q + r) == SubDigit(b, if q < |s| then s[q] else 0, r)
  {
    hide Val, Pow, SubDigit;
    ValBounds(B, s);
    DigitSplit(b, t, B, Val(B, s), q, r);
    DigitOrZero(B, s, q);
  }

  lemma DigitOrZero(B: int, s: seq<int>, q: nat)
    requires B > 0 && Digits(B, s)
    ensures (Val(B, s) / Pow(B, q)) % B == if q < |s| then s[q] else 0
  {
    if q < |s| {
      ValDigit(B, s, q);
    } else {
      AboveTop(B, s, q);
    }
  }

  lemma DigitSplit(b: nat, t: nat, B: nat, v: nat, q: nat, r: nat)
    requires b > 0 && r < t && Pow(b, t) == B
    ensures SubDigit(b, v, t * q + r) == SubDigit(b, (v / Pow(B, q)) % B, r)
  {
    hide Pow;
    PowSplit(b, t, B, q, r);
    DivDiv(v, Pow(B, q), Pow(b, r));
    DigitOfQuotient(v / Pow(B, q), Pow(b, r), b, Pow(b, t - 1 - r), B);
  }

  lemma PowSplit(b: nat, t: nat, B: nat, q: nat, r: nat)
    requires r < t && Pow(b, t) == B
    ensures Pow(b, t * q + r) == Pow(B, q) * Pow(b, r)
    ensures Pow(b, r) * (b * Pow(b, t - 1 - r)) == B
  {
    hide Pow;
    PowAdd(b, t * q, r);
    PowMul(b, t, q);
    PowNext(b, t - 1 - r);
    PowAdd(b, r, t - r);
  }

  lemma DigitOfQuotient(w: nat, p: int, b: int, h: int, B: int)
    requires p > 0 && b > 0 && B > 0 && p * (b * h) == B
    ensures ((w % B) / p) % b == (w / p) % b
  {
    var q, x := w / B, w % B;
    assert w == B * q + x && x == p * (x / p) + x % p;
    assert (p * (b * h)) * q == p * ((b * h) * q);
    DivModUnique(w, (b * h) * q + x / p, x % p, p);
    assert (b * h) * q == (h * q) * b;
    CongMultiple(w / p, x / p, h * q, b);
  }

  lemma {:induction false} AboveTop(B: int, s: seq<int>, q: nat)
    requires B > 0 && Digits(B, s) && |s| <= q
    ensures Val(B, s) / Pow(B, q) == 0
  {
    hide Val, Pow;
    ValBounds(B, s);
    PowAdd(B, |s|, q - |s|);
    MulMono(1, Pow(B, q - |s|), Pow(B, |s|));
    DivModUnique(Val(B, s), 0, Val(B, s), Pow(B, q));
  }
}
