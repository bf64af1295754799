/**
 Fermat's theorem, which makes a^(m-2) the inverse of a modulo a prime m. The proof is the one by the binomial formula:
 a prime divides the inner binomial coefficients of its row, so (a + 1)^p and a^p + 1 leave the same residue.
 */
module Fermat {
  import opened Radix

  ghost predicate IsPrime(p: int) {
    p > 1 && forall d :: 1 < d < p ==> p % d != 0
  }

  // ----- Euclid's lemma

  lemma MultipleIsZero(k: int, p: int)
    requires p > 0
    ensures (k * p) % p == 0
  {
    DivModUnique(k * p, k, 0, p);
  }

  /** A number smaller than a prime has no factor in common with it. */
  lemma {:induction false} SmallFactor(k: int, b: int, p: int)
    requires IsPrime(p) && 0 < k < p && (k * b) % p == 0
    ensures b % p == 0
    decreases k
  {
    if k > 1 {
      var r := p % k;
      RestDivides(k, b, p);
      SmallFactor(r, b, p);
    }
  }

  lemma RestDivides(k: int, b: int, p: int)
    requires 0 < k < p && (k * b) % p == 0
    ensures ((p % k) * b) % p == 0
  {
    var q, w := p / k, (k * b) / p;
    QuotientAndRest(p, k);
    QuotientAndRest(k * b, p);
    var r := p % k;
    assert r * b == p * b - q * (k * b) by {
      assert (k * q + r) * b == q * (k * b) + r * b;
    }
    assert r * b == (b - q * w) * p by {
      assert q * (p * w) == (q * w) * p;
    }
    MultipleIsZero(b - q * w, p);
  }

  /** A prime that divides a product divides one of the factors. */
  lemma Euclid(a: int, b: int, p: int)
    requires IsPrime(p) && (a * b) % p == 0
    ensures a % p == 0 || b % p == 0
  {
    if a % p != 0 {
      ModMul(a, b, p);
      SmallFactor(a % p, b, p);
    }
  }

  // ----- binomial coefficients

  function Choose(n: nat, k: nat): nat {
    if k == 0 then 1 else if n == 0 then 0 else Choose(n - 1, k - 1) + Choose(n - 1, k)
  }

  lemma ChoosePascal(n: nat, k: nat)
    ensures Choose(n, 0) == 1
    ensures Choose(n + 1, k + 1) == Choose(n, k) + Choose(n, k + 1)
  {}

  lemma {:induction false} ChooseEnds(n: nat, k: nat)
    requires k >= n
    ensures Choose(n, k) == if k == n then 1 else 0
  {
    if n > 0 {
      ChooseEnds(n - 1, k - 1);
      ChooseEnds(n - 1, k);
    }
  }

  lemma {:induction false} ChooseAbsorb(n: nat, k: nat)
    ensures (k + 1) * Choose(n + 1, k + 1) == (n + 1) * Choose(n, k)
  {
    hide Choose;
    ChoosePascal(n, k);
    if n == 0 {
      ChooseEnds(0, k + 1);
      ChooseEnds(0, k);
    } else {
      ChooseAbsorb(n - 1, k);
      if k > 0 {
        ChooseAbsorb(n - 1, k - 1);
        ChoosePascal(n - 1, k - 1);
        AbsorbStep(n, k, Choose(n, k), Choose(n - 1, k), Choose(n - 1, k - 1), Choose(n, k + 1));
      } else {
        ChoosePascal(n - 1, 0);
      }
    }
  }

  lemma AbsorbStep(n: int, k: int, x: int, y: int, z: int, w: int)
    requires (k + 1) * w == n * y && k * x == n * z && x == z + y
    ensures (k + 1) * (x + w) == (n + 1) * x
  {}

  /** A prime divides the inner coefficients of its row. */
  lemma PrimeDividesChoose(p: nat, k: nat)
    requires IsPrime(p) && 0 < k < p
    ensures Choose(p, k) % p == 0
  {
    hide Choose, IsPrime;
    ChooseAbsorb(p - 1, k - 1);
    var c := Choose(p - 1, k - 1);
    MultipleIsZero(c, p);
    assert k * Choose(p, k) == c * p;
    SmallFactor(k, Choose(p, k), p);
  }

  // ----- the binomial formula

  /** The first k terms of the expansion of (a + 1)^n. */
  function Terms(a: int, n: nat, k: nat): int {
    if k == 0 then 0 else Terms(a, n, k - 1) + Choose(n, k - 1) * Pow(a, k - 1)
  }

  lemma TermsNext(a: int, n: nat, k: nat)
    ensures Terms(a, n, 0) == 0
    ensures Terms(a, n, k + 1) == Terms(a, n, k) + Choose(n, k) * Pow(a, k)
  {}

  lemma {:induction false} TermsPascal(a: int, n: nat, k: nat)
    ensures Terms(a, n + 1, k + 1) == Terms(a, n, k + 1) + a * Terms(a, n, k)
  {
    hide Choose, Terms, Pow;
    TermsNext(a, n + 1, k);
    TermsNext(a, n, k);
    if k == 0 {
      ChoosePascal(n, 0);
      ChoosePascal(n + 1, 0);
    } else {
      TermsPascal(a, n, k - 1);
      TermsNext(a, n, k - 1);
      ChoosePascal(n, k - 1);
      PowNext(a, k - 1);
      PascalTerm(a, Choose(n, k - 1), Choose(n, k), Pow(a, k - 1));
    }
  }

  lemma PascalTerm(a: int, c: int, c': int, p: int)
    ensures (c + c') * (a * p) == c' * (a * p) + a * (c * p)
  {}

  lemma {:induction false} Binomial(a: int, n: nat)
    ensures Pow(a + 1, n) == Terms(a, n, n + 1)
  {
    hide Choose, Terms, Pow;
    TermsNext(a, n, n);
    if n == 0 {
      ValNil(a);
      ValNil(a + 1);
      ChooseEnds(0, 0);
    } else {
      Binomial(a, n - 1);
      PowNext(a + 1, n - 1);
      TermsPascal(a, n - 1, n);
      TermsNext(a, n - 1, n);
      ChooseEnds(n - 1, n);
    }
  }

  lemma {:induction false} InnerTerms(a: int, p: nat, k: nat)
    requires IsPrime(p) && 0 < k <= p
    ensures Cong(Terms(a, p, k), 1, p)
  {
    hide Choose, Terms, Pow, IsPrime;
    TermsNext(a, p, k - 1);
    if k == 1 {
      ChoosePascal(p, 0);
      ValNil(a);
    } else {
      InnerTerms(a, p, k - 1);
      PrimeDividesChoose(p, k - 1);
      QuotientAndRest(Choose(p, k - 1), p);
      var q, w := Choose(p, k - 1) / p, Pow(a, k - 1);
      assert (p * q) * w == (q * w) * p;
      CongMultiple(Terms(a, p, k), Terms(a, p, k - 1), q * w, p);
      CongTrans(Terms(a, p, k), Terms(a, p, k - 1), 1, p);
    }
  }

  lemma PowerOfSum(a: int, p: nat)
    requires IsPrime(p)
    ensures Cong(Pow(a + 1, p), Pow(a, p) + 1, p)
  {
    hide Choose, Terms, Pow, Cong;
    Binomial(a, p);
    TermsNext(a, p, p);
    ChooseEnds(p, p);
    InnerTerms(a, p, p);
    CongMultiple(Pow(a, p), Pow(a, p), 0, p);
    CongAdd(Terms(a, p, p), 1, Pow(a, p), Pow(a, p), p);
  }

  // ----- the theorem

  /** a^p and a leave the same residue modulo a prime p. */
  lemma {:induction false} Little(a: nat, p: nat)
    requires IsPrime(p)
    ensures Cong(Pow(a, p), a, p)
  {
    hide Pow, Cong;
    if a == 0 {
      PowNext(0, p - 1);
      CongMultiple(0, 0, 0, p);
    } else {
      Little(a - 1, p);
      PowerOfSum(a - 1, p);
      CongMultiple(1, 1, 0, p);
      CongAdd(Pow(a - 1, p), a - 1, 1, 1, p);
      CongTrans(Pow(a, p), Pow(a - 1, p) + 1, a, p);
    }
  }

  /** And a^(p-1) leaves 1, unless p divides a. */
  lemma LittleOne(a: nat, p: nat)
    requires IsPrime(p) && a % p != 0
    ensures Pow(a, p - 1) % p == 1
  {
    hide Pow;
    Little(a, p);
    PowNext(a, p - 1);
    var x := Pow(a, p - 1);
    var k := CongWitness(a * x, a, p);
    assert a * (x - 1) == k * p;
    MultipleIsZero(k, p);
    Euclid(a, x - 1, p);
    QuotientAndRest(x - 1, p);
    DivModUnique(x, (x - 1) / p, 1, p);
  }

  /** Modulo a prime m, a^(m-2) is an inverse of a, which there is exactly when m does not divide a. */
  lemma Inverse(a: nat, m: nat)
    requires IsPrime(m)
    ensures (a * (Pow(a, m - 2) % m)) % m == if a % m == 0 then 0 else 1
  {
    hide Pow;
    InverseProduct(a, m);
    if a % m == 0 {
      PowNext(a, m - 2);
      QuotientAndRest(a, m);
      var x, q := Pow(a, m - 2), a / m;
      assert (m * q) * x == (q * x) * m;
      MultipleIsZero(q * x, m);
    } else {
      LittleOne(a, m);
    }
  }

  lemma InverseProduct(a: int, m: int)
    requires m > 1
    ensures (a * (Pow(a, m - 2) % m)) % m == Pow(a, m - 1) % m
  {
    hide Pow;
    PowNext(a, m - 2);
    CongMod(Pow(a, m - 2), m);
    CongMultiple(a, a, 0, m);
    CongMul(a, a, Pow(a, m - 2) % m, Pow(a, m - 2), m);
  }
}
