/** Fermat's little theorem, which is why the exponent p - 2 inverts. */
module Fermat {
  import opened Arith
  import opened Congruence

  function Choose(n: nat, k: nat): nat {
    if k == 0 then 1 else if n == 0 then 0 else Choose(n - 1, k - 1) + Choose(n - 1, k)
  }

  lemma {:induction false} ChooseAbove(n: nat, k: nat)
    requires k > n
    ensures Choose(n, k) == 0
  {
    if n > 0 {
      ChooseAbove(n - 1, k - 1);
      ChooseAbove(n - 1, k);
    }
  }

  lemma {:induction false} ChooseSelf(n: nat)
    ensures Choose(n, n) == 1
  {
    if n > 0 {
      ChooseSelf(n - 1);
      ChooseAbove(n - 1, n);
    }
  }

  lemma AbsorbStep(n: int, k: int, a: int, b: int, c: int, e: int)
    requires k * b == (n - 1) * e && (k - 1) * a == (n - 1) * c && a == c + e
    ensures k * (a + b) == n * a
  {
    assert k * (a + b) == (k - 1) * a + a + k * b;
    assert (n - 1) * c + (n - 1) * e == (n - 1) * a;
  }

  lemma {:induction false} Absorb(n: nat, k: nat)
    requires n >= 1 && k >= 1
    ensures k * Choose(n, k) == n * Choose(n - 1, k - 1)
    decreases n
  {
    if n == 1 {
      if k > 1 {
        ChooseAbove(0, k - 1);
        ChooseAbove(1, k);
      }
    } else if k == 1 {
      Absorb(n - 1, 1);
    } else {
      Absorb(n - 1, k);
      Absorb(n - 1, k - 1);
      AbsorbStep(n, k, Choose(n - 1, k - 1), Choose(n - 1, k), Choose(n - 2, k - 2), Choose(n - 2, k - 1));
    }
  }

  /** The terms C(n, i) x^i with i <= m. */
  function Terms(n: nat, x: int, m: nat): int {
    Choose(n, m) * Exp(x, m) + if m == 0 then 0 else Terms(n, x, m - 1)
  }

  lemma TermsArith(a: int, b: int, x: int, e: int, s: int, t: int)
    requires s == a * e + t
    ensures (a + b) * (x * e) + (s + x * t) == b * (x * e) + s + x * s
  {
    assert (a + b) * (x * e) == a * (x * e) + b * (x * e);
    assert a * (x * e) == x * (a * e);
    assert x * s == x * (a * e) + x * t;
  }

  lemma {:induction false} TermsStep(n: nat, x: int, m: nat)
    requires m >= 1
    ensures Terms(n + 1, x, m) == Terms(n, x, m) + x * Terms(n, x, m - 1)
  {
    var a, b, e := Choose(n, m - 1), Choose(n, m), Exp(x, m - 1);
    if m == 1 {
      TermsArith(a, b, x, e, 1, 0);
      assert Terms(n + 1, x, 0) == 1 && Terms(n, x, 0) == 1;
    } else {
      TermsStep(n, x, m - 1);
      TermsArith(a, b, x, e, Terms(n, x, m - 1), Terms(n, x, m - 2));
    }
  }

  lemma {:induction false} Binomial(n: nat, x: int)
    ensures Terms(n, x, n) == Exp(x + 1, n)
  {
    if n > 0 {
      Binomial(n - 1, x);
      TermsStep(n - 1, x, n);
      ChooseAbove(n - 1, n);
      var s := Terms(n - 1, x, n - 1);
      assert Terms(n - 1, x, n) == s;
      assert s + x * s == (x + 1) * s;
    }
  }

  lemma BezoutTimes(p: int, k: int, u: int, v: int, c: int, e: int)
    requires k * c == p * e && u * k + v * p == 1
    ensures c == p * (u * e + v * c)
  {
    assert c == (u * k + v * p) * c == u * (k * c) + p * (v * c);
    assert u * (p * e) == p * (u * e);
  }

  /** A prime divides its binomial coefficients. */
  lemma PrimeChoose(p: nat, k: nat) returns (q: int)
    requires IsPrime(p) && 0 < k < p
    ensures Choose(p, k) == p * q
  {
    hide Choose, IsPrime;
    Absorb(p, k);
    var u, v := PrimeBezout(k, p);
    BezoutTimes(p, k, u, v, Choose(p, k), Choose(p - 1, k - 1));
    q := u * Choose(p - 1, k - 1) + v * Choose(p, k);
  }

  lemma MiddleArith(p: int, r: int, s: int, e: int)
    ensures 1 + p * r + (p * s) * e == 1 + p * (r + s * e)
  {
    assert (p * s) * e == p * (s * e);
  }

  lemma {:induction false} MiddleTerms(p: nat, x: int, m: nat) returns (q: int)
    requires IsPrime(p) && m < p
    ensures Terms(p, x, m) == 1 + p * q
  {
    hide IsPrime, Exp, Choose;
    if m == 0 {
      q := 0;
      FirstTerm(p, x);
    } else {
      var r := MiddleTerms(p, x, m - 1);
      var s := PrimeChoose(p, m);
      q := r + s * Exp(x, m);
      MiddleArith(p, r, s, Exp(x, m));
    }
  }

  lemma FirstTerm(p: nat, x: int)
    ensures Terms(p, x, 0) == 1
  {
  }

  /** x^p = x (mod p) */
  lemma {:induction false} PowerOfPrime(p: nat, x: nat) returns (q: int)
    requires IsPrime(p)
    ensures Exp(x, p) == x + p * q
  {
    if x == 0 {
      q := 0;
    } else {
      var r := PowerOfPrime(p, x - 1);
      var s := MiddleTerms(p, x - 1, p - 1);
      Binomial(p, x - 1);
      ChooseSelf(p);
      q := r + s;
      assert p * q == p * r + p * s;
    }
  }

  /** Modulo the prime p a product vanishes only if a factor does. */
  lemma NoZeroDivisors(a: int, b: int)
    requires IsPrime(PRIME)
    requires Cg(a * b, 0)
    ensures Cg(a, 0) || Cg(b, 0)
  {
    hide IsPrime;
    if !Cg(a, 0) {
      var k, r := a / PRIME, a % PRIME;
      if r == 0 {
        CgByMultiple(a, 0, k);
      }
      var u, v := PrimeBezout(r, PRIME);
      var m := CgMultiple(a * b, 0);
      Bezout(PRIME, u, v, r, a, b, k, m);
      CgByMultiple(b, 0, u * m - u * (k * b) + v * b);
    }
  }

  lemma Bezout(p: int, u: int, v: int, r: int, a: int, b: int, k: int, m: int)
    requires u * r + v * p == 1 && a == p * k + r && a * b == p * m
    ensures b == p * (u * m - u * (k * b) + v * b)
  {
    assert b == (u * r + v * p) * b == u * (r * b) + p * (v * b);
    assert r * b == p * m - p * (k * b);
    assert u * (p * m - p * (k * b)) == p * (u * m) - p * (u * (k * b));
  }

  lemma CgCancel(a: int, b: int, c: int)
    requires IsPrime(PRIME) && !Cg(c, 0) && Cg(a * c, b * c)
    ensures Cg(a, b)
  {
    hide IsPrime;
    CgSub(a * c, b * c, b * c, b * c);
    assert a * c - b * c == (a - b) * c;
    NoZeroDivisors(a - b, c);
    if Cg(a - b, 0) {
      CgAdd(a - b, 0, b, b);
    }
  }

  /** x^(p - 1) = 1 (mod p) unless p divides x. */
  lemma LittleTheorem(x: int)
    requires IsPrime(PRIME) && !Cg(x, 0)
    ensures Cg(Exp(x, PRIME - 1), 1)
  {
    hide IsPrime, Exp;
    var r := Residue(x);
    CgResidue(x);
    var q := PowerOfPrime(PRIME, r);
    CgByMultiple(Exp(r, PRIME), r, q);
    CgExp(x, r, PRIME);
    ExpSucc(x, PRIME - 1);
    CgCancel(Exp(x, PRIME - 1), 1, x);
  }

  lemma ExpSucc(x: int, n: nat)
    ensures Exp(x, n + 1) == Exp(x, n) * x
  {
  }

  /** What curve25519_recip computes is the inverse modulo p. */
  lemma RecipInverts(v: int, x: int)
    requires IsPrime(PRIME) && !Cg(x, 0) && IsPower(v, x, PRIME - 2)
    ensures Cg(v * x, 1)
  {
    hide IsPrime, Exp;
    LittleTheorem(x);
    ExpSucc(x, PRIME - 2);
    CgMul(v, Exp(x, PRIME - 2), x, x);
  }
}
