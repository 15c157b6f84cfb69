/** Powers of two, divisibility and primes: the integer facts the other modules share. */
module Arith {

  const TWO127: nat := 0x8000_0000_0000_0000_0000_0000_0000_0000
  const TWO128: nat := 0x1_0000_0000_0000_0000_0000_0000_0000_0000

  function Pow2(n: nat): (r: nat)
    ensures r > 0
  {
    if n == 0 then 1 else 2 * Pow2(n - 1)
  }

  lemma {:induction false} Pow2Add(a: nat, b: nat)
    ensures Pow2(a + b) == Pow2(a) * Pow2(b)
  {
    if a > 0 {
      Pow2Add(a - 1, b);
      assert a + b - 1 == a - 1 + b;
    }
  }

  lemma {:induction false} Pow2Monotone(a: nat, b: nat)
    requires a <= b
    ensures Pow2(a) <= Pow2(b)
  {
    if a < b {
      Pow2Monotone(a, b - 1);
    }
  }

  lemma MulAssoc(x: int, y: int, z: int)
    ensures x * (y * z) == (x * y) * z
  {
  }

  lemma MulComm(x: int, y: int)
    ensures x * y == y * x
  {
  }

  lemma MulAtLeast(d: nat, k: int)
    requires k >= 1
    ensures d * k >= d
  {
    assert d * (k - 1) >= 0;
  }

  lemma MulBound(a: int, b: int, m: int, n: int)
    requires 0 <= a <= m && 0 <= b <= n
    ensures 0 <= a * b <= m * n
  {
    assert m * n - a * b == m * (n - b) + (m - a) * b;
  }

  /** Quotient and remainder are determined by x == d * q + r and 0 <= r < d. */
  lemma DivUnique(x: int, d: nat, q: int, r: nat)
    requires x == d * q + r && r < d
    ensures x / d == q && x % d == r
  {
    var k := x / d - q;
    assert d * k == d * (x / d) - d * q;
    if k >= 1 { MulAtLeast(d, k); }
    if k <= -1 { MulAtLeast(d, -k); }
  }

  /** Halving the divisor appends one more bit to the quotient. */
  lemma DivTwice(x: nat, f: nat)
    requires f > 0
    ensures x / f == 2 * (x / (2 * f)) + (x / f) % 2
  {
    var q, r := x / (2 * f), x % (2 * f);
    assert x == 2 * f * q + r;
    assert 2 * f * q == f * (2 * q);
    if r < f {
      DivUnique(x, f, 2 * q, r);
    } else {
      assert f * (2 * q + 1) == f * (2 * q) + f;
      DivUnique(x, f, 2 * q + 1, r - f);
    }
  }

  lemma DivSmall(x: nat, d: nat)
    requires x < d
    ensures x / d == 0 && x % d == x
  {
    DivUnique(x, d, 0, x);
  }

  /** d divides n; written with an explicit cofactor so that proofs can name it. */
  ghost predicate Divides(d: int, n: int) {
    exists k: int :: n == k * d
  }

  lemma DividesLinear(d: int, a: int, b: int, u: int, v: int)
    requires Divides(d, a) && Divides(d, b)
    ensures Divides(d, u * a + v * b)
  {
    var i :| a == i * d;
    var j :| b == j * d;
    assert u * a + v * b == (u * i + v * j) * d;
  }

  lemma DividesSub(d: int, a: int, b: int)
    requires Divides(d, a) && Divides(d, b)
    ensures Divides(d, a - b)
  {
    DividesLinear(d, a, b, 1, -1);
  }

  lemma DividesAdd(d: int, a: int, b: int)
    requires Divides(d, a) && Divides(d, b)
    ensures Divides(d, a + b)
  {
    DividesLinear(d, a, b, 1, 1);
  }

  lemma DividesZero(d: int)
    ensures Divides(d, 0)
  {
    assert 0 == 0 * d;
  }

  lemma DividesSelf(d: int)
    ensures Divides(d, d)
  {
    assert d == 1 * d;
  }

  /** A positive multiple is at least its divisor. */
  lemma DividesBound(d: int, n: int)
    requires Divides(d, n) && n > 0
    ensures d <= n
  {
    var k :| n == k * d;
    if d > 0 {
      assert k <= 0 ==> k * d <= 0;
      assert (k - 1) * d >= 0;
    }
  }

  ghost predicate CommonDivisor(d: int, vals: seq<int>, n: nat)
    requires n <= |vals|
  {
    forall i :: 0 <= i < n ==> Divides(d, vals[i])
  }

  /** v is the greatest common divisor of the first n values, up to its sign: their common divisors are exactly
      the divisors of v. */
  ghost predicate IsGcd(v: int, vals: seq<int>, n: nat)
    requires n <= |vals|
  {
    forall d :: CommonDivisor(d, vals, n) <==> Divides(d, v)
  }

  ghost predicate IsPrime(p: int) {
    p >= 2 && forall d: int :: 1 < d < p ==> !Divides(d, p)
  }

  /** Below a prime every positive number is invertible modulo it. */
  lemma {:induction false} PrimeBezout(k: int, l: int) returns (u: int, v: int)
    requires IsPrime(l) && 0 < k < l
    ensures u * k + v * l == 1
    decreases k
  {
    if k == 1 {
      return 1, 0;
    }
    var q, r := l / k, l % k;
    assert l == q * k + r;
    if r == 0 {
      assert Divides(k, l);
      assert false;
    }
    var u', v' := PrimeBezout(r, l);
    BezoutStep(k, l, q, r, u', v');
    return -(u' * q), u' + v';
  }

  lemma BezoutStep(k: int, l: int, q: int, r: int, u: int, v: int)
    requires l == q * k + r && u * r + v * l == 1
    ensures -(u * q) * k + (u + v) * l == 1
  {
    assert u * r == u * l - u * (q * k);
    assert u * (q * k) == (u * q) * k;
  }
}
