/** Congruence modulo p = 2^255 - 19. */
module Congruence {
  import opened Arith

  const PRIME: int := 0x7fffffffffffffffffffffffffffffffffffffffffffffffffffffffffffffed
  const TWO255: int := 0x8000000000000000000000000000000000000000000000000000000000000000

  // Residues and the products in the curve's predicates are kept uninterpreted: naming Open(t) for some t makes
  // their defining properties available, and only ResidueIs and ProductIs do. Everywhere else congruence is plain
  // equality of terms, and polynomials never meet the modulo operator.
  ghost predicate Open(t: int) {
    true
  }

  ghost predicate IsResidue(n: int, r: int) {
    forall t {:trigger Open(t)} :: Open(t) ==> r == n % PRIME
  }

  lemma ResidueExists(n: int)
    ensures exists r: int :: IsResidue(n, r)
  {
    assert IsResidue(n, n % PRIME);
  }

  /** The residue of n in [0, p). */
  ghost function Residue(n: int): int {
    ResidueExists(n);
    var r :| IsResidue(n, r);
    r
  }

  ghost predicate IsProduct(a: int, b: int, r: int) {
    forall t {:trigger Open(t)} :: Open(t) ==> r == a * b
  }

  lemma ProductExists(a: int, b: int)
    ensures exists r: int :: IsProduct(a, b, r)
  {
    assert IsProduct(a, b, a * b);
  }

  /** a b */
  ghost function Product(a: int, b: int): int {
    ProductExists(a, b);
    var r :| IsProduct(a, b, r);
    r
  }

  lemma ProductIs(a: int, b: int)
    ensures Product(a, b) == a * b
  {
    assert Open(0);
  }

  lemma ResidueIs(n: int)
    ensures Residue(n) == n % PRIME
  {
    assert Open(0);
  }

  /** a = b (mod p) */
  ghost predicate Cg(a: int, b: int) {
    Residue(a) == Residue(b)
  }

  lemma CgByMultiple(a: int, b: int, k: int)
    requires a == b + 0x7fffffffffffffffffffffffffffffffffffffffffffffffffffffffffffffed * k
    ensures Cg(a, b)
  {
    ResidueIs(a);
    ResidueIs(b);
    DivUnique(a, 0x7fffffffffffffffffffffffffffffffffffffffffffffffffffffffffffffed,
        b / 0x7fffffffffffffffffffffffffffffffffffffffffffffffffffffffffffffed + k,
        b % 0x7fffffffffffffffffffffffffffffffffffffffffffffffffffffffffffffed);
  }

  lemma CgMultiple(a: int, b: int) returns (k: int)
    requires Cg(a, b)
    ensures a == b + 0x7fffffffffffffffffffffffffffffffffffffffffffffffffffffffffffffed * k
  {
    ResidueIs(a);
    ResidueIs(b);
    k := a / 0x7fffffffffffffffffffffffffffffffffffffffffffffffffffffffffffffed - b / 0x7fffffffffffffffffffffffffffffffffffffffffffffffffffffffffffffed;
  }

  lemma CgAdd(a: int, b: int, c: int, d: int)
    requires Cg(a, b) && Cg(c, d)
    ensures Cg(a + c, b + d)
  {
    var j := CgMultiple(a, b);
    var k := CgMultiple(c, d);
    CgByMultiple(a + c, b + d, j + k);
  }

  lemma CgSub(a: int, b: int, c: int, d: int)
    requires Cg(a, b) && Cg(c, d)
    ensures Cg(a - c, b - d)
  {
    var j := CgMultiple(a, b);
    var k := CgMultiple(c, d);
    CgByMultiple(a - c, b - d, j - k);
  }

  lemma CgMul(a: int, b: int, c: int, d: int)
    requires Cg(a, b) && Cg(c, d)
    ensures Cg(a * c, b * d)
  {
    var j := CgMultiple(a, b);
    var k := CgMultiple(c, d);
    CgMulArith(a, b, c, d, j, k);
    CgByMultiple(a * c, b * d, j * c + b * k);
  }

  lemma CgMulArith(a: int, b: int, c: int, d: int, j: int, k: int)
    requires a == b + 0x7fffffffffffffffffffffffffffffffffffffffffffffffffffffffffffffed * j
        && c == d + 0x7fffffffffffffffffffffffffffffffffffffffffffffffffffffffffffffed * k
    ensures a * c == b * d + 0x7fffffffffffffffffffffffffffffffffffffffffffffffffffffffffffffed * (j * c + b * k)
  {
    var pj, pk := 0x7fffffffffffffffffffffffffffffffffffffffffffffffffffffffffffffed * j,
        0x7fffffffffffffffffffffffffffffffffffffffffffffffffffffffffffffed * k;
    assert a * c == b * c + pj * c;
    assert b * c == b * d + b * pk;
    assert pj * c == 0x7fffffffffffffffffffffffffffffffffffffffffffffffffffffffffffffed * (j * c);
    assert b * pk == 0x7fffffffffffffffffffffffffffffffffffffffffffffffffffffffffffffed * (b * k);
  }

  lemma CgResidue(a: int)
    ensures Cg(Residue(a), a) && 0 <= Residue(a) < PRIME
  {
    ResidueIs(a);
    CgByMultiple(Residue(a), a, -(a / PRIME));
  }

  /** Residues that are congruent are equal. */
  lemma SameResidue(r: int, x: int)
    requires 0 <= r < PRIME && 0 <= x < PRIME && Cg(r, x)
    ensures r == x
  {
    var k := CgMultiple(r, x);
  }

  /** x^n */
  function Exp(x: int, n: nat): int {
    if n == 0 then 1 else x * Exp(x, n - 1)
  }

  lemma {:induction false} ExpAdd(x: int, m: nat, n: nat)
    ensures Exp(x, m + n) == Exp(x, m) * Exp(x, n)
  {
    if m > 0 {
      ExpAdd(x, m - 1, n);
      assert m + n - 1 == m - 1 + n;
      MulAssoc(x, Exp(x, m - 1), Exp(x, n));
    }
  }

  lemma {:induction false} ExpMul(x: int, m: nat, n: nat)
    ensures Exp(Exp(x, m), n) == Exp(x, m * n)
    decreases n
  {
    if n > 0 {
      ExpMul(x, m, n - 1);
      assert m * n == m + m * (n - 1);
      ExpAdd(x, m, m * (n - 1));
    }
  }

  lemma {:induction false} CgExp(a: int, b: int, n: nat)
    requires Cg(a, b)
    ensures Cg(Exp(a, n), Exp(b, n))
  {
    if n > 0 {
      CgExp(a, b, n - 1);
      CgMul(a, b, Exp(a, n - 1), Exp(b, n - 1));
    } else {
    }
  }

  /** v = x^n (mod p) */
  ghost predicate IsPower(v: int, x: int, n: nat) {
    Cg(v, Exp(x, n))
  }

  lemma PowerSelf(x: int)
    ensures IsPower(x, x, 1)
  {
    assert Exp(x, 1) == x * Exp(x, 0);
  }

  lemma PowerTimes(w: int, u: int, v: int, x: int, m: nat, n: nat)
    requires Cg(w, u * v) && IsPower(u, x, m) && IsPower(v, x, n)
    ensures IsPower(w, x, m + n)
  {
    hide Exp;
    CgMul(u, Exp(x, m), v, Exp(x, n));
    ExpAdd(x, m, n);
  }

  lemma PowerPower(w: int, u: int, x: int, m: nat, n: nat)
    requires IsPower(w, u, n) && IsPower(u, x, m)
    ensures IsPower(w, x, m * n)
  {
    hide Exp;
    CgExp(u, Exp(x, m), n);
    ExpMul(x, m, n);
  }
}
