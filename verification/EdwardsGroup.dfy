/** The curve points under the Edwards addition law. That p is prime, that d is not a square modulo p
    and that the addition is associative are hypotheses (IsEd25519); everything else a group needs is proved. */
module EdwardsGroup {
  import opened Arith
  import opened Congruence
  import opened Fermat
  import opened Groups
  import opened EdwardsCurve

  // ---- the sum of two curve points is a curve point ----

  /** With n1, n2 the numerators of the law, n2^2 - n1^2 and n2^2 + n1^2 factor. */
  lemma Numerators(x1: int, y1: int, x2: int, y2: int, n1: int, n2: int)
    requires n1 == x1 * y2 + x2 * y1 && n2 == y1 * y2 + x1 * x2
    ensures n2 * n2 - n1 * n1 == (y1 * y1 - x1 * x1) * (y2 * y2 - x2 * x2)
    ensures n2 * n2 + n1 * n1 == (y1 * y1 + x1 * x1) * (y2 * y2 + x2 * x2) + 4 * ((x1 * y1) * (x2 * y2))
  {
    var a, b, c, d := x1 * x1, y1 * y1, x2 * x2, y2 * y2;
    var t := (x1 * y1) * (x2 * y2);
    SumSquare(x1 * y2, x2 * y1);
    SumSquare(y1 * y2, x1 * x2);
    SquareOfProduct(x1, y2);
    SquareOfProduct(x2, y1);
    SquareOfProduct(y1, y2);
    SquareOfProduct(x1, x2);
    FourFactors(x1, y1, x2, y2);
    assert (b - a) * (d - c) == b * d - b * c - a * d + a * c;
    assert (b + a) * (d + c) == b * d + b * c + a * d + a * c;
  }

  lemma SumSquare(a: int, b: int)
    ensures (a + b) * (a + b) == a * a + 2 * (a * b) + b * b
  {
  }

  lemma FourFactors(x1: int, y1: int, x2: int, y2: int)
    ensures (x1 * y2) * (x2 * y1) == (x1 * y1) * (x2 * y2)
    ensures (y1 * y2) * (x1 * x2) == (x1 * y1) * (x2 * y2)
  {
    Swapped(x1, y1, x2, y2);
    Swapped(x1, y2, x2, y1);
  }

  /** n1 n2 = m q + n p, with p and q the sums of squares. */
  lemma NumeratorProduct(x1: int, y1: int, x2: int, y2: int)
    ensures (x1 * y2 + x2 * y1) * (y1 * y2 + x1 * x2)
         == (x1 * y1) * (y2 * y2 + x2 * x2) + (x2 * y2) * (y1 * y1 + x1 * x1)
  {
    var m, n := x1 * y1, x2 * y2;
    assert (x1 * y2) * (y1 * y2) == m * (y2 * y2) by { Swapped(x1, y2, y1, y2); }
    assert (x2 * y1) * (x1 * x2) == m * (x2 * x2) by { Swapped(x2, y1, x2, x1); }
    assert (x1 * y2) * (x1 * x2) == n * (x1 * x1) by { Swapped(x1, y2, x1, x2); }
    assert (x2 * y1) * (y1 * y2) == n * (y1 * y1) by { Swapped(x2, y1, y2, y1); }
    Expand4(x1 * y2, x2 * y1, y1 * y2, x1 * x2);
    Distribute2(m, y2 * y2, x2 * x2);
    Distribute2(n, y1 * y1, x1 * x1);
  }

  lemma Expand4(a: int, b: int, c: int, d: int)
    ensures (a + b) * (c + d) == a * c + a * d + b * c + b * d
  {
  }

  lemma Distribute2(m: int, a: int, b: int)
    ensures m * (a + b) == m * a + m * b
  {
  }

  lemma SumOfSquares(x: int, y: int)
    ensures (y * y + x * x) * (y * y + x * x) == (y * y - x * x) * (y * y - x * x) + 4 * ((x * y) * (x * y))
  {
    var a, b := x * x, y * y;
    SquareOfProduct(x, y);
    assert (b + a) * (b + a) == (b - a) * (b - a) + 4 * (a * b);
  }

  /** d (m q + n p)^2 */
  lemma ThirdTerm(d: int, m: int, n: int, p: int, q: int, r: int)
    requires r == m * q + n * p
    ensures d * (r * r) == (d * (m * m)) * (q * q) + (d * (n * n)) * (p * p) + 2 * ((d * (m * n)) * (p * q))
  {
    SumSquare(m * q, n * p);
    SquareOfProduct(m, q);
    SquareOfProduct(n, p);
    Swapped(m, q, n, p);
    var a, b, c := m * m, n * n, m * n;
    assert d * (a * (q * q)) == (d * a) * (q * q);
    assert d * (b * (p * p)) == (d * b) * (p * p);
    assert d * (c * (q * p)) == (d * c) * (p * q);
    assert r * r == a * (q * q) + 2 * (c * (q * p)) + b * (p * p);
    assert d * (r * r) == d * (a * (q * q)) + 2 * (d * (c * (q * p))) + d * (b * (p * p));
  }

  /** The curve equation of the sum, cleared of denominators; what is left vanishes once
      y^2 - x^2 is replaced by 1 + d x^2 y^2 at both points. */
  lemma ClosureIdentity(x1: int, y1: int, x2: int, y2: int, d: int, n1: int, n2: int, m: int, n: int, k: int, u: int,
      v: int, a: int, b: int)
    requires n1 == x1 * y2 + x2 * y1 && n2 == y1 * y2 + x1 * x2 && m == x1 * y1 && n == x2 * y2
    requires k == d * (m * n) && u == d * (m * m) && v == d * (n * n)
    requires a == y1 * y1 - x1 * x1 && b == y2 * y2 - x2 * x2
    ensures (n2 * n2) * ((1 + k) * (1 + k)) - (n1 * n1) * ((1 - k) * (1 - k)) - d * ((n1 * n2) * (n1 * n2))
         == (a * b) * (1 + k * k) - u * (b * b) - v * (a * a)
  {
    var p, q := y1 * y1 + x1 * x1, y2 * y2 + x2 * x2;
    Numerators(x1, y1, x2, y2, n1, n2);
    NumeratorProduct(x1, y1, x2, y2);
    SumOfSquares(x1, y1);
    SumOfSquares(x2, y2);
    ThirdTerm(d, m, n, p, q, n1 * n2);
    assert k * (m * n) == u * (n * n) == v * (m * m) by {
      SquareOfProduct(m, n);
      assert (d * (m * n)) * (m * n) == d * ((m * n) * (m * n));
      assert (d * (m * m)) * (n * n) == d * ((m * m) * (n * n));
      assert (d * (n * n)) * (m * m) == d * ((m * m) * (n * n));
    }
    ClosureLinear(n2 * n2, n1 * n1, k, a * b, p * q, m * n, u, v, q * q, p * p, b * b, a * a, n * n, m * m,
        d * ((n1 * n2) * (n1 * n2)));
  }

  lemma ClosureLinear(f: int, g: int, k: int, ab: int, pq: int, mn: int, u: int, v: int, qq: int, pp: int,
                      bb: int, aa: int, nn: int, mm: int, t: int)
    requires f - g == ab && f + g == pq + 4 * mn && qq == bb + 4 * nn && pp == aa + 4 * mm
    requires t == u * qq + v * pp + 2 * (k * pq) && k * mn == u * nn == v * mm
    ensures f * ((1 + k) * (1 + k)) - g * ((1 - k) * (1 - k)) - t == ab * (1 + k * k) - u * bb - v * aa
  {
    PlusMinus(f, g, k);
    PlusFour(k, pq, mn);
    PlusFour(u, bb, nn);
    PlusFour(v, aa, mm);
  }

  lemma PlusFour(k: int, p: int, m: int)
    ensures k * (p + 4 * m) == k * p + 4 * (k * m)
  {
  }

  lemma PlusMinus(f: int, g: int, k: int)
    ensures f * ((1 + k) * (1 + k)) - g * ((1 - k) * (1 - k)) == (f - g) * (1 + k * k) + 2 * (k * (f + g))
  {
    var s := 1 + k * k;
    assert (1 + k) * (1 + k) == s + 2 * k;
    assert (1 - k) * (1 - k) == s - 2 * k;
    assert f * (s + 2 * k) == f * s + 2 * (k * f);
    assert g * (s - 2 * k) == g * s - 2 * (k * g);
  }

  /** (1 + u)(1 + v)(1 + uv) - u (1 + v)^2 - v (1 + u)^2 = (1 - uv)^2 */
  lemma UnitIdentity(u: int, v: int, w: int)
    requires w == u * v
    ensures ((1 + u) * (1 + v)) * (1 + w) - u * ((1 + v) * (1 + v)) - v * ((1 + u) * (1 + u)) == (1 - w) * (1 - w)
  {
    var s := u + v;
    assert (1 + u) * (1 + v) == 1 + s + w;
    UnitTerm(u, v);
    UnitTerm(v, u);
    UnitLinear(u, v, w);
  }

  lemma UnitTerm(u: int, v: int)
    ensures u * ((1 + v) * (1 + v)) == u + 2 * (u * v) + (u * v) * v
  {
    assert (1 + v) * (1 + v) == 1 + 2 * v + v * v;
    assert u * (v * v) == (u * v) * v;
    assert u * (1 + 2 * v + v * v) == u + 2 * (u * v) + u * (v * v);
  }

  lemma UnitLinear(u: int, v: int, w: int)
    ensures (1 + (u + v) + w) * (1 + w) - (u + 2 * w + w * v) - (v + 2 * w + w * u) == (1 - w) * (1 - w)
  {
  }

  // ---- congruence ----

  /** The left side of ClosureIdentity, modulo p, at two curve points. */
  lemma ClosureCongruence(a: int, b: int, u: int, v: int, k: int)
    requires Cg(a, 1 + u) && Cg(b, 1 + v) && k * k == u * v
    ensures Cg((a * b) * (1 + k * k) - u * (b * b) - v * (a * a), (1 - k * k) * (1 - k * k))
  {
    CgMul(a, 1 + u, b, 1 + v);
    CgMul(a, 1 + u, a, 1 + u);
    CgMul(b, 1 + v, b, 1 + v);
    CgMul(a * b, (1 + u) * (1 + v), 1 + k * k, 1 + k * k);
    CgMul(u, u, b * b, (1 + v) * (1 + v));
    CgMul(v, v, a * a, (1 + u) * (1 + u));
    var s, t, r := (a * b) * (1 + k * k), u * (b * b), v * (a * a);
    var s', t', r' := ((1 + u) * (1 + v)) * (1 + k * k), u * ((1 + v) * (1 + v)), v * ((1 + u) * (1 + u));
    CgSub(s, s', t, t');
    CgSub(s - t, s' - t', r, r');
    UnitIdentity(u, v, k * k);
  }

  /** Clearing the denominators e1, e2 of the curve equation. */
  lemma Cleared(x: int, y: int, d: int, e1: int, e2: int)
    ensures (y * y - x * x - (1 + d * ((x * y) * (x * y)))) * ((e1 * e2) * (e1 * e2))
         == ((y * e2) * (y * e2)) * (e1 * e1) - ((x * e1) * (x * e1)) * (e2 * e2)
          - (e1 * e2) * (e1 * e2) - d * (((x * e1) * (y * e2)) * ((x * e1) * (y * e2)))
  {
    var q := (e1 * e2) * (e1 * e2);
    SquareOfProduct(e1, e2);
    SquareOfProduct(y, e2);
    SquareOfProduct(x, e1);
    Swapped(x, e1, y, e2);
    SquareOfProduct(x * y, e1 * e2);
    var xx, yy, ee, ff, z := x * x, y * y, e1 * e1, e2 * e2, (x * y) * (x * y);
    assert (yy * ff) * ee == yy * q by { assert (yy * ff) * ee == yy * (ee * ff); }
    assert (xx * ee) * ff == xx * q by { assert (xx * ee) * ff == xx * (ee * ff); }
    assert d * (z * q) == (d * z) * q;
    ClearedLinear(yy, xx, d * z, q);
  }

  lemma ClearedLinear(yy: int, xx: int, dz: int, q: int)
    ensures (yy - xx - (1 + dz)) * q == yy * q - xx * q - q - dz * q
  {
  }

  /** Numerators in place of the products with the denominators. */
  lemma Substituted(s: int, t: int, n1: int, n2: int, d: int, e1: int, e2: int)
    requires Cg(s, n1) && Cg(t, n2)
    ensures Cg((t * t) * (e1 * e1) - (s * s) * (e2 * e2) - (e1 * e2) * (e1 * e2) - d * ((s * t) * (s * t)),
               (n2 * n2) * (e1 * e1) - (n1 * n1) * (e2 * e2) - (e1 * e2) * (e1 * e2) - d * ((n1 * n2) * (n1 * n2)))
  {
    CgMul(s, n1, s, n1);
    CgMul(t, n2, t, n2);
    CgMul(s, n1, t, n2);
    CgMul(s * t, n1 * n2, s * t, n1 * n2);
    CgMul(t * t, n2 * n2, e1 * e1, e1 * e1);
    CgMul(s * s, n1 * n1, e2 * e2, e2 * e2);
    CgMul(d, d, (s * t) * (s * t), (n1 * n2) * (n1 * n2));
    var f, g, q, w := (t * t) * (e1 * e1), (s * s) * (e2 * e2), (e1 * e2) * (e1 * e2), d * ((s * t) * (s * t));
    var f', g', w' := (n2 * n2) * (e1 * e1), (n1 * n1) * (e2 * e2), d * ((n1 * n2) * (n1 * n2));
    CgSub(f, f', g, g');
    CgSub(f - g, f' - g', q, q);
    CgSub(f - g - q, f' - g' - q, w, w');
  }

  /** The curve is closed under the addition law. */
  lemma SumOnCurve(a: Affine, b: Affine)
    requires IsPrime(PRIME) && NonSquare(D) && OnCurve(a) && OnCurve(b)
    ensures OnCurve(Edwards(a, b))
  {
    hide IsPrime, NonSquare, Edwards, OnCurve, Cross;
    CurveIsComplete(a, b);
    EdwardsLaw(a, b);
    CurveEquation(a);
    CurveEquation(b);
    CrossIs(a, b);
    var r, k := Edwards(a, b), Cross(a, b);
    CurveEquation(r);
    var m, n := a.x * a.y, b.x * b.y;
    Swapped(a.x, b.x, a.y, b.y);
    var n1, n2 := a.x * b.y + b.x * a.y, a.y * b.y + a.x * b.x;
    var e1, e2 := 1 + k, 1 - k;
    var z, q := r.y * r.y - r.x * r.x - (1 + D * ((r.x * r.y) * (r.x * r.y))), (e1 * e2) * (e1 * e2);
    Cleared(r.x, r.y, D, e1, e2);
    Substituted(r.x * e1, r.y * e2, n1, n2, D, e1, e2);
    var u, v, f, g := D * (m * m), D * (n * n), a.y * a.y - a.x * a.x, b.y * b.y - b.x * b.x;
    ClosureIdentity(a.x, a.y, b.x, b.y, D, n1, n2, m, n, k, u, v, f, g);
    CrossTerms(D, m, n, 0);
    ClosureCongruence(f, g, u, v, k);
    UnitProduct(k);
    ClosureNull(z * q, n2 * n2 * ((1 + k) * (1 + k)) - n1 * n1 * ((1 - k) * (1 - k)) - D * ((n1 * n2) * (n1 * n2)), q);
    Nonzero4(e1, e2);
    NoZeroDivisors(z, q);
    NullIff(r.y * r.y - r.x * r.x, 1 + D * ((r.x * r.y) * (r.x * r.y)));
  }

  lemma UnitProduct(k: int)
    ensures ((1 + k) * (1 - k)) * ((1 + k) * (1 - k)) == (1 - k * k) * (1 - k * k)
  {
    assert (1 + k) * (1 - k) == 1 - k * k;
  }

  lemma ClosureNull(zq: int, t: int, q: int)
    requires Cg(zq, t - q) && Cg(t, q)
    ensures Cg(zq, 0)
  {
    NullIff(t, q);
  }

  lemma Nonzero4(e1: int, e2: int)
    requires IsPrime(PRIME) && !Cg(e1, 0) && !Cg(e2, 0)
    ensures !Cg((e1 * e2) * (e1 * e2), 0)
  {
    hide IsPrime;
    if Cg((e1 * e2) * (e1 * e2), 0) {
      NoZeroDivisors(e1 * e2, e1 * e2);
      NoZeroDivisors(e1, e2);
    }
  }

  // ---- the group ----

  type CurvePoint = a: Affine | OnCurve(a) ghost witness (ZeroOnCurve(); Affine(0, 1))

  ghost function AddPoints(a: CurvePoint, b: CurvePoint): CurvePoint {
    if OnCurve(Edwards(a, b)) then Edwards(a, b) else a
  }

  ghost function NegPoint(a: CurvePoint): CurvePoint {
    if OnCurve(NegAffine(a)) then NegAffine(a) else a
  }

  ghost function Ed25519(): Group<CurvePoint> {
    ZeroOnCurve();
    var zero: CurvePoint := Affine(0, 1);
    Group<CurvePoint>.Group(zero, AddPoints, NegPoint)
  }

  /** What is taken for granted about the curve: p is prime, d is not a square modulo p, and the addition is
      associative. */
  ghost predicate IsEd25519() {
    && IsPrime(PRIME) && NonSquare(D)
    && forall a: CurvePoint, b: CurvePoint, c: CurvePoint :: AssocLaw(Ed25519(), a, b, c)
  }

  /** The basepoint: y = 4/5 and the even x (src/ed25519-donna/ed25519-donna-64bit-tables.h). */
  const BASE: Affine := Affine(0x216936d3cd6e53fec0a4e231fdd6dc5c692cc7609525a7b2c9562d608f25d51a,
      0x6666666666666666666666666666666666666666666666666666666666666658)

  lemma BaseOnCurve()
    ensures OnCurve(BASE)
    ensures Cg(5 * BASE.y, 4) && BASE.x % 2 == 0
  {
    CurveEquation(BASE);
    CgByMultiple(BASE.y * BASE.y - BASE.x * BASE.x, 1 + D * ((BASE.x * BASE.y) * (BASE.x * BASE.y)),
                 -0x72705895b7fd68a9fa7924f5dbf66a83342931bfa505f5c01a65246a2283b5bdefac6a6f236898302e8ed7c7df683605c40a4c5bad89dcf0c8e913ecc5b282a35cfc55550db4be5e6bd6246e4a4ea2054904f5e4438fa42b0e56e116ea5951cfeb87ecfc5b550744d2c0fca4a89ec707de8b3c9a756eb80e7ec260dc2fda59);
    CgByMultiple(5 * BASE.y, 4, 4);
  }

  lemma AddIs(a: CurvePoint, b: CurvePoint)
    requires IsPrime(PRIME) && NonSquare(D)
    ensures Ed25519().add(a, b) == Edwards(a, b)
  {
    hide IsPrime, NonSquare, OnCurve, Edwards;
    SumOnCurve(a, b);
  }

  /** (0, 1) is neutral. */
  lemma ZeroIsNeutral(a: CurvePoint)
    requires IsPrime(PRIME) && NonSquare(D)
    ensures Edwards(Affine(0, 1), a) == a
  {
    hide IsPrime, NonSquare, Edwards;
    var o := Affine(0, 1);
    ZeroOnCurve();
    CurveIsComplete(o, a);
    EdwardsLaw(o, a);
    CrossIs(o, a);
    SameResidue(Edwards(o, a).x, a.x);
    SameResidue(Edwards(o, a).y, a.y);
  }

  lemma ZeroOnCurve()
    ensures OnCurve(Affine(0, 1))
  {
    CurveEquation(Affine(0, 1));
  }

  /** Negating x stays on the curve. */
  lemma NegOnCurve(a: Affine)
    requires OnCurve(a)
    ensures OnCurve(NegAffine(a))
  {
    hide OnCurve;
    var x := Residue(-a.x);
    CurveEquation(a);
    CurveEquation(NegAffine(a));
    CgResidue(-a.x);
    CgMul(x, -a.x, x, -a.x);
    CgMul(x, -a.x, a.y, a.y);
    CgMul(x * a.y, -a.x * a.y, x * a.y, -a.x * a.y);
    Signs(a.x, a.y);
    CgMul(D, D, (x * a.y) * (x * a.y), (a.x * a.y) * (a.x * a.y));
    var w, w' := D * ((x * a.y) * (x * a.y)), D * ((a.x * a.y) * (a.x * a.y));
    CgAdd(1, 1, w, w');
    CgSub(a.y * a.y, a.y * a.y, x * x, a.x * a.x);
  }

  lemma Signs(x: int, y: int)
    ensures (-x) * (-x) == x * x
    ensures (-x * y) * (-x * y) == (x * y) * (x * y)
  {
    assert -x * y == -(x * y);
  }

  /** (-x, y) is the inverse of (x, y). */
  lemma NegIsInverse(a: CurvePoint)
    requires IsPrime(PRIME) && NonSquare(D)
    ensures Edwards(a, NegPoint(a)) == Affine(0, 1)
  {
    hide IsPrime, NonSquare, Edwards, OnCurve;
    NegOnCurve(a);
    var b := NegPoint(a);
    CurveIsComplete(a, b);
    EdwardsLaw(a, b);
    var r, k, x := Edwards(a, b), Cross(a, b), b.x;
    CgResidue(-a.x);
    InverseX(a.x, a.y, x);
    InverseY(a, b);
    NoZeroDivisors(r.x, 1 + k);
    CgCancel(r.y, 1, 1 - k);
    SameResidue(r.x, 0);
    SameResidue(r.y, 1);
  }

  lemma InverseX(x: int, y: int, n: int)
    requires Cg(n, -x)
    ensures Cg(x * y + n * y, 0)
  {
    CgAdd(x, x, n, -x);
    NullTimes(x + n, y);
    assert y * (x + n) == x * y + n * y;
  }

  lemma InverseY(a: CurvePoint, b: CurvePoint)
    requires b.y == a.y && Cg(b.x, -a.x)
    ensures Cg(a.y * b.y + a.x * b.x, 1 - Cross(a, b))
  {
    hide OnCurve, Cross;
    var x, y, n := a.x, a.y, b.x;
    CurveEquation(a);
    CrossIs(a, b);
    CgMul(x, x, n, -x);
    CgAdd(y * y, y * y, x * n, x * -x);
    CgMul(x * n, x * -x, y * y, y * y);
    CgMul(D, D, (x * n) * (y * y), (x * -x) * (y * y));
    CgSub(1, 1, D * ((x * n) * (y * y)), D * ((x * -x) * (y * y)));
    InverseSigns(D, x, y);
  }

  lemma InverseSigns(d: int, x: int, y: int)
    ensures y * y + x * -x == y * y - x * x
    ensures 1 - d * ((x * -x) * (y * y)) == 1 + d * ((x * y) * (x * y))
  {
    assert x * -x == -(x * x);
    assert -(x * x) * (y * y) == -((x * y) * (x * y)) by {
      SquareOfProduct(x, y);
    }
    var s := (x * y) * (x * y);
    assert d * -s == -(d * s);
  }

  lemma Commutes(a: Affine, b: Affine)
    ensures Edwards(a, b) == Edwards(b, a)
  {
    hide Inv, PythonD, Edwards;
    var e1, e2 := EdwardsParts(a, b);
    var f1, f2 := EdwardsParts(b, a);
    var d := PythonD();
    Regroup(d, a.x, b.x, a.y, b.y);
    Regroup(d, b.x, a.x, b.y, a.y);
    assert a.x * b.x == b.x * a.x && a.y * b.y == b.y * a.y;
    assert a.x * b.y + b.x * a.y == b.x * a.y + a.x * b.y;
  }

  /** The curve points form an abelian group. */
  lemma CurveGroup()
    requires IsEd25519()
    ensures IsAbelian(Ed25519())
  {
    hide IsPrime, NonSquare, OnCurve, Edwards;
    var g := Ed25519();
    forall a: CurvePoint, b: CurvePoint
      ensures CommLaw(g, a, b)
    {
      AddIs(a, b);
      AddIs(b, a);
      Commutes(a, b);
    }
    forall a: CurvePoint
      ensures ZeroLaw(g, a) && NegLaw(g, a)
    {
      AddIs(g.zero, a);
      ZeroIsNeutral(a);
      AddIs(a, g.neg(a));
      NegIsInverse(a);
    }
  }

  /** scalarmult of ed25519.py is multiplication by an integer in this group. */
  lemma {:induction false} ScalarMultIs(a: CurvePoint, e: nat)
    requires IsEd25519()
    ensures ScalarMult(a, e) == Mul(Ed25519(), e, a)
    decreases e
  {
    hide IsPrime, NonSquare, OnCurve, Edwards, Ed25519, Mul;
    var g := Ed25519();
    CurveGroup();
    if e == 0 {
      MulZero(a);
    } else {
      var q: CurvePoint := Mul(g, e / 2, a);
      ScalarMultIs(a, e / 2);
      AddIs(q, q);
      MulAdd(g, e / 2, e / 2, a);
      if e % 2 == 1 {
        AddIs(g.add(q, q), a);
        MulSucc(g, e - 1, a);
        assert e - 1 == e / 2 + e / 2;
      } else {
        assert e == e / 2 + e / 2;
      }
    }
  }

  lemma MulZero(a: CurvePoint)
    ensures Mul(Ed25519(), 0, a) == Affine(0, 1)
  {
  }
}
