/** The twisted Edwards curve of Ed25519 in affine coordinates: the simple specification in
    bin/python/ed25519.py, lines 10-47 and 83-86, against which the point formulas are proved. */
module EdwardsCurve {
  import opened Arith
  import opened Congruence
  import opened Fermat
  import opened Groups

  /** A pair of residues modulo p. */
  datatype Affine = Affine(x: int, y: int)

  /** The curve constant d. */
  const D: int := 0x52036cee2b6ffe738cc740797779e89800700a4d4141d8ab75eb4dca135978a3

  /** A square root of -1. */
  const ROOT: int := 0x2b8324804fc1df0b2b4d00993dfbd7a72f431806ad2fe478c4ee1b274a0ea0b0

  // ---- the Python definitions ----

  /** expmod, whose modulus is always q = p. */
  ghost function ExpMod(b: int, e: nat): int {
    if e == 0 then 1
    else
      var t := ExpMod(b, e / 2);
      var u := Residue(Product(t, t));
      if e % 2 == 1 then Residue(Product(u, b)) else u
  }

  /** inv */
  ghost function Inv(x: int): int {
    ExpMod(x, PRIME - 2)
  }

  /** d = -121665 * inv(121666) */
  ghost function PythonD(): int {
    -121665 * Inv(121666)
  }

  /** edwards, with * written as Product */
  ghost function Edwards(a: Affine, b: Affine): Affine {
    var k := Product(Product(Product(Product(PythonD(), a.x), b.x), a.y), b.y);
    var x3 := Product(Product(a.x, b.y) + Product(b.x, a.y), Inv(1 + k));
    var y3 := Product(Product(a.y, b.y) + Product(a.x, b.x), Inv(1 - k));
    Affine(Residue(x3), Residue(y3))
  }

  /** The inverse of a point. */
  ghost function NegAffine(a: Affine): Affine {
    Affine(Residue(-a.x), a.y)
  }

  /** scalarmult */
  ghost function ScalarMult(a: Affine, e: nat): Affine {
    if e == 0 then Affine(0, 1)
    else
      var q := ScalarMult(a, e / 2);
      var r := Edwards(q, q);
      if e % 2 == 1 then Edwards(r, a) else r
  }

  // ---- exponentiation and inversion ----

  lemma {:induction false} ExpModIs(b: int, e: nat)
    ensures Cg(ExpMod(b, e), Exp(b, e))
  {
    if e == 0 {
      assert Exp(b, 0) == 1;
    } else {
      var t, u := ExpMod(b, e / 2), Exp(b, e / 2);
      ExpModIs(b, e / 2);
      CgMul(t, u, t, u);
      ExpAdd(b, e / 2, e / 2);
      ProductIs(t, t);
      CgResidue(t * t);
      if e % 2 == 1 {
        var v := Residue(t * t);
        CgMul(v, u * u, b, b);
        ProductIs(v, b);
        CgResidue(v * b);
        ExpSucc(b, e - 1);
        assert e - 1 == e / 2 + e / 2;
      } else {
        assert e == e / 2 + e / 2;
      }
    }
  }

  lemma InvIs(x: int)
    requires IsPrime(PRIME) && !Cg(x, 0)
    ensures Cg(Inv(x) * x, 1)
  {
    hide ExpMod, Exp, IsPrime;
    ExpModIs(x, PRIME - 2);
    RecipInverts(Inv(x), x);
  }

  lemma SmallNotNull()
    ensures !Cg(1, 0) && !Cg(2, 0) && !Cg(121666, 0)
  {
    if Cg(1, 0) {
      SameResidue(1, 0);
    }
    if Cg(2, 0) {
      SameResidue(2, 0);
    }
    if Cg(121666, 0) {
      SameResidue(121666, 0);
    }
  }

  /** The two ways of writing d agree. */
  lemma ConstantD()
    requires IsPrime(PRIME)
    ensures Cg(PythonD(), D)
  {
    hide IsPrime, Inv;
    SmallNotNull();
    InvIs(121666);
    var i := Inv(121666);
    CgMul(i * 121666, 1, -121665, -121665);
    assert PythonD() * 121666 == i * 121666 * -121665;
    CgByMultiple(D * 121666, -121665, 0x13083);
    CgCancel(PythonD(), D, 121666);
  }

  // ---- the addition law ----

  /** d x1 x2 y1 y2 */
  ghost function Cross(a: Affine, b: Affine): int {
    Product(D, Product(Product(a.x, b.x), Product(a.y, b.y)))
  }

  lemma CrossIs(a: Affine, b: Affine)
    ensures Cross(a, b) == D * ((a.x * b.x) * (a.y * b.y))
  {
    FourProducts(D, a.x, b.x, a.y, b.y);
  }

  lemma FourProducts(d: int, p: int, q: int, r: int, s: int)
    ensures Product(d, Product(Product(p, q), Product(r, s))) == d * ((p * q) * (r * s))
  {
    ProductIs(p, q);
    ProductIs(r, s);
    ProductIs(p * q, r * s);
    ProductIs(d, (p * q) * (r * s));
  }

  /** The denominators of the addition law do not vanish. */
  ghost predicate Complete(a: Affine, b: Affine) {
    !Cg(1 + Cross(a, b), 0) && !Cg(1 - Cross(a, b), 0)
  }

  lemma Divided(r: int, n: int, i: int, e: int, f: int)
    requires Cg(r, n * i) && Cg(i * e, 1) && Cg(e, f)
    ensures Cg(r * f, n)
  {
    CgMul(r, n * i, f, e);
    CgMul(n, n, i * e, 1);
    assert n * i * e == n * (i * e);
  }

  lemma NotNull(e: int, f: int)
    requires Cg(e, f) && !Cg(f, 0)
    ensures !Cg(e, 0)
  {
    if Cg(e, 0) {
    }
  }

  /** edwards solves the addition law without division. */
  lemma EdwardsLaw(a: Affine, b: Affine)
    requires IsPrime(PRIME) && Complete(a, b)
    ensures Cg(Edwards(a, b).x * (1 + Cross(a, b)), a.x * b.y + b.x * a.y)
    ensures Cg(Edwards(a, b).y * (1 - Cross(a, b)), a.y * b.y + a.x * b.x)
    ensures 0 <= Edwards(a, b).x < PRIME && 0 <= Edwards(a, b).y < PRIME
  {
    hide IsPrime, Inv, Cross, PythonD;
    var k, r := Cross(a, b), Edwards(a, b);
    var n1, n2 := a.x * b.y + b.x * a.y, a.y * b.y + a.x * b.x;
    var e1, e2 := EdwardsParts(a, b);
    Denominators(a, b);
    NotNull(e1, 1 + k);
    NotNull(e2, 1 - k);
    InvIs(e1);
    InvIs(e2);
    CgResidue(n1 * Inv(e1));
    CgResidue(n2 * Inv(e2));
    Divided(r.x, n1, Inv(e1), e1, 1 + k);
    Divided(r.y, n2, Inv(e2), e2, 1 - k);
  }

  /** The numerators and denominators that edwards computes with. */
  lemma EdwardsParts(a: Affine, b: Affine) returns (e1: int, e2: int)
    ensures var d := PythonD(); e1 == 1 + d * a.x * b.x * a.y * b.y && e2 == 1 - d * a.x * b.x * a.y * b.y
    ensures Edwards(a, b) == Affine(Residue((a.x * b.y + b.x * a.y) * Inv(e1)),
        Residue((a.y * b.y + a.x * b.x) * Inv(e2)))
  {
    hide Inv, PythonD;
    var d := PythonD();
    ProductIs(d, a.x);
    ProductIs(d * a.x, b.x);
    ProductIs(d * a.x * b.x, a.y);
    ProductIs(d * a.x * b.x * a.y, b.y);
    ProductIs(a.x, b.y);
    ProductIs(b.x, a.y);
    ProductIs(a.y, b.y);
    ProductIs(a.x, b.x);
    e1, e2 := 1 + d * a.x * b.x * a.y * b.y, 1 - d * a.x * b.x * a.y * b.y;
    ProductIs(a.x * b.y + b.x * a.y, Inv(e1));
    ProductIs(a.y * b.y + a.x * b.x, Inv(e2));
  }

  lemma Denominators(a: Affine, b: Affine)
    requires IsPrime(PRIME)
    ensures var d := PythonD();
            && Cg(1 + d * a.x * b.x * a.y * b.y, 1 + Cross(a, b))
            && Cg(1 - d * a.x * b.x * a.y * b.y, 1 - Cross(a, b))
  {
    hide IsPrime, PythonD;
    ConstantD();
    CrossIs(a, b);
    var d, m := PythonD(), (a.x * b.x) * (a.y * b.y);
    CgMul(d, D, m, m);
    CgAdd(1, 1, d * m, D * m);
    CgSub(1, 1, d * m, D * m);
    Regroup(d, a.x, b.x, a.y, b.y);
  }

  lemma Regroup(d: int, p: int, q: int, r: int, s: int)
    ensures d * p * q * r * s == d * ((p * q) * (r * s))
  {
    assert d * p * q == d * (p * q);
    assert d * (p * q) * r == d * ((p * q) * r);
    assert (p * q) * r * s == (p * q) * (r * s);
  }

  // ---- the curve ----

  /** isoncurve, for residues: -x^2 + y^2 = 1 + d x^2 y^2 (mod p). */
  ghost predicate OnCurve(a: Affine) {
    && 0 <= a.x < PRIME && 0 <= a.y < PRIME
    && Cg(Product(a.y, a.y) - Product(a.x, a.x), 1 + Product(D, Product(Product(a.x, a.y), Product(a.x, a.y))))
  }

  lemma CurveEquation(a: Affine)
    ensures OnCurve(a) <==> 0 <= a.x < PRIME && 0 <= a.y < PRIME && OnEquation(a.x, a.y)
  {
    ProductIs(a.y, a.y);
    ProductIs(a.x, a.x);
    FourProducts(D, a.x, a.y, a.x, a.y);
  }

  /** The curve equation in plain arithmetic. */
  ghost predicate OnEquation(x: int, y: int) {
    Cg(y * y - x * x, 1 + D * ((x * y) * (x * y)))
  }

  ghost predicate IsRoot(r: int, n: int) {
    Cg(r * r, n)
  }

  ghost predicate NonSquare(n: int) {
    forall r: int :: !IsRoot(r, n)
  }

  lemma NullTimes(a: int, k: int)
    requires Cg(a, 0)
    ensures Cg(k * a, 0)
  {
    CgMul(k, k, a, 0);
  }

  lemma NullSum(a: int, b: int)
    requires Cg(a, 0) && Cg(b, 0)
    ensures Cg(a + b, 0) && Cg(a - b, 0)
  {
    CgAdd(a, 0, b, 0);
    CgSub(a, 0, b, 0);
  }

  lemma NullIff(a: int, b: int)
    ensures Cg(a, b) <==> Cg(a - b, 0)
  {
    if Cg(a, b) {
      CgSub(a, b, b, b);
    }
    if Cg(a - b, 0) {
      CgAdd(a - b, 0, b, b);
    }
  }

  /** If D w^2 is a square, so is D. */
  lemma SquareRatio(u: int, w: int)
    requires IsPrime(PRIME) && !Cg(w, 0) && Cg(u * u, D * (w * w))
    ensures !NonSquare(D)
  {
    hide IsPrime, Inv;
    InvIs(w);
    var i := Inv(w);
    CgMul(i * w, 1, i * w, 1);
    CgMul(D, D, (i * w) * (i * w), 1);
    CgMul(i * i, i * i, u * u, D * (w * w));
    RatioArith(u, w, i, D);
    assert IsRoot(i * u, D);
  }

  lemma RatioArith(u: int, w: int, i: int, d: int)
    ensures (i * i) * (u * u) == (i * u) * (i * u)
    ensures (i * i) * (d * (w * w)) == d * ((i * w) * (i * w))
  {
    assert (i * w) * (i * w) == (i * i) * (w * w);
  }

  lemma SquareOfSum(y: int, c: int, x: int)
    ensures (y + c * x) * (y + c * x) == y * y + 2 * (c * (x * y)) + (c * c) * (x * x)
  {
    assert (c * x) * (c * x) == (c * c) * (x * x);
    assert y * (c * x) == c * (x * y);
  }

  lemma TimesSquare(d: int, m: int, t: int)
    ensures d * ((m * t) * (m * t)) == (d * (m * m)) * (t * t)
  {
    assert (m * t) * (m * t) == (m * m) * (t * t);
  }

  lemma CrossTerms(d: int, m: int, n: int, i: int)
    ensures (d * (m * m)) * (i * n) == ((d * (m * n)) * i) * m
    ensures (d * (m * n)) * (d * (m * n)) == (d * (m * m)) * (d * (n * n))
  {
    var q := m * n;
    assert (d * (m * m)) * (i * n) == d * ((m * m) * (i * n));
    assert (m * m) * (i * n) == (q * i) * m;
    assert ((d * q) * i) * m == d * ((q * i) * m);
    SquareOfProduct(d, q);
    SquareOfProduct(m, n);
    Swapped(d, m * m, d, n * n);
  }

  lemma SquareOfProduct(e: int, i: int)
    ensures (e * i) * (e * i) == (e * e) * (i * i)
  {
  }

  lemma Distribute(q: int, a: int, b: int, c: int)
    ensures q * (a + 2 * b + c) == q * a + 2 * (q * b) + q * c
  {
  }

  /** (y1 + e i x1)^2 - d (m (y2 + i x2))^2 as a combination of terms that vanish modulo p,
      where m = x1 y1, n = x2 y2 and e = d m n. */
  lemma CompletenessIdentity(x1: int, y1: int, x2: int, y2: int, d: int, i: int, m: int, n: int, e: int)
    requires m == x1 * y1 && n == x2 * y2 && e == d * (m * n)
    ensures (y1 + (e * i) * x1) * (y1 + (e * i) * x1) - d * ((m * (y2 + i * x2)) * (m * (y2 + i * x2)))
         == (y1 * y1 - x1 * x1 - (1 + d * (m * m))) - (1 + x1 * x1) * (e * e - 1)
          - (d * (m * m)) * (y2 * y2 - x2 * x2 - (1 + d * (n * n)))
          + ((e * e) * (x1 * x1) - (d * (m * m)) * (x2 * x2)) * (i * i + 1)
  {
    var c, q, t := e * i, d * (m * m), y2 + i * x2;
    SquareOfSum(y1, c, x1);
    SquareOfSum(y2, i, x2);
    TimesSquare(d, m, t);
    CrossTerms(d, m, n, i);
    SquareOfProduct(e, i);
    Distribute(q, y2 * y2, i * n, (i * i) * (x2 * x2));
    CompletenessLinear(y1 * y1, y2 * y2, x1 * x1, x2 * x2, q, d * (n * n), e * e, i * i, c * c, c * m,
                       (y1 + c * x1) * (y1 + c * x1), t * t, q * (t * t), q * (i * n));
  }

  lemma CompletenessLinear(f: int, g: int, a: int, b: int, q: int, r: int, ee: int, ii: int, cc: int, cm: int,
                           left: int, tt: int, right: int, qin: int)
    requires ee == q * r && cc == ee * ii && qin == cm
    requires left == f + 2 * cm + cc * a && right == q * g + 2 * qin + q * (ii * b)
    ensures left - right == (f - a - (1 + q)) - (1 + a) * (ee - 1) - q * (g - b - (1 + r)) + (ee * a - q * b) * (ii + 1)
  {
    var ea, qb := ee * a, q * b;
    assert cc * a == ea * ii;
    assert q * (ii * b) == qb * ii;
    assert (1 + a) * (ee - 1) == ee - 1 + ea - a;
    assert q * (g - b - (1 + r)) == q * g - qb - q - ee;
    assert (ea - qb) * (ii + 1) == ea * ii + ea - qb * ii - qb;
  }

  /** d (x1 y1) (x2 y2) */
  ghost function Twisted(a: Affine, b: Affine): int {
    Product(D, Product(Product(a.x, a.y), Product(b.x, b.y)))
  }

  /** If e = d x1 x2 y1 y2 were 1 or -1, one of these two would make d a square. */
  lemma OneRoot(a: Affine, b: Affine, i: int)
    requires IsPrime(PRIME) && NonSquare(D) && OnCurve(a) && OnCurve(b)
    requires IsRoot(Twisted(a, b), 1) && IsRoot(i, -1) && !Cg(Product(a.x, a.y), 0)
    ensures Cg(b.y + Product(i, b.x), 0)
  {
    hide IsPrime, NonSquare, OnCurve;
    var m, n, t, e := a.x * a.y, b.x * b.y, b.y + i * b.x, Twisted(a, b);
    FourProducts(D, a.x, a.y, b.x, b.y);
    ProductIs(a.x, a.y);
    ProductIs(i, b.x);
    CurveEquation(a);
    CurveEquation(b);
    NullIff(e * e, 1);
    NullIff(i * i, -1);
    if !Cg(t, 0) {
      if Cg(m * t, 0) {
        NoZeroDivisors(m, t);
      }
      SquareOfRatio(a, b, i, e, m, n, t);
      SquareRatio(a.y + (e * i) * a.x, m * t);
    }
  }

  /** (y1 + e i x1)^2 = d (m (y2 + i x2))^2 */
  lemma SquareOfRatio(a: Affine, b: Affine, i: int, e: int, m: int, n: int, t: int)
    requires OnEquation(a.x, a.y) && OnEquation(b.x, b.y) && Cg(e * e - 1, 0) && Cg(i * i + 1, 0)
    requires m == a.x * a.y && n == b.x * b.y && e == D * (m * n) && t == b.y + i * b.x
    ensures Cg((a.y + (e * i) * a.x) * (a.y + (e * i) * a.x), D * ((m * t) * (m * t)))
  {
    var u, w := a.y + (e * i) * a.x, m * t;
    CompletenessIdentity(a.x, a.y, b.x, b.y, D, i, m, n, e);
    var c1, c2 := a.y * a.y - a.x * a.x - (1 + D * (m * m)), b.y * b.y - b.x * b.x - (1 + D * (n * n));
    NullIff(a.y * a.y - a.x * a.x, 1 + D * (m * m));
    NullIff(b.y * b.y - b.x * b.x, 1 + D * (n * n));
    NullTimes(e * e - 1, 1 + a.x * a.x);
    NullTimes(c2, D * (m * m));
    NullTimes(i * i + 1, (e * e) * (a.x * a.x) - (D * (m * m)) * (b.x * b.x));
    NullCombination(c1, (1 + a.x * a.x) * (e * e - 1), (D * (m * m)) * c2,
                    ((e * e) * (a.x * a.x) - (D * (m * m)) * (b.x * b.x)) * (i * i + 1));
    NullIff(u * u, D * (w * w));
  }

  lemma NullCombination(a: int, b: int, c: int, d: int)
    requires Cg(a, 0) && Cg(b, 0) && Cg(c, 0) && Cg(d, 0)
    ensures Cg(a - b - c + d, 0)
  {
    NullSum(a, b);
    NullSum(a - b, c);
    NullSum(a - b - c, d);
  }

  lemma RootIsRoot()
    ensures IsRoot(ROOT, -1) && IsRoot(-ROOT, -1)
  {
    CgByMultiple(ROOT * ROOT, -1, 0xecaa2e2f6a2302ccedb31ac05720688238ced2078f3eb0ec9f22e8f621972e5);
    CgByMultiple((-ROOT) * (-ROOT), -1, 0xecaa2e2f6a2302ccedb31ac05720688238ced2078f3eb0ec9f22e8f621972e5);
  }

  lemma NotUnit(a: Affine, b: Affine)
    requires IsPrime(PRIME) && NonSquare(D) && OnCurve(a) && OnCurve(b)
    ensures !IsRoot(Twisted(a, b), 1)
  {
    hide IsPrime, NonSquare, OnCurve;
    var e := Twisted(a, b);
    if IsRoot(e, 1) {
      UnitNotNull(e);
      TwistedParts(a, b);
      RootIsRoot();
      OneRoot(a, b, ROOT);
      OneRoot(a, b, -ROOT);
      BothRoots(a, b);
    }
  }

  lemma UnitNotNull(e: int)
    requires IsRoot(e, 1)
    ensures !Cg(e, 0)
  {
    SmallNotNull();
    if Cg(e, 0) {
      NullTimes(e, e);
    }
  }

  /** e vanishes if x1 y1 does. */
  lemma TwistedParts(a: Affine, b: Affine)
    ensures Cg(Product(a.x, a.y), 0) ==> Cg(Twisted(a, b), 0)
  {
    var m, n := a.x * a.y, b.x * b.y;
    FourProducts(D, a.x, a.y, b.x, b.y);
    ProductIs(a.x, a.y);
    if Cg(m, 0) {
      NullTimes(m, D * n);
      EByM(D, m, n);
    }
  }

  lemma EByM(d: int, m: int, n: int)
    ensures d * (m * n) == (d * n) * m
  {
  }

  lemma EByY(d: int, m: int, x: int, y: int)
    ensures d * (m * (x * y)) == (d * (m * x)) * y
  {
    assert m * (x * y) == (m * x) * y;
  }

  /** If both roots fail, y2 vanishes, and with it e. */
  lemma BothRoots(a: Affine, b: Affine)
    requires IsPrime(PRIME) && Cg(b.y + Product(ROOT, b.x), 0) && Cg(b.y + Product(-ROOT, b.x), 0)
    ensures Cg(Twisted(a, b), 0)
  {
    hide IsPrime;
    var m := a.x * a.y;
    ProductIs(ROOT, b.x);
    ProductIs(-ROOT, b.x);
    SmallNotNull();
    NullSum(b.y + ROOT * b.x, b.y - ROOT * b.x);
    NoZeroDivisors(2, b.y);
    NullTimes(b.y, D * (m * b.x));
    EByY(D, m, b.x, b.y);
    FourProducts(D, a.x, a.y, b.x, b.y);
  }

  /** The addition law has no exceptional points on the curve. */
  lemma CurveIsComplete(a: Affine, b: Affine)
    requires IsPrime(PRIME) && NonSquare(D) && OnCurve(a) && OnCurve(b)
    ensures Complete(a, b)
  {
    hide IsPrime, NonSquare, OnCurve;
    var e := Twisted(a, b);
    Swapped(a.x, b.x, a.y, b.y);
    CrossIs(a, b);
    FourProducts(D, a.x, a.y, b.x, b.y);
    NotUnit(a, b);
    NullIff(e * e, 1);
    Factors(e);
    if Cg(1 + e, 0) {
      NullTimes(1 + e, e - 1);
    }
    if Cg(1 - e, 0) {
      NullTimes(1 - e, -1 - e);
    }
  }

  lemma Factors(e: int)
    ensures (e - 1) * (1 + e) == e * e - 1 == (-1 - e) * (1 - e)
  {
  }

  lemma Swapped(p: int, q: int, r: int, s: int)
    ensures (p * q) * (r * s) == (p * r) * (q * s)
  {
  }
}
