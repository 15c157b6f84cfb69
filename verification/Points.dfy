/** Point formulas on redundant coordinates (src/ed25519-donna/ed25519-donna-impl-base.h, lines 1-172)
    against the affine addition law. */
module Points {
  import opened Arith
  import opened Congruence
  import opened Fermat
  import opened Modm
  import opened Field
  import opened EdwardsCurve

  /** ge25519: extended coordinates; t is meaningful only for a full point. */
  datatype Ge = Ge(x: Fe, y: Fe, z: Fe, t: Fe)

  /** ge25519_p1p1: completed coordinates, x/z and y/t. */
  datatype GeP1p1 = GeP1p1(x: Fe, y: Fe, z: Fe, t: Fe)

  datatype GeNiels = GeNiels(ysubx: Fe, xaddy: Fe, t2d: Fe)

  datatype GePniels = GePniels(ysubx: Fe, xaddy: Fe, z: Fe, t2d: Fe)

  const ECD: Fe := Fe(0x00034dca135978a3, 0x0001a8283b156ebd, 0x0005e7a26001c029, 0x000739c663a03cbb,
      0x00052036cee2b6ff)
  const EC2D: Fe := Fe(0x00069b9426b2f159, 0x00035050762add7a, 0x0003cf44c0038052, 0x0006738cc7407977,
      0x0002406d9dc56dff)
  const SQRTNEG1: Fe := Fe(0x00061b274a0ea0b0, 0x0000d5a5fc8f189d, 0x0007ef5e9cbd0c60, 0x00078595a6804c9e,
      0x0002b8324804fc1d)

  /** The constants are what their names say. */
  lemma Constants()
    ensures Tight(ECD) && Val(ECD) == D
    ensures Tight(EC2D) && Cg(Val(EC2D), 2 * D)
    ensures Tight(SQRTNEG1) && Val(SQRTNEG1) == ROOT && Cg(ROOT * ROOT, -1)
  {
    CgByMultiple(Val(EC2D), 2 * D, -1);
    CgByMultiple(ROOT * ROOT, -1, 0xecaa2e2f6a2302ccedb31ac05720688238ced2078f3eb0ec9f22e8f621972e5);
  }

  // ---- what coordinates represent ----

  /** (x : y : z) are projective coordinates of a. */
  ghost predicate At(a: Affine, x: int, y: int, z: int) {
    !Cg(z, 0) && Cg(x, Product(a.x, z)) && Cg(y, Product(a.y, z))
  }

  lemma AtIs(a: Affine, x: int, y: int, z: int)
    ensures At(a, x, y, z) <==> !Cg(z, 0) && Cg(x, a.x * z) && Cg(y, a.y * z)
  {
    ProductIs(a.x, z);
    ProductIs(a.y, z);
  }

  /** (ysubx, xaddy, t2d) are the precomputed sums of a, scaled by z. */
  ghost predicate SumsAt(a: Affine, ysubx: int, xaddy: int, t2d: int, z: int) {
    && !Cg(z, 0) && Cg(ysubx, Product(a.y - a.x, z)) && Cg(xaddy, Product(a.y + a.x, z))
    && Cg(t2d, Product(2 * Product(D, Product(a.x, a.y)), z))
  }

  lemma SumsAtIs(a: Affine, ysubx: int, xaddy: int, t2d: int, z: int)
    ensures SumsAt(a, ysubx, xaddy, t2d, z) <==>
              && !Cg(z, 0) && Cg(ysubx, (a.y - a.x) * z) && Cg(xaddy, (a.y + a.x) * z)
              && Cg(t2d, (2 * (D * (a.x * a.y))) * z)
  {
    ProductIs(a.y - a.x, z);
    ProductIs(a.y + a.x, z);
    ProductIs(a.x, a.y);
    ProductIs(D, a.x * a.y);
    ProductIs(2 * (D * (a.x * a.y)), z);
  }

  /** x = a.x z and y = a.y t */
  ghost predicate CompletedAt(a: Affine, x: int, y: int, z: int, t: int) {
    !Cg(z, 0) && !Cg(t, 0) && Cg(x, Product(a.x, z)) && Cg(y, Product(a.y, t))
  }

  lemma CompletedAtIs(a: Affine, x: int, y: int, z: int, t: int)
    ensures CompletedAt(a, x, y, z, t) <==> !Cg(z, 0) && !Cg(t, 0) && Cg(x, a.x * z) && Cg(y, a.y * t)
  {
    ProductIs(a.x, z);
    ProductIs(a.y, t);
  }

  /** t = a.x a.y z */
  ghost predicate ExtraAt(a: Affine, t: int, z: int) {
    Cg(t, Product(Product(a.x, a.y), z))
  }

  lemma ExtraAtIs(a: Affine, t: int, z: int)
    ensures ExtraAt(a, t, z) <==> Cg(t, (a.x * a.y) * z)
  {
    ProductIs(a.x, a.y);
    ProductIs(a.x * a.y, z);
  }

  /** A point whose x, y and z are reduced and represent a. */
  ghost predicate Rep(p: Ge, a: Affine) {
    Tight(p.x) && Tight(p.y) && Tight(p.z) && At(a, Val(p.x), Val(p.y), Val(p.z))
  }

  /** A point whose t is valid as well. */
  ghost predicate RepFull(p: Ge, a: Affine) {
    Rep(p, a) && Tight(p.t) && ExtraAt(a, Val(p.t), Val(p.z))
  }

  ghost predicate RepP1p1(p: GeP1p1, a: Affine) {
    && Loose(p.x) && Loose(p.y) && Loose(p.z) && Loose(p.t)
    && CompletedAt(a, Val(p.x), Val(p.y), Val(p.z), Val(p.t))
  }

  ghost predicate RepNiels(q: GeNiels, a: Affine) {
    Tight(q.ysubx) && Tight(q.xaddy) && Tight(q.t2d) && SumsAt(a, Val(q.ysubx), Val(q.xaddy), Val(q.t2d), 1)
  }

  ghost predicate RepPniels(q: GePniels, a: Affine) {
    && Basic(q.ysubx) && Basic(q.xaddy) && Tight(q.z) && Tight(q.t2d)
    && SumsAt(a, Val(q.ysubx), Val(q.xaddy), Val(q.t2d), Val(q.z))
  }

  /** Full points keep XY = ZT. */
  lemma FullIsExtended(p: Ge, a: Affine)
    requires RepFull(p, a)
    ensures Cg(Val(p.x) * Val(p.y), Val(p.z) * Val(p.t))
  {
    hide Val, Tight, At, ExtraAt;
    var x, y, z, t := Val(p.x), Val(p.y), Val(p.z), Val(p.t);
    AtIs(a, x, y, z);
    ExtraAtIs(a, t, z);
    ScaledProduct(x * y, x, y, a.x, a.y, z, z);
    CgMul(z, z, t, (a.x * a.y) * z);
    assert z * ((a.x * a.y) * z) == (a.x * a.y) * (z * z);
  }

  /** y = z = 1 and everything else zero, as memset and two assignments leave it. */
  const NEUTRAL: Ge := Ge(Fe(0, 0, 0, 0, 0), Fe(1, 0, 0, 0, 0), Fe(1, 0, 0, 0, 0), Fe(0, 0, 0, 0, 0))

  lemma NeutralRep()
    ensures RepFull(NEUTRAL, Affine(0, 1))
  {
    hide Val, Tight, At, ExtraAt;
    AtIs(Affine(0, 1), 0, 1, 1);
    ExtraAtIs(Affine(0, 1), 0, 1);
    SmallElement(0);
    SmallElement(1);
    SmallNotNull();
  }

  lemma SmallElement(k: int)
    requires 0 <= k <= 2
    ensures Tight(Fe(k, 0, 0, 0, 0)) && Val(Fe(k, 0, 0, 0, 0)) == k
  {
  }

  // ---- congruence steps ----

  lemma ScaledProduct(r: int, u: int, v: int, a: int, b: int, y: int, z: int)
    requires Cg(r, u * v) && Cg(u, a * y) && Cg(v, b * z)
    ensures Cg(r, (a * b) * (y * z))
  {
    CgMul(u, a * y, v, b * z);
    Swapped(a, y, b, z);
  }

  lemma ScaledSum(u: int, v: int, a: int, b: int, z: int)
    requires Cg(u, a * z) && Cg(v, b * z)
    ensures Cg(u + v, (a + b) * z) && Cg(u - v, (a - b) * z)
  {
    CgAdd(u, a * z, v, b * z);
    CgSub(u, a * z, v, b * z);
    assert a * z + b * z == (a + b) * z && a * z - b * z == (a - b) * z;
  }

  lemma ScaledRatio(u: int, v: int, n: int, e: int, r: int, z: int)
    requires Cg(u, n * z) && Cg(v, e * z) && Cg(r * e, n)
    ensures Cg(u, r * v)
  {
    CgMul(r, r, v, e * z);
    CgMul(r * e, n, z, z);
    assert r * (e * z) == (r * e) * z;
  }

  lemma ScaledNonzero(v: int, e: int, z: int)
    requires IsPrime(PRIME) && Cg(v, e * z) && !Cg(e, 0) && !Cg(z, 0)
    ensures !Cg(v, 0)
  {
    hide IsPrime;
    if Cg(v, 0) {
      NoZeroDivisors(e, z);
    }
  }

  // ---- addition ----

  /** The products the addition formulas form. */
  ghost predicate Products(a: int, b: int, c: int, d: int, x: int, y: int, z: int, t: int, ysubx: int, xaddy: int,
      t2d: int, w: int) {
    Cg(a, Product(y - x, ysubx)) && Cg(b, Product(y + x, xaddy)) && Cg(c, Product(t, t2d)) && Cg(d, 2 * Product(z, w))
  }

  lemma ProductsAre(a: int, b: int, c: int, d: int, x: int, y: int, z: int, t: int, ysubx: int, xaddy: int, t2d: int,
      w: int)
    ensures Products(a, b, c, d, x, y, z, t, ysubx, xaddy, t2d, w)
       <==> Cg(a, (y - x) * ysubx) && Cg(b, (y + x) * xaddy) && Cg(c, t * t2d) && Cg(d, 2 * (z * w))
  {
    ProductIs(y - x, ysubx);
    ProductIs(y + x, xaddy);
    ProductIs(t, t2d);
    ProductIs(z, w);
  }

  /** b - a, b + a, d + c and d - c are the sum in completed coordinates. */
  lemma AddFormula(p: Affine, q: Affine, x: int, y: int, z: int, t: int, ysubx: int, xaddy: int, t2d: int, w: int,
                   a: int, b: int, c: int, d: int)
    requires IsPrime(PRIME) && Complete(p, q)
    requires At(p, x, y, z) && ExtraAt(p, t, z) && SumsAt(q, ysubx, xaddy, t2d, w)
    requires Products(a, b, c, d, x, y, z, t, ysubx, xaddy, t2d, w)
    ensures CompletedAt(Edwards(p, q), b - a, b + a, d + c, d - c)
  {
    hide IsPrime, Edwards, Cross, Products, At, ExtraAt, SumsAt, CompletedAt;
    var s, k, r := z * w, Cross(p, q), Edwards(p, q);
    AtIs(p, x, y, z);
    ExtraAtIs(p, t, z);
    SumsAtIs(q, ysubx, xaddy, t2d, w);
    ProductsAre(a, b, c, d, x, y, z, t, ysubx, xaddy, t2d, w);
    CompletedAtIs(r, b - a, b + a, d + c, d - c);
    var m, n := (p.y - p.x) * (q.y - q.x), (p.y + p.x) * (q.y + q.x);
    ScaledSum(y, x, p.y, p.x, z);
    ScaledProduct(a, y - x, ysubx, p.y - p.x, q.y - q.x, z, w);
    ScaledProduct(b, y + x, xaddy, p.y + p.x, q.y + q.x, z, w);
    ScaledProduct(c, t, t2d, p.x * p.y, 2 * (D * (q.x * q.y)), z, w);
    ScaledSum(b, a, n, m, s);
    ScaledSum(d, c, 2, (p.x * p.y) * (2 * (D * (q.x * q.y))), s);
    AddArith(p, q, s);
    EdwardsLaw(p, q);
    ScaledRatio(b - a, d + c, p.x * q.y + q.x * p.y, 1 + k, r.x, 2 * s);
    ScaledRatio(b + a, d - c, p.y * q.y + p.x * q.x, 1 - k, r.y, 2 * s);
    TwiceNonzero(z, w);
    ScaledNonzero(d + c, 1 + k, 2 * s);
    ScaledNonzero(d - c, 1 - k, 2 * s);
  }

  lemma AddArith(p: Affine, q: Affine, s: int)
    ensures var m, n := (p.y - p.x) * (q.y - q.x), (p.y + p.x) * (q.y + q.x);
            && (n - m) * s == (p.x * q.y + q.x * p.y) * (2 * s)
            && (n + m) * s == (p.y * q.y + p.x * q.x) * (2 * s)
    ensures var c := (p.x * p.y) * (2 * (D * (q.x * q.y)));
            (2 + c) * s == (1 + Cross(p, q)) * (2 * s) && (2 - c) * s == (1 - Cross(p, q)) * (2 * s)
  {
    hide Cross;
    SumsAndDifferences(p.x, p.y, q.x, q.y);
    Twice(p.x * q.y + q.x * p.y, s);
    Twice(p.y * q.y + p.x * q.x, s);
    Twice(1 + Cross(p, q), s);
    Twice(1 - Cross(p, q), s);
    CrossIs(p, q);
    CrossTwice(D, p.x, p.y, q.x, q.y);
  }

  lemma SumsAndDifferences(a: int, b: int, c: int, d: int)
    ensures (b + a) * (d + c) - (b - a) * (d - c) == 2 * (a * d + c * b)
    ensures (b + a) * (d + c) + (b - a) * (d - c) == 2 * (b * d + a * c)
  {
  }

  lemma Twice(n: int, s: int)
    ensures n * (2 * s) == (2 * n) * s
  {
  }

  lemma CrossTwice(d: int, p: int, q: int, r: int, s: int)
    ensures (p * q) * (2 * (d * (r * s))) == 2 * (d * ((p * r) * (q * s)))
  {
    Swapped(p, r, q, s);
    var m, n := p * q, r * s;
    assert m * (d * n) == d * (m * n);
  }

  lemma TwiceNonzero(z: int, w: int)
    requires IsPrime(PRIME) && !Cg(z, 0) && !Cg(w, 0)
    ensures !Cg(2 * (z * w), 0)
  {
    hide IsPrime;
    SmallNotNull();
    if Cg(2 * (z * w), 0) {
      NoZeroDivisors(2, z * w);
      NoZeroDivisors(z, w);
    }
  }

  // ---- doubling ----

  /** (x + y)^2 - (b + a), b + a, b - a and c - (b - a) are the double in completed coordinates. */
  lemma DoubleFormula(p: Affine, x: int, y: int, z: int, a: int, b: int, c: int, s: int)
    requires IsPrime(PRIME) && OnCurve(p) && Complete(p, p) && At(p, x, y, z)
    requires Cg(a, x * x) && Cg(b, y * y) && Cg(c, 2 * (z * z)) && Cg(s, (x + y) * (x + y))
    ensures CompletedAt(Edwards(p, p), s - (b + a), b + a, b - a, c - (b - a))
  {
    hide IsPrime, Edwards, Cross, OnCurve, At, CompletedAt, ExtraAt;
    var w, k, r := z * z, Cross(p, p), Edwards(p, p);
    AtIs(p, x, y, z);
    CurveEquation(p);
    CompletedAtIs(r, s - (b + a), b + a, b - a, c - (b - a));
    ScaledSum(x, y, p.x, p.y, z);
    ScaledProduct(a, x, x, p.x, p.x, z, z);
    ScaledProduct(b, y, y, p.y, p.y, z, z);
    ScaledProduct(s, x + y, x + y, p.x + p.y, p.x + p.y, z, z);
    ScaledSum(b, a, p.y * p.y, p.x * p.x, w);
    var m := (p.x + p.y) * (p.x + p.y);
    ScaledSum(s, b + a, m, p.y * p.y + p.x * p.x, w);
    DoubleArith(p);
    CgMul(p.y * p.y - p.x * p.x, 1 + k, w, w);
    ScaledSum(c, b - a, 2, 1 + k, w);
    EdwardsLaw(p, p);
    ScaledRatio(s - (b + a), b - a, p.x * p.y + p.x * p.y, 1 + k, r.x, w);
    ScaledRatio(b + a, c - (b - a), p.y * p.y + p.x * p.x, 1 - k, r.y, w);
    NonzeroSquare(z);
    ScaledNonzero(b - a, 1 + k, w);
    ScaledNonzero(c - (b - a), 1 - k, w);
  }

  lemma DoubleArith(p: Affine)
    ensures (p.x + p.y) * (p.x + p.y) - (p.y * p.y + p.x * p.x) == p.x * p.y + p.x * p.y
    ensures D * ((p.x * p.y) * (p.x * p.y)) == Cross(p, p)
  {
    hide Cross;
    CrossIs(p, p);
    Swapped(p.x, p.x, p.y, p.y);
  }

  lemma NonzeroSquare(z: int)
    requires IsPrime(PRIME) && !Cg(z, 0)
    ensures !Cg(z * z, 0)
  {
    hide IsPrime;
    if Cg(z * z, 0) {
      NoZeroDivisors(z, z);
    }
  }

  // ---- the C functions ----

  lemma BasicIsLoose(f: Fe)
    requires Basic(f)
    ensures Loose(f)
  {
  }

  lemma TightIsBasic(f: Fe)
    requires Tight(f)
    ensures Basic(f) && Loose(f)
  {
  }

  /** x t, y z and z t turn completed coordinates into projective ones. */
  lemma Completed(a: Affine, x: int, y: int, z: int, t: int, px: int, py: int, pz: int)
    requires IsPrime(PRIME) && CompletedAt(a, x, y, z, t)
    requires Cg(px, x * t) && Cg(py, y * z) && Cg(pz, z * t)
    ensures At(a, px, py, pz)
  {
    hide IsPrime, At, CompletedAt, ExtraAt;
    AtIs(a, px, py, pz);
    CompletedAtIs(a, x, y, z, t);
    CgMul(x, a.x * z, t, t);
    CgMul(y, a.y * t, z, z);
    assert (a.x * z) * t == a.x * (z * t) && (a.y * t) * z == a.y * (z * t);
    FromProduct(px, a.x, pz, z * t);
    FromProduct(py, a.y, pz, z * t);
    assert z * t == t * z;
    ScaledNonzero(pz, z, t);
  }

  lemma FromProduct(u: int, a: int, v: int, w: int)
    requires Cg(u, a * w) && Cg(v, w)
    ensures Cg(u, a * v)
  {
    CgMul(a, a, w, v);
  }

  /** x y is the extra coordinate of x t, y z, z t. */
  lemma CompletedT(a: Affine, x: int, y: int, z: int, t: int, pz: int, pt: int)
    requires CompletedAt(a, x, y, z, t) && Cg(pz, z * t) && Cg(pt, x * y)
    ensures ExtraAt(a, pt, pz)
  {
    hide CompletedAt, ExtraAt;
    CompletedAtIs(a, x, y, z, t);
    ExtraAtIs(a, pt, pz);
    ScaledProduct(pt, x, y, a.x, a.y, z, t);
    FromProduct(pt, a.x * a.y, pz, z * t);
  }

  /** ge25519_p1p1_to_partial */
  method P1p1ToPartial(p: GeP1p1, ghost a: Affine, t: Fe) returns (r: Ge)
    requires IsPrime(PRIME) && RepP1p1(p, a)
    ensures Rep(r, a) && r.t == t
  {
    hide IsPrime, Val, Loose, Tight, CompletedAt, At, ExtraAt;
    var x := Mul(p.x, p.t);
    var y := Mul(p.y, p.z);
    var z := Mul(p.z, p.t);
    r := Ge(x, y, z, t);
    Completed(a, Val(p.x), Val(p.y), Val(p.z), Val(p.t), Val(x), Val(y), Val(z));
  }

  /** ge25519_p1p1_to_full */
  method P1p1ToFull(p: GeP1p1, ghost a: Affine) returns (r: Ge)
    requires IsPrime(PRIME) && RepP1p1(p, a)
    ensures RepFull(r, a)
  {
    hide IsPrime, Val, Loose, Tight, CompletedAt, At, ExtraAt;
    var x := Mul(p.x, p.t);
    var y := Mul(p.y, p.z);
    var z := Mul(p.z, p.t);
    var t := Mul(p.x, p.y);
    r := Ge(x, y, z, t);
    Completed(a, Val(p.x), Val(p.y), Val(p.z), Val(p.t), Val(x), Val(y), Val(z));
    CompletedT(a, Val(p.x), Val(p.y), Val(p.z), Val(p.t), Val(z), Val(t));
  }

  /** The sums and 2 d t of a full point. */
  lemma SumsOf(a: Affine, x: int, y: int, z: int, t: int, ysubx: int, xaddy: int, t2d: int, d2: int)
    requires At(a, x, y, z) && ExtraAt(a, t, z)
    requires Cg(ysubx, y - x) && Cg(xaddy, y + x) && Cg(t2d, t * d2) && Cg(d2, 2 * D)
    ensures SumsAt(a, ysubx, xaddy, t2d, z)
  {
    hide At, ExtraAt, SumsAt;
    AtIs(a, x, y, z);
    ExtraAtIs(a, t, z);
    SumsAtIs(a, ysubx, xaddy, t2d, z);
    ScaledSum(y, x, a.y, a.x, z);
    CgMul(t, (a.x * a.y) * z, d2, 2 * D);
    var m := a.x * a.y;
    assert (m * z) * (2 * D) == (2 * (D * m)) * z;
  }

  /** ge25519_full_to_pniels */
  method FullToPniels(r: Ge, ghost a: Affine) returns (p: GePniels)
    requires RepFull(r, a)
    ensures RepPniels(p, a)
  {
    hide Val, Loose, Tight, Basic, At, SumsAt, Num51, ExtraAt;
    Constants();
    TightIsBasic(r.t);
    TightIsBasic(EC2D);
    var ysubx := Sub(r.y, r.x);
    var xaddy := Add(r.y, r.x);
    var t2d := Mul(r.t, EC2D);
    p := GePniels(ysubx, xaddy, r.z, t2d);
    SumsOf(a, Val(r.x), Val(r.y), Val(r.z), Val(r.t), Val(ysubx), Val(xaddy), Val(t2d), Val(EC2D));
  }

  lemma MulBy(r: int, u: int, d: int, v: int)
    requires Cg(r, u * v) && Cg(u, d)
    ensures Cg(r, d * v)
  {
    CgMul(u, d, v, v);
  }

  /** The products, from the results of the field operations that compute them. */
  lemma ProductsHold(a: int, b: int, c: int, d: int, x: int, y: int, z: int, t: int, ysubx: int, xaddy: int, t2d: int,
      w: int,
                     s: int, u: int, e: int)
    requires Cg(a, s * ysubx) && Cg(s, y - x) && Cg(b, u * xaddy) && u == y + x && Cg(c, t * t2d)
    requires Cg(e, z * w) && Cg(d, e + e)
    ensures Products(a, b, c, d, x, y, z, t, ysubx, xaddy, t2d, w)
  {
    hide Products;
    ProductsAre(a, b, c, d, x, y, z, t, ysubx, xaddy, t2d, w);
    MulBy(a, s, y - x, ysubx);
    CgAdd(e, z * w, e, z * w);
  }

  lemma CompletedTransfer(a: Affine, x: int, y: int, z: int, t: int, x': int, y': int, z': int, t': int)
    requires CompletedAt(a, x, y, z, t) && Cg(x', x) && Cg(y', y) && Cg(z', z) && Cg(t', t)
    ensures CompletedAt(a, x', y', z', t')
  {
    hide CompletedAt;
    CompletedAtIs(a, x, y, z, t);
    CompletedAtIs(a, x', y', z', t');
    FromProduct(x', a.x, z', z);
    FromProduct(y', a.y, t', t);
    NotNull(z', z);
    NotNull(t', t);
  }

  /** ge25519_add_p1p1 */
  method AddP1p1(p: Ge, q: Ge, ghost f: Affine, ghost g: Affine) returns (r: GeP1p1)
    requires IsPrime(PRIME) && Complete(f, g) && RepFull(p, f) && RepFull(q, g)
    ensures RepP1p1(r, Edwards(f, g))
  {
    hide IsPrime, RepFull, Tight, Basic, CompletedAt, Edwards, Complete;
    var a, b, c, d := SumProducts(p, q, f, g);
    r := PlainSums(b, a, c, d, Edwards(f, g));
  }

  /** The first ten statements of ge25519_add_p1p1. */
  method SumProducts(p: Ge, q: Ge, ghost f: Affine, ghost g: Affine) returns (a: Fe, b: Fe, c: Fe, d: Fe)
    requires IsPrime(PRIME) && Complete(f, g) && RepFull(p, f) && RepFull(q, g)
    ensures Tight(a) && Tight(b) && Tight(c) && Basic(d)
    ensures CompletedAt(Edwards(f, g), Val(b) - Val(a), Val(b) + Val(a), Val(d) + Val(c), Val(d) - Val(c))
  {
    hide IsPrime, Val, Loose, Tight, Basic, Num51, At, SumsAt, Products, CompletedAt, Edwards, Complete, ExtraAt;
    Constants();
    a := Sub(p.y, p.x);
    b := Add(p.y, p.x);
    var t := Sub(q.y, q.x);
    var u := Add(q.y, q.x);
    ghost var s, m := Val(a), Val(b);
    BasicIsLoose(a);
    BasicIsLoose(b);
    BasicIsLoose(t);
    BasicIsLoose(u);
    a := Mul(a, t);
    b := Mul(b, u);
    TightIsBasic(p.t);
    TightIsBasic(q.t);
    c := Mul(p.t, q.t);
    ghost var tt := Val(c);
    TightIsBasic(c);
    TightIsBasic(EC2D);
    c := Mul(c, EC2D);
    TightIsBasic(p.z);
    TightIsBasic(q.z);
    d := Mul(p.z, q.z);
    ghost var e := Val(d);
    d := Add(d, d);
    ghost var t2d := Val(q.t) * Val(EC2D);
    MulBy(Val(c), tt, Val(p.t) * Val(q.t), Val(EC2D));
    MulAssoc(Val(p.t), Val(q.t), Val(EC2D));
    SumsOf(g, Val(q.x), Val(q.y), Val(q.z), Val(q.t), Val(t), Val(u), t2d, Val(EC2D));
    ProductsHold(Val(a), Val(b), Val(c), Val(d), Val(p.x), Val(p.y), Val(p.z), Val(p.t), Val(t), Val(u), t2d, Val(q.z),
        s, m, e);
    AddFormula(f, g, Val(p.x), Val(p.y), Val(p.z), Val(p.t), Val(t), Val(u), t2d, Val(q.z), Val(a), Val(b), Val(c),
        Val(d));
  }

  /** ge25519_double_p1p1 */
  method DoubleP1p1(p: Ge, ghost f: Affine) returns (r: GeP1p1)
    requires IsPrime(PRIME) && OnCurve(f) && Complete(f, f) && Rep(p, f)
    ensures RepP1p1(r, Edwards(f, f))
  {
    hide IsPrime, Val, Loose, Tight, Basic, Num51, At, CompletedAt, Edwards, Complete, OnCurve, ExtraAt;
    TightIsBasic(p.x);
    TightIsBasic(p.y);
    TightIsBasic(p.z);
    var a := Square(p.x);
    var b := Square(p.y);
    var c := Square(p.z);
    ghost var e := Val(c);
    TightIsBasic(c);
    c := AddReduce(c, c);
    var x := Add(p.x, p.y);
    BasicIsLoose(x);
    x := Square(x);
    var y := Add(b, a);
    var z := Sub(b, a);
    ghost var s := Val(x);
    TightIsBasic(x);
    TightIsBasic(c);
    x := SubAfterBasic(x, y);
    var t := SubAfterBasic(c, z);
    BasicIsLoose(y);
    BasicIsLoose(z);
    r := GeP1p1(x, y, z, t);
    CgAdd(e, Val(p.z) * Val(p.z), e, Val(p.z) * Val(p.z));
    DoubleFormula(f, Val(p.x), Val(p.y), Val(p.z), Val(a), Val(b), Val(c), s);
    CgSub(Val(c), Val(c), Val(z), Val(b) - Val(a));
    CompletedTransfer(Edwards(f, f), s - (Val(b) + Val(a)), Val(b) + Val(a), Val(b) - Val(a),
        Val(c) - (Val(b) - Val(a)),
                      Val(x), Val(y), Val(z), Val(t));
  }

  // ---- precomputed sums ----

  /** Exchanging the sums and negating t2d negates the point. */
  lemma NegSums(a: Affine, ysubx: int, xaddy: int, t2d: int, z: int)
    requires SumsAt(a, ysubx, xaddy, t2d, z)
    ensures SumsAt(NegAffine(a), xaddy, ysubx, -t2d, z)
  {
    hide SumsAt;
    SumsAtIs(a, ysubx, xaddy, t2d, z);
    SumsAtIs(NegAffine(a), xaddy, ysubx, -t2d, z);
    var n := NegAffine(a).x;
    CgResidue(-a.x);
    CgSub(a.y, a.y, n, -a.x);
    CgAdd(a.y, a.y, n, -a.x);
    CgMul(a.y + a.x, a.y - n, z, z);
    CgMul(a.y - a.x, a.y + n, z, z);
    NegT2d(D, a.x, a.y, n, t2d, z);
  }

  lemma NegT2d(d: int, x: int, y: int, n: int, t: int, z: int)
    requires Cg(n, -x) && Cg(t, (2 * (d * (x * y))) * z)
    ensures Cg(-t, (2 * (d * (n * y))) * z)
  {
    var m := (2 * (d * y)) * z;
    CgMul(-x, n, m, m);
    CgNeg(t, (2 * (d * (x * y))) * z);
    NegT2dArith(d, x, y, z);
    NegT2dArith(d, -n, y, z);
  }

  lemma NegT2dArith(d: int, x: int, y: int, z: int)
    ensures -((2 * (d * (x * y))) * z) == -x * ((2 * (d * y)) * z)
    ensures (2 * (d * (-x * y))) * z == -x * ((2 * (d * y)) * z)
  {
    T2dArith(d, x, y, z);
    T2dArith(d, -x, y, z);
    assert -x * ((2 * (d * y)) * z) == -(x * ((2 * (d * y)) * z));
  }

  lemma T2dArith(d: int, x: int, y: int, z: int)
    ensures (2 * (d * (x * y))) * z == x * ((2 * (d * y)) * z)
  {
    assert d * (x * y) == x * (d * y);
    var m := d * y;
    assert (2 * (x * m)) * z == x * ((2 * m) * z);
  }

  /** The point that is added: the entry itself or, for signbit 1, its negative. */
  ghost function Signed(a: Affine, signbit: int): Affine {
    if signbit == 0 then a else NegAffine(a)
  }

  /** The end of the signed additions: x, y, z, t from the products. */
  method SignedSums(e: Fe, a: Fe, c: Fe, d: Fe, signbit: int, ghost f: Affine, ghost g: int) returns (r: GeP1p1)
    requires Tight(e) && Tight(a) && Tight(c) && Tight(d)
    requires g == if signbit == 0 then Val(c) else -Val(c)
    requires CompletedAt(f, Val(e) - Val(a), Val(e) + Val(a), Val(d) + g, Val(d) - g)
    ensures RepP1p1(r, f)
  {
    hide Val, Loose, Tight, Basic, Num51, CompletedAt;
    var y := Add(e, a);
    var x := Sub(e, a);
    var t := d;
    var z := t;
    if signbit == 0 {
      z := Add(z, c);
      t := Sub(t, c);
    } else {
      t := Add(t, c);
      z := Sub(z, c);
    }
    BasicIsLoose(x);
    BasicIsLoose(y);
    BasicIsLoose(z);
    BasicIsLoose(t);
    r := GeP1p1(x, y, z, t);
    CompletedTransfer(f, Val(e) - Val(a), Val(e) + Val(a), Val(d) + g, Val(d) - g, Val(x), Val(y), Val(z), Val(t));
  }

  lemma CgNeg(a: int, b: int)
    requires Cg(a, b)
    ensures Cg(-a, -b)
  {
    CgSub(0, 0, a, b);
  }

  /** The products of p with sums that may be exchanged, and what they give. */
  method SignedProducts(p: Ge, ysubx: Fe, xaddy: Fe, t2d: Fe, signbit: int, ghost f: Affine, ghost g: Affine,
                        ghost w: int, ghost e: int, ghost d: int)
    returns (a: Fe, x: Fe, c: Fe, ghost cs: int)
    requires IsPrime(PRIME) && Complete(f, Signed(g, signbit)) && RepFull(p, f)
    requires Loose(ysubx) && Loose(xaddy) && Tight(t2d) && SumsAt(g, Val(ysubx), Val(xaddy), Val(t2d), w)
    requires Cg(e, Val(p.z) * w) && Cg(d, e + e)
    ensures Tight(a) && Tight(x) && Tight(c) && cs == if signbit == 0 then Val(c) else -Val(c)
    ensures CompletedAt(Edwards(f, Signed(g, signbit)), Val(x) - Val(a), Val(x) + Val(a), d + cs, d - cs)
  {
    hide IsPrime, Val, Loose, Tight, Basic, Num51, At, SumsAt, Products, CompletedAt, Edwards, Complete, NegAffine,
        ExtraAt;
    a := Sub(p.y, p.x);
    var b := Add(p.y, p.x);
    ghost var s, m := Val(a), Val(b);
    BasicIsLoose(a);
    BasicIsLoose(b);
    var u := if signbit == 0 then ysubx else xaddy;
    var v := if signbit == 0 then xaddy else ysubx;
    a := Mul(a, u);
    x := Mul(b, v);
    TightIsBasic(p.t);
    TightIsBasic(t2d);
    c := Mul(p.t, t2d);
    cs := Val(c);
    ghost var ts := Val(t2d);
    if signbit != 0 {
      NegSums(g, Val(ysubx), Val(xaddy), Val(t2d), w);
      CgNeg(Val(c), Val(p.t) * Val(t2d));
      NegRight(Val(p.t), Val(t2d));
      cs := -Val(c);
      ts := -Val(t2d);
    }
    ProductsHold(Val(a), Val(x), cs, d, Val(p.x), Val(p.y), Val(p.z), Val(p.t), Val(u), Val(v), ts, w, s, m, e);
    AddFormula(f, Signed(g, signbit), Val(p.x), Val(p.y), Val(p.z), Val(p.t), Val(u), Val(v), ts, w, Val(a), Val(x), cs,
        d);
  }

  lemma NegRight(a: int, b: int)
    ensures a * -b == -(a * b)
  {
  }

  /** ge25519_nielsadd2_p1p1: p + q, or p - q when signbit is 1. */
  method Nielsadd2P1p1(p: Ge, q: GeNiels, signbit: int, ghost f: Affine, ghost g: Affine) returns (r: GeP1p1)
    requires IsPrime(PRIME) && Complete(f, Signed(g, signbit)) && RepFull(p, f) && RepNiels(q, g)
    ensures RepP1p1(r, Edwards(f, Signed(g, signbit)))
  {
    hide IsPrime, Val, Loose, Tight, Basic, Num51, At, SumsAt, CompletedAt, Edwards, Complete, Signed, ExtraAt;
    TightIsBasic(q.ysubx);
    TightIsBasic(q.xaddy);
    TightIsBasic(p.z);
    var d := AddReduce(p.z, p.z);
    var a, x, c, cs := SignedProducts(p, q.ysubx, q.xaddy, q.t2d, signbit, f, g, 1, Val(p.z), Val(d));
    r := SignedSums(x, a, c, d, signbit, Edwards(f, Signed(g, signbit)), cs);
  }

  /** ge25519_pnielsadd_p1p1: p + q, or p - q when signbit is 1. */
  method PnielsaddP1p1(p: Ge, q: GePniels, signbit: int, ghost f: Affine, ghost g: Affine) returns (r: GeP1p1)
    requires IsPrime(PRIME) && Complete(f, Signed(g, signbit)) && RepFull(p, f) && RepPniels(q, g)
    ensures RepP1p1(r, Edwards(f, Signed(g, signbit)))
  {
    hide IsPrime, Val, Loose, Tight, Basic, Num51, At, SumsAt, CompletedAt, Edwards, Complete, Signed, ExtraAt;
    BasicIsLoose(q.ysubx);
    BasicIsLoose(q.xaddy);
    TightIsBasic(p.z);
    TightIsBasic(q.z);
    var d := Mul(p.z, q.z);
    ghost var e := Val(d);
    TightIsBasic(d);
    d := AddReduce(d, d);
    var a, x, c, cs := SignedProducts(p, q.ysubx, q.xaddy, q.t2d, signbit, f, g, Val(q.z), e, Val(d));
    r := SignedSums(x, a, c, d, signbit, Edwards(f, Signed(g, signbit)), cs);
  }

  /** ge25519_double_partial */
  method DoublePartial(p: Ge, ghost f: Affine) returns (r: Ge)
    requires IsPrime(PRIME) && OnCurve(f) && Complete(f, f) && Rep(p, f)
    ensures Rep(r, Edwards(f, f))
  {
    hide IsPrime, Rep, RepP1p1, Edwards, Complete, OnCurve;
    var t := DoubleP1p1(p, f);
    r := P1p1ToPartial(t, Edwards(f, f), p.t);
  }

  /** ge25519_double */
  method Double(p: Ge, ghost f: Affine) returns (r: Ge)
    requires IsPrime(PRIME) && OnCurve(f) && Complete(f, f) && Rep(p, f)
    ensures RepFull(r, Edwards(f, f))
  {
    hide IsPrime, Rep, RepFull, RepP1p1, Edwards, Complete, OnCurve;
    var t := DoubleP1p1(p, f);
    r := P1p1ToFull(t, Edwards(f, f));
  }

  /** ge25519_add */
  method AddGe(p: Ge, q: Ge, ghost f: Affine, ghost g: Affine) returns (r: Ge)
    requires IsPrime(PRIME) && Complete(f, g) && RepFull(p, f) && RepFull(q, g)
    ensures RepFull(r, Edwards(f, g))
  {
    hide IsPrime, RepFull, RepP1p1, Edwards, Complete;
    var t := AddP1p1(p, q, f, g);
    r := P1p1ToFull(t, Edwards(f, g));
  }

  /** e - a, e + a, d + c and d - c with the bounds the final products need. */
  method PlainSums(e: Fe, a: Fe, c: Fe, d: Fe, ghost f: Affine) returns (r: GeP1p1)
    requires Tight(e) && Tight(a) && Tight(c) && Basic(d)
    requires CompletedAt(f, Val(e) - Val(a), Val(e) + Val(a), Val(d) + Val(c), Val(d) - Val(c))
    ensures RepP1p1(r, f)
  {
    hide Val, Loose, Tight, Basic, Num51, CompletedAt;
    var y := Add(e, a);
    var x := Sub(e, a);
    TightIsBasic(c);
    var z := AddAfterBasic(d, c);
    var t := SubAfterBasic(d, c);
    BasicIsLoose(x);
    BasicIsLoose(y);
    r := GeP1p1(x, y, z, t);
    CompletedTransfer(f, Val(e) - Val(a), Val(e) + Val(a), Val(d) + Val(c), Val(d) - Val(c), Val(x), Val(y), Val(z),
        Val(t));
  }

  /** ge25519_nielsadd2: r + q, in place. */
  method Nielsadd2(r0: Ge, q: GeNiels, ghost f: Affine, ghost g: Affine) returns (r: Ge)
    requires IsPrime(PRIME) && Complete(f, g) && RepFull(r0, f) && RepNiels(q, g)
    ensures RepFull(r, Edwards(f, g))
  {
    hide IsPrime, Val, Loose, Tight, Basic, Num51, At, SumsAt, CompletedAt, Edwards, Complete, ExtraAt;
    TightIsBasic(q.ysubx);
    TightIsBasic(q.xaddy);
    var d := Add(r0.z, r0.z);
    var a, e, c, cs := SignedProducts(r0, q.ysubx, q.xaddy, q.t2d, 0, f, g, 1, Val(r0.z), Val(d));
    var t := PlainSums(e, a, c, d, Edwards(f, g));
    r := P1p1ToFull(t, Edwards(f, g));
  }

  /** ge25519_pnielsadd: p + q as precomputed sums. */
  method Pnielsadd(p: Ge, q: GePniels, ghost f: Affine, ghost g: Affine) returns (r: GePniels)
    requires IsPrime(PRIME) && Complete(f, g) && RepFull(p, f) && RepPniels(q, g)
    ensures RepPniels(r, Edwards(f, g))
  {
    hide IsPrime, Val, Loose, Tight, Basic, Num51, At, SumsAt, CompletedAt, Edwards, Complete, ExtraAt;
    BasicIsLoose(q.ysubx);
    BasicIsLoose(q.xaddy);
    TightIsBasic(p.z);
    TightIsBasic(q.z);
    var d := Mul(p.z, q.z);
    ghost var w := Val(d);
    d := Add(d, d);
    var a, e, c, cs := SignedProducts(p, q.ysubx, q.xaddy, q.t2d, 0, f, g, Val(q.z), w, Val(d));
    var t := PlainSums(e, a, c, d, Edwards(f, g));
    var s := P1p1ToFull(t, Edwards(f, g));
    r := FullToPniels(s, Edwards(f, g));
  }
}
