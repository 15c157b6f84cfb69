/** Points from and to 32 bytes (src/ed25519-donna/ed25519-donna-impl-base.h, lines 175-239). */
module PointCodec {
  import opened Arith
  import opened Bytes
  import opened Congruence
  import opened Fermat
  import opened EdwardsCurve
  import opened EdwardsGroup
  import opened Field
  import opened FieldChains
  import opened FieldCodec
  import opened Points

  /** ed25519_verify: do the two strings agree? */
  method Verify(x: seq<int>, y: seq<int>) returns (equal: bool)
    requires |x| == |y|
    ensures equal <==> x == y
  {
    equal := true;
    for i := 0 to |x|
      invariant equal <==> x[..i] == y[..i]
    {
      assert x[..i + 1] == x[..i] + [x[i]] && y[..i + 1] == y[..i] + [y[i]];
      equal := equal && x[i] == y[i];
    }
    assert x[..|x|] == x && y[..|y|] == y;
  }

  // ---- the basepoint ----

  /** ge25519_basepoint */
  const BASEPOINT: Ge := Ge(
    Fe(0x00062d608f25d51a, 0x000412a4b4f6592a, 0x00075b7171a4b31d, 0x0001ff60527118fe, 0x000216936d3cd6e5),
    Fe(0x0006666666666658, 0x0004cccccccccccc, 0x0001999999999999, 0x0003333333333333, 0x0006666666666666),
    Fe(1, 0, 0, 0, 0),
    Fe(0x00068ab3a5b7dda3, 0x00000eea2a5eadbb, 0x0002af8df483c27e, 0x000332b375274732, 0x00067875f0fd78b7))

  /** The limbs of the basepoint, its t included, are those of the curve point with y = 4/5 and even x. */
  lemma BasepointIs()
    ensures OnCurve(BASE) && RepFull(BASEPOINT, BASE) && Cg(5 * BASE.y, 4) && BASE.x % 2 == 0
  {
    BaseOnCurve();
    var t := Val(BASEPOINT.t);
    assert Val(BASEPOINT.x) == BASE.x && Val(BASEPOINT.y) == BASE.y && Val(BASEPOINT.z) == 1;
    CgByMultiple(t, BASE.x * BASE.y, -0x1aba92430abea9989a1d81c197df16b05423d2b3aa848628a111bde6d8eb10e1);
    AtIs(BASE, BASE.x, BASE.y, 1);
    ExtraAtIs(BASE, t, 1);
    SmallNotNull();
  }

  // ---- pack ----

  /** The encoding of a point: y, with the parity of x in the top bit. */
  function Encoding(a: Affine): int {
    a.y + TWO255 * (a.x % 2)
  }

  ghost predicate IsEncoding(b: seq<int>, a: Affine) {
    |b| == 32 && IsBytes(b) && LeValue(b) == Encoding(a)
  }

  /** Dividing by z gives the affine coordinate. */
  lemma Divide(t: int, x: int, z: int, i: int, a: int)
    requires Cg(t, x * i) && Cg(x, a * z) && Cg(i * z, 1)
    ensures Cg(t, a)
  {
    CgMul(x, a * z, i, i);
    CgMul(a, a, i * z, 1);
    assert a * z * i == a * (i * z);
  }

  /** The bytes of a field element that is congruent to a residue. */
  method ContractResidue(f: Fe, ghost a: int) returns (b: seq<int>)
    requires Loose(f) && Cg(Val(f), a) && 0 <= a < PRIME
    ensures |b| == 32 && IsBytes(b) && LeValue(b) == a
  {
    hide Num51, LeFrom;
    b := Contract(f);
    ResidueIs(Val(f));
    ResidueIs(a);
    DivSmall(a, PRIME);
  }

  /** ge25519_pack: the encoding of the point. */
  method Pack(p: Ge, ghost a: Affine) returns (r: seq<int>)
    requires IsPrime(PRIME) && OnCurve(a) && Rep(p, a)
    ensures IsEncoding(r, a)
  {
    hide IsPrime, Num51, Val, LeFrom, Tight, Loose, Exp;
    TightIsBasic(p.x);
    TightIsBasic(p.y);
    TightIsBasic(p.z);
    var zi := Recip(p.z);
    RecipInverts(Val(zi), Val(p.z));
    AtIs(a, Val(p.x), Val(p.y), Val(p.z));
    TightIsBasic(zi);
    var tx := Mul(p.x, zi);
    var ty := Mul(p.y, zi);
    Divide(Val(tx), Val(p.x), Val(p.z), Val(zi), a.x);
    Divide(Val(ty), Val(p.y), Val(p.z), Val(zi), a.y);
    TightIsBasic(tx);
    TightIsBasic(ty);
    r := ContractResidue(ty, a.y);
    var parity := ContractResidue(tx, a.x);
    LowByte(parity);
    TopByte(r, parity[0] % 2);
    r := r[31 := r[31] + 128 * (parity[0] % 2)];
  }

  lemma LowByte(b: seq<int>)
    requires |b| >= 1
    ensures b[0] % 2 == LeValue(b) % 2
  {
    assert LeFrom(b, 0) == b[0] + 256 * LeFrom(b, 1);
  }

  /** The top byte of a number below 2^255 has its top bit clear; setting it adds 2^255. */
  lemma TopByte(b: seq<int>, bit: int)
    requires |b| == 32 && IsBytes(b) && LeValue(b) < TWO255 && 0 <= bit <= 1
    ensures 0 <= b[31] < 128
    ensures IsBytes(b[31 := b[31] + 128 * bit]) && LeValue(b[31 := b[31] + 128 * bit]) == LeValue(b) + TWO255 * bit
  {
    hide LeFrom;
    var c := b[31 := b[31] + 128 * bit];
    WordBound(b, 0);
    WordBound(b, 8);
    WordBound(b, 16);
    LeOfWords(b);
    LeOfWords(c);
  }

  // ---- unpack ----

  /** The number the code reads as y: 255 bits, taken modulo p. */
  ghost function YOf(b: seq<int>): int {
    Residue(LeValue(b) % TWO255)
  }

  /** a is what b decodes to: the point with this y and the parity of x opposite to the top bit. */
  ghost predicate Decodes(b: seq<int>, a: Affine)
    requires |b| == 32
  {
    OnCurve(a) && a.y == YOf(b) && (a.x == 0 || a.x % 2 != b[31] / 128)
  }

  /** The curve equation solved for x^2: x^2 (d y^2 + 1) = y^2 - 1. */
  lemma CurveByX(x: int, y: int, num: int, den: int)
    requires Cg(num, y * y - 1) && Cg(den, D * (y * y) + 1)
    ensures Cg((x * x) * den, num) <==> OnEquation(x, y)
  {
    var q := D * (y * y);
    CgMul(x * x, x * x, den, q + 1);
    assert (x * x) * (q + 1) == D * ((x * y) * (x * y)) + x * x by {
      SquareOfProduct(x, y);
      assert (x * x) * q == D * ((x * x) * (y * y));
    }
    var s := D * ((x * y) * (x * y));
    NullIff(s + x * x, y * y - 1);
    NullIff(1 + s, y * y - x * x);
    assert (s + x * x) - (y * y - 1) == (1 + s) - (y * y - x * x);
  }

  /** d y^2 + 1 never vanishes. */
  lemma DenominatorNonzero(y: int, den: int)
    requires IsPrime(PRIME) && NonSquare(D) && Cg(den, D * (y * y) + 1)
    ensures !Cg(den, 0)
  {
    hide IsPrime, NonSquare;
    if Cg(den, 0) {
      RootIsRoot();
      NullSum(D * (y * y) + 1, 0);
      NullIff(ROOT * ROOT, -1);
      NullSum(ROOT * ROOT + 1, D * (y * y) + 1);
      NullIff(ROOT * ROOT, D * (y * y));
      if Cg(y, 0) {
        NullTimes(y, y);
        NullTimes(y * y, D);
        SmallNotNull();
        CgAdd(D * (y * y), 0, 1, 1);
      }
      SquareRatio(ROOT, y);
    }
  }

  /** (p - 1) / 4 */
  const QUARTER: nat := 0x1ffffffffffffffffffffffffffffffffffffffffffffffffffffffffffffffb

  /** w = u v^7 */
  ghost predicate Radicand(w: int, u: int, v: int, v3: int) {
    Cg(v3, (v * v) * v) && Cg(w, ((v3 * v3) * v) * u)
  }

  /** The candidate x = u v^3 w^((p-5)/8) has v x^2 = w^((p-1)/4) u. */
  lemma Candidate(u: int, v: int, v3: int, w: int, r: int, x: int, t: int)
    requires Radicand(w, u, v, v3) && IsPower(r, w, 0xffffffffffffffffffffffffffffffffffffffffffffffffffffffffffffffd)
    requires Cg(x, (r * v3) * u) && Cg(t, (x * x) * v)
    ensures Cg(t, Exp(w, QUARTER) * u)
  {
    hide Exp;
    PowerTimes(r * r, r, r, w, 0xffffffffffffffffffffffffffffffffffffffffffffffffffffffffffffffd,
        0xffffffffffffffffffffffffffffffffffffffffffffffffffffffffffffffd);
    PowerSelf(w);
    PowerTimes((r * r) * w, r * r, w, w, 0x1ffffffffffffffffffffffffffffffffffffffffffffffffffffffffffffffa, 1);
    CgMul(x, (r * v3) * u, x, (r * v3) * u);
    CgMul(x * x, ((r * v3) * u) * ((r * v3) * u), v, v);
    CandidateArith(r, v3, u, v);
    CgMul(r * r, r * r, w, ((v3 * v3) * v) * u);
    CgMul((r * r) * w, (r * r) * (((v3 * v3) * v) * u), u, u);
    CgMul((r * r) * w, Exp(w, QUARTER), u, u);
  }

  lemma CandidateArith(r: int, c: int, u: int, v: int)
    ensures (((r * c) * u) * ((r * c) * u)) * v == ((r * r) * (((c * c) * v) * u)) * u
  {
    SquareOfProduct(r * c, u);
    SquareOfProduct(r, c);
    var rr, cc, uu := r * r, c * c, u * u;
    assert ((rr * cc) * uu) * v == (rr * cc) * (uu * v);
    assert (rr * ((cc * v) * u)) * u == rr * (((cc * v) * u) * u);
    assert ((cc * v) * u) * u == (cc * v) * uu;
    assert (cc * v) * uu == cc * (uu * v);
    assert (rr * cc) * (uu * v) == rr * (cc * (uu * v));
  }

  /** If u / v = s^2, then w is the square of s v^4. */
  lemma RadicandSquare(u: int, v: int, v3: int, w: int, s: int)
    requires Radicand(w, u, v, v3) && Cg((s * s) * v, u)
    ensures Cg(w, (s * ((v * v) * (v * v))) * (s * ((v * v) * (v * v))))
  {
    var c := (v * v) * v;
    CgMul(v3, c, v3, c);
    CgMul(v3 * v3, c * c, v, v);
    CgMul((v3 * v3) * v, (c * c) * v, u, (s * s) * v);
    RadicandArith(s, v);
  }

  lemma RadicandArith(s: int, v: int)
    ensures var c := (v * v) * v; var k := s * ((v * v) * (v * v)); ((c * c) * v) * ((s * s) * v) == k * k
  {
    var c, f := (v * v) * v, (v * v) * (v * v);
    assert c * v == f;
    assert (c * c) * v == c * f;
    assert (c * f) * ((s * s) * v) == (s * s) * ((c * v) * f);
    SquareOfProduct(s, f);
  }

  /** A number whose square is 1 is 1 or -1. */
  lemma RootsOfOne(c: int)
    requires IsPrime(PRIME) && Cg(c * c, 1)
    ensures Cg(c, 1) || Cg(c, -1)
  {
    hide IsPrime;
    NullIff(c * c, 1);
    assert c * c - 1 == (c - 1) * (c + 1);
    NoZeroDivisors(c - 1, c + 1);
    NullIff(c, 1);
    NullIff(c, -1);
  }

  /** When u / v has a square root, w^((p-1)/4) u is u or -u. */
  lemma RootExists(u: int, v: int, v3: int, w: int, s: int)
    requires IsPrime(PRIME) && !Cg(v, 0) && Radicand(w, u, v, v3) && Cg((s * s) * v, u)
    ensures Cg(Exp(w, QUARTER) * u, u) || Cg(Exp(w, QUARTER) * u, -u)
  {
    hide IsPrime, Exp, Radicand;
    var c, k := Exp(w, QUARTER), s * ((v * v) * (v * v));
    if Cg(k, 0) {
      NoZeroDivisors(s, (v * v) * (v * v));
      NonzeroSquare(v);
      NonzeroSquare(v * v);
      NullTimes(s, s);
      NullTimes(s * s, v);
      NullTimes(u, c);
    } else {
      RadicandSquare(u, v, v3, w, s);
      CgExp(w, k * k, QUARTER);
      SquareExp(k);
      LittleTheorem(k);
      CgMul(c, Exp(k, 2 * QUARTER), c, Exp(k, 2 * QUARTER));
      ExpAdd(k, 2 * QUARTER, 2 * QUARTER);
      RootsOfOne(c);
      if Cg(c, 1) {
        CgMul(c, 1, u, u);
      } else {
        CgMul(c, -1, u, u);
      }
    }
  }

  lemma SquareExp(k: int)
    ensures Exp(k * k, QUARTER) == Exp(k, 2 * QUARTER)
  {
    ExpTwo(k);
    hide Exp;
    ExpMul(k, 2, QUARTER);
  }

  lemma ExpTwo(k: int)
    ensures Exp(k, 2) == k * k
  {
    assert Exp(k, 1) == k * Exp(k, 0);
  }

  /** Contract and compare with 32 zero bytes. */
  method IsZero(f: Fe) returns (zero: bool)
    requires Loose(f)
    ensures zero <==> Cg(Val(f), 0)
  {
    hide Num51, LeFrom;
    var check := Contract(f);
    var zeros := seq(32, i => 0);
    zero := Verify(check, zeros);
    LeZeros(zeros, 0);
    ResidueIs(Val(f));
    ResidueIs(0);
    if LeValue(check) == 0 {
      LeInjective(check, zeros, 0);
      assert check[0..] == check && zeros[0..] == zeros;
    }
  }

  /** y^2 - 1 and d y^2 + 1 */
  method Fraction(y: Fe, z: Fe) returns (num: Fe, den: Fe)
    requires Tight(y) && z == Fe(1, 0, 0, 0, 0)
    ensures Tight(num) && Basic(den)
    ensures Cg(Val(num), Val(y) * Val(y) - 1) && Cg(Val(den), D * (Val(y) * Val(y)) + 1)
  {
    hide Num51, Val, Tight, Loose, Basic;
    Constants();
    SmallElement(1);
    TightIsBasic(y);
    TightIsBasic(z);
    TightIsBasic(ECD);
    num := Square(y);
    TightIsBasic(num);
    den := Mul(num, ECD);
    ghost var q, e := Val(num), Val(den);
    num := SubReduce(num, z);
    den := Add(den, z);
    ghost var yy := Val(y) * Val(y);
    CgSub(q, yy, 1, 1);
    CgMul(q, yy, D, D);
    assert yy * D == D * yy;
    CgAdd(e, D * yy, 1, 1);
  }

  /** u v^3 (u v^7)^((p-5)/8) and v times its square. */
  method Root(num: Fe, den: Fe) returns (x: Fe, t: Fe, ghost v3: int, ghost w: int)
    requires Tight(num) && Basic(den)
    ensures Tight(x) && Tight(t) && Cg(Val(t), (Val(x) * Val(x)) * Val(den))
    ensures Radicand(w, Val(num), Val(den), v3) && Cg(Val(t), Exp(w, QUARTER) * Val(num))
  {
    hide Num51, Val, Tight, Loose, Basic, Exp;
    ghost var u, v := Val(num), Val(den);
    TightIsBasic(num);
    BasicIsLoose(den);
    t := Square(den);
    TightIsBasic(t);
    var d3 := Mul(t, den);
    v3 := Val(d3);
    MulBy(v3, Val(t), v * v, v);
    TightIsBasic(d3);
    x := Square(d3);
    TightIsBasic(x);
    ghost var v6 := Val(x);
    x := Mul(x, den);
    TightIsBasic(x);
    ghost var v7 := Val(x);
    MulBy(v7, v6, v3 * v3, v);
    x := Mul(x, num);
    TightIsBasic(x);
    w := Val(x);
    MulBy(w, v7, (v3 * v3) * v, u);
    x := PowTwo252m3(x);
    TightIsBasic(x);
    ghost var r := Val(x);
    x := Mul(x, d3);
    TightIsBasic(x);
    ghost var rc := Val(x);
    x := Mul(x, num);
    TightIsBasic(x);
    MulBy(Val(x), rc, r * v3, u);
    t := Square(x);
    TightIsBasic(t);
    ghost var xx := Val(t);
    t := Mul(t, den);
    MulBy(Val(t), xx, Val(x) * Val(x), v);
    Candidate(u, v, v3, w, r, Val(x), Val(t));
  }

  /** Multiplying by the root of -1 turns v x^2 = -u into v x^2 = u. */
  lemma TurnRoot(x: int, y: int, v: int, u: int, t: int)
    requires Cg(t, (x * x) * v) && Cg(t, -u) && Cg(y, x * ROOT)
    ensures Cg((y * y) * v, u)
  {
    Constants();
    CgMul(y, x * ROOT, y, x * ROOT);
    SquareOfProduct(x, ROOT);
    CgMul(x * x, x * x, ROOT * ROOT, -1);
    CgMul(y * y, -(x * x), v, v);
    assert -(x * x) * v == -((x * x) * v);
    CgNeg((x * x) * v, -u);
  }

  /** The negative of a nonzero residue has the other parity. */
  lemma NegParity(x: int, n: int)
    requires 0 < x < PRIME && 0 <= n < PRIME && Cg(n, -x)
    ensures n % 2 != x % 2
  {
    CgByMultiple(PRIME - x, -x, 1);
    SameResidue(n, PRIME - x);
  }

  /** s is a square root of u / v. */
  ghost predicate IsQuotientRoot(s: int, u: int, v: int) {
    Cg((s * s) * v, u)
  }

  /** Both square-root branches; u / v has a root exactly if one of them succeeds. */
  method SquareRoot(num: Fe, den: Fe) returns (ok: bool, x: Fe)
    requires IsPrime(PRIME) && Tight(num) && Basic(den) && !Cg(Val(den), 0)
    ensures Tight(x) && (ok ==> IsQuotientRoot(Val(x), Val(num), Val(den)))
    ensures !ok ==> forall s: int :: !IsQuotientRoot(s, Val(num), Val(den))
  {
    hide IsPrime, Num51, Val, Tight, Loose, Basic, Exp, Radicand;
    var t;
    ghost var v3, w;
    x, t, v3, w := Root(num, den);
    ghost var u, v := Val(num), Val(den);
    TightIsBasic(t);
    TightIsBasic(num);
    TightIsBasic(x);
    var root := SubReduce(t, num);
    TightIsBasic(root);
    NullIff(Val(t), u);
    var first := IsZero(root);
    ok := true;
    if !first {
      var sum := AddReduce(t, num);
      TightIsBasic(sum);
      NullIff(Val(t), -u);
      var second := IsZero(sum);
      if !second {
        NoRoot(u, v, v3, w, Val(t));
        return false, x;
      }
      Constants();
      TightIsBasic(SQRTNEG1);
      ghost var x0 := Val(x);
      x := Mul(x, SQRTNEG1);
      TurnRoot(x0, Val(x), v, u, Val(t));
    }
  }

  lemma NoRoot(u: int, v: int, v3: int, w: int, t: int)
    requires IsPrime(PRIME) && !Cg(v, 0) && Radicand(w, u, v, v3) && Cg(t, Exp(w, QUARTER) * u)
    requires !Cg(t, u) && !Cg(t, -u)
    ensures forall s: int :: !IsQuotientRoot(s, u, v)
  {
    hide IsPrime, Exp, Radicand;
    forall s: int
      ensures !IsQuotientRoot(s, u, v)
    {
      if IsQuotientRoot(s, u, v) {
        RootExists(u, v, v3, w, s);
      }
    }
  }

  /** The sign: negate when the parity equals the top bit. */
  method ChooseSign(x0: Fe, parity: int) returns (x: Fe)
    requires Tight(x0)
    ensures Tight(x) && (Cg(Val(x), Val(x0)) || Cg(Val(x), -Val(x0)))
    ensures Residue(Val(x)) == 0 || Residue(Val(x)) % 2 != parity
  {
    hide Num51, LeFrom, Tight, Loose, Val;
    TightIsBasic(x0);
    x := x0;
    ghost var v := Residue(Val(x0));
    CgResidue(Val(x0));
    var check := ContractResidue(x0, v);
    LowByte(check);
    if check[0] % 2 == parity {
      x := Neg(x0);
      CgResidue(Val(x));
      CgNeg(Val(x0), v);
      if v == 0 {
        SameResidue(Residue(Val(x)), 0);
      } else {
        NegParity(v, Residue(Val(x)));
      }
    }
  }

  /** ge25519_unpack_negative_vartime: succeeds exactly if the curve has a point with this y, and then
      returns the one Decodes names. */
  method UnpackNegativeVartime(p: seq<int>) returns (ok: bool, r: Ge, ghost a: Affine)
    requires IsPrime(PRIME) && NonSquare(D) && |p| == 32 && IsBytes(p)
    ensures ok ==> Decodes(p, a) && RepFull(r, a) && r.z == Fe(1, 0, 0, 0, 0)
    ensures !ok ==> forall x: int :: !OnCurve(Affine(x, YOf(p)))
  {
    hide IsPrime, NonSquare, Num51, Val, Tight, Loose, Basic, LeFrom;
    var parity := p[31] / 128;
    var y := Expand(p);
    BelowIsTight(y);
    var z := Fe(1, 0, 0, 0, 0);
    var num, den := Fraction(y, z);
    ghost var v := Val(y);
    DenominatorNonzero(v, Val(den));
    var x;
    ok, x := SquareRoot(num, den);
    r := Ge(x, y, z, x);
    a := Affine(0, 1);
    if !ok {
      NoPoint(p, v, Val(num), Val(den));
      return;
    }
    ghost var x0 := Val(x);
    x := ChooseSign(x, parity);
    TightIsBasic(x);
    TightIsBasic(y);
    var t := Mul(x, y);
    r := Ge(x, y, z, t);
    a := Affine(Residue(Val(x)), YOf(p));
    DecodedPoint(p, a, Val(x), x0, v, Val(num), Val(den));
    DecodedRep(a, Val(x), v, Val(t));
    SmallElement(1);
  }

  lemma BelowIsTight(f: Fe)
    requires Below(f, 0x8000000000000)
    ensures Tight(f)
  {
  }

  lemma NoPoint(p: seq<int>, y: int, num: int, den: int)
    requires |p| == 32 && y == LeValue(p) % TWO255
    requires Cg(num, y * y - 1) && Cg(den, D * (y * y) + 1)
    requires forall s: int :: !IsQuotientRoot(s, num, den)
    ensures forall x: int :: !OnCurve(Affine(x, YOf(p)))
  {
    hide LeFrom;
    var b := YOf(p);
    CgResidue(y);
    CgMul(b, y, b, y);
    CgSub(b * b, y * y, 1, 1);
    CgMul(D, D, b * b, y * y);
    CgAdd(D * (b * b), D * (y * y), 1, 1);
    forall x: int
      ensures !OnCurve(Affine(x, b))
    {
      CurveEquation(Affine(x, b));
      CurveByX(x, b, num, den);
      assert !IsQuotientRoot(x, num, den);
    }
  }

  lemma DecodedPoint(p: seq<int>, a: Affine, x: int, x0: int, y: int, num: int, den: int)
    requires |p| == 32 && y == LeValue(p) % TWO255 && a == Affine(Residue(x), YOf(p))
    requires Cg(num, y * y - 1) && Cg(den, D * (y * y) + 1) && IsQuotientRoot(x0, num, den)
    requires Cg(x, x0) || Cg(x, -x0)
    ensures OnCurve(a)
  {
    hide LeFrom;
    CgResidue(x);
    CgResidue(y);
    CgMul(a.y, y, a.y, y);
    CgSub(a.y * a.y, y * y, 1, 1);
    CgMul(D, D, a.y * a.y, y * y);
    CgAdd(D * (a.y * a.y), D * (y * y), 1, 1);
    if Cg(x, x0) {
      CgMul(a.x, x0, a.x, x0);
    } else {
      CgMul(a.x, -x0, a.x, -x0);
      assert -x0 * -x0 == x0 * x0;
    }
    CgMul(a.x * a.x, x0 * x0, den, den);
    CurveByX(a.x, a.y, num, den);
    CurveEquation(a);
  }

  lemma DecodedRep(a: Affine, x: int, y: int, t: int)
    requires a == Affine(Residue(x), Residue(y)) && Cg(t, x * y)
    ensures At(a, x, y, 1) && ExtraAt(a, t, 1)
  {
    AtIs(a, x, y, 1);
    ExtraAtIs(a, t, 1);
    CgResidue(x);
    CgResidue(y);
    CgMul(a.x, x, a.y, y);
    SmallNotNull();
  }

  /** The decoded point by its affine coordinates, which the limbs hold because z = 1. */
  method UnpackAffine(p: seq<int>) returns (ok: bool, a: Affine)
    requires IsPrime(PRIME) && NonSquare(D) && |p| == 32 && IsBytes(p)
    ensures ok ==> Decodes(p, a)
    ensures !ok ==> forall x: int :: !OnCurve(Affine(x, YOf(p)))
  {
    hide IsPrime, NonSquare, Num51, Val, Tight, Loose, LeFrom, OnCurve, YOf;
    var r;
    ghost var c;
    ok, r, c := UnpackNegativeVartime(p);
    a := Affine(0, 1);
    if ok {
      CoordinatesIn(r, c);
      var x := ContractResidue(r.x, c.x);
      var y := ContractResidue(r.y, c.y);
      a := Affine(LeValue(x), LeValue(y));
    }
  }

  lemma CoordinatesIn(r: Ge, a: Affine)
    requires RepFull(r, a) && r.z == Fe(1, 0, 0, 0, 0) && OnCurve(a)
    ensures Loose(r.x) && Loose(r.y) && Cg(Val(r.x), a.x) && Cg(Val(r.y), a.y) && 0 <= a.x < PRIME && 0 <= a.y < PRIME
  {
    hide Val, Tight, Loose;
    SmallElement(1);
    TightIsBasic(r.x);
    TightIsBasic(r.y);
    AtIs(a, Val(r.x), Val(r.y), 1);
  }

  // ---- unpack after pack ----

  lemma SameSquare(x: int, y: int)
    requires IsPrime(PRIME) && Cg(x * x, y * y)
    ensures Cg(x, y) || Cg(x, -y)
  {
    hide IsPrime;
    NullIff(x * x, y * y);
    assert x * x - y * y == (x - y) * (x + y);
    NoZeroDivisors(x - y, x + y);
    NullIff(x, y);
    NullIff(x, -y);
  }

  /** Two points of the curve with the same y have opposite or equal x. */
  lemma SameY(a: Affine, b: Affine)
    requires IsPrime(PRIME) && NonSquare(D) && OnCurve(a) && OnCurve(b) && a.y == b.y
    ensures a.x == b.x || Cg(a.x, -b.x)
  {
    hide IsPrime, NonSquare;
    var y := a.y;
    var num, den := y * y - 1, D * (y * y) + 1;
    CurveEquation(a);
    CurveEquation(b);
    CurveByX(a.x, y, num, den);
    CurveByX(b.x, y, num, den);
    DenominatorNonzero(y, den);
    CgCancel(a.x * a.x, b.x * b.x, den);
    SameSquare(a.x, b.x);
    if Cg(a.x, b.x) {
      SameResidue(a.x, b.x);
    }
  }

  lemma NegTwice(p: CurvePoint)
    ensures NegAffine(NegAffine(p)) == p
  {
    var n := NegAffine(p);
    CgResidue(-p.x);
    CgResidue(-n.x);
    CgNeg(n.x, -p.x);
    SameResidue(NegAffine(n).x, p.x);
  }

  /** Decoding the encoding of a point gives its negative, and nothing else. */
  lemma UnpackOfPack(b: seq<int>, a: Affine, c: Affine)
    requires IsPrime(PRIME) && NonSquare(D) && OnCurve(a) && IsEncoding(b, a)
    ensures Decodes(b, c) <==> c == NegAffine(a)
  {
    hide IsPrime, NonSquare, LeFrom;
    EncodedParts(b, a);
    CgResidue(-a.x);
    NegOnCurve(a);
    var n := NegAffine(a);
    if a.x == 0 {
      SameResidue(n.x, 0);
    } else {
      NegParity(a.x, n.x);
    }
    if Decodes(b, c) {
      SameY(a, c);
      SameY(n, c);
      if c.x == a.x && a.x != 0 {
        assert false;
      } else if c.x != n.x {
        CgNeg(a.x, -c.x);
        SameResidue(c.x, n.x);
      }
    }
  }

  lemma EncodedParts(b: seq<int>, a: Affine)
    requires OnCurve(a) && IsEncoding(b, a)
    ensures YOf(b) == a.y && b[31] / 128 == a.x % 2
  {
    hide LeFrom;
    var bit := a.x % 2;
    DivUnique(LeValue(b), TWO255, bit, a.y);
    ResidueIs(a.y);
    DivSmall(a.y, PRIME);
    WordBound(b, 0);
    WordBound(b, 8);
    WordBound(b, 16);
    LeOfWords(b);
  }

  /** A string decodes to at most one point. */
  lemma DecodesUnique(b: seq<int>, a: Affine, c: Affine)
    requires IsPrime(PRIME) && NonSquare(D) && |b| == 32 && IsBytes(b) && Decodes(b, a) && Decodes(b, c)
    ensures a == c
  {
    hide IsPrime, NonSquare, YOf;
    SameY(a, c);
    assert 0 <= b[31] < 256;
    if a.x != c.x {
      SameParity(a.x, c.x, b[31] / 128);
    }
  }

  lemma SameParity(x: int, y: int, bit: int)
    requires 0 <= x < PRIME && 0 <= y < PRIME && Cg(x, -y) && 0 <= bit <= 1
    requires (x == 0 || x % 2 != bit) && (y == 0 || y % 2 != bit)
    ensures x == y
  {
    if y == 0 {
      SameResidue(x, 0);
    } else {
      NegParity(y, x);
      CgNeg(x, -y);
      if x == 0 {
        SameResidue(y, 0);
      }
    }
  }

  /** Different points have different encodings. */
  lemma EncodingUnique(b: seq<int>, a: Affine, c: Affine)
    requires IsPrime(PRIME) && NonSquare(D) && OnCurve(a) && OnCurve(c) && IsEncoding(b, a) && IsEncoding(b, c)
    ensures a == c
  {
    hide IsPrime, NonSquare, LeFrom, YOf;
    EncodedParts(b, a);
    EncodedParts(b, c);
    SameY(a, c);
    if a.x != c.x {
      if c.x == 0 {
        SameResidue(a.x, 0);
      } else {
        NegParity(c.x, a.x);
      }
    }
  }

  /** A point has one encoding. */
  lemma SameEncoding(b: seq<int>, c: seq<int>, a: Affine)
    requires |b| == 32 && IsBytes(b) && IsEncoding(c, a)
    ensures b == c <==> IsEncoding(b, a)
  {
    hide LeFrom, Encoding;
    if IsEncoding(b, a) {
      LeInjective(b, c, 0);
      assert b[0..] == b && c[0..] == c;
    }
  }

  /** ge25519_is_neutral_vartime: x = 0 and y = z. */
  method IsNeutralVartime(p: Ge, ghost a: Affine) returns (neutral: bool)
    requires IsPrime(PRIME) && OnCurve(a) && Rep(p, a)
    ensures neutral <==> a == Affine(0, 1)
  {
    hide IsPrime, Num51, Val, Tight, Loose, LeFrom;
    TightIsBasic(p.x);
    TightIsBasic(p.y);
    TightIsBasic(p.z);
    var xIsZero := IsZero(p.x);
    var y := Contract(p.y);
    var z := Contract(p.z);
    var same := Verify(y, z);
    SameContract(y, z, Val(p.y), Val(p.z));
    neutral := xIsZero && same;
    NeutralIff(a, Val(p.x), Val(p.y), Val(p.z));
  }

  lemma SameContract(b: seq<int>, c: seq<int>, y: int, z: int)
    requires |b| == 32 && IsBytes(b) && LeValue(b) == y % PRIME && |c| == 32 && IsBytes(c) && LeValue(c) == z % PRIME
    ensures b == c <==> Cg(y, z)
  {
    hide LeFrom;
    ResidueIs(y);
    ResidueIs(z);
    if LeValue(b) == LeValue(c) {
      LeInjective(b, c, 0);
      assert b[0..] == b && c[0..] == c;
    }
  }

  lemma NeutralIff(a: Affine, x: int, y: int, z: int)
    requires IsPrime(PRIME) && OnCurve(a) && At(a, x, y, z)
    ensures a == Affine(0, 1) <==> Cg(x, 0) && Cg(y, z)
  {
    hide IsPrime;
    AtIs(a, x, y, z);
    if Cg(x, 0) && Cg(y, z) {
      NoZeroDivisors(a.x, z);
      CgCancel(a.y, 1, z);
      SameResidue(a.x, 0);
      SameResidue(a.y, 1);
    }
  }
}
