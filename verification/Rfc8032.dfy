/** Where the code accepts more than sections 5.1.3 and 5.1.7 of RFC 8032, and when the two agree. */
module Rfc8032 {
  import opened Arith
  import opened Bytes
  import opened Congruence
  import opened EdwardsCurve
  import opened EdwardsGroup
  import opened PointCodec
  import opened Fermat
  import opened Points
  import opened Groups
  import opened Ladder
  import opened BaseMult
  import opened Signatures
  import Modm

  // ---- points ----

  /** Section 5.1.3: the low 255 bits are y and must be below p, the top bit is the parity of x, and for x = 0 it must
      be clear. */
  ghost predicate StandardDecodes(b: seq<int>, p: Affine)
    requires |b| == 32
  {
    && OnCurve(p) && LeValue(b) % TWO255 < PRIME && p.y == LeValue(b) % TWO255
    && !(p.x == 0 && b[31] / 128 == 1) && p.x % 2 == b[31] / 128
  }

  /** What the code does not test: y is reduced, and the top bit is clear where x = 0, that is for y = 1 and y = -1. */
  predicate IsCanonical(b: seq<int>)
    requires |b| == 32
  {
    var y := LeValue(b) % TWO255;
    y < PRIME && !(b[31] / 128 == 1 && (y == 1 || y == PRIME - 1))
  }

  lemma TopBit(b: seq<int>)
    requires |b| == 32 && IsBytes(b)
    ensures LeValue(b) == LeValue(b) % TWO255 + TWO255 * (b[31] / 128) && 0 <= b[31] / 128 <= 1
  {
    hide LeFrom;
    WordBound(b, 0);
    WordBound(b, 8);
    WordBound(b, 16);
    LeOfWords(b);
  }

  /** On the curve x = 0 exactly for y = 1 and y = -1. */
  lemma ZeroX(a: Affine)
    requires IsPrime(PRIME) && NonSquare(D) && OnCurve(a)
    ensures a.x == 0 <==> a.y == 1 || a.y == PRIME - 1
  {
    hide IsPrime, NonSquare;
    var y := a.y;
    CurveEquation(a);
    CurveByX(a.x, y, y * y - 1, D * (y * y) + 1);
    NullIff(y * y, 1);
    if a.x == 0 {
      RootsOfOne(y);
      if Cg(y, 1) {
        SameResidue(y, 1);
      } else {
        CgByMultiple(PRIME - 1, -1, 1);
        SameResidue(y, PRIME - 1);
      }
    }
    if y == 1 || y == PRIME - 1 {
      UnitY(y);
      DenominatorNonzero(y, D * (y * y) + 1);
      NoZeroDivisors(a.x * a.x, D * (y * y) + 1);
      NoZeroDivisors(a.x, a.x);
      SameResidue(a.x, 0);
    }
  }

  lemma UnitY(y: int)
    requires y == 1 || y == PRIME - 1
    ensures Cg(y * y, 1)
  {
    if y == PRIME - 1 {
      CgByMultiple(y, -1, 1);
      CgMul(y, -1, y, -1);
    }
  }

  /** The standard decodes exactly the encodings of points. */
  lemma StandardIsEncoding(b: seq<int>, p: CurvePoint)
    requires |b| == 32 && IsBytes(b)
    ensures StandardDecodes(b, p) <==> IsEncoding(b, p)
  {
    hide LeFrom;
    TopBit(b);
    if IsEncoding(b, p) {
      EncodedParts(b, p);
      DivUnique(LeValue(b), TWO255, p.x % 2, p.y);
    }
  }

  /** A string that the code decodes is the encoding of that point exactly if it is canonical. */
  lemma DecodedIsEncoding(b: seq<int>, a: Affine)
    requires IsPrime(PRIME) && NonSquare(D) && |b| == 32 && IsBytes(b) && Decodes(b, a)
    ensures IsEncoding(b, NegAffine(a)) <==> IsCanonical(b)
    ensures IsEncoding(b, NegAffine(a)) <==> LeValue(b) % TWO255 < PRIME && !(a.x == 0 && b[31] / 128 == 1)
  {
    hide IsPrime, NonSquare, LeFrom;
    var y := LeValue(b) % TWO255;
    TopBit(b);
    ZeroX(a);
    NegOnCurve(a);
    NegatedParity(a);
    if y < PRIME {
      ResidueIs(y);
      DivSmall(y, PRIME);
    }
    if IsEncoding(b, NegAffine(a)) {
      EncodedParts(b, NegAffine(a));
      DivUnique(LeValue(b), TWO255, NegAffine(a).x % 2, a.y);
    }
  }

  lemma NegatedParity(a: Affine)
    requires OnCurve(a)
    ensures a.x == 0 ==> NegAffine(a).x == 0
    ensures a.x != 0 ==> NegAffine(a).x % 2 != a.x % 2
  {
    NegOnCurve(a);
    CgResidue(-a.x);
    if a.x == 0 {
      SameResidue(NegAffine(a).x, 0);
    } else {
      NegParity(a.x, NegAffine(a).x);
    }
  }

  /** The standard decodes b to p exactly if the code decodes it to -p and b is canonical. */
  lemma StandardDecodesIff(b: seq<int>, p: CurvePoint)
    requires IsPrime(PRIME) && NonSquare(D) && |b| == 32 && IsBytes(b)
    ensures StandardDecodes(b, p) <==> Decodes(b, NegAffine(p)) && IsCanonical(b)
  {
    hide IsPrime, NonSquare, Decodes, StandardDecodes, IsEncoding, IsCanonical, OnCurve;
    StandardIsEncoding(b, p);
    if IsEncoding(b, p) {
      UnpackOfPack(b, p, NegAffine(p));
    }
    if Decodes(b, NegAffine(p)) {
      DecodedIsEncoding(b, NegAffine(p));
      NegTwice(p);
    }
  }

  lemma LargeYBytes(b: seq<int>)
    requires b == [0xee] + seq(30, i => 0xff) + [0x7f]
    ensures IsBytes(b) && LeValue(b) == PRIME + 1 && b[31] == 0x7f
  {
    hide LeFrom;
    assert forall k :: 1 <= k < 31 ==> b[k] == 0xff;
    LeOfWords(b);
  }

  /** The bytes of p + 1: the code decodes them to (0, 1), the standard to nothing. */
  lemma LargeYIsDecoded(b: seq<int>)
    requires b == [0xee] + seq(30, i => 0xff) + [0x7f]
    ensures IsBytes(b) && LeValue(b) == PRIME + 1
    ensures Decodes(b, Affine(0, 1)) && forall p: Affine :: !StandardDecodes(b, p)
  {
    hide LeValue, OnCurve;
    LargeYBytes(b);
    DivSmall(PRIME + 1, TWO255);
    ResidueIs(PRIME + 1);
    DivUnique(PRIME + 1, PRIME, 1, 1);
    ZeroOnCurve();
  }

  lemma SignedZeroBytes(b: seq<int>)
    requires b == [1] + seq(30, i => 0) + [0x80]
    ensures IsBytes(b) && LeValue(b) == TWO255 + 1 && b[31] == 0x80
  {
    hide LeFrom;
    assert forall k :: 1 <= k < 31 ==> b[k] == 0;
    LeOfWords(b);
  }

  /** The bytes of 1 with the top bit set: the code decodes them to (0, 1), the standard to nothing. */
  lemma SignedZeroIsDecoded(b: seq<int>)
    requires IsPrime(PRIME) && NonSquare(D) && b == [1] + seq(30, i => 0) + [0x80]
    ensures IsBytes(b) && LeValue(b) == TWO255 + 1
    ensures Decodes(b, Affine(0, 1)) && forall p: Affine :: !StandardDecodes(b, p)
  {
    hide LeValue, IsPrime, NonSquare, OnCurve;
    SignedZeroBytes(b);
    DivUnique(TWO255 + 1, TWO255, 1, 1);
    ResidueIs(1);
    DivSmall(1, PRIME);
    ZeroOnCurve();
    forall p: Affine
      ensures !StandardDecodes(b, p)
    {
      if StandardDecodes(b, p) {
        ZeroX(p);
      }
    }
  }

  // ---- signatures ----

  /** The number of points is 8 L, so that 8 L kills every point. */
  ghost predicate CofactorEight() {
    forall a: CurvePoint :: Times(8 * Modm.L, a) == Affine(0, 1)
  }

  /** The digest as a number: section 5.1.7 does not reduce it. */
  ghost function WholeChallenge(hash: Hash, m: seq<int>, pk: seq<int>, rs: seq<int>): int
    requires |rs| == 64
  {
    LeValue(hash(rs[..32] + pk + m))
  }

  /** The group equation [8][S]b = [8]R + [8][k]A. */
  ghost predicate GroupEquation(s: int, r: CurvePoint, k: int, p: CurvePoint, b: CurvePoint) {
    Times(8, Times(s, b)) == Plus(Times(8, r), Times(8, Times(k, p)))
  }

  /** Section 5.1.7: S is below L, the key and R decode, and the group equation holds. */
  ghost predicate StandardAccepts(hash: Hash, m: seq<int>, pk: seq<int>, rs: seq<int>, b: CurvePoint)
    requires |pk| == 32 && |rs| == 64
  {
    && LeValue(rs[32..]) < Modm.L
    && exists p: CurvePoint, r: CurvePoint :: StandardDecodes(pk, p) && StandardDecodes(rs[..32], r)
         && GroupEquation(LeValue(rs[32..]), r, WholeChallenge(hash, m, pk, rs), p, b)
  }

  /** [S]b - R - [h]A with the challenge reduced modulo L. The code demands that it is neutral. */
  ghost function Defect(hash: Hash, m: seq<int>, pk: seq<int>, rs: seq<int>, p: CurvePoint, r: CurvePoint,
      b: CurvePoint): CurvePoint
    requires |rs| == 64
  {
    Minus(Times(LeValue(rs[32..]), b), Plus(r, Times(Challenge(hash, rs[..32], pk, m), p)))
  }

  ghost function Minus(x: CurvePoint, y: CurvePoint): CurvePoint {
    Ed25519().add(x, Ed25519().neg(y))
  }

  lemma ReducedChallenge(k: int, p: CurvePoint)
    requires IsEd25519() && Times(Modm.L, p) == Affine(0, 1)
    ensures Times(k % Modm.L, p) == Times(k, p)
  {
    hide IsEd25519, OnCurve, Mul, IsAbelian;
    CurveGroup();
    MulModOrder(Ed25519(), Modm.L, k % Modm.L, k / Modm.L, p);
  }

  /** Behind the factor 8 the challenge can be reduced for every key. */
  lemma EightReduced(k: int, p: CurvePoint)
    requires IsEd25519() && CofactorEight()
    ensures Times(8, Times(k % Modm.L, p)) == Times(8, Times(k, p))
  {
    hide IsEd25519, OnCurve, Mul, IsAbelian;
    CurveGroup();
    var g, h, q := Ed25519(), k % Modm.L, k / Modm.L;
    assert Times(8 * Modm.L, p) == Affine(0, 1);
    MulMul(g, 8, h, p);
    MulMul(g, 8, k, p);
    MulModOrder(g, 8 * Modm.L, 8 * h, q, p);
    EightSplit(k, h, q);
  }

  lemma EightSplit(k: int, h: int, q: int)
    requires h == k % Modm.L && q == k / Modm.L
    ensures 8 * k == 8 * h + q * (8 * Modm.L)
  {
  }

  /** The group equation is the code's equation multiplied by 8. */
  lemma GroupEquationIff(s: int, r: CurvePoint, k: int, p: CurvePoint, b: CurvePoint)
    requires IsEd25519() && CofactorEight()
    ensures GroupEquation(s, r, k, p, b)
       <==> Times(8, Minus(Times(s, b), Plus(r, Times(k % Modm.L, p)))) == Affine(0, 1)
  {
    hide IsEd25519, CofactorEight, OnCurve, Mul, IsAbelian;
    CurveGroup();
    var g, x, q := Ed25519(), Times(s, b), Times(k % Modm.L, p);
    EightReduced(k, p);
    MulDistributes(g, 8, r, q);
    MulDifference(g, 8, x, g.add(r, q));
    DifferenceZero(g, Mul(g, 8, x), Mul(g, 8, g.add(r, q)));
  }

  /** Section 5.1.7 accepts exactly if S is below L, key and R decode and are canonical, and 8 kills the defect. */
  lemma StandardAcceptsIff(hash: Hash, m: seq<int>, pk: seq<int>, rs: seq<int>, b: CurvePoint)
    requires IsEd25519() && CofactorEight() && |pk| == 32 && IsBytes(pk) && |rs| == 64 && IsBytes(rs)
    ensures StandardAccepts(hash, m, pk, rs, b)
       <==> && LeValue(rs[32..]) < Modm.L && IsCanonical(pk) && IsCanonical(rs[..32])
            && exists p: CurvePoint, r: CurvePoint :: Decodes(pk, NegAffine(p)) && Decodes(rs[..32], NegAffine(r))
                 && Times(8, Defect(hash, m, pk, rs, p, r, b)) == Affine(0, 1)
  {
    hide IsEd25519, CofactorEight, OnCurve, Decodes, StandardDecodes, GroupEquation, LeFrom, IsCanonical, Times, Minus;
    CurveFacts();
    forall p: CurvePoint, r: CurvePoint
      ensures StandardDecodes(pk, p) <==> Decodes(pk, NegAffine(p)) && IsCanonical(pk)
      ensures StandardDecodes(rs[..32], r) <==> Decodes(rs[..32], NegAffine(r)) && IsCanonical(rs[..32])
      ensures GroupEquation(LeValue(rs[32..]), r, WholeChallenge(hash, m, pk, rs), p, b)
         <==> Times(8, Defect(hash, m, pk, rs, p, r, b)) == Affine(0, 1)
    {
      StandardDecodesIff(pk, p);
      StandardDecodesIff(rs[..32], r);
      GroupEquationIff(LeValue(rs[32..]), r, WholeChallenge(hash, m, pk, rs), p, b);
    }
  }

  /** For S below L the code accepts exactly if key and R decode, R is canonical, and the defect is neutral. */
  lemma AcceptsByDefect(hash: Hash, m: seq<int>, pk: seq<int>, rs: seq<int>, b: CurvePoint)
    requires IsEd25519() && |pk| == 32 && IsBytes(pk) && |rs| == 64 && IsBytes(rs) && LeValue(rs[32..]) < Modm.L
    ensures Accepts(hash, m, pk, rs, b)
       <==> && IsCanonical(rs[..32])
            && exists p: CurvePoint, r: CurvePoint :: Decodes(pk, NegAffine(p)) && Decodes(rs[..32], NegAffine(r))
                 && Defect(hash, m, pk, rs, p, r, b) == Affine(0, 1)
  {
    hide IsEd25519, OnCurve, Accepts, Decodes, StandardDecodes, IsEncoding, Satisfies, LeFrom, IsCanonical, Times,
        Defect;
    CurveFacts();
    AcceptsIff(hash, m, pk, rs, b);
    TopByteOfScalar(rs[32..]);
    forall p: CurvePoint, r: CurvePoint
      ensures IsEncoding(rs[..32], r) <==> Decodes(rs[..32], NegAffine(r)) && IsCanonical(rs[..32])
      ensures Satisfies(hash, m, pk, rs, p, r, b) <==> Defect(hash, m, pk, rs, p, r, b) == Affine(0, 1)
    {
      StandardIsEncoding(rs[..32], r);
      StandardDecodesIff(rs[..32], r);
      SatisfiedIff(hash, m, pk, rs, p, r, b);
    }
  }

  lemma SatisfiedIff(hash: Hash, m: seq<int>, pk: seq<int>, rs: seq<int>, p: CurvePoint, r: CurvePoint, b: CurvePoint)
    requires IsEd25519() && |rs| == 64 && IsBytes(rs) && LeValue(rs[32..]) < Modm.L
    ensures Satisfies(hash, m, pk, rs, p, r, b) <==> Defect(hash, m, pk, rs, p, r, b) == Affine(0, 1)
  {
    hide IsEd25519, OnCurve, LeFrom, Times, Challenge, IsAbelian;
    LeNonnegative(rs[32..], 0);
    DivSmall(LeValue(rs[32..]), Modm.L);
    CurveGroup();
    DifferenceZero(Ed25519(), Times(LeValue(rs[32..]), b), Plus(r, Times(Challenge(hash, rs[..32], pk, m), p)));
  }

  /** What the code accepts with S below L and a canonical key, the standard accepts. */
  lemma AcceptedByStandard(hash: Hash, m: seq<int>, pk: seq<int>, rs: seq<int>, b: CurvePoint)
    requires IsEd25519() && CofactorEight() && |pk| == 32 && IsBytes(pk) && |rs| == 64 && IsBytes(rs)
    requires Accepts(hash, m, pk, rs, b) && LeValue(rs[32..]) < Modm.L && IsCanonical(pk)
    ensures StandardAccepts(hash, m, pk, rs, b)
  {
    hide IsEd25519, CofactorEight, OnCurve, Accepts, Decodes, LeFrom, IsCanonical, Defect, Mul, IsAbelian,
        StandardAccepts;
    AcceptsByDefect(hash, m, pk, rs, b);
    StandardAcceptsIff(hash, m, pk, rs, b);
    CurveGroup();
    MulZeroPoint(Ed25519(), 8);
  }

  /** A point that both 8 and L kill is neutral. */
  lemma EightAndL(d: CurvePoint)
    requires IsEd25519() && Times(8, d) == Affine(0, 1) && Times(Modm.L, d) == Affine(0, 1)
    ensures d == Affine(0, 1)
  {
    hide IsEd25519, OnCurve, Mul, IsAbelian;
    CurveGroup();
    var g := Ed25519();
    var u := 0x600000000000000000000000000000007d39db37d1cdad06106e529e2dc2f79;
    assert 1 == 0 + u * 8 + -3 * Modm.L;
    MulModOrder(g, Modm.L, u * 8, -3, d);
    MulModOrder(g, 8, 0, u, d);
    MulOne(g, d);
    MulNone(g, d);
  }

  lemma DefectOrder(hash: Hash, m: seq<int>, pk: seq<int>, rs: seq<int>, p: CurvePoint, r: CurvePoint, b: CurvePoint)
    requires IsEd25519() && |rs| == 64
    requires Times(Modm.L, p) == Times(Modm.L, r) == Times(Modm.L, b) == Affine(0, 1)
    ensures Times(Modm.L, Defect(hash, m, pk, rs, p, r, b)) == Affine(0, 1)
  {
    hide IsEd25519, OnCurve, Mul, IsAbelian, LeFrom, Challenge;
    CurveGroup();
    var g, h := Ed25519(), Challenge(hash, rs[..32], pk, m);
    var x, y := Times(LeValue(rs[32..]), b), Times(h, p);
    MulKilled(g, Modm.L, LeValue(rs[32..]), b);
    MulKilled(g, Modm.L, h, p);
    MulDistributes(g, Modm.L, r, y);
    Zero(g, g.zero);
    MulDifference(g, Modm.L, x, Plus(r, y));
    DifferenceZero(g, g.zero, g.zero);
  }

  /** For a key and an R of order L the two agree up to the tests that the code leaves out. */
  lemma StandardAgrees(hash: Hash, m: seq<int>, pk: seq<int>, rs: seq<int>, p: CurvePoint, r: CurvePoint, b: CurvePoint)
    requires IsEd25519() && CofactorEight() && |pk| == 32 && IsBytes(pk) && |rs| == 64 && IsBytes(rs)
    requires Decodes(pk, NegAffine(p)) && Decodes(rs[..32], NegAffine(r))
    requires Times(Modm.L, p) == Times(Modm.L, r) == Times(Modm.L, b) == Affine(0, 1)
    ensures StandardAccepts(hash, m, pk, rs, b)
       <==> Accepts(hash, m, pk, rs, b) && LeValue(rs[32..]) < Modm.L && IsCanonical(pk)
  {
    hide IsEd25519, CofactorEight, OnCurve, Accepts, Decodes, LeFrom, IsCanonical, Defect, Times, StandardAccepts;
    if Accepts(hash, m, pk, rs, b) && LeValue(rs[32..]) < Modm.L && IsCanonical(pk) {
      AcceptedByStandard(hash, m, pk, rs, b);
    }
    if StandardAccepts(hash, m, pk, rs, b) {
      StandardAcceptsIff(hash, m, pk, rs, b);
      var p': CurvePoint, r': CurvePoint :| Decodes(pk, NegAffine(p')) && Decodes(rs[..32], NegAffine(r'))
                 && Times(8, Defect(hash, m, pk, rs, p', r', b)) == Affine(0, 1);
      SamePoint(pk, p, p');
      SamePoint(rs[..32], r, r');
      DefectOrder(hash, m, pk, rs, p, r, b);
      EightAndL(Defect(hash, m, pk, rs, p, r, b));
      AcceptsByDefect(hash, m, pk, rs, b);
    }
  }

  lemma SamePoint(b: seq<int>, p: CurvePoint, q: CurvePoint)
    requires IsEd25519() && |b| == 32 && IsBytes(b) && Decodes(b, NegAffine(p)) && Decodes(b, NegAffine(q))
    ensures p == q
  {
    hide IsEd25519, OnCurve, Decodes;
    CurveFacts();
    DecodesUnique(b, NegAffine(p), NegAffine(q));
    NegTwice(p);
    NegTwice(q);
  }

  /** As long as both stay below 2^253, the code does not tell S from S + L. */
  lemma AcceptsShifted(hash: Hash, m: seq<int>, pk: seq<int>, rs: seq<int>, rs': seq<int>, b: CurvePoint)
    requires |pk| == 32 && |rs| == 64 && |rs'| == 64 && rs'[..32] == rs[..32]
    requires LeValue(rs'[32..]) == LeValue(rs[32..]) + Modm.L && rs[63] < 32 && rs'[63] < 32
    ensures Accepts(hash, m, pk, rs', b) <==> Accepts(hash, m, pk, rs, b)
  {
    hide OnCurve, LeFrom, Both, Decodes, IsEncoding;
    AddOrder(LeValue(rs[32..]));
  }

  lemma AddOrder(x: int)
    ensures (x + Modm.L) % Modm.L == x % Modm.L
  {
    DivUnique(x + Modm.L, Modm.L, x / Modm.L + 1, x % Modm.L);
  }

  const TWO253: int := 0x2000000000000000000000000000000000000000000000000000000000000000

  /** The 32 little-endian bytes of a number below 2^256. */
  function Bytes32(v: int): seq<int> {
    WordBytes(v % 0x1_0000_0000_0000_0000) + WordBytes(v / 0x1_0000_0000_0000_0000 % 0x1_0000_0000_0000_0000)
    + WordBytes(v / 0x1_0000_0000_0000_0000_0000_0000_0000_0000 % 0x1_0000_0000_0000_0000)
    + WordBytes(v / 0x1_0000_0000_0000_0000_0000_0000_0000_0000_0000_0000_0000_0000)
  }

  lemma Bytes32Is(v: int)
    requires 0 <= v < 0x1_0000000000000000_0000000000000000_0000000000000000_0000000000000000
    ensures |Bytes32(v)| == 32 && IsBytes(Bytes32(v)) && LeValue(Bytes32(v)) == v
    ensures Bytes32(v)[31] < 32 <==> v < TWO253
  {
    hide WordBytes, LeFrom;
    var w := 0x1_0000_0000_0000_0000;
    var v1 := v / w;
    var v2 := v1 / w;
    var v3 := v2 / w;
    DivUnique(v, w * w, v2, v % w + w * (v1 % w));
    DivUnique(v, w * w * w, v3, v % (w * w) + w * w * (v2 % w));
    LeOfFourWords(Bytes32(v), v % w, v1 % w, v2 % w, v3);
    TopByteBound(Bytes32(v));
  }

  lemma TopByteBound(b: seq<int>)
    requires |b| == 32 && IsBytes(b)
    ensures b[31] < 32 <==> LeValue(b) < TWO253
  {
    hide LeFrom;
    WordBound(b, 0);
    WordBound(b, 8);
    WordBound(b, 16);
    LeOfWords(b);
  }

  /** A signature by the matching key has a second form with S + L whenever that is below 2^253: the code accepts it and
      the standard does not. */
  lemma SecondForm(hash: Hash, m: seq<int>, pk: seq<int>, rs: seq<int>, b: CurvePoint)
    requires IsEd25519() && |pk| == 32 && IsBytes(pk) && |rs| == 64 && IsBytes(rs) && Accepts(hash, m, pk, rs, b)
    requires LeValue(rs[32..]) + Modm.L < TWO253
    ensures var rs' := rs[..32] + Bytes32(LeValue(rs[32..]) + Modm.L);
            && |rs'| == 64 && IsBytes(rs') && rs' != rs && LeValue(rs'[32..]) == LeValue(rs[32..]) + Modm.L
            && Accepts(hash, m, pk, rs', b) && !StandardAccepts(hash, m, pk, rs', b)
  {
    hide IsEd25519, OnCurve, LeFrom, Both, Decodes, IsEncoding, Bytes32;
    var s := LeValue(rs[32..]);
    LeNonnegative(rs[32..], 0);
    Bytes32Is(s + Modm.L);
    var rs' := rs[..32] + Bytes32(s + Modm.L);
    assert rs'[..32] == rs[..32] && rs'[32..] == Bytes32(s + Modm.L);
    AcceptsShifted(hash, m, pk, rs, rs', b);
  }

  // ---- the neutral point and the point of order two ----

  /** The point (0, -1). */
  const TWIST: Affine := Affine(0, PRIME - 1)

  /** The signature with R = (0, 1) and the number s. */
  function NeutralSignature(s: int): seq<int> {
    Bytes32(1) + Bytes32(s)
  }

  lemma NeutralSignatureIs(s: int)
    requires 0 <= s < TWO253
    ensures var rs := NeutralSignature(s);
            && |rs| == 64 && IsBytes(rs) && rs[..32] == Bytes32(1) && rs[32..] == Bytes32(s)
            && LeValue(rs[32..]) == s && rs[63] < 32
    ensures OnCurve(Affine(0, 1)) && IsEncoding(Bytes32(1), Affine(0, 1))
  {
    hide Bytes32, LeFrom;
    Bytes32Is(1);
    Bytes32Is(s);
    ZeroOnCurve();
    var rs := NeutralSignature(s);
    assert rs[..32] == Bytes32(1) && rs[32..] == Bytes32(s);
  }

  /** Under the key (0, 1) the signature R = (0, 1), S = 0 is accepted for every message and every hash, by the code and
      by the standard. */
  lemma NeutralKey(hash: Hash, m: seq<int>, b: CurvePoint)
    requires IsEd25519()
    ensures |NeutralSignature(0)| == 64 && |Bytes32(1)| == 32
    ensures Accepts(hash, m, Bytes32(1), NeutralSignature(0), b)
    ensures StandardAccepts(hash, m, Bytes32(1), NeutralSignature(0), b)
  {
    hide IsEd25519, OnCurve, Accepts, StandardDecodes, IsEncoding, Bytes32, LeFrom, Mul, IsAbelian, NeutralSignature;
    var pk, rs := Bytes32(1), NeutralSignature(0);
    NeutralSignatureIs(0);
    Bytes32Is(1);
    CurveGroup();
    var o: CurvePoint := Affine(0, 1);
    var g, k, h := Ed25519(), WholeChallenge(hash, m, pk, rs), Challenge(hash, rs[..32], pk, m);
    StandardIsEncoding(pk, o);
    MulNone(g, b);
    MulZeroPoint(g, 8);
    MulZeroPoint(g, k);
    MulZeroPoint(g, h);
    Zero(g, o);
    assert GroupEquation(0, o, k, o, b);
    CurveFacts();
    StandardDecodesIff(pk, o);
    AcceptsAt(hash, m, pk, rs, o, o, b);
    ScalarIs(rs[32..]);
  }

  /** And with S = L it is still accepted by the code, for every message and every hash, but not by the standard. */
  method TwoForms(hash: Hash, m: seq<int>, sliding: seq<GeNiels>, ghost b: CurvePoint) returns (ok: bool, ok': bool)
    requires IsHash(hash) && IsBytes(m) && IsEd25519() && SlidingTable(sliding, b)
    ensures |Bytes32(1)| == 32 && |NeutralSignature(0)| == |NeutralSignature(Modm.L)| == 64
    ensures ok && StandardAccepts(hash, m, Bytes32(1), NeutralSignature(0), b)
    ensures ok' && !StandardAccepts(hash, m, Bytes32(1), NeutralSignature(Modm.L), b)
  {
    hide IsHash, IsEd25519, OnCurve, SlidingTable, Encoding, Bytes32, LeFrom, Accepts;
    Bytes32Is(1);
    NeutralSignatureIs(0);
    NeutralSignatureIs(Modm.L);
    NeutralKey(hash, m, b);
    AcceptsShifted(hash, m, Bytes32(1), NeutralSignature(0), NeutralSignature(Modm.L), b);
    ok := SignOpen(hash, m, Bytes32(1), NeutralSignature(0), sliding, b);
    ok' := SignOpen(hash, m, Bytes32(1), NeutralSignature(Modm.L), sliding, b);
  }

  lemma TwistOnCurve()
    ensures OnCurve(TWIST)
  {
    var y := PRIME - 1;
    CurveEquation(TWIST);
    UnitY(y);
    assert D * ((0 * y) * (0 * y)) == 0;
  }

  /** (0, -1) has order two. */
  lemma TwistOrder(k: int)
    requires IsEd25519()
    ensures OnCurve(TWIST) && (Times(k, TWIST) == Affine(0, 1) <==> k % 2 == 0)
  {
    hide IsEd25519, OnCurve, Mul, IsAbelian;
    TwistOnCurve();
    CurveGroup();
    var g, t: CurvePoint := Ed25519(), TWIST;
    TwistIsOwnNegative();
    NegPointIs(t);
    Neg(g, t);
    MulOne(g, t);
    MulSucc(g, 1, t);
    MulModOrder(g, 2, k % 2, k / 2, t);
    MulNone(g, t);
  }

  lemma TwistIsOwnNegative()
    ensures NegAffine(TWIST) == TWIST
  {
    ResidueIs(-0);
  }

  lemma TwistBytes()
    requires IsEd25519()
    ensures |Bytes32(PRIME - 1)| == 32 && OnCurve(TWIST) && IsCanonical(Bytes32(PRIME - 1))
    ensures StandardDecodes(Bytes32(PRIME - 1), TWIST) && Decodes(Bytes32(PRIME - 1), NegAffine(TWIST))
    ensures IsBytes(Bytes32(PRIME - 1))
  {
    hide IsEd25519, OnCurve, Decodes, StandardDecodes, IsCanonical, Bytes32, LeFrom;
    Bytes32Is(PRIME - 1);
    TwistOnCurve();
    CurveFacts();
    StandardIsEncoding(Bytes32(PRIME - 1), TWIST);
    StandardDecodesIff(Bytes32(PRIME - 1), TWIST);
  }

  lemma NeutralBytes()
    requires IsEd25519()
    ensures |Bytes32(1)| == 32 && OnCurve(Affine(0, 1)) && IsCanonical(Bytes32(1))
    ensures IsEncoding(Bytes32(1), Affine(0, 1)) && StandardDecodes(Bytes32(1), Affine(0, 1))
  {
    hide IsEd25519, OnCurve, Decodes, StandardDecodes, IsCanonical, Bytes32, LeFrom;
    Bytes32Is(1);
    ZeroOnCurve();
    CurveFacts();
    StandardIsEncoding(Bytes32(1), Affine(0, 1));
    StandardDecodesIff(Bytes32(1), Affine(0, 1));
  }

  /** Eight times any multiple of (0, -1) is neutral. */
  lemma TwistEight(k: int)
    requires IsEd25519()
    ensures OnCurve(TWIST) && Times(8, Times(k, TWIST)) == Affine(0, 1)
  {
    hide IsEd25519, OnCurve, Mul, IsAbelian;
    TwistOnCurve();
    CurveGroup();
    TwistOrder(8 * k);
    assert (8 * k) % 2 == 0;
    MulMul(Ed25519(), 8, k, TWIST);
  }

  /** What is used about the neutral point. */
  lemma NeutralFacts(b: CurvePoint, q: CurvePoint)
    requires IsEd25519()
    ensures OnCurve(Affine(0, 1)) && Times(0, b) == Affine(0, 1) && Times(8, Affine(0, 1)) == Affine(0, 1)
    ensures Plus(Affine(0, 1), q) == q
  {
    hide IsEd25519, OnCurve, Mul, IsAbelian;
    ZeroOnCurve();
    CurveGroup();
    var g := Ed25519();
    MulNone(g, b);
    MulZeroPoint(g, 8);
    Zero(g, q);
  }

  /** The multiples of (0, -1) in the two equations. */
  lemma TwistEquations(k: int, h: int, b: CurvePoint)
    requires IsEd25519()
    ensures OnCurve(TWIST) && OnCurve(Affine(0, 1)) && GroupEquation(0, Affine(0, 1), k, TWIST, b)
    ensures Times(0, b) == Plus(Affine(0, 1), Times(h, TWIST)) <==> h % 2 == 0
  {
    hide IsEd25519, OnCurve, Times, Plus;
    TwistOrder(h);
    TwistEight(k);
    NeutralFacts(b, Times(h, TWIST));
    NeutralFacts(b, Times(8, Times(k, TWIST)));
  }

  /** The key (0, -1) with R = (0, 1) and S = 0, for every message and every hash: the standard accepts, the code
      exactly if the reduced challenge is even, and the equation without the factor 8 holds exactly if the whole one
      is. */
  lemma TwistKey(hash: Hash, m: seq<int>, b: CurvePoint)
    requires IsEd25519()
    ensures var pk, rs := Bytes32(PRIME - 1), NeutralSignature(0);
            && |pk| == 32 && |rs| == 64 && OnCurve(TWIST) && IsCanonical(pk) && IsCanonical(rs[..32])
            && StandardAccepts(hash, m, pk, rs, b)
            && (Accepts(hash, m, pk, rs, b) <==> Challenge(hash, rs[..32], pk, m) % 2 == 0)
            && (Times(0, b) == Plus(Affine(0, 1), Times(WholeChallenge(hash, m, pk, rs), TWIST))
                <==> WholeChallenge(hash, m, pk, rs) % 2 == 0)
  {
    hide IsEd25519, OnCurve, Accepts, Decodes, StandardDecodes, IsEncoding, IsCanonical, Bytes32, LeFrom, Times, Plus,
        NeutralSignature, Challenge, WholeChallenge, GroupEquation;
    var pk, rs := Bytes32(PRIME - 1), NeutralSignature(0);
    NeutralSignatureIs(0);
    NeutralBytes();
    TwistBytes();
    TwistEquations(WholeChallenge(hash, m, pk, rs), WholeChallenge(hash, m, pk, rs), b);
    TwistEquations(WholeChallenge(hash, m, pk, rs), Challenge(hash, rs[..32], pk, m), b);
    AcceptsAt(hash, m, pk, rs, TWIST, Affine(0, 1), b);
    ScalarIs(rs[32..]);
  }
}
