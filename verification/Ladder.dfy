/** The combined ladder [s1]p1 + [s2]basepoint (src/ed25519-donna/ed25519-donna-impl-base.h, lines 246-292). */
module Ladder {
  import opened Arith
  import opened Congruence
  import opened Groups
  import opened EdwardsCurve
  import opened EdwardsGroup
  import opened ModmBatch
  import opened Recoding

  import opened Points

  // ---- the group behind the coordinates ----

  lemma PrimeIs()
    requires IsEd25519()
    ensures IsPrime(PRIME)
  {
  }

  /** [k]a */
  ghost function Times(k: int, a: CurvePoint): CurvePoint {
    Mul(Ed25519(), k, a)
  }

  /** a + b */
  ghost function Plus(a: CurvePoint, b: CurvePoint): CurvePoint {
    Ed25519().add(a, b)
  }

  lemma SumIs(a: CurvePoint, b: CurvePoint)
    requires IsEd25519()
    ensures Complete(a, b) && Edwards(a, b) == Plus(a, b)
  {
    hide OnCurve, Edwards, Complete;
    CurveIsComplete(a, b);
    AddIs(a, b);
  }

  /** [x]a + [y]b */
  ghost function Both(x: int, a: CurvePoint, y: int, b: CurvePoint): CurvePoint {
    Plus(Times(x, a), Times(y, b))
  }

  lemma BothDouble(x: int, a: CurvePoint, y: int, b: CurvePoint)
    requires IsEd25519()
    ensures Plus(Both(x, a, y, b), Both(x, a, y, b)) == Both(2 * x, a, 2 * y, b)
  {
    hide IsEd25519, Ed25519, Mul, IsAbelian;
    CurveGroup();
    var g := Ed25519();
    Interchange(g, Times(x, a), Times(y, b), Times(x, a), Times(y, b));
    MulAdd(g, x, x, a);
    MulAdd(g, y, y, b);
  }

  lemma BothLeft(x: int, a: CurvePoint, y: int, b: CurvePoint, d: int)
    requires IsEd25519()
    ensures Plus(Both(x, a, y, b), Times(d, a)) == Both(x + d, a, y, b)
  {
    hide IsEd25519, Ed25519, Mul, IsAbelian;
    CurveGroup();
    var g := Ed25519();
    var p, q, r := Times(x, a), Times(y, b), Times(d, a);
    Assoc(g, p, q, r);
    Comm(g, q, r);
    Assoc(g, p, r, q);
    MulAdd(g, x, d, a);
  }

  lemma BothRight(x: int, a: CurvePoint, y: int, b: CurvePoint, d: int)
    requires IsEd25519()
    ensures Plus(Both(x, a, y, b), Times(d, b)) == Both(x, a, y + d, b)
  {
    hide IsEd25519, Ed25519, Mul, IsAbelian;
    CurveGroup();
    var g := Ed25519();
    Assoc(g, Times(x, a), Times(y, b), Times(d, b));
    MulAdd(g, y, d, b);
  }

  lemma BothZero(a: CurvePoint, b: CurvePoint)
    requires IsEd25519()
    ensures Both(0, a, 0, b) == Affine(0, 1)
  {
    hide IsEd25519, IsAbelian;
    CurveGroup();
    Zero(Ed25519(), Ed25519().zero);
  }

  /** (unsigned char)d >> 7 */
  function SignBit(d: int): int {
    (d % 256) / 128
  }

  function Abs(d: int): nat {
    if d < 0 then -d else d
  }

  /** The table entry |d| / 2 with the sign of d is [d]a, for an odd digit d. */
  lemma DigitPoint(d: int, a: CurvePoint)
    requires IsEd25519() && d % 2 == 1 && -128 <= d < 128
    ensures Signed(Times(2 * (Abs(d) / 2) + 1, a), SignBit(d)) == Times(d, a)
  {
    hide IsEd25519, OnCurve, Mul, IsAbelian;
    CurveGroup();
    if d < 0 {
      assert 2 * (Abs(d) / 2) + 1 == -d;
      NegOnCurve(Times(-d, a));
      MulNeg(Ed25519(), -d, a);
    }
  }

  /** pre1: the odd multiples of p1. */
  ghost predicate OddMultiples(t: seq<GePniels>, a: CurvePoint) {
    forall k :: 0 <= k < |t| ==> RepPniels(t[k], Times(2 * k + 1, a))
  }

  /** The table of precomputed multiples of p1, built by adding 2 p1. */
  method OddTable(p1: Ge, ghost a: CurvePoint) returns (pre1: seq<GePniels>)
    requires IsEd25519() && RepFull(p1, a)
    ensures |pre1| == 8 && OddMultiples(pre1, a)
  {
    hide IsEd25519, OnCurve, RepFull, OddMultiples, RepPniels, Edwards, Complete, Times, Plus;
    PrimeIs();
    SumIs(a, a);
    FullIsRep(p1, a);
    var d1 := Double(p1, a);
    var first := FullToPniels(p1, a);
    OneMultiple(a);
    pre1 := [];
    OddEmpty(a);
    OddExtend(pre1, first, a);
    pre1 := pre1 + [first];
    for i := 0 to 7
      invariant |pre1| == i + 1 && OddMultiples(pre1, a)
    {
      SumIs(Plus(a, a), Times(2 * i + 1, a));
      NextMultiple(a, 2 * i + 1);
      OddEntry(pre1, i, a);
      var next := Pnielsadd(d1, pre1[i], Plus(a, a), Times(2 * i + 1, a));
      OddExtend(pre1, next, a);
      pre1 := pre1 + [next];
    }
  }

  lemma OddEmpty(a: CurvePoint)
    ensures OddMultiples([], a)
  {
  }

  lemma OddEntry(t: seq<GePniels>, k: nat, a: CurvePoint)
    requires k < |t| && OddMultiples(t, a)
    ensures RepPniels(t[k], Times(2 * k + 1, a))
  {
    hide RepPniels, Times;
  }

  lemma OddExtend(t: seq<GePniels>, q: GePniels, a: CurvePoint)
    requires OddMultiples(t, a) && RepPniels(q, Times(2 * |t| + 1, a))
    ensures OddMultiples(t + [q], a)
  {
    hide RepPniels, Times;
  }

  lemma FullIsRep(p: Ge, a: Affine)
    requires RepFull(p, a)
    ensures Rep(p, a)
  {
  }

  lemma OneMultiple(a: CurvePoint)
    requires IsEd25519()
    ensures Times(1, a) == a
  {
    hide IsEd25519, Mul, IsAbelian;
    CurveGroup();
    MulOne(Ed25519(), a);
  }

  lemma NextMultiple(a: CurvePoint, k: int)
    requires IsEd25519()
    ensures Plus(Plus(a, a), Times(k, a)) == Times(k + 2, a)
  {
    hide IsEd25519, Mul, IsAbelian;
    CurveGroup();
    var g := Ed25519();
    MulOne(g, a);
    MulAdd(g, 1, 1, a);
    MulAdd(g, 2, k, a);
  }

  /** ge25519_niels_sliding_multiples: the odd multiples of the basepoint b. */
  ghost predicate SlidingTable(t: seq<GeNiels>, b: CurvePoint) {
    |t| == 32 && forall k :: 0 <= k < 32 ==> RepNiels(t[k], Times(2 * k + 1, b))
  }

  /** A digit of a sliding window of width w, or zero. */
  predicate Digit(d: int, bound: int) {
    d == 0 || (d % 2 == 1 && -bound < d < bound)
  }

  /** Adding [d]a from the table of p1. */
  method AddLeft(t: GeP1p1, d: int, pre1: seq<GePniels>, ghost p: CurvePoint, ghost a: CurvePoint) returns (u: GeP1p1)
    requires IsEd25519() && RepP1p1(t, p) && d != 0 && Digit(d, 16) && |pre1| == 8 && OddMultiples(pre1, a)
    ensures RepP1p1(u, Plus(p, Times(d, a)))
  {
    hide IsEd25519, OnCurve, RepP1p1, RepPniels, RepFull, Edwards, Complete, Times, Plus, Signed;
    PrimeIs();
    var r := P1p1ToFull(t, p);
    DigitPoint(d, a);
    SumIs(p, Times(d, a));
    u := PnielsaddP1p1(r, pre1[Abs(d) / 2], SignBit(d), p, Times(2 * (Abs(d) / 2) + 1, a));
  }

  /** Adding [d]b from the table of the basepoint. */
  method AddRight(t: GeP1p1, d: int, sliding: seq<GeNiels>, ghost p: CurvePoint,
      ghost b: CurvePoint) returns (u: GeP1p1)
    requires IsEd25519() && RepP1p1(t, p) && d != 0 && Digit(d, 64) && SlidingTable(sliding, b)
    ensures RepP1p1(u, Plus(p, Times(d, b)))
  {
    hide IsEd25519, OnCurve, RepP1p1, RepNiels, RepFull, Edwards, Complete, Times, Plus, Signed;
    PrimeIs();
    var r := P1p1ToFull(t, p);
    DigitPoint(d, b);
    SumIs(p, Times(d, b));
    u := Nielsadd2P1p1(r, sliding[Abs(d) / 2], SignBit(d), p, Times(2 * (Abs(d) / 2) + 1, b));
  }

  /** One pass of the main loop. */
  method Step(r0: Ge, d1: int, d2: int, pre1: seq<GePniels>, sliding: seq<GeNiels>,
              ghost x: int, ghost a: CurvePoint, ghost y: int, ghost b: CurvePoint) returns (r: Ge)
    requires IsEd25519() && Rep(r0, Both(x, a, y, b)) && Digit(d1, 16) && Digit(d2, 64)
    requires |pre1| == 8 && OddMultiples(pre1, a) && SlidingTable(sliding, b)
    ensures Rep(r, Both(2 * x + d1, a, 2 * y + d2, b))
  {
    hide IsEd25519, OnCurve, Rep, RepP1p1, Edwards, Complete, Both, OddMultiples, SlidingTable, Digit;
    PrimeIs();
    ghost var p: CurvePoint := Both(x, a, y, b);
    SumIs(p, p);
    BothDouble(x, a, y, b);
    var t := DoubleP1p1(r0, p);
    if d1 != 0 {
      t := AddLeft(t, d1, pre1, Both(2 * x, a, 2 * y, b), a);
      BothLeft(2 * x, a, 2 * y, b, d1);
    }
    if d2 != 0 {
      t := AddRight(t, d2, sliding, Both(2 * x + d1, a, 2 * y, b), b);
      BothRight(2 * x + d1, a, 2 * y, b, d2);
    }
    r := P1p1ToPartial(t, Both(2 * x + d1, a, 2 * y + d2, b), r0.t);
  }

  /** The digits of a recoding with window w are digits for the table of size 2^(w-2). */
  lemma WindowDigit(d: seq<int>, i: nat, w: nat, bound: int)
    requires i < |d| && w >= 1 && WindowedBelow(d, |d|, w) && bound == Pow2(w - 1)
    ensures Digit(d[i], bound)
  {
    hide Pow2;
    if d[i] != 0 {
      assert IsWindowDigit(d, i, w);
    }
  }

  lemma EvalStep(d: seq<int>, i: nat)
    requires i < |d|
    ensures EvalFrom(d, i) == 2 * EvalFrom(d, i + 1) + d[i]
  {
  }

  lemma EvalEnd(d: seq<int>)
    ensures EvalFrom(d, |d|) == 0
  {
  }

  lemma TableSizes()
    ensures Pow2(4) == 16 && Pow2(6) == 64
  {
    Pow2Add(2, 2);
    Pow2Add(4, 2);
  }

  /** ge25519_double_scalarmult_vartime: [s1]p1 + [s2]b. */
  method DoubleScalarmultVartime(p1: Ge, s1: Limbs, s2: Limbs, sliding: seq<GeNiels>, ghost a: CurvePoint,
      ghost b: CurvePoint)
    returns (r: Ge)
    requires IsEd25519() && RepFull(p1, a) && SlidingTable(sliding, b)
    requires IsLimbs(s1) && s1[4] < 0x1_0000_0000 && Value(s1) <= Pow2(255)
    requires IsLimbs(s2) && s2[4] < 0x1_0000_0000 && Value(s2) <= Pow2(255)
    ensures Rep(r, Both(Value(s1), a, Value(s2), b))
  {
    hide IsEd25519, OnCurve, Rep, Both, OddMultiples, SlidingTable, Digit, Pow2, LowValue, EvalFrom, WindowedBelow,
        RepFull, Ed25519;
    var slide1, slide2 := new int[256], new int[256];
    ContractSlidingWindow(slide1, s1, 5);
    ContractSlidingWindow(slide2, s2, 7);
    var pre1 := OddTable(p1, a);
    r := NEUTRAL;
    NeutralRep();
    FullIsRep(r, Affine(0, 1));
    BothZero(a, b);
    ghost var e1, e2 := slide1[..], slide2[..];
    var i: int := 255;
    EvalEnd(e1);
    EvalEnd(e2);
    while i >= 0 && slide1[i] == 0 && slide2[i] == 0
      invariant -1 <= i <= 255 && slide1[..] == e1 && slide2[..] == e2
      invariant EvalFrom(e1, i + 1) == 0 && EvalFrom(e2, i + 1) == 0
    {
      EvalStep(e1, i);
      EvalStep(e2, i);
      i := i - 1;
    }
    TableSizes();
    while i >= 0
      invariant -1 <= i <= 255 && slide1[..] == e1 && slide2[..] == e2
      invariant Rep(r, Both(EvalFrom(e1, i + 1), a, EvalFrom(e2, i + 1), b))
    {
      WindowDigit(e1, i, 5, 16);
      WindowDigit(e2, i, 7, 64);
      EvalStep(e1, i);
      EvalStep(e2, i);
      r := Step(r, slide1[i], slide2[i], pre1, sliding, EvalFrom(e1, i + 1), a, EvalFrom(e2, i + 1), b);
      i := i - 1;
    }
  }
}
