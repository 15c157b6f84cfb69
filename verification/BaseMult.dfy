/** Fixed-base multiplication with signed radix-16 digits
    (src/ed25519-donna/ed25519-donna-impl-base.h, lines 296-363). */
module BaseMult {
  import opened Arith
  import opened Bytes
  import opened Congruence
  import opened Groups
  import opened EdwardsCurve
  import opened EdwardsGroup
  import opened ModmBatch
  import opened Recoding
  import opened Points
  import opened Ladder
  import Field
  import FieldCodec
  import Modm

  // ---- the selection tricks ----

  /** u = (b + mask) ^ mask, with mask all ones for a negative b: the magnitude of b. */
  lemma MagnitudeByMask(m: bv32)
    ensures ((0 - m) + 0xffff_ffff) ^ 0xffff_ffff == m
    ensures (m + 0) ^ 0 == m
  {
  }

  /** ge25519_windowb_equal */
  lemma WindowbEqual(b: bv32, c: bv32)
    requires b < 16 && c < 16
    ensures ((b ^ c) - 1) >> 31 == if b == c then 1 else 0
  {
  }

  /** curve25519_move_conditional_bytes, word by word: nb = flag - 1 and b = ~nb. */
  lemma MoveByMask(o: bv64, i: bv64)
    ensures (o & 0) | (i & 0xffff_ffff_ffff_ffff) == i
    ensures (o & 0xffff_ffff_ffff_ffff) | (i & 0) == o
  {
  }

  /** curve25519_swap_conditional, limb by limb. */
  lemma SwapByMask(a: bv64, b: bv64)
    ensures a ^ (0xffff_ffff_ffff_ffff & (a ^ b)) == b && b ^ (0xffff_ffff_ffff_ffff & (a ^ b)) == a
    ensures a ^ (0 & (a ^ b)) == a && b ^ (0 & (a ^ b)) == b
  {
  }

  // ---- table entries ----

  /** 2 c x y */
  ghost function TwiceProduct(a: Affine, c: int): int {
    2 * Product(c, Product(a.x, a.y))
  }

  lemma TwiceProductIs(a: Affine, c: int)
    ensures TwiceProduct(a, c) == 2 * (c * (a.x * a.y))
  {
    ProductIs(a.x, a.y);
    ProductIs(c, a.x * a.y);
  }

  /** A point as y - x, y + x and 2 c x y. */
  ghost predicate NielsWith(t: GeNiels, a: Affine, c: int) {
    && Field.Tight(t.ysubx) && Field.Tight(t.xaddy) && Field.Tight(t.t2d)
    && Cg(Field.Val(t.ysubx), a.y - a.x) && Cg(Field.Val(t.xaddy), a.y + a.x)
    && Cg(Field.Val(t.t2d), TwiceProduct(a, c))
  }

  /** 32 bytes that encode v modulo p, without using the top bit. */
  ghost predicate Encodes(b: seq<int>, v: int) {
    |b| == 32 && IsBytes(b) && 0 <= LeValue(b) < TWO255
        && Cg(LeValue(b), v)
  }

  /** A packed table entry. */
  ghost predicate Packed(b: seq<int>, a: Affine, c: int) {
    |b| == 96 && Encodes(b[..32], a.y - a.x) && Encodes(b[32..64], a.y + a.x) && Encodes(b[64..], TwiceProduct(a, c))
  }

  /** The eight entries at pos are the multiples 1, ..., 8 of p. */
  ghost predicate Row(table: seq<seq<int>>, pos: nat, p: CurvePoint, c: int) {
    && |table| == 256 && pos < 32
    && forall k :: 8 * pos <= k < 8 * pos + 8 ==> Packed(table[k], Times(k - 8 * pos + 1, p), c)
  }

  /** The basepoint table: row pos holds multiples of [256^pos]b. The first row stores 2xy, all others 2dxy. */
  ghost predicate BaseTable(table: seq<seq<int>>, b: CurvePoint) {
    |table| == 256 && forall pos :: 0 <= pos < 32 ==> Row(table, pos, Times(Power(256, pos), b),
        if pos == 0 then 1 else D)
  }

  /** ysubx = xaddy = 1 and t2d = 0 */
  function Initial(): seq<int> {
    seq(96, i => if i == 0 || i == 32 then 1 else 0)
  }

  method ExpandEntry(b: seq<int>, ghost v: int) returns (f: Field.Fe)
    requires Encodes(b, v)
    ensures Field.Tight(f) && Cg(Field.Val(f), v)
  {
    hide LeFrom, Field.Num51;
    f := FieldCodec.Expand(b);
    DivSmall(LeValue(b), TWO255);
  }

  method ExpandPacked(b: seq<int>, ghost a: Affine, ghost c: int) returns (t: GeNiels)
    requires Packed(b, a, c)
    ensures NielsWith(t, a, c)
  {
    hide Encodes, Field.Tight, Field.Val;
    var ysubx := ExpandEntry(b[..32], a.y - a.x);
    var xaddy := ExpandEntry(b[32..64], a.y + a.x);
    var t2d := ExpandEntry(b[64..], TwiceProduct(a, c));
    t := GeNiels(ysubx, xaddy, t2d);
  }

  lemma InitialPacked(c: int)
    ensures Packed(Initial(), Affine(0, 1), c)
  {
    var b := Initial();
    OneEncoded(b[..32]);
    OneEncoded(b[32..64]);
    LeZeros(b[64..], 0);
    TwiceProductIs(Affine(0, 1), c);
    hide LeFrom;
  }

  lemma OneEncoded(b: seq<int>)
    requires |b| == 32 && b[0] == 1 && forall i :: 1 <= i < 32 ==> b[i] == 0
    ensures LeValue(b) == 1
  {
    LeZeros(b, 1);
  }

  /** The sign: exchange the sums and negate t2d. */
  lemma NegNiels(a: Affine, ysubx: int, xaddy: int, t2d: int, neg: int, c: int)
    requires Cg(ysubx, a.y - a.x) && Cg(xaddy, a.y + a.x) && Cg(t2d, TwiceProduct(a, c)) && Cg(neg, -t2d)
    ensures Cg(xaddy, a.y - NegAffine(a).x) && Cg(ysubx, a.y + NegAffine(a).x)
    ensures Cg(neg, TwiceProduct(NegAffine(a), c))
  {
    hide TwiceProduct;
    TwiceProductIs(a, c);
    TwiceProductIs(NegAffine(a), c);
    var n := NegAffine(a).x;
    CgResidue(-a.x);
    CgSub(a.y, a.y, n, -a.x);
    CgAdd(a.y, a.y, n, -a.x);
    NegT2d(c, a.x, a.y, n, t2d, 1);
  }

  lemma DigitEntry(b: int, p: CurvePoint)
    requires IsEd25519()
    ensures b >= 0 ==> Times(Abs(b), p) == Times(b, p)
    ensures b < 0 ==> NegAffine(Times(Abs(b), p)) == Times(b, p)
  {
    hide IsEd25519, OnCurve, Mul, IsAbelian;
    CurveGroup();
    if b < 0 {
      NegOnCurve(Times(-b, p));
      MulNeg(Ed25519(), -b, p);
    }
  }

  lemma NoMultiple(p: CurvePoint)
    ensures Times(0, p) == Affine(0, 1)
  {
  }

  /** The loop over the eight entries of a row. */
  method SelectEntry(table: seq<seq<int>>, pos: nat, u: nat, ghost p: CurvePoint,
      ghost c: int) returns (packed: seq<int>)
    requires u <= 8 && Row(table, pos, p, c)
    ensures Packed(packed, Times(u, p), c)
  {
    hide Packed, Times, Initial;
    packed := Initial();
    for i := 0 to 8
      invariant packed == if 1 <= u <= i then table[8 * pos + (u - 1)] else Initial()
    {
      if u == i + 1 {
        packed := table[8 * pos + i];
      }
    }
    if u == 0 {
      InitialPacked(c);
      NoMultiple(p);
    }
  }

  /** ge25519_scalarmult_base_choose_niels: [b]p from row pos. */
  method ChooseNiels(table: seq<seq<int>>, pos: nat, b: int, ghost p: CurvePoint, ghost c: int) returns (t: GeNiels)
    requires IsEd25519() && -8 <= b <= 8 && Row(table, pos, p, c)
    ensures NielsWith(t, Times(b, p), c)
  {
    hide IsEd25519, Packed, Times, Field.Tight, Field.Val, Row, OnCurve, NegAffine;
    var u := Abs(b);
    var packed := SelectEntry(table, pos, u, p, c);
    t := ExpandPacked(packed, Times(u, p), c);
    DigitEntry(b, p);
    var neg := Field.Neg(t.t2d);
    if b < 0 {
      ghost var a: Affine := Times(u, p);
      NegNiels(a, Field.Val(t.ysubx), Field.Val(t.xaddy), Field.Val(t.t2d), Field.Val(neg), c);
      t := GeNiels(t.xaddy, t.ysubx, neg);
      NegAffineIs(a);
    }
  }

  lemma NegAffineIs(a: Affine)
    ensures NegAffine(a) == Affine(Residue(-a.x), a.y)
  {
  }

  // ---- the multiplication ----

  /** The digits at odd (o = 1) or even (o = 0) positions below 2k, in base 256. */
  function Strided(d: seq<int>, o: nat, k: nat): int
    requires o <= 1 && 2 * k <= |d|
  {
    if k == 0 then 0 else Strided(d, o, k - 1) + d[2 * (k - 1) + o] * Power(256, k - 1)
  }

  lemma {:induction false} PowerSquare(k: nat)
    ensures Power(16, 2 * k) == Power(256, k)
  {
    if k > 0 {
      PowerSquare(k - 1);
      assert Power(16, 2 * k) == 16 * Power(16, 2 * k - 1);
      assert Power(16, 2 * k - 1) == 16 * Power(16, 2 * (k - 1));
    }
  }

  /** A base-16 number is its even digits plus 16 times its odd digits, both in base 256. */
  lemma {:induction false} Interleaved(d: seq<int>, k: nat)
    requires 2 * k <= |d|
    ensures EvalRange(d, 16, 0, 2 * k) == Strided(d, 0, k) + 16 * Strided(d, 1, k)
  {
    if k > 0 {
      Interleaved(d, k - 1);
      var m := 2 * (k - 1);
      EvalRangeSplit(d, 16, 0, m, 2 * k);
      PowerSquare(k - 1);
      TwoDigits(d, m);
      InterleavedArith(Power(256, k - 1), d[m], d[m + 1]);
    }
  }

  lemma TwoDigits(d: seq<int>, m: nat)
    requires m + 2 <= |d|
    ensures EvalRange(d, 16, m, m + 2) == d[m] + 16 * d[m + 1]
  {
    assert EvalRange(d, 16, m + 2, m + 2) == 0;
    assert EvalRange(d, 16, m + 1, m + 2) == d[m + 1];
  }

  lemma InterleavedArith(p: int, x: int, y: int)
    ensures p * (x + 16 * y) == x * p + 16 * (y * p)
  {
  }

  lemma AddTimes(x: int, d: int, w: int, b: CurvePoint)
    requires IsEd25519()
    ensures Plus(Times(x, b), Times(d, Times(w, b))) == Times(x + d * w, b)
  {
    hide IsEd25519, OnCurve, Mul, IsAbelian;
    CurveGroup();
    MulMul(Ed25519(), d, w, b);
    MulAdd(Ed25519(), x, d * w, b);
  }

  lemma DoubleTimes(x: int, b: CurvePoint)
    requires IsEd25519()
    ensures Plus(Times(x, b), Times(x, b)) == Times(2 * x, b)
  {
    hide IsEd25519, OnCurve, Mul, IsAbelian;
    CurveGroup();
    MulAdd(Ed25519(), x, x, b);
  }

  lemma OneRow(b: CurvePoint)
    requires IsEd25519()
    ensures Times(Power(256, 0), b) == b
  {
    hide IsEd25519, OnCurve, Mul, IsAbelian;
    OneMultiple(b);
  }

  /** 2dxy is what the additions expect. */
  lemma NielsIsRep(t: GeNiels, a: Affine)
    requires NielsWith(t, a, D)
    ensures RepNiels(t, a)
  {
    hide SumsAt, TwiceProduct;
    SumsAtIs(a, Field.Val(t.ysubx), Field.Val(t.xaddy), Field.Val(t.t2d), 1);
    TwiceProductIs(a, D);
    SmallNotNull();
  }

  /** The first selected entry, as a point with z = 2. */
  method StartPoint(t: GeNiels, ghost a: Affine) returns (r: Ge)
    requires NielsWith(t, a, 1)
    ensures RepFull(r, a)
  {
    hide Field.Tight, Field.Loose, Field.Basic, Field.Val, Points.At, ExtraAt, TwiceProduct;
    TightIsBasic(t.xaddy);
    TightIsBasic(t.ysubx);
    var x := Field.SubReduce(t.xaddy, t.ysubx);
    var y := Field.AddReduce(t.xaddy, t.ysubx);
    var z := Field.Fe(2, 0, 0, 0, 0);
    SmallElement(2);
    SmallNotNull();
    r := Ge(x, y, z, t.t2d);
    ghost var p, m := Field.Val(t.xaddy), Field.Val(t.ysubx);
    CgSub(p, a.y + a.x, m, a.y - a.x);
    CgAdd(p, a.y + a.x, m, a.y - a.x);
    TwiceProductIs(a, 1);
    AtIs(a, Field.Val(x), Field.Val(y), 2);
    ExtraAtIs(a, Field.Val(t.t2d), 2);
    assert (a.x * a.y) * 2 == 2 * (1 * (a.x * a.y));
  }

  /** Adding the entry of a row to a running multiple of b. */
  method AddEntry(r0: Ge, table: seq<seq<int>>, pos: nat, digit: int, ghost x: int, ghost b: CurvePoint) returns (r: Ge)
    requires IsEd25519() && BaseTable(table, b) && 0 < pos < 32 && -8 <= digit <= 8 && RepFull(r0, Times(x, b))
    ensures RepFull(r, Times(x + digit * Power(256, pos), b))
  {
    hide IsEd25519, OnCurve, RepFull, RepNiels, NielsWith, Times, Plus, Row, Power, Edwards, Complete;
    PrimeIs();
    ghost var w := Power(256, pos);
    var t := ChooseNiels(table, pos, digit, Times(w, b), D);
    ghost var e: CurvePoint := Times(digit, Times(w, b));
    NielsIsRep(t, e);
    SumIs(Times(x, b), e);
    AddTimes(x, digit, w, b);
    r := Nielsadd2(r0, t, Times(x, b), e);
  }

  /** The first row stores 2xy, so its t2d is multiplied by d before it is added. */
  method AddFirst(r0: Ge, table: seq<seq<int>>, digit: int, ghost x: int, ghost b: CurvePoint) returns (r: Ge)
    requires IsEd25519() && BaseTable(table, b) && -8 <= digit <= 8 && RepFull(r0, Times(x, b))
    ensures RepFull(r, Times(x + digit, b))
  {
    hide IsEd25519, OnCurve, RepFull, RepNiels, Times, Plus, Row, Power, Edwards, Complete, Field.Tight, Field.Loose,
        Field.Basic, Field.Val, TwiceProduct;
    PrimeIs();
    OneRow(b);
    var t := ChooseNiels(table, 0, digit, b, 1);
    ghost var e: CurvePoint := Times(digit, b);
    ghost var m := e.x * e.y;
    Constants();
    TightIsBasic(t.t2d);
    TightIsBasic(ECD);
    var t2d := Field.Mul(t.t2d, ECD);
    TwiceProductIs(e, 1);
    TwiceProductIs(e, D);
    CgMul(Field.Val(t.t2d), 2 * (1 * m), D, D);
    assert 2 * (1 * m) * D == 2 * (D * m);
    t := GeNiels(t.ysubx, t.xaddy, t2d);
    NielsIsRep(t, e);
    SumIs(Times(x, b), e);
    OneMultiple(b);
    AddTimes(x, digit, 1, b);
    r := Nielsadd2(r0, t, Times(x, b), e);
  }

  /** Four doublings, of which only the last needs t. */
  method TimesSixteen(r0: Ge, ghost x: int, ghost b: CurvePoint) returns (r: Ge)
    requires IsEd25519() && RepFull(r0, Times(x, b))
    ensures RepFull(r, Times(16 * x, b))
  {
    hide IsEd25519, OnCurve, RepFull, Rep, Times, Plus, Edwards, Complete;
    PrimeIs();
    FullIsRep(r0, Times(x, b));
    SumIs(Times(x, b), Times(x, b));
    DoubleTimes(x, b);
    r := DoublePartial(r0, Times(x, b));
    SumIs(Times(2 * x, b), Times(2 * x, b));
    DoubleTimes(2 * x, b);
    r := DoublePartial(r, Times(2 * x, b));
    SumIs(Times(4 * x, b), Times(4 * x, b));
    DoubleTimes(4 * x, b);
    r := DoublePartial(r, Times(4 * x, b));
    SumIs(Times(8 * x, b), Times(8 * x, b));
    DoubleTimes(8 * x, b);
    r := Double(r, Times(8 * x, b));
  }

  lemma StridedNext(d: seq<int>, o: nat, k: nat)
    requires o <= 1 && 2 * k + 2 <= |d|
    ensures Strided(d, o, k + 1) == Strided(d, o, k) + d[2 * k + o] * Power(256, k)
  {
  }

  lemma StridedFirst(d: seq<int>, o: nat)
    requires o <= 1 && 2 <= |d|
    ensures Strided(d, o, 1) == d[o]
  {
    assert Power(256, 0) == 1;
    assert Strided(d, o, 0) == 0;
  }

  /** ge25519_scalarmult_base_niels: [s]b for every s < 2^255. */
  method ScalarmultBaseNiels(table: seq<seq<int>>, s: Limbs, ghost b: CurvePoint) returns (r: Ge)
    requires IsEd25519() && BaseTable(table, b) && IsLimbs(s) && s[4] < 0x8000_0000
    ensures RepFull(r, Times(Value(s), b))
  {
    hide IsEd25519, OnCurve, RepFull, NielsWith, Times, Row, Power, EvalRange, LowValue, Strided;
    var digits := new int[64];
    ContractWindow4(digits, s);
    ghost var d := digits[..];
    OneRow(b);
    var t := ChooseNiels(table, 0, digits[1], b, 1);
    r := StartPoint(t, Times(digits[1], b));
    StridedFirst(d, 1);
    var i := 3;
    while i < 64
      invariant 3 <= i <= 65 && i % 2 == 1 && digits[..] == d
      invariant RepFull(r, Times(Strided(d, 1, i / 2), b))
    {
      StridedNext(d, 1, i / 2);
      r := AddEntry(r, table, i / 2, digits[i], Strided(d, 1, i / 2), b);
      i := i + 2;
    }
    ghost var odd := Strided(d, 1, 32);
    r := TimesSixteen(r, odd, b);
    r := AddFirst(r, table, digits[0], 16 * odd, b);
    StridedFirst(d, 0);
    i := 2;
    while i < 64
      invariant 2 <= i <= 64 && i % 2 == 0 && digits[..] == d
      invariant RepFull(r, Times(16 * odd + Strided(d, 0, i / 2), b))
    {
      StridedNext(d, 0, i / 2);
      r := AddEntry(r, table, i / 2, digits[i], 16 * odd + Strided(d, 0, i / 2), b);
      i := i + 2;
    }
    Interleaved(d, 32);
  }
}
