/** Arithmetic modulo the group order L (src/ed25519-donna/modm-donna-64bit.h, lines 1-211).
    Variables of the source's types uint64_t and uint128_t have the types U64 and U128 here, so
    that every assignment to them carries a proof that it does not wrap; shifts and masks are
    division and remainder by powers of two, and an OR of disjoint bit fields is a sum. */
module Modm {
  import opened Arith
  import opened ModmBatch

  type U64 = x: int | 0 <= x < 0x1_0000_0000_0000_0000
  type U128 = x: int | 0 <= x < 0x1_0000_0000_0000_0000_0000_0000_0000_0000

  /** The group order 2^252 + 27742317777372353535851937790883648493. */
  const L: nat := 0x1000000000000000000000000000000014def9dea2f79cd65812631a5cf5d3ed
  const TWO248: nat := 0x100000000000000000000000000000000000000000000000000000000000000
  const TWO264: nat := 0x1000000000000000000000000000000000000000000000000000000000000000000

  /** The number with the five limbs a0, ..., a4. */
  function Num5(a0: int, a1: int, a2: int, a3: int, a4: int): int {
    a0 + 0x100_0000_0000_0000 * a1
    + 0x1_0000_0000_0000_0000_0000_0000_0000 * a2
    + 0x100_0000_0000_0000_0000_0000_0000_0000_0000_0000_0000 * a3
    + 0x1_0000_0000_0000_0000_0000_0000_0000_0000_0000_0000_0000_0000_0000_0000 * a4
  }

  lemma ValueIs(a: Limbs)
    requires IsLimbs(a)
    ensures Value(a) == Num5(a[0], a[1], a[2], a[3], a[4])
  {
    assert LowValue(a, 1) == a[0];
    assert LowValue(a, 3) == LowValue(a, 1) + At(1, a[1]) + At(2, a[2]);
  }

  /** lt_modm: 1 when a < b, from the top bit of the wrapped difference. */
  function LtModm(a: U64, b: U64): U64 {
    Borrow64(Sub64(a, b))
  }

  /** One limb of a borrow chain: r - pb, plus 2^56 when that is negative. */
  lemma BorrowLimb(r: U64, pb: U64)
    requires r < 0x100_0000_0000_0000 && pb <= 0x100_0000_0000_0000
    ensures LtModm(r, pb) == if r < pb then 1 else 0
    ensures Sub64(r, pb) == if r < pb then r - pb + 0x1_0000_0000_0000_0000 else r - pb
  {
  }

  /** b = lt_modm(r, pb); t = r - pb + (b << 56). */
  method BorrowDigit(r: U64, pb: U64) returns (t: U64, b: U64)
    requires r < 0x100_0000_0000_0000 && pb <= 0x100_0000_0000_0000
    ensures b == if r < pb then 1 else 0
    ensures t == r - pb + b * 0x100_0000_0000_0000 < 0x100_0000_0000_0000
  {
    BorrowLimb(r, pb);
    b := LtModm(r, pb);
    t := (Sub64(r, pb) + b * 0x100_0000_0000_0000) % 0x1_0000_0000_0000_0000;
  }

  /** The same with the narrower top limb of width bits 2^32 or 2^40. */
  method BorrowTop(r: U64, pb: U64, width: U64) returns (t: U64, b: U64)
    requires r < 0x100_0000_0000_0000 && pb <= 0x100_0000_0000_0000
    requires width <= 0x100_0000_0000
    ensures b == if r < pb then 1 else 0
    ensures r - pb + b * width >= 0 ==> t == r - pb + b * width
  {
    BorrowLimb(r, pb);
    b := LtModm(r, pb);
    t := (Sub64(r, pb) + b * width) % 0x1_0000_0000_0000_0000;
  }

  /** The selection r ^= mask & (r ^ t), where mask is b - 1: all ones keeps t, zero keeps r. */
  lemma SelectByMask(r: bv64, t: bv64)
    ensures r ^ (0xffff_ffff_ffff_ffff & (r ^ t)) == t
    ensures r ^ (0 & (r ^ t)) == r
  {
  }

  function Select(b: U64, r: U64, t: U64): U64 {
    if b == 0 then t else r
  }

  /** The five borrow steps of r - L: without a borrow at the end they give r - L, and with one r
      is below L. */
  lemma ReduceChain(r: Limbs, t0: int, t1: int, t2: int, t3: int, t4: int, b0: int, b1: int, b2: int, b3: int, b4: int)
    requires IsLimbs(r)
    requires 0 <= t0 < 0x100_0000_0000_0000 && 0 <= t1 < 0x100_0000_0000_0000 && 0 <= t2 < 0x100_0000_0000_0000
    requires 0 <= t3 < 0x100_0000_0000_0000
    requires 0 <= b0 <= 1 && 0 <= b1 <= 1 && 0 <= b2 <= 1 && 0 <= b3 <= 1
    requires t0 == r[0] - 0x12631a5cf5d3ed + b0 * 0x100_0000_0000_0000
    requires t1 == r[1] - (b0 + 0xf9dea2f79cd658) + b1 * 0x100_0000_0000_0000
    requires t2 == r[2] - (b1 + 0x000000000014de) + b2 * 0x100_0000_0000_0000
    requires t3 == r[3] - b2 + b3 * 0x100_0000_0000_0000
    requires b4 == if r[4] < b3 + 0x00000010000000 then 1 else 0
    requires b4 == 0 ==> t4 == r[4] - (b3 + 0x00000010000000)
    ensures b4 == 0 ==> Num5(t0, t1, t2, t3, t4) == Num5(r[0], r[1], r[2], r[3], r[4]) - L
    ensures b4 == 0 <==> Num5(r[0], r[1], r[2], r[3], r[4]) >= L
  {
  }

  /** reduce256_modm: subtract L once if that is possible. */
  method Reduce256Modm(r: Limbs) returns (out: Limbs)
    requires IsLimbs(r)
    ensures IsLimbs(out) && out[4] <= r[4]
    ensures Value(out) == if Value(r) >= L then Value(r) - L else Value(r)
  {
    hide LowValue, At, Num5;
    var pb: U64, b: U64 := 0, 0;
    var t0: U64, t1: U64, t2: U64, t3: U64, t4: U64;
    ghost var b0, b1, b2, b3;
    pb := pb + 0x12631a5cf5d3ed; t0, b := BorrowDigit(r[0], pb); pb := b; b0 := b;
    pb := pb + 0xf9dea2f79cd658; t1, b := BorrowDigit(r[1], pb); pb := b; b1 := b;
    pb := pb + 0x000000000014de; t2, b := BorrowDigit(r[2], pb); pb := b; b2 := b;
    pb := pb + 0x00000000000000; t3, b := BorrowDigit(r[3], pb); pb := b; b3 := b;
    pb := pb + 0x00000010000000; t4, b := BorrowTop(r[4], pb, 0x1_0000_0000);
    ReduceChain(r, t0, t1, t2, t3, t4, b0, b1, b2, b3, b);
    out := [Select(b, r[0], t0), Select(b, r[1], t1), Select(b, r[2], t2), Select(b, r[3], t3), Select(b, r[4], t4)];
    ValueIs(r);
    ValueIs(out);
  }

  // ---- Barrett reduction (HAC 14.42 with b = 2^8, k = 32) ----

  /** mu * x, where mu = floor(2^512 / L) */
  function MuTimes(x: int): int {
    0xfffffffffffffffffffffffffffffffeb2106215d086329a7ed9ce5a30a2c131b * x
  }

  /** x * 2^264 */
  function Shl264(x: int): int {
    0x1000000000000000000000000000000000000000000000000000000000000000000 * x
  }

  /** A product column of the quotient estimate, split where the estimate is shifted right by 264:
      low = (lo128(c) << 16) & (2^56 - 1), high = (lo128(c) >> 40) & 0xffff, f = c >> 56. */
  method SplitColumn(c: U128) returns (low: U64, high: U64, f: U64, ghost l: nat)
    requires c < 0x1_0000_0000_0000_0000_0000_0000_0000_00
    ensures low == 0x1_0000 * l && l < 0x100_0000_0000 && high < 0x1_0000
    ensures c == 0x100_0000_0000_0000 * f + 0x100_0000_0000 * high + l
  {
    var lo: U64 := c % 0x1_0000_0000_0000_0000;
    low := (lo * 0x1_0000 % 0x1_0000_0000_0000_0000) % 0x100_0000_0000_0000;
    high := (lo / 0x100_0000_0000) % 0x1_0000;
    f := c / 0x100_0000_0000_0000;
    l := c % 0x100_0000_0000;
    SplitBits(c);
  }

  lemma SplitBits(c: nat)
    ensures var lo := c % 0x1_0000_0000_0000_0000;
            && (lo * 0x1_0000 % 0x1_0000_0000_0000_0000) % 0x100_0000_0000_0000 == 0x1_0000 * (c % 0x100_0000_0000)
            && c == 0x100_0000_0000_0000 * (c / 0x100_0000_0000_0000)
                  + 0x100_0000_0000 * ((lo / 0x100_0000_0000) % 0x1_0000) + c % 0x100_0000_0000
  {
    var h, l := c / 0x100_0000_0000, c % 0x100_0000_0000;
    var f, g := h / 0x1_0000, h % 0x1_0000;
    DivUnique(c, 0x100_0000_0000_0000, f, 0x100_0000_0000 * g + l);
    var e, k := f % 0x100, f / 0x100;
    var lo := 0x100_0000_0000_0000 * e + 0x100_0000_0000 * g + l;
    DivUnique(c, 0x1_0000_0000_0000_0000, k, lo);
    DivUnique(lo, 0x100_0000_0000, 0x1_0000 * e + g, l);
    DivUnique(0x1_0000 * e + g, 0x1_0000, e, g);
    var g1, g0 := g / 0x100, g % 0x100;
    DivUnique(lo * 0x1_0000, 0x1_0000_0000_0000_0000, 0x100 * e + g1, 0x100_0000_0000_0000 * g0 + 0x1_0000 * l);
    DivUnique(0x100_0000_0000_0000 * g0 + 0x1_0000 * l, 0x100_0000_0000_0000, g0, 0x1_0000 * l);
  }

  /** What the columns of mu * q1 add up to: 2^264 times the estimate, plus the bits shifted out,
      plus the three columns that are never computed. */
  lemma QuotientColumns(q: Limbs, q3: Limbs, c3: int, f3: int, f4: int, h4: int, l4: int, f5: int, h5: int, l5: int,
                        f6: int, h6: int, l6: int, f7: int, h7: int, l7: int, f8: int, h8: int, l8: int)
    requires IsLimbs(q) && IsLimbs(q3)
    requires q3[0] == h4 + 0x1_0000 * l5 && q3[1] == h5 + 0x1_0000 * l6 && q3[2] == h6 + 0x1_0000 * l7
    requires q3[3] == h7 + 0x1_0000 * l8 && q3[4] == h8 + f8 * 0x1_0000
    requires c3 == 0x9ce5a30a2c131b * q[3] + 0xffffffffffffff * q[0] + 0x215d086329a7ed * q[2] + 0xffffffffeb2106 * q[1]
    requires 0x9ce5a30a2c131b * q[4] + f3 + 0x00000fffffffff * q[0] + 0xffffffffffffff * q[1]
               + 0x215d086329a7ed * q[3] + 0xffffffffeb2106 * q[2]
          == 0x100_0000_0000_0000 * f4 + 0x100_0000_0000 * h4 + l4
    requires 0x00000fffffffff * q[1] + f4 + 0x215d086329a7ed * q[4] + 0xffffffffeb2106 * q[3] + 0xffffffffffffff * q[2]
          == 0x100_0000_0000_0000 * f5 + 0x100_0000_0000 * h5 + l5
    requires 0x00000fffffffff * q[2] + f5 + 0xffffffffeb2106 * q[4] + 0xffffffffffffff * q[3]
          == 0x100_0000_0000_0000 * f6 + 0x100_0000_0000 * h6 + l6
    requires 0x00000fffffffff * q[3] + f6 + 0xffffffffffffff * q[4]
          == 0x100_0000_0000_0000 * f7 + 0x100_0000_0000 * h7 + l7
    requires 0x00000fffffffff * q[4] + f7 == 0x100_0000_0000_0000 * f8 + 0x100_0000_0000 * h8 + l8
    ensures var d := 0x1_0000_0000_0000_0000_0000_0000_0000_0000_0000_0000_0000_0000_0000_0000 * l4
                   + 0x100_0000_0000_0000_0000_0000_0000_0000_0000_0000_0000 * (c3 - 0x100_0000_0000_0000 * f3)
                       + Dropped(q);
            MuTimes(Num5(q[0], q[1], q[2], q[3], q[4]))
            == Shl264(Num5(q3[0], q3[1], q3[2], q3[3], q3[4])) + d
  {
  }

  /** The three lowest columns of mu * q1. */
  function Dropped(q: Limbs): int
    requires IsLimbs(q)
  {
    0x9ce5a30a2c131b * q[0] + 0x100_0000_0000_0000 * (0x9ce5a30a2c131b * q[1] + 0x215d086329a7ed * q[0])
    + 0x1_0000_0000_0000_0000_0000_0000_0000 * (0x9ce5a30a2c131b * q[2] + 0x215d086329a7ed * q[1]
        + 0xffffffffeb2106 * q[0])
  }

  lemma DroppedBound(q: Limbs)
    requires IsLimbs(q)
    ensures 0 <= Dropped(q) < 0x3_0000_0000_0000_0000_0000_0000_0001_0000_0000_0000_0000_0000_0000_0000
  {
  }

  lemma QuotientResult(q: Limbs, q3: Limbs, c3: int, f3: int, l4: int)
    requires IsLimbs(q) && IsLimbs(q3)
    requires 0 <= c3 - 0x100_0000_0000_0000 * f3 < 0x100_0000_0000_0000 && 0 <= l4 < 0x100_0000_0000
    requires MuTimes(Value(q)) == Shl264(Value(q3))
               + 0x1_0000_0000_0000_0000_0000_0000_0000_0000_0000_0000_0000_0000_0000_0000 * l4
               + 0x100_0000_0000_0000_0000_0000_0000_0000_0000_0000_0000 * (c3 - 0x100_0000_0000_0000 * f3) + Dropped(q)
    ensures GoodEstimate(q, q3)
  {
    hide MuTimes, Shl264, LowValue;
    DroppedBound(q);
  }

  /** Estimate and exact quotient differ by the shifted-out bits and less than 2^226 more. */
  predicate GoodEstimate(q1: Limbs, q3: Limbs) {
    && IsLimbs(q1) && IsLimbs(q3)
    && 0 <= MuTimes(Value(q1)) - Shl264(Value(q3))
         < 0x1000000000400000000000000000000000000000000000000000000000000000000
  }

  /** Columns 3 and 4 of mu * q1. */
  method Columns34(q1: Limbs) returns (h4: U64, f4: U64, ghost c3: int, ghost f3: int, ghost l4: nat)
    requires IsLimbs(q1)
    ensures c3 == 0x9ce5a30a2c131b * q1[3] + 0xffffffffffffff * q1[0] + 0x215d086329a7ed * q1[2]
        + 0xffffffffeb2106 * q1[1]
    ensures 0 <= c3 - 0x100_0000_0000_0000 * f3 < 0x100_0000_0000_0000 && l4 < 0x100_0000_0000 && h4 < 0x1_0000
    ensures 0x9ce5a30a2c131b * q1[4] + f3 + 0x00000fffffffff * q1[0] + 0xffffffffffffff * q1[1]
              + 0x215d086329a7ed * q1[3] + 0xffffffffeb2106 * q1[2]
         == 0x100_0000_0000_0000 * f4 + 0x100_0000_0000 * h4 + l4
  {
    var c: U128, f: U64;
    c := 0x9ce5a30a2c131b * q1[3] + 0xffffffffffffff * q1[0] + 0x215d086329a7ed * q1[2] + 0xffffffffeb2106 * q1[1];
    f := c / 0x100_0000_0000_0000;
    c3, f3 := c, f;
    c := 0x9ce5a30a2c131b * q1[4] + f + 0x00000fffffffff * q1[0] + 0xffffffffffffff * q1[1] + 0x215d086329a7ed * q1[3]
        + 0xffffffffeb2106 * q1[2];
    var low4;
    low4, h4, f4, l4 := SplitColumn(c);
  }

  /** Columns 5 and 6. */
  method Columns56(q1: Limbs, f4: U64) returns (low5: U64, h5: U64, low6: U64, h6: U64, f6: U64, ghost f5: nat,
      ghost l5: nat, ghost l6: nat)
    requires IsLimbs(q1)
    ensures low5 == 0x1_0000 * l5 && l5 < 0x100_0000_0000 && h5 < 0x1_0000
    ensures low6 == 0x1_0000 * l6 && l6 < 0x100_0000_0000 && h6 < 0x1_0000
    ensures 0x00000fffffffff * q1[1] + f4 + 0x215d086329a7ed * q1[4] + 0xffffffffeb2106 * q1[3]
        + 0xffffffffffffff * q1[2]
         == 0x100_0000_0000_0000 * f5 + 0x100_0000_0000 * h5 + l5
    ensures 0x00000fffffffff * q1[2] + f5 + 0xffffffffeb2106 * q1[4] + 0xffffffffffffff * q1[3]
         == 0x100_0000_0000_0000 * f6 + 0x100_0000_0000 * h6 + l6
  {
    var c: U128, f: U64;
    c := 0x00000fffffffff * q1[1] + f4 + 0x215d086329a7ed * q1[4] + 0xffffffffeb2106 * q1[3] + 0xffffffffffffff * q1[2];
    low5, h5, f, l5 := SplitColumn(c);
    f5 := f;
    c := 0x00000fffffffff * q1[2] + f + 0xffffffffeb2106 * q1[4] + 0xffffffffffffff * q1[3];
    low6, h6, f6, l6 := SplitColumn(c);
  }

  /** Columns 7 and 8. */
  method Columns78(q1: Limbs, f6: U64) returns (low7: U64, h7: U64, low8: U64, h8: U64, f8: U64, ghost f7: nat,
      ghost l7: nat, ghost l8: nat)
    requires IsLimbs(q1) && q1[4] < 0x100_0000_0000
    ensures low7 == 0x1_0000 * l7 && l7 < 0x100_0000_0000 && h7 < 0x1_0000
    ensures low8 == 0x1_0000 * l8 && l8 < 0x100_0000_0000 && h8 < 0x1_0000 && f8 < 0x100_0000
    ensures 0x00000fffffffff * q1[3] + f6 + 0xffffffffffffff * q1[4]
         == 0x100_0000_0000_0000 * f7 + 0x100_0000_0000 * h7 + l7
    ensures 0x00000fffffffff * q1[4] + f7 == 0x100_0000_0000_0000 * f8 + 0x100_0000_0000 * h8 + l8
  {
    var c: U128, f: U64;
    c := 0x00000fffffffff * q1[3] + f6 + 0xffffffffffffff * q1[4];
    low7, h7, f, l7 := SplitColumn(c);
    f7 := f;
    c := 0x00000fffffffff * q1[4] + f;
    low8, h8, f8, l8 := SplitColumn(c);
  }

  /** The first half of barrett_reduce256_modm: q3 = (mu * q1) >> 264, computed without the three
      lowest product columns. */
  method QuotientEstimate(q1: Limbs) returns (q3: Limbs)
    requires IsLimbs(q1) && q1[4] < 0x100_0000_0000
    ensures GoodEstimate(q1, q3)
  {
    hide LowValue, At, Num5, MuTimes, Shl264, Dropped, GoodEstimate;
    var h4, f4, low5, h5, low6, h6, f6, low7, h7, low8, h8, f8;
    ghost var c3, f3, l4, f5, l5, l6, f7, l7, l8;
    h4, f4, c3, f3, l4 := Columns34(q1);
    low5, h5, low6, h6, f6, f5, l5, l6 := Columns56(q1, f4);
    low7, h7, low8, h8, f8, f7, l7, l8 := Columns78(q1, f6);
    q3 := [h4 + low5, h5 + low6, h6 + low7, h7 + low8, h8 + f8 * 0x1_0000];
    QuotientColumns(q1, q3, c3, f3, f4, h4, l4, f5, h5, l5, f6, h6, l6, f7, h7, l7, f8, h8, l8);
    ValueIs(q1);
    ValueIs(q3);
    QuotientResult(q1, q3, c3, f3, l4);
  }

  /** L * x */
  function LTimes(x: int): int {
    0x1000000000000000000000000000000014def9dea2f79cd65812631a5cf5d3ed * x
  }

  lemma ProductColumns(q: Limbs, r2: Limbs, f0: int, f1: int, f2: int, f3: int, k: int)
    requires IsLimbs(q) && IsLimbs(r2)
    requires 0x12631a5cf5d3ed * q[0] == 0x100_0000_0000_0000 * f0 + r2[0]
    requires 0x12631a5cf5d3ed * q[1] + f0 + 0xf9dea2f79cd658 * q[0] == 0x100_0000_0000_0000 * f1 + r2[1]
    requires 0x12631a5cf5d3ed * q[2] + f1 + 0x14de * q[0] + 0xf9dea2f79cd658 * q[1] == 0x100_0000_0000_0000 * f2 + r2[2]
    requires 0x12631a5cf5d3ed * q[3] + f2 + 0xf9dea2f79cd658 * q[2] + 0x14de * q[1] == 0x100_0000_0000_0000 * f3 + r2[3]
    requires 0x12631a5cf5d3ed * q[4] + f3 + 0x10000000 * q[0] + 0xf9dea2f79cd658 * q[3] + 0x14de * q[2]
        == 0x100_0000_0000 * k + r2[4]
    ensures LTimes(Num5(q[0], q[1], q[2], q[3], q[4]))
         == Num5(r2[0], r2[1], r2[2], r2[3], r2[4])
          + Shl264(k + HighColumns(q))
  {
  }

  /** What columns 5 to 8 of q3 * L contribute, in units of 2^264. */
  function HighColumns(q: Limbs): int
    requires IsLimbs(q)
  {
    0x100000000000 * q[1] + 0x10000000000000000000000000 * q[2] + 0x1000000000000000000000000000000014de0000 * q[3] +
        0x1000000000000000000000000000000014def9dea2f79cd6580000 * q[4]
  }

  /** d = lo128(c) & (2^56 - 1); f = c >> 56. */
  method Carry56(c: U128) returns (d: U64, f: U64)
    requires c < 0x1_0000_0000_0000_0000_0000_0000_0000_00
    ensures c == 0x100_0000_0000_0000 * f + d && d < 0x100_0000_0000_0000
  {
    var lo: U64 := c % 0x1_0000_0000_0000_0000;
    d := lo % 0x100_0000_0000_0000;
    f := c / 0x100_0000_0000_0000;
    ghost var k := c / 0x1_0000_0000_0000_0000;
    DivUnique(c, 0x100_0000_0000_0000, 0x100 * k + lo / 0x100_0000_0000_0000, d);
  }

  /** r2 = (q3 * L) mod 2^264. */
  method LowProduct(q3: Limbs) returns (r2: Limbs, ghost carry: int)
    requires IsLimbs(q3)
    ensures IsLimbs(r2) && r2[4] < 0x100_0000_0000
    ensures LTimes(Value(q3)) == Value(r2) + Shl264(carry)
  {
    hide LowValue, At, Num5, LTimes, Shl264, HighColumns;
    var c: U128, f: U64;
    var r20, r21, r22, r23;
    c := 0x12631a5cf5d3ed * q3[0];
    r20, f := Carry56(c); ghost var f0 := f;
    c := 0x12631a5cf5d3ed * q3[1] + f + 0xf9dea2f79cd658 * q3[0];
    r21, f := Carry56(c); ghost var f1 := f;
    c := 0x12631a5cf5d3ed * q3[2] + f + 0x14de * q3[0] + 0xf9dea2f79cd658 * q3[1];
    r22, f := Carry56(c); ghost var f2 := f;
    c := 0x12631a5cf5d3ed * q3[3] + f + 0 * q3[0] + 0xf9dea2f79cd658 * q3[2] + 0x14de * q3[1];
    r23, f := Carry56(c); ghost var f3 := f;
    c := 0x12631a5cf5d3ed * q3[4] + f + 0x10000000 * q3[0] + 0 * q3[1] + 0xf9dea2f79cd658 * q3[3] + 0x14de * q3[2];
    var r24: U64 := c % 0x100_0000_0000;
    r2 := [r20, r21, r22, r23, r24];
    ghost var k := c / 0x100_0000_0000;
    ProductColumns(q3, r2, f0, f1, f2, f3, k);
    carry := k + HighColumns(q3);
    ValueIs(q3);
    ValueIs(r2);
  }

  /** The borrow chain r1 - r2, modulo 2^264. */
  method Sub264(r1: Limbs, r2: Limbs) returns (r: Limbs)
    requires IsLimbs(r1) && IsLimbs(r2) && r1[4] < 0x100_0000_0000 && r2[4] < 0x100_0000_0000
    ensures IsLimbs(r) && r[4] < 0x100_0000_0000
    ensures Value(r) == Value(r1) - Value(r2) + (if Value(r1) < Value(r2) then TWO264 else 0)
  {
    hide LowValue, At, Num5;
    var pb: U64, b: U64 := 0, 0;
    var t0: U64, t1: U64, t2: U64, t3: U64, t4: U64;
    ghost var b0, b1, b2, b3;
    pb := pb + r2[0]; t0, b := BorrowDigit(r1[0], pb); pb := b; b0 := b;
    pb := pb + r2[1]; t1, b := BorrowDigit(r1[1], pb); pb := b; b1 := b;
    pb := pb + r2[2]; t2, b := BorrowDigit(r1[2], pb); pb := b; b2 := b;
    pb := pb + r2[3]; t3, b := BorrowDigit(r1[3], pb); pb := b; b3 := b;
    pb := pb + r2[4]; t4, b := BorrowTop(r1[4], pb, 0x100_0000_0000);
    r := [t0, t1, t2, t3, t4];
    SubChain(r1, r2, r, b0, b1, b2, b3, b);
    ValueIs(r1);
    ValueIs(r2);
    ValueIs(r);
  }

  lemma SubChain(x: Limbs, y: Limbs, t: Limbs, b0: int, b1: int, b2: int, b3: int, b4: int)
    requires IsLimbs(x) && IsLimbs(y) && IsLimbs(t) && t[4] < 0x100_0000_0000
    requires 0 <= b0 <= 1 && 0 <= b1 <= 1 && 0 <= b2 <= 1 && 0 <= b3 <= 1 && 0 <= b4 <= 1
    requires t[0] == x[0] - y[0] + b0 * 0x100_0000_0000_0000
    requires t[1] == x[1] - (b0 + y[1]) + b1 * 0x100_0000_0000_0000
    requires t[2] == x[2] - (b1 + y[2]) + b2 * 0x100_0000_0000_0000
    requires t[3] == x[3] - (b2 + y[3]) + b3 * 0x100_0000_0000_0000
    requires t[4] == x[4] - (b3 + y[4]) + b4 * 0x100_0000_0000
    requires b4 == if x[4] < b3 + y[4] then 1 else 0
    ensures var u, v := Num5(x[0], x[1], x[2], x[3], x[4]), Num5(y[0], y[1], y[2], y[3], y[4]);
            Num5(t[0], t[1], t[2], t[3], t[4]) == u - v + (if u < v then TWO264 else 0)
  {
    var w := Num5(t[0], t[1], t[2], t[3], t[4]);
    assert w == Num5(x[0], x[1], x[2], x[3], x[4]) - Num5(y[0], y[1], y[2], y[3], y[4])
        + b4 * 0x1000000000000000000000000000000000000000000000000000000000000000000;
    assert 0 <= w < 0x1000000000000000000000000000000000000000000000000000000000000000000;
  }

  /** HAC 14.42 with the dropped columns: the estimate is never too large and at most two too small. */
  lemma BarrettBound(x: nat, q1: nat, x0: nat, q3: nat)
    requires q1 < 0x1000000000000000000000000000000000000000000000000000000000000000000
    requires x == 0x100000000000000000000000000000000000000000000000000000000000000 * q1 + x0
    requires x0 < 0x100000000000000000000000000000000000000000000000000000000000000
    requires 0 <= MuTimes(q1) - Shl264(q3) < 0x1000000000400000000000000000000000000000000000000000000000000000000
    ensures 0 <= x - LTimes(q3) < 3 * L
  {
    var e := MuTimes(q1) - Shl264(q3);
    assert Shl264(x - LTimes(q3))
        == 0x399411b7c309a3dceec73d217f5be65d00e1ba768859347a40611e3449c0f01 * q1 + Shl264(x0) + LTimes(e);
  }

  /** barrett_reduce256_modm: x mod L from q1 = x >> 248 and r1 = x mod 2^264. */
  method BarrettReduce256Modm(q1: Limbs, r1: Limbs, ghost x: nat) returns (r: Limbs)
    requires IsLimbs(q1) && q1[4] < 0x100_0000_0000 && IsLimbs(r1) && r1[4] < 0x100_0000_0000
    requires Value(q1) == x / TWO248 && Value(r1) == x % TWO264
    ensures IsLimbs(r) && Value(r) == x % L && r[4] < 0x100_0000_0000
  {
    hide LowValue, At, MuTimes, LTimes, Shl264;
    ghost var x0, k := x % TWO248, x / TWO264;
    Shl264Is(k);
    var q3 := QuotientEstimate(q1);
    ghost var j;
    var r2;
    r2, j := LowProduct(q3);
    r := Sub264(r1, r2);
    Below264(q1);
    Below264(r);
    BarrettBound(x, Value(q1), x0, Value(q3));
    Remainder(x, Value(q3), Value(r1), k, Value(r2), j, Value(r));
    ghost var v := Value(r);
    r := Reduce256Modm(r);
    r := Reduce256Modm(r);
    ReducedTwice(x, Value(q3), v, Value(r));
  }

  lemma Shl264Is(k: int)
    ensures Shl264(k) == TWO264 * k
  {
  }

  lemma Remainder(x: nat, q3: nat, r1: nat, k: int, r2: nat, j: int, r: nat)
    requires x == r1 + Shl264(k) && LTimes(q3) == r2 + Shl264(j)
    requires r == r1 - r2 + (if r1 < r2 then TWO264 else 0) < TWO264
    requires 0 <= x - LTimes(q3) < 3 * L
    ensures r == x - LTimes(q3)
  {
    hide LTimes;
    var d := k - j - (if r1 < r2 then 1 else 0);
    assert x - LTimes(q3) - r == Shl264(d);
    assert d == 0;
  }

  lemma ReducedTwice(x: nat, q3: nat, v: nat, r: nat)
    requires v == x - LTimes(q3) < 3 * L
    requires r == (if v >= 2 * L then v - 2 * L else if v >= L then v - L else v)
    ensures r == x % L
  {
    DivUnique(x, L, q3 + (if v >= 2 * L then 2 else if v >= L then 1 else 0), r);
  }

  lemma Below264(a: Limbs)
    requires IsLimbs(a) && a[4] < 0x100_0000_0000
    ensures Value(a) < 0x1000000000000000000000000000000000000000000000000000000000000000000
  {
    ValueIs(a);
  }

  /** add256_modm */
  method Add256Modm(x: Limbs, y: Limbs) returns (r: Limbs)
    requires IsLimbs(x) && IsLimbs(y) && Value(x) < L && Value(y) < L
    ensures IsLimbs(r) && Value(r) == (Value(x) + Value(y)) % L
  {
    hide LowValue, At, Num5;
    TopLimb(x);
    TopLimb(y);
    var c: U64;
    var r0, r1, r2, r3;
    c := x[0] + y[0]; r0, c := Carry56(c);
    ghost var c0 := c;
    c := c + x[1] + y[1]; r1, c := Carry56(c);
    ghost var c1 := c;
    c := c + x[2] + y[2]; r2, c := Carry56(c);
    ghost var c2 := c;
    c := c + x[3] + y[3]; r3, c := Carry56(c);
    ghost var c3 := c;
    c := c + x[4] + y[4];
    r := [r0, r1, r2, r3, c];
    AddChain(x, y, r, c0, c1, c2, c3);
    ValueIs(x);
    ValueIs(y);
    ValueIs(r);
    ghost var v := Value(r);
    r := Reduce256Modm(r);
    DivUnique(v, L, if v >= L then 1 else 0, Value(r));
  }

  lemma TopLimb(x: Limbs)
    requires IsLimbs(x) && Value(x) < L
    ensures x[4] <= 0x10000000
  {
    ValueIs(x);
  }

  lemma AddChain(x: Limbs, y: Limbs, r: Limbs, c0: int, c1: int, c2: int, c3: int)
    requires IsLimbs(x) && IsLimbs(y) && IsLimbs(r)
    requires x[0] + y[0] == 0x100_0000_0000_0000 * c0 + r[0]
    requires c0 + x[1] + y[1] == 0x100_0000_0000_0000 * c1 + r[1]
    requires c1 + x[2] + y[2] == 0x100_0000_0000_0000 * c2 + r[2]
    requires c2 + x[3] + y[3] == 0x100_0000_0000_0000 * c3 + r[3]
    requires c3 + x[4] + y[4] == r[4]
    ensures Num5(r[0], r[1], r[2], r[3], r[4]) == Num5(x[0], x[1], x[2], x[3], x[4])
        + Num5(y[0], y[1], y[2], y[3], y[4])
  {
  }

  // ---- multiplication ----

  lemma ScaleRow(a: int, y0: int, y1: int, y2: int, y3: int, y4: int)
    ensures a * Num5(y0, y1, y2, y3, y4) == Num5(a * y0, a * y1, a * y2, a * y3, a * y4)
  {
  }

  /** Adding up the rows of a product by columns: low columns 0 to 4, high columns 5 to 8. */
  lemma RowsToColumns(p00: int, p01: int, p02: int, p03: int, p04: int, p10: int, p11: int, p12: int, p13: int,
      p14: int, p20: int, p21: int, p22: int, p23: int, p24: int, p30: int, p31: int, p32: int, p33: int, p34: int,
      p40: int, p41: int, p42: int, p43: int, p44: int)
    ensures Num5(Num5(p00, p01, p02, p03, p04), Num5(p10, p11, p12, p13, p14), Num5(p20, p21, p22, p23, p24),
                 Num5(p30, p31, p32, p33, p34), Num5(p40, p41, p42, p43, p44))
         == Wide(p00, p01 + p10, p02 + p20 + p11, p03 + p30 + p12 + p21, p04 + p40 + p31 + p13 + p22,
                 p41 + p14 + p23 + p32, p42 + p24 + p33, p43 + p34, p44)
  {
  }

  /** The number with nine columns of weight 2^(56 k). */
  function Wide(c0: int, c1: int, c2: int, c3: int, c4: int, c5: int, c6: int, c7: int, c8: int): int {
    Num5(c0, c1, c2, c3, c4) + 0x10000000000000000000000000000000000000000000000000000000000000000000000 * Num5(c5, c6,
        c7, c8, 0)
  }

  function Prod(a: int, b: int): int {
    a * b
  }

  lemma ProdBound(a: int, b: int)
    requires 0 <= a < 0x100_0000_0000_0000 && 0 <= b < 0x100_0000_0000_0000
    ensures 0 <= Prod(a, b) < 0x1_0000_0000_0000_0000_0000_0000_0000
  {
    MulBound(a, b, 0xff_ffff_ffff_ffff, 0xff_ffff_ffff_ffff);
  }

  lemma ProductExpand(x0: int, x1: int, x2: int, x3: int, x4: int, y0: int, y1: int, y2: int, y3: int, y4: int)
    ensures Num5(x0, x1, x2, x3, x4) * Num5(y0, y1, y2, y3, y4)
         == Wide(Prod(x0, y0), Prod(x0, y1) + Prod(x1, y0),
                 Prod(x0, y2) + Prod(x2, y0) + Prod(x1, y1), Prod(x0, y3) + Prod(x3, y0) + Prod(x1, y2) + Prod(x2, y1),
                 Prod(x0, y4) + Prod(x4, y0) + Prod(x3, y1) + Prod(x1, y3) + Prod(x2, y2),
                 Prod(x4, y1) + Prod(x1, y4) + Prod(x2, y3) + Prod(x3, y2),
                 Prod(x4, y2) + Prod(x2, y4) + Prod(x3, y3), Prod(x4, y3) + Prod(x3, y4), Prod(x4, y4))
  {
    hide Num5, Wide;
    ScaleRow(Num5(y0, y1, y2, y3, y4), x0, x1, x2, x3, x4);
    ScaleRow(x0, y0, y1, y2, y3, y4);
    ScaleRow(x1, y0, y1, y2, y3, y4);
    ScaleRow(x2, y0, y1, y2, y3, y4);
    ScaleRow(x3, y0, y1, y2, y3, y4);
    ScaleRow(x4, y0, y1, y2, y3, y4);
    RowsToColumns(x0 * y0, x0 * y1, x0 * y2, x0 * y3, x0 * y4, x1 * y0, x1 * y1, x1 * y2, x1 * y3, x1 * y4, x2 * y0,
        x2 * y1, x2 * y2, x2 * y3, x2 * y4, x3 * y0, x3 * y1, x3 * y2, x3 * y3, x3 * y4, x4 * y0, x4 * y1, x4 * y2,
        x4 * y3, x4 * y4);
  }

  /** A product column split where x >> 248 begins: low = (lo128(c) << 32) & (2^56 - 1),
      high = (lo128(c) >> 24) & 0xffffffff, f = c >> 56. */
  method SplitColumn24(c: U128) returns (low: U64, high: U64, f: U64, ghost l: nat)
    requires c < 0x1_0000_0000_0000_0000_0000_0000_0000_00
    ensures low == 0x1_0000_0000 * l && l < 0x100_0000 && high < 0x1_0000_0000
    ensures c == 0x100_0000_0000_0000 * f + 0x100_0000 * high + l
  {
    var lo: U64 := c % 0x1_0000_0000_0000_0000;
    low := (lo * 0x1_0000_0000 % 0x1_0000_0000_0000_0000) % 0x100_0000_0000_0000;
    high := (lo / 0x100_0000) % 0x1_0000_0000;
    f := c / 0x100_0000_0000_0000;
    l := c % 0x100_0000;
    SplitBits24(c);
  }

  lemma SplitBits24(c: nat)
    ensures var lo := c % 0x1_0000_0000_0000_0000;
            && (lo * 0x1_0000_0000 % 0x1_0000_0000_0000_0000) % 0x100_0000_0000_0000 == 0x1_0000_0000 * (c % 0x100_0000)
            && c == 0x100_0000_0000_0000 * (c / 0x100_0000_0000_0000)
                  + 0x100_0000 * ((lo / 0x100_0000) % 0x1_0000_0000) + c % 0x100_0000
  {
    var h, l := c / 0x100_0000, c % 0x100_0000;
    var f, g := h / 0x1_0000_0000, h % 0x1_0000_0000;
    DivUnique(c, 0x100_0000_0000_0000, f, 0x100_0000 * g + l);
    var e, k := f % 0x100, f / 0x100;
    var lo := 0x100_0000_0000_0000 * e + 0x100_0000 * g + l;
    DivUnique(c, 0x1_0000_0000_0000_0000, k, lo);
    DivUnique(lo, 0x100_0000, 0x1_0000_0000 * e + g, l);
    DivUnique(0x1_0000_0000 * e + g, 0x1_0000_0000, e, g);
    var g1, g0 := g / 0x100, g % 0x100;
    DivUnique(lo * 0x1_0000_0000, 0x1_0000_0000_0000_0000, 0x100_0000 * e + g1,
        0x100_0000_0000_0000 * g0 + 0x1_0000_0000 * l);
    DivUnique(0x100_0000_0000_0000 * g0 + 0x1_0000_0000 * l, 0x100_0000_0000_0000, g0, 0x1_0000_0000 * l);
  }

  /** The normalized columns of a product give x >> 248 and x mod 2^264. */
  lemma WideSplits(w: int, d0: int, d1: int, d2: int, d3: int, h4: int, l4: int, h5: int, l5: int, h6: int, l6: int,
                   h7: int, l7: int, h8: int, l8: int, f8: int, q1: Limbs, r1: Limbs)
    requires IsLimbs(q1) && IsLimbs(r1)
    requires 0 <= h4 < 0x1_0000_0000 && 0 <= l4 < 0x100_0000
    requires w == Wide(d0, d1, d2, d3, 0x100_0000 * h4 + l4, 0x100_0000 * h5 + l5, 0x100_0000 * h6 + l6,
        0x100_0000 * h7 + l7,
                       0x100_0000_0000_0000 * f8 + 0x100_0000 * h8 + l8)
    requires r1[0] == d0 && r1[1] == d1 && r1[2] == d2 && r1[3] == d3
    requires r1[4] == 0x100_0000 * (h4 % 0x1_0000) + l4
    requires q1[0] == h4 + 0x1_0000_0000 * l5 && q1[1] == h5 + 0x1_0000_0000 * l6 && q1[2] == h6 + 0x1_0000_0000 * l7
    requires q1[3] == h7 + 0x1_0000_0000 * l8 && q1[4] == h8 + 0x1_0000_0000 * f8
    ensures Value(q1) == w / TWO248 && Value(r1) == w % TWO264
  {
    hide LowValue, At, Num5, Wide;
    ValueIs(q1);
    ValueIs(r1);
    var n := Num5(q1[0], q1[1], q1[2], q1[3], q1[4]);
    var low := Num5(d0, d1, d2, d3, l4);
    WideShift248(w, n, low, d0, d1, d2, d3, h4, l4, h5, l5, h6, l6, h7, l7, h8, l8, f8);
    LowBound(d0, d1, d2, d3, l4);
    DivUnique(w, 0x100000000000000000000000000000000000000000000000000000000000000, n, low);
    LowSixteen(q1, r1, low, h4, l4, l5);
    var k := h4 / 0x1_0000 + 0x1_0000 * l5 + 0x100_0000_0000 * q1[1] + 0x1000000000000000000000000 * q1[2]
        + 0x100000000000000000000000000000000000000 * q1[3]
        + 0x10000000000000000000000000000000000000000000000000000 * q1[4];
    Below264(r1);
    DivUnique(w, 0x1000000000000000000000000000000000000000000000000000000000000000000, k, Value(r1));
  }

  lemma LowBound(d0: int, d1: int, d2: int, d3: int, l4: int)
    requires 0 <= d0 < 0x100_0000_0000_0000 && 0 <= d1 < 0x100_0000_0000_0000 && 0 <= d2 < 0x100_0000_0000_0000
    requires 0 <= d3 < 0x100_0000_0000_0000 && 0 <= l4 < 0x100_0000
    ensures 0 <= Num5(d0, d1, d2, d3, l4) < 0x100000000000000000000000000000000000000000000000000000000000000
  {
  }

  /** Sixteen bits of the quotient x >> 248 still belong to x mod 2^264. */
  lemma LowSixteen(q1: Limbs, r1: Limbs, low: int, h4: int, l4: int, l5: int)
    requires IsLimbs(q1) && IsLimbs(r1) && h4 >= 0
    requires low == Num5(r1[0], r1[1], r1[2], r1[3], l4) && r1[4] == 0x100_0000 * (h4 % 0x1_0000) + l4
    requires q1[0] == h4 + 0x1_0000_0000 * l5
    ensures 0x100000000000000000000000000000000000000000000000000000000000000 * Num5(q1[0], q1[1], q1[2], q1[3], q1[4])
        + low
         == 0x1000000000000000000000000000000000000000000000000000000000000000000
              * (h4 / 0x1_0000 + 0x1_0000 * l5 + 0x100_0000_0000 * q1[1] + 0x1000000000000000000000000 * q1[2]
                  + 0x100000000000000000000000000000000000000 * q1[3]
                  + 0x10000000000000000000000000000000000000000000000000000 * q1[4])
            + Num5(r1[0], r1[1], r1[2], r1[3], r1[4])
  {
  }

  lemma WideShift248(w: int, n: int, low: int, d0: int, d1: int, d2: int, d3: int, h4: int, l4: int, h5: int, l5: int,
      h6: int, l6: int,
                     h7: int, l7: int, h8: int, l8: int, f8: int)
    requires w == Wide(d0, d1, d2, d3, 0x100_0000 * h4 + l4, 0x100_0000 * h5 + l5, 0x100_0000 * h6 + l6,
        0x100_0000 * h7 + l7,
                       0x100_0000_0000_0000 * f8 + 0x100_0000 * h8 + l8)
    requires n == Num5(h4 + 0x1_0000_0000 * l5, h5 + 0x1_0000_0000 * l6, h6 + 0x1_0000_0000 * l7,
        h7 + 0x1_0000_0000 * l8, h8 + 0x1_0000_0000 * f8)
    requires low == Num5(d0, d1, d2, d3, l4)
    ensures w == 0x100000000000000000000000000000000000000000000000000000000000000 * n + low
  {
  }

  lemma CarriesTelescope(c0: int, c1: int, c2: int, c3: int, c4: int, c5: int, c6: int, c7: int, c8: int,
                         d0: int, d1: int, d2: int, d3: int, d4: int, d5: int, d6: int, d7: int, d8: int,
                         f0: int, f1: int, f2: int, f3: int, f4: int, f5: int, f6: int, f7: int)
    requires c0 == 0x100_0000_0000_0000 * f0 + d0 && c1 + f0 == 0x100_0000_0000_0000 * f1 + d1
    requires c2 + f1 == 0x100_0000_0000_0000 * f2 + d2 && c3 + f2 == 0x100_0000_0000_0000 * f3 + d3
    requires c4 + f3 == 0x100_0000_0000_0000 * f4 + d4 && c5 + f4 == 0x100_0000_0000_0000 * f5 + d5
    requires c6 + f5 == 0x100_0000_0000_0000 * f6 + d6 && c7 + f6 == 0x100_0000_0000_0000 * f7 + d7
    requires c8 + f7 == d8
    ensures Wide(c0, c1, c2, c3, c4, c5, c6, c7, c8) == Wide(d0, d1, d2, d3, d4, d5, d6, d7, d8)
  {
  }

  lemma ProdBounds(x: Limbs, y: Limbs)
    requires IsLimbs(x) && IsLimbs(y)
    ensures forall i, j :: 0 <= i < 5 && 0 <= j < 5 ==> 0 <= Prod(x[i], y[j]) < 0x1_0000_0000_0000_0000_0000_0000_0000
  {
    forall i, j | 0 <= i < 5 && 0 <= j < 5
      ensures 0 <= Prod(x[i], y[j]) < 0x1_0000_0000_0000_0000_0000_0000_0000
    {
      assert x[i] < 0x100_0000_0000_0000 && y[j] < 0x100_0000_0000_0000;
      ProdBound(x[i], y[j]);
    }
  }

  /** Product columns 0 to 3. */
  method MulColumns03(x: Limbs, y: Limbs)
    returns (d0: U64, d1: U64, d2: U64, d3: U64, f3: U64, ghost f0: int, ghost f1: int, ghost f2: int)
    requires IsLimbs(x) && IsLimbs(y)
    ensures d0 < 0x100_0000_0000_0000 && d1 < 0x100_0000_0000_0000 && d2 < 0x100_0000_0000_0000
        && d3 < 0x100_0000_0000_0000
    ensures Prod(x[0], y[0]) == 0x100_0000_0000_0000 * f0 + d0
    ensures Prod(x[0], y[1]) + Prod(x[1], y[0]) + f0 == 0x100_0000_0000_0000 * f1 + d1
    ensures Prod(x[0], y[2]) + Prod(x[2], y[0]) + Prod(x[1], y[1]) + f1 == 0x100_0000_0000_0000 * f2 + d2
    ensures Prod(x[0], y[3]) + Prod(x[3], y[0]) + Prod(x[1], y[2]) + Prod(x[2], y[1]) + f2 == 0x100_0000_0000_0000 * f3
        + d3
  {
    hide Prod;
    ProdBounds(x, y);
    var c: U128, f: U64;
    c := Prod(x[0], y[0]);
    d0, f := Carry56(c); f0 := f;
    c := Prod(x[0], y[1]) + f + Prod(x[1], y[0]);
    d1, f := Carry56(c); f1 := f;
    c := Prod(x[0], y[2]) + f + Prod(x[2], y[0]) + Prod(x[1], y[1]);
    d2, f := Carry56(c); f2 := f;
    c := Prod(x[0], y[3]) + f + Prod(x[3], y[0]) + Prod(x[1], y[2]) + Prod(x[2], y[1]);
    d3, f3 := Carry56(c);
  }

  /** Product columns 4 to 6. */
  method MulColumns46(x: Limbs, y: Limbs, f3: U64)
    returns (low4: U64, h4: U64, low5: U64, h5: U64, low6: U64, h6: U64, f6: U64,
             ghost f4: int, ghost f5: int, ghost l4: nat, ghost l5: nat, ghost l6: nat)
    requires IsLimbs(x) && IsLimbs(y)
    ensures low4 == 0x100_0000 * (h4 % 0x1_0000) + l4
    ensures l4 < 0x100_0000 && h4 < 0x1_0000_0000
    ensures low5 == 0x1_0000_0000 * l5 && l5 < 0x100_0000 && h5 < 0x1_0000_0000
    ensures low6 == 0x1_0000_0000 * l6 && l6 < 0x100_0000 && h6 < 0x1_0000_0000 && f6 < 0x1000_0000_0000_0000
    ensures Prod(x[0], y[4]) + Prod(x[4], y[0]) + Prod(x[3], y[1]) + Prod(x[1], y[3]) + Prod(x[2], y[2]) + f3
        == 0x100_0000_0000_0000 * f4 + (0x100_0000 * h4 + l4)
    ensures Prod(x[4], y[1]) + Prod(x[1], y[4]) + Prod(x[2], y[3]) + Prod(x[3], y[2]) + f4 == 0x100_0000_0000_0000 * f5
        + (0x100_0000 * h5 + l5)
    ensures Prod(x[4], y[2]) + Prod(x[2], y[4]) + Prod(x[3], y[3]) + f5 == 0x100_0000_0000_0000 * f6
        + (0x100_0000 * h6 + l6)
  {
    hide Prod;
    ProdBounds(x, y);
    var c: U128, f: U64, unused: U64;
    c := Prod(x[0], y[4]) + f3 + Prod(x[4], y[0]) + Prod(x[3], y[1]) + Prod(x[1], y[3]) + Prod(x[2], y[2]);
    low4 := c % 0x100_0000_0000;
    unused, h4, f, l4 := SplitColumn24(c); f4 := f;
    LowForty(c, f, h4, l4);
    c := Prod(x[4], y[1]) + f + Prod(x[1], y[4]) + Prod(x[2], y[3]) + Prod(x[3], y[2]);
    low5, h5, f, l5 := SplitColumn24(c); f5 := f;
    c := Prod(x[4], y[2]) + f + Prod(x[2], y[4]) + Prod(x[3], y[3]);
    low6, h6, f6, l6 := SplitColumn24(c);
  }

  lemma LowForty(c: nat, f: nat, h: nat, l: nat)
    requires c == 0x100_0000_0000_0000 * f + 0x100_0000 * h + l && l < 0x100_0000 && h < 0x1_0000_0000
    ensures c % 0x100_0000_0000 == 0x100_0000 * (h % 0x1_0000) + l
  {
    DivUnique(c, 0x100_0000_0000, 0x1_0000 * f + h / 0x1_0000, 0x100_0000 * (h % 0x1_0000) + l);
  }

  /** Product columns 7 and 8. */
  method MulColumns78(x: Limbs, y: Limbs, f6: U64)
    returns (low7: U64, h7: U64, low8: U64, h8: U64, f8: U64, ghost f7: int, ghost l7: nat, ghost l8: nat)
    requires IsLimbs(x) && IsLimbs(y) && x[4] < 0x1_0000_0000 && y[4] < 0x1_0000_0000 && f6 < 0x1000_0000_0000_0000
    ensures low7 == 0x1_0000_0000 * l7 && l7 < 0x100_0000 && h7 < 0x1_0000_0000
    ensures low8 == 0x1_0000_0000 * l8 && l8 < 0x100_0000 && h8 < 0x1_0000_0000 && f8 <= 0x100
    ensures Prod(x[4], y[3]) + Prod(x[3], y[4]) + f6 == 0x100_0000_0000_0000 * f7 + (0x100_0000 * h7 + l7)
    ensures Prod(x[4], y[4]) + f7 == 0x100_0000_0000_0000 * f8 + 0x100_0000 * h8 + l8
  {
    hide Prod;
    ProdBounds(x, y);
    TopProduct(x[4], y[4]);
    TopProduct(x[4], y[3]);
    TopProduct(y[4], x[3]);
    ProdComm(x[3], y[4]);
    var c: U128, f: U64;
    c := Prod(x[4], y[3]) + f6 + Prod(x[3], y[4]);
    low7, h7, f, l7 := SplitColumn24(c); f7 := f;
    c := Prod(x[4], y[4]) + f;
    low8, h8, f8, l8 := SplitColumn24(c);
  }

  lemma TopProduct(a: int, b: int)
    requires 0 <= a < 0x1_0000_0000 && 0 <= b < 0x100_0000_0000_0000
    ensures 0 <= Prod(a, b) < 0x100_0000_0000_0000_0000_0000
    ensures b < 0x1_0000_0000 ==> Prod(a, b) <= 0xffff_fffe_0000_0001
  {
    MulBound(a, b, 0xffff_ffff, 0xff_ffff_ffff_ffff);
    if b < 0x1_0000_0000 {
      MulBound(a, b, 0xffff_ffff, 0xffff_ffff);
    }
  }

  lemma ProdComm(a: int, b: int)
    ensures Prod(a, b) == Prod(b, a)
  {
  }

  /** A product of numbers below 2^256 leaves a quotient x >> 248 of 264 bits. */
  lemma QuotientWidth(x: Limbs, y: Limbs, q1: Limbs)
    requires IsLimbs(x) && IsLimbs(y) && x[4] < 0x1_0000_0000 && y[4] < 0x1_0000_0000
    requires IsLimbs(q1) && Value(q1) == (Value(x) * Value(y)) / TWO248
    ensures q1[4] < 0x100_0000_0000
  {
    hide LowValue, At;
    ValueIs(x);
    ValueIs(y);
    ValueIs(q1);
    var m := 0xffffffffffffffffffffffffffffffffffffffffffffffffffffffffffffffff;
    MulBound(Value(x), Value(y), m, m);
    var w := Value(x) * Value(y);
    assert w < 0x1000000000000000000000000000000000000000000000000000000000000000000 * TWO248;
    assert Value(q1) < 0x1000000000000000000000000000000000000000000000000000000000000000000;
  }

  lemma ProductOfLimbs(x: Limbs, y: Limbs)
    requires IsLimbs(x) && IsLimbs(y)
    ensures Value(x) * Value(y)
         == Wide(Prod(x[0], y[0]), Prod(x[0], y[1]) + Prod(x[1], y[0]),
                 Prod(x[0], y[2]) + Prod(x[2], y[0]) + Prod(x[1], y[1]),
                     Prod(x[0], y[3]) + Prod(x[3], y[0]) + Prod(x[1], y[2]) + Prod(x[2], y[1]),
                 Prod(x[0], y[4]) + Prod(x[4], y[0]) + Prod(x[3], y[1]) + Prod(x[1], y[3]) + Prod(x[2], y[2]),
                 Prod(x[4], y[1]) + Prod(x[1], y[4]) + Prod(x[2], y[3]) + Prod(x[3], y[2]),
                 Prod(x[4], y[2]) + Prod(x[2], y[4]) + Prod(x[3], y[3]), Prod(x[4], y[3]) + Prod(x[3], y[4]),
                     Prod(x[4], y[4]))
  {
    hide LowValue, At, Num5, Wide, Prod;
    ValueIs(x);
    ValueIs(y);
    ProductExpand(x[0], x[1], x[2], x[3], x[4], y[0], y[1], y[2], y[3], y[4]);
  }

  /** mul256_modm: x * y mod L for all x, y below 2^256. */
  method Mul256Modm(x: Limbs, y: Limbs) returns (r: Limbs)
    requires IsLimbs(x) && IsLimbs(y) && x[4] < 0x1_0000_0000 && y[4] < 0x1_0000_0000
    ensures IsLimbs(r) && Value(r) == (Value(x) * Value(y)) % L
  {
    hide LowValue, At, Num5, Wide, Prod;
    var d0, d1, d2, d3, f3, low4, h4, low5, h5, low6, h6, f6, low7, h7, low8, h8, f8;
    ghost var f0, f1, f2, f4, f5, f7, l4, l5, l6, l7, l8;
    d0, d1, d2, d3, f3, f0, f1, f2 := MulColumns03(x, y);
    low4, h4, low5, h5, low6, h6, f6, f4, f5, l4, l5, l6 := MulColumns46(x, y, f3);
    low7, h7, low8, h8, f8, f7, l7, l8 := MulColumns78(x, y, f6);
    var r1 := [d0, d1, d2, d3, low4];
    var q1 := [h4 + low5, h5 + low6, h6 + low7, h7 + low8, h8 + f8 * 0x1_0000_0000];
    ghost var w, g8: int := Value(x) * Value(y), f8;
    ProductOfLimbs(x, y);
    CarriesTelescope(Prod(x[0], y[0]), Prod(x[0], y[1]) + Prod(x[1], y[0]),
        Prod(x[0], y[2]) + Prod(x[2], y[0]) + Prod(x[1], y[1]), Prod(x[0], y[3]) + Prod(x[3], y[0]) + Prod(x[1], y[2])
        + Prod(x[2], y[1]), Prod(x[0], y[4]) + Prod(x[4], y[0]) + Prod(x[3], y[1]) + Prod(x[1], y[3])
                + Prod(x[2], y[2]), Prod(x[4], y[1]) + Prod(x[1], y[4]) + Prod(x[2], y[3]) + Prod(x[3], y[2]),
                    Prod(x[4], y[2]) + Prod(x[2], y[4]) + Prod(x[3], y[3]), Prod(x[4], y[3]) + Prod(x[3], y[4]),
                    Prod(x[4], y[4]),
                     d0, d1, d2, d3, 0x100_0000 * h4 + l4, 0x100_0000 * h5 + l5, 0x100_0000 * h6 + l6, 0x100_0000 * h7
                         + l7,
                     0x100_0000_0000_0000 * g8 + 0x100_0000 * h8 + l8, f0, f1, f2, f3, f4, f5, f6, f7);
    WideSplits(w, d0, d1, d2, d3, h4, l4, h5, l5, h6, l6, h7, l7, h8, l8, f8, q1, r1);
    QuotientWidth(x, y, q1);
    r := BarrettReduce256Modm(q1, r1, w);
  }
}
