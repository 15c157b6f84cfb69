/** Arithmetic modulo p = 2^255 - 19 on five 51-bit limbs
    (src/ed25519-donna/curve25519-donna-64bit.h, lines 1-284). As in module Modm, variables of the
    source's integer types have types whose every assignment is proved not to wrap. */
module Field {
  import opened Arith
  import opened Congruence
  import opened Modm

  /** bignum25519: five limbs of nominally 51 bits, least significant first. */
  datatype Fe = Fe(a0: int, a1: int, a2: int, a3: int, a4: int)

  /** The number with the 51-bit limbs a0, ..., a4. */
  function Num51(a0: int, a1: int, a2: int, a3: int, a4: int): int {
    a0 + 0x8000000000000 * a1 + 0x40000000000000000000000000 * a2 + 0x200000000000000000000000000000000000000 * a3 +
        0x1000000000000000000000000000000000000000000000000000 * a4
  }

  function Val(f: Fe): int {
    Num51(f.a0, f.a1, f.a2, f.a3, f.a4)
  }

  /** All limbs lie in [0, n). */
  predicate Below(f: Fe, n: int) {
    && 0 <= f.a0 < n && 0 <= f.a1 < n && 0 <= f.a2 < n && 0 <= f.a3 < n && 0 <= f.a4 < n
  }

  /** The bound all reducing operations guarantee: 2^51 + 2^15. */
  predicate Tight(f: Fe) {
    Below(f, 0x8000000008000)
  }

  /** The bound on the result of one addition or subtraction of reduced elements. */
  predicate Basic(f: Fe) {
    Below(f, 0x18000000008000)
  }

  /** The bound multiplication accepts: 2^54. */
  predicate Loose(f: Fe) {
    Below(f, 0x40000000000000)
  }

  // ---- the product ----

  lemma ScaleRow51(a: int, s0: int, s1: int, s2: int, s3: int, s4: int)
    ensures a * Num51(s0, s1, s2, s3, s4) == Num51(a * s0, a * s1, a * s2, a * s3, a * s4)
  {
  }

  /** Rows of a product, folded with 2^255 = 19 (mod p). */
  lemma RowsFold(p00: int, p01: int, p02: int, p03: int, p04: int, p10: int, p11: int, p12: int, p13: int, p14: int,
      p20: int, p21: int, p22: int, p23: int, p24: int, p30: int, p31: int, p32: int, p33: int, p34: int, p40: int,
      p41: int, p42: int, p43: int, p44: int)
    ensures Num51(Num51(p00, p01, p02, p03, p04), Num51(p10, p11, p12, p13, p14), Num51(p20, p21, p22, p23, p24),
        Num51(p30, p31, p32, p33, p34), Num51(p40, p41, p42, p43, p44))
         == Num51(p00 + 19 * (p41 + p14 + p23 + p32), p01 + p10 + 19 * (p42 + p24 + p33),
             p02 + p20 + p11 + 19 * (p43 + p34),
                  p03 + p30 + p12 + p21 + 19 * p44, p04 + p40 + p31 + p13 + p22)
          + 0x7fffffffffffffffffffffffffffffffffffffffffffffffffffffffffffffed * Num51(p41 + p14 + p23 + p32,
              p42 + p24 + p33, p43 + p34, p44, 0)
  {
  }

  /** The five folded columns of a product have the product's value modulo p. */
  lemma ProductFold(r0: int, r1: int, r2: int, r3: int, r4: int, s0: int, s1: int, s2: int, s3: int, s4: int)
    ensures Cg(Num51(r0, r1, r2, r3, r4) * Num51(s0, s1, s2, s3, s4),
               Num51(Prod(r0, s0) + 19 * (Prod(r4, s1) + Prod(r1, s4) + Prod(r2, s3) + Prod(r3, s2)),
                     Prod(r0, s1) + Prod(r1, s0) + 19 * (Prod(r4, s2) + Prod(r2, s4) + Prod(r3, s3)),
                     Prod(r0, s2) + Prod(r2, s0) + Prod(r1, s1) + 19 * (Prod(r4, s3) + Prod(r3, s4)),
                     Prod(r0, s3) + Prod(r3, s0) + Prod(r1, s2) + Prod(r2, s1) + 19 * Prod(r4, s4),
                     Prod(r0, s4) + Prod(r4, s0) + Prod(r3, s1) + Prod(r1, s3) + Prod(r2, s2)))
  {
    hide Num51;
    ScaleRow51(Num51(s0, s1, s2, s3, s4), r0, r1, r2, r3, r4);
    ScaleRow51(r0, s0, s1, s2, s3, s4);
    ScaleRow51(r1, s0, s1, s2, s3, s4);
    ScaleRow51(r2, s0, s1, s2, s3, s4);
    ScaleRow51(r3, s0, s1, s2, s3, s4);
    ScaleRow51(r4, s0, s1, s2, s3, s4);
    RowsFold(r0 * s0, r0 * s1, r0 * s2, r0 * s3, r0 * s4, r1 * s0, r1 * s1, r1 * s2, r1 * s3, r1 * s4, r2 * s0, r2 * s1,
        r2 * s2, r2 * s3, r2 * s4, r3 * s0, r3 * s1, r3 * s2, r3 * s3, r3 * s4, r4 * s0, r4 * s1, r4 * s2, r4 * s3,
        r4 * s4);
    CgByMultiple(Num51(r0, r1, r2, r3, r4) * Num51(s0, s1, s2, s3, s4),
                 Num51(r0 * s0 + 19 * (r4 * s1 + r1 * s4 + r2 * s3 + r3 * s2),
                     r0 * s1 + r1 * s0 + 19 * (r4 * s2 + r2 * s4 + r3 * s3),
                       r0 * s2 + r2 * s0 + r1 * s1 + 19 * (r4 * s3 + r3 * s4),
                           r0 * s3 + r3 * s0 + r1 * s2 + r2 * s1 + 19 * (r4 * s4),
                       r0 * s4 + r4 * s0 + r3 * s1 + r1 * s3 + r2 * s2),
                 Num51(r4 * s1 + r1 * s4 + r2 * s3 + r3 * s2, r4 * s2 + r2 * s4 + r3 * s3, r4 * s3 + r3 * s4, r4 * s4,
                     0));
  }

  lemma ProdScale(k: int, a: int, b: int)
    ensures Prod(k * a, b) == k * Prod(a, b)
  {
  }

  lemma ProdBound54(a: int, b: int)
    requires 0 <= a < 0x40000000000000 && 0 <= b < 0x40000000000000
    ensures 0 <= Prod(a, b) < 0x1000000000000000000000000000
  {
    MulBound(a, b, 0x3fffffffffffff, 0x3fffffffffffff);
  }

  lemma ProdsBounded(f: Fe, g: Fe)
    requires Loose(f) && Loose(g)
    ensures 0 <= Prod(f.a0, g.a0) < 0x1000000000000000000000000000 && 0 <= Prod(f.a0, g.a1)
        < 0x1000000000000000000000000000 && 0 <= Prod(f.a0, g.a2) < 0x1000000000000000000000000000
        && 0 <= Prod(f.a0, g.a3) < 0x1000000000000000000000000000
                && 0 <= Prod(f.a0, g.a4) < 0x1000000000000000000000000000
    ensures 0 <= Prod(f.a1, g.a0) < 0x1000000000000000000000000000 && 0 <= Prod(f.a1, g.a1)
        < 0x1000000000000000000000000000 && 0 <= Prod(f.a1, g.a2) < 0x1000000000000000000000000000
        && 0 <= Prod(f.a1, g.a3) < 0x1000000000000000000000000000
                && 0 <= Prod(f.a1, g.a4) < 0x1000000000000000000000000000
    ensures 0 <= Prod(f.a2, g.a0) < 0x1000000000000000000000000000 && 0 <= Prod(f.a2, g.a1)
        < 0x1000000000000000000000000000 && 0 <= Prod(f.a2, g.a2) < 0x1000000000000000000000000000
        && 0 <= Prod(f.a2, g.a3) < 0x1000000000000000000000000000
                && 0 <= Prod(f.a2, g.a4) < 0x1000000000000000000000000000
    ensures 0 <= Prod(f.a3, g.a0) < 0x1000000000000000000000000000 && 0 <= Prod(f.a3, g.a1)
        < 0x1000000000000000000000000000 && 0 <= Prod(f.a3, g.a2) < 0x1000000000000000000000000000
        && 0 <= Prod(f.a3, g.a3) < 0x1000000000000000000000000000
                && 0 <= Prod(f.a3, g.a4) < 0x1000000000000000000000000000
    ensures 0 <= Prod(f.a4, g.a0) < 0x1000000000000000000000000000 && 0 <= Prod(f.a4, g.a1)
        < 0x1000000000000000000000000000 && 0 <= Prod(f.a4, g.a2) < 0x1000000000000000000000000000
        && 0 <= Prod(f.a4, g.a3) < 0x1000000000000000000000000000
                && 0 <= Prod(f.a4, g.a4) < 0x1000000000000000000000000000
  {
    hide Prod;
    ProdBound54(f.a0, g.a0);
    ProdBound54(f.a0, g.a1);
    ProdBound54(f.a0, g.a2);
    ProdBound54(f.a0, g.a3);
    ProdBound54(f.a0, g.a4);
    ProdBound54(f.a1, g.a0);
    ProdBound54(f.a1, g.a1);
    ProdBound54(f.a1, g.a2);
    ProdBound54(f.a1, g.a3);
    ProdBound54(f.a1, g.a4);
    ProdBound54(f.a2, g.a0);
    ProdBound54(f.a2, g.a1);
    ProdBound54(f.a2, g.a2);
    ProdBound54(f.a2, g.a3);
    ProdBound54(f.a2, g.a4);
    ProdBound54(f.a3, g.a0);
    ProdBound54(f.a3, g.a1);
    ProdBound54(f.a3, g.a2);
    ProdBound54(f.a3, g.a3);
    ProdBound54(f.a3, g.a4);
    ProdBound54(f.a4, g.a0);
    ProdBound54(f.a4, g.a1);
    ProdBound54(f.a4, g.a2);
    ProdBound54(f.a4, g.a3);
    ProdBound54(f.a4, g.a4);
  }

  /** Mask and shift of a 128-bit column: the low 51 bits, and the rest as a 64-bit carry. */
  method Carry51(t: U128) returns (d: U64, c: U64)
    requires t < 0x80000000000000000000000000000
    ensures t == 0x8000000000000 * c + d && d < 0x8000000000000
  {
    var lo: U64 := t % 0x10000000000000000;
    d := lo % 0x8000000000000;
    c := t / 0x8000000000000;
    ghost var k := t / 0x10000000000000000;
    DivUnique(t, 0x8000000000000, 0x2000 * k + lo / 0x8000000000000, d);
  }

  lemma CarryIdentity(t0: int, t1: int, t2: int, t3: int, t4: int, d0: int, d1: int, d2: int, d3: int, d4: int,
                      c0: int, c1: int, c2: int, c3: int, c4: int, e0: int, e1: int)
    requires t0 == 0x8000000000000 * c0 + d0 && t1 + c0 == 0x8000000000000 * c1 + d1
        && t2 + c1 == 0x8000000000000 * c2 + d2
    requires t3 + c2 == 0x8000000000000 * c3 + d3 && t4 + c3 == 0x8000000000000 * c4 + d4
    requires d0 + 19 * c4 == 0x8000000000000 * e1 + e0
    ensures Num51(e0, d1 + e1, d2, d3, d4) == Num51(t0, t1, t2, t3, t4)
        + 0x7fffffffffffffffffffffffffffffffffffffffffffffffffffffffffffffed * -c4
  {
  }

  /** The carry chain that ends curve25519_mul and curve25519_square. */
  method CarryColumns(t0: U128, t1: U128, t2: U128, t3: U128, t4: U128) returns (f: Fe)
    requires t0 < 0x4d000000000000000000000000000 && t1 < 0x3b000000000000000000000000000
        && t2 < 0x29000000000000000000000000000 && t3 < 0x17000000000000000000000000000
    requires t4 < 0x5000000000000000000000000000
    ensures Tight(f) && Cg(Num51(t0, t1, t2, t3, t4), Val(f))
  {
    hide Num51;
    var r0, c0 := Carry51(t0);
    var r1, c1 := Carry51(t1 + c0);
    var r2, c2 := Carry51(t2 + c1);
    var r3, c3 := Carry51(t3 + c2);
    var r4, c4 := Carry51(t4 + c3);
    var x: U64 := r0 + c4 * 19;
    var e0, e1 := Carry51(x);
    var y: U64 := r1 + e1;
    f := Fe(e0, y, r2, r3, r4);
    CarryIdentity(t0, t1, t2, t3, t4, r0, r1, r2, r3, r4, c0, c1, c2, c3, c4, e0, e1);
    ghost var k: int := c4;
    CgByMultiple(Num51(t0, t1, t2, t3, t4), Val(f), k);
  }

  /** The five columns of a product; r1, ..., r4 are multiplied by 19 for the columns that wrap around. */
  method MulColumns(f: Fe, g: Fe) returns (t0: U128, t1: U128, t2: U128, t3: U128, t4: U128)
    requires Loose(f) && Loose(g)
    ensures t0 == Prod(f.a0, g.a0) + 19 * (Prod(f.a4, g.a1) + Prod(f.a1, g.a4) + Prod(f.a2, g.a3) + Prod(f.a3, g.a2))
        < 0x4d000000000000000000000000000
    ensures t1 == Prod(f.a0, g.a1) + Prod(f.a1, g.a0) + 19 * (Prod(f.a4, g.a2) + Prod(f.a2, g.a4) + Prod(f.a3, g.a3))
        < 0x3b000000000000000000000000000
    ensures t2 == Prod(f.a0, g.a2) + Prod(f.a2, g.a0) + Prod(f.a1, g.a1) + 19 * (Prod(f.a4, g.a3) + Prod(f.a3, g.a4))
        < 0x29000000000000000000000000000
    ensures t3 == Prod(f.a0, g.a3) + Prod(f.a3, g.a0) + Prod(f.a1, g.a2) + Prod(f.a2, g.a1) + 19 * Prod(f.a4, g.a4)
        < 0x17000000000000000000000000000
    ensures t4 == Prod(f.a0, g.a4) + Prod(f.a4, g.a0) + Prod(f.a3, g.a1) + Prod(f.a1, g.a3) + Prod(f.a2, g.a2)
        < 0x5000000000000000000000000000
  {
    hide Prod;
    var r0: U64, r1: U64, r2: U64, r3: U64, r4: U64 := f.a0, f.a1, f.a2, f.a3, f.a4;
    var s0: U64, s1: U64, s2: U64, s3: U64, s4: U64 := g.a0, g.a1, g.a2, g.a3, g.a4;
    ProdsBounded(f, g);
    t0 := Prod(r0, s0);
    t1 := Prod(r0, s1) + Prod(r1, s0);
    t2 := Prod(r0, s2) + Prod(r2, s0) + Prod(r1, s1);
    t3 := Prod(r0, s3) + Prod(r3, s0) + Prod(r1, s2) + Prod(r2, s1);
    t4 := Prod(r0, s4) + Prod(r4, s0) + Prod(r3, s1) + Prod(r1, s3) + Prod(r2, s2);
    ProdScale(19, r4, s1); ProdScale(19, r1, s4); ProdScale(19, r2, s3); ProdScale(19, r3, s2);
    ProdScale(19, r4, s2); ProdScale(19, r2, s4); ProdScale(19, r3, s3);
    ProdScale(19, r4, s3); ProdScale(19, r3, s4); ProdScale(19, r4, s4);
    r1 := 19 * r1;
    r2 := 19 * r2;
    r3 := 19 * r3;
    r4 := 19 * r4;
    t0 := t0 + Prod(r4, s1) + Prod(r1, s4) + Prod(r2, s3) + Prod(r3, s2);
    t1 := t1 + Prod(r4, s2) + Prod(r2, s4) + Prod(r3, s3);
    t2 := t2 + Prod(r4, s3) + Prod(r3, s4);
    t3 := t3 + Prod(r4, s4);
  }

  /** curve25519_mul: the product modulo p, for limbs below 2^54. */
  method Mul(g: Fe, f: Fe) returns (out: Fe)
    requires Loose(f) && Loose(g)
    ensures Tight(out)
    ensures Cg(Val(out), Val(g) * Val(f))
  {
    hide Num51, Prod;
    var t0, t1, t2, t3, t4 := MulColumns(f, g);
    out := CarryColumns(t0, t1, t2, t3, t4);
    ProductFold(f.a0, f.a1, f.a2, f.a3, f.a4, g.a0, g.a1, g.a2, g.a3, g.a4);
  }

  /** The five columns of a square, with doubled and 19-fold operands precomputed. */
  method SquareColumns(r0: U64, r1: U64, r2: U64, r3: U64, r4: U64) returns (t0: U128, t1: U128, t2: U128, t3: U128,
      t4: U128)
    requires r0 < 0x40000000000000 && r1 < 0x40000000000000 && r2 < 0x40000000000000 && r3 < 0x40000000000000
        && r4 < 0x40000000000000
    ensures t0 == Prod(r0, r0) + 19 * (Prod(r4, r1) + Prod(r1, r4) + Prod(r2, r3) + Prod(r3, r2))
        < 0x4d000000000000000000000000000
    ensures t1 == Prod(r0, r1) + Prod(r1, r0) + 19 * (Prod(r4, r2) + Prod(r2, r4) + Prod(r3, r3))
        < 0x3b000000000000000000000000000
    ensures t2 == Prod(r0, r2) + Prod(r2, r0) + Prod(r1, r1) + 19 * (Prod(r4, r3) + Prod(r3, r4))
        < 0x29000000000000000000000000000
    ensures t3 == Prod(r0, r3) + Prod(r3, r0) + Prod(r1, r2) + Prod(r2, r1) + 19 * Prod(r4, r4)
        < 0x17000000000000000000000000000
    ensures t4 == Prod(r0, r4) + Prod(r4, r0) + Prod(r3, r1) + Prod(r1, r3) + Prod(r2, r2)
        < 0x5000000000000000000000000000
  {
    hide Prod;
    var d0: U64 := 2 * r0;
    var d1: U64 := 2 * r1;
    var d2: U64 := 38 * r2;
    var d419: U64 := 19 * r4;
    var d4: U64 := 38 * r4;
    var r319: U64 := 19 * r3;
    ProdsBounded(Fe(r0, r1, r2, r3, r4), Fe(r0, r1, r2, r3, r4));
    ProdScale(38, r4, r1); ProdScale(38, r2, r3); ProdComm(r4, r1); ProdComm(r2, r3);
    t0 := Prod(r0, r0) + Prod(d4, r1) + Prod(d2, r3);
    ProdScale(2, r0, r1); ProdScale(38, r4, r2); ProdComm(r3, r319); ProdScale(19, r3, r3); ProdComm(r0, r1);
    ProdComm(r4, r2);
    t1 := Prod(d0, r1) + Prod(d4, r2) + Prod(r3, r319);
    ProdScale(2, r0, r2); ProdScale(38, r4, r3); ProdComm(r0, r2); ProdComm(r4, r3);
    t2 := Prod(d0, r2) + Prod(r1, r1) + Prod(d4, r3);
    ProdScale(2, r0, r3); ProdScale(2, r1, r2); ProdComm(r4, d419); ProdScale(19, r4, r4); ProdComm(r0, r3);
    ProdComm(r1, r2);
    t3 := Prod(d0, r3) + Prod(d1, r2) + Prod(r4, d419);
    ProdScale(2, r0, r4); ProdScale(2, r1, r3); ProdComm(r0, r4); ProdComm(r1, r3);
    t4 := Prod(d0, r4) + Prod(d1, r3) + Prod(r2, r2);
  }

  /** curve25519_square: the square modulo p, for limbs below 2^54. */
  method Square(f: Fe) returns (out: Fe)
    requires Loose(f)
    ensures Tight(out)
    ensures Cg(Val(out), Val(f) * Val(f))
  {
    hide Num51, Prod;
    var t0, t1, t2, t3, t4 := SquareColumns(f.a0, f.a1, f.a2, f.a3, f.a4);
    out := CarryColumns(t0, t1, t2, t3, t4);
    ProductFold(f.a0, f.a1, f.a2, f.a3, f.a4, f.a0, f.a1, f.a2, f.a3, f.a4);
  }

  /** The high half of t shifted left by 13, which is t shifted right by 51 as long as nothing is lost on the left. */
  method ShiftLeft13(t: U128) returns (c: U64)
    requires t < 0x80000000000000000000000000000
    ensures c == t / 0x8000000000000
  {
    var x: U128 := t * 0x2000;
    c := x / 0x10000000000000000;
    DivUnique(x, 0x10000000000000000, t / 0x8000000000000, 0x2000 * (t % 0x8000000000000));
  }

  method Column51(t: U128) returns (d: U64, c: U64)
    requires t < 0x80000000000000000000000000000
    ensures t == 0x8000000000000 * c + d && d < 0x8000000000000
  {
    var lo: U64 := t % 0x10000000000000000;
    d := lo % 0x8000000000000;
    c := ShiftLeft13(t);
    ghost var k := t / 0x10000000000000000;
    DivUnique(t, 0x8000000000000, 0x2000 * k + lo / 0x8000000000000, d);
  }

  lemma RippleIdentity(t0: int, t1: int, t2: int, t3: int, t4: int, d0: int, d1: int, d2: int, d3: int, d4: int,
                       c0: int, c1: int, c2: int, c3: int, c4: int, e0: int, e1: int, e2: int, e3: int, e4: int,
                       f0: int, f1: int, f2: int, f3: int, f4: int)
    requires t0 == 0x8000000000000 * c0 + d0 && t1 == 0x8000000000000 * c1 + d1 && t2 == 0x8000000000000 * c2 + d2
        && t3 == 0x8000000000000 * c3 + d3 && t4 == 0x8000000000000 * c4 + d4
    requires d0 + 19 * c4 == 0x8000000000000 * f0 + e0 && d1 + c0 + f0 == 0x8000000000000 * f1 + e1
        && d2 + c1 + f1 == 0x8000000000000 * f2 + e2
    requires d3 + c2 + f2 == 0x8000000000000 * f3 + e3 && d4 + c3 + f3 == 0x8000000000000 * f4 + e4
    ensures Num51(t0, t1, t2, t3, t4) == Num51(e0 + 19 * f4, e1, e2, e3, e4)
        + 0x7fffffffffffffffffffffffffffffffffffffffffffffffffffffffffffffed * (c4 + f4)
  {
  }

  /** The two-pass carry of curve25519_square_times: all columns at once, then a ripple. */
  method RippleColumns(t0: U128, t1: U128, t2: U128, t3: U128, t4: U128)
    returns (r0: U64, r1: U64, r2: U64, r3: U64, r4: U64)
    requires t0 < 0x4d000000000000000000000000000 && t1 < 0x3b000000000000000000000000000
        && t2 < 0x29000000000000000000000000000 && t3 < 0x17000000000000000000000000000
    requires t4 < 0x5000000000000000000000000000
    ensures Tight(Fe(r0, r1, r2, r3, r4))
    ensures Cg(Num51(t0, t1, t2, t3, t4), Num51(r0, r1, r2, r3, r4))
  {
    hide Num51;
    var c0, c1, c2, c3, c4;
    r0, c0 := Column51(t0);
    r1, c1 := Column51(t1);
    r2, c2 := Column51(t2);
    r3, c3 := Column51(t3);
    r4, c4 := Column51(t4);
    ghost var d0: int, d1: int, d2: int, d3: int, d4: int := r0, r1, r2, r3, r4;
    r1 := r1 + c0;
    r2 := r2 + c1;
    r3 := r3 + c2;
    r4 := r4 + c3;
    r0 := r0 + c4 * 19;
    var f0, f1, f2, f3, f4;
    r0, f0 := Carry51(r0);
    r1 := r1 + f0; r1, f1 := Carry51(r1);
    r2 := r2 + f1; r2, f2 := Carry51(r2);
    r3 := r3 + f2; r3, f3 := Carry51(r3);
    r4 := r4 + f3; r4, f4 := Carry51(r4);
    ghost var e0: int := r0;
    r0 := r0 + f4 * 19;
    RippleIdentity(t0, t1, t2, t3, t4, d0, d1, d2, d3, d4, c0, c1, c2, c3, c4, e0, r1, r2, r3, r4, f0, f1, f2, f3, f4);
    ghost var k: int := c4 + f4;
    CgByMultiple(Num51(t0, t1, t2, t3, t4), Num51(r0, r1, r2, r3, r4), k);
  }

  /** One pass of the squaring loop. */
  method SquareOnce(r0: U64, r1: U64, r2: U64, r3: U64, r4: U64) returns (s0: U64, s1: U64, s2: U64, s3: U64, s4: U64)
    requires Loose(Fe(r0, r1, r2, r3, r4))
    ensures Tight(Fe(s0, s1, s2, s3, s4))
    ensures Cg(Num51(s0, s1, s2, s3, s4), Num51(r0, r1, r2, r3, r4) * Num51(r0, r1, r2, r3, r4))
  {
    hide Num51, Prod;
    var t0, t1, t2, t3, t4 := SquareColumns(r0, r1, r2, r3, r4);
    s0, s1, s2, s3, s4 := RippleColumns(t0, t1, t2, t3, t4);
    ProductFold(r0, r1, r2, r3, r4, r0, r1, r2, r3, r4);
    ghost var x, y, z := Num51(r0, r1, r2, r3, r4), Num51(t0, t1, t2, t3, t4), Num51(s0, s1, s2, s3, s4);
  }

  lemma SquarePower(w: int, u: int, x: int, k: nat)
    requires Cg(w, u * u) && IsPower(u, x, Pow2(k))
    ensures IsPower(w, x, Pow2(k + 1))
  {
    hide IsPower;
    PowerTimes(w, u, u, x, Pow2(k), Pow2(k));
  }

  /** curve25519_square_times: the power with exponent 2^count. */
  method SquareTimes(f: Fe, count: U64) returns (out: Fe)
    requires Loose(f) && count >= 1
    ensures Tight(out)
    ensures IsPower(Val(out), Val(f), Pow2(count))
  {
    hide IsPower, Num51, Pow2;
    var n: int := count;
    var r0: U64, r1: U64, r2: U64, r3: U64, r4: U64 := f.a0, f.a1, f.a2, f.a3, f.a4;
    r0, r1, r2, r3, r4 := SquareOnce(r0, r1, r2, r3, r4);
    SquaredOnce(Num51(r0, r1, r2, r3, r4), Val(f));
    n := n - 1;
    while n != 0
      invariant 0 <= n < count
      invariant Tight(Fe(r0, r1, r2, r3, r4))
      invariant IsPower(Num51(r0, r1, r2, r3, r4), Val(f), Pow2(count - n))
    {
      ghost var u := Num51(r0, r1, r2, r3, r4);
      r0, r1, r2, r3, r4 := SquareOnce(r0, r1, r2, r3, r4);
      SquarePower(Num51(r0, r1, r2, r3, r4), u, Val(f), count - n);
      n := n - 1;
    }
    out := Fe(r0, r1, r2, r3, r4);
  }

  lemma SquaredOnce(w: int, x: int)
    requires Cg(w, x * x)
    ensures IsPower(w, x, Pow2(1))
  {
    hide IsPower;
    PowerSelf(x);
    assert Pow2(0) == 1;
    SquarePower(w, x, x, 0);
  }

  // ---- additions and subtractions ----

  /** curve25519_add */
  method Add(a: Fe, b: Fe) returns (out: Fe)
    requires Tight(a) && Tight(b)
    ensures Basic(out) && Val(out) == Val(a) + Val(b)
  {
    out := Fe(a.a0 + b.a0, a.a1 + b.a1, a.a2 + b.a2, a.a3 + b.a3, a.a4 + b.a4);
  }

  /** curve25519_add_after_basic */
  method AddAfterBasic(a: Fe, b: Fe) returns (out: Fe)
    requires Basic(a) && Basic(b)
    ensures Loose(out) && Val(out) == Val(a) + Val(b)
  {
    out := Fe(a.a0 + b.a0, a.a1 + b.a1, a.a2 + b.a2, a.a3 + b.a3, a.a4 + b.a4);
  }

  /** curve25519_sub: the multiple of p that is added keeps every limb from going below zero. */
  method Sub(a: Fe, b: Fe) returns (out: Fe)
    requires Tight(a) && Tight(b)
    ensures Basic(out) && Cg(Val(out), Val(a) - Val(b))
  {
    var r0: U64 := a.a0 + 0xfffffffffffda - b.a0;
    var r1: U64 := a.a1 + 0xffffffffffffe - b.a1;
    var r2: U64 := a.a2 + 0xffffffffffffe - b.a2;
    var r3: U64 := a.a3 + 0xffffffffffffe - b.a3;
    var r4: U64 := a.a4 + 0xffffffffffffe - b.a4;
    out := Fe(r0, r1, r2, r3, r4);
    CgByMultiple(Val(out), Val(a) - Val(b), 2);
  }

  /** curve25519_sub_after_basic */
  method SubAfterBasic(a: Fe, b: Fe) returns (out: Fe)
    requires Basic(a) && Basic(b)
    ensures Loose(out) && Cg(Val(out), Val(a) - Val(b))
  {
    var r0: U64 := a.a0 + 0x1fffffffffffb4 - b.a0;
    var r1: U64 := a.a1 + 0x1ffffffffffffc - b.a1;
    var r2: U64 := a.a2 + 0x1ffffffffffffc - b.a2;
    var r3: U64 := a.a3 + 0x1ffffffffffffc - b.a3;
    var r4: U64 := a.a4 + 0x1ffffffffffffc - b.a4;
    out := Fe(r0, r1, r2, r3, r4);
    CgByMultiple(Val(out), Val(a) - Val(b), 4);
  }

  lemma PassIdentity(t0: int, t1: int, t2: int, t3: int, t4: int, d0: int, d1: int, d2: int, d3: int, d4: int, c0: int,
      c1: int, c2: int, c3: int, c4: int)
    requires t0 == 0x8000000000000 * c0 + d0 && t1 + c0 == 0x8000000000000 * c1 + d1
        && t2 + c1 == 0x8000000000000 * c2 + d2
    requires t3 + c2 == 0x8000000000000 * c3 + d3 && t4 + c3 == 0x8000000000000 * c4 + d4
    ensures Num51(t0, t1, t2, t3, t4) == Num51(d0, d1, d2, d3, d4)
        + 0x8000000000000000000000000000000000000000000000000000000000000000 * c4
  {
  }

  /** One carry through the limbs; c is what leaves the top. */
  method CarryPass(t0: U64, t1: U64, t2: U64, t3: U64, t4: U64) returns (d0: U64, d1: U64, d2: U64, d3: U64, d4: U64,
      c: U64)
    requires t0 < 0x4000000000000000 && t1 < 0x4000000000000000 && t2 < 0x4000000000000000 && t3 < 0x4000000000000000
        && t4 < 0x4000000000000000
    ensures Below(Fe(d0, d1, d2, d3, d4), 0x8000000000000)
    ensures Num51(t0, t1, t2, t3, t4) == Num51(d0, d1, d2, d3, d4)
        + 0x8000000000000000000000000000000000000000000000000000000000000000 * c
    ensures 0x8000000000000 * c <= t4 + 0x2000
  {
    hide Num51;
    var c0, c1, c2, c3;
    d0, c0 := Carry51(t0);
    d1, c1 := Carry51(t1 + c0);
    d2, c2 := Carry51(t2 + c1);
    d3, c3 := Carry51(t3 + c2);
    d4, c := Carry51(t4 + c3);
    PassIdentity(t0, t1, t2, t3, t4, d0, d1, d2, d3, d4, c0, c1, c2, c3, c);
  }

  /** A carry whose overflow comes back into the lowest limb as a multiple of 19. */
  method CarryAround(t0: U64, t1: U64, t2: U64, t3: U64, t4: U64) returns (out: Fe)
    requires t0 < 0x100000000000000 && t1 < 0x100000000000000 && t2 < 0x100000000000000 && t3 < 0x100000000000000
        && t4 < 0x100000000000000
    ensures Tight(out) && Cg(Val(out), Num51(t0, t1, t2, t3, t4))
  {
    hide Num51;
    var d0, d1, d2, d3, d4, c := CarryPass(t0, t1, t2, t3, t4);
    var r0: U64 := d0 + c * 19;
    out := Fe(r0, d1, d2, d3, d4);
    AroundIdentity(d0, d1, d2, d3, d4, c);
    ghost var k: int := c;
    CgByMultiple(Val(out), Num51(t0, t1, t2, t3, t4), -k);
  }

  lemma AroundIdentity(d0: int, d1: int, d2: int, d3: int, d4: int, c: int)
    ensures Num51(d0 + c * 19, d1, d2, d3, d4) == Num51(d0, d1, d2, d3, d4)
        + 0x8000000000000000000000000000000000000000000000000000000000000000 * c +
        0x7fffffffffffffffffffffffffffffffffffffffffffffffffffffffffffffed * -c
  {
  }

  lemma AddIdentity(a: Fe, b: Fe)
    ensures Num51(a.a0 + b.a0, a.a1 + b.a1, a.a2 + b.a2, a.a3 + b.a3, a.a4 + b.a4) == Val(a) + Val(b)
  {
  }

  /** curve25519_add_reduce */
  method AddReduce(a: Fe, b: Fe) returns (out: Fe)
    requires Loose(a) && Loose(b)
    ensures Tight(out) && Cg(Val(out), Val(a) + Val(b))
  {
    hide Num51, Val;
    out := CarryAround(a.a0 + b.a0, a.a1 + b.a1, a.a2 + b.a2, a.a3 + b.a3, a.a4 + b.a4);
    AddIdentity(a, b);
  }

  lemma SubIdentity(a: Fe, b: Fe)
    ensures Num51(a.a0 + 0x1fffffffffffb4 - b.a0, a.a1 + 0x1ffffffffffffc - b.a1, a.a2 + 0x1ffffffffffffc - b.a2,
        a.a3 + 0x1ffffffffffffc - b.a3, a.a4 + 0x1ffffffffffffc - b.a4) == Val(a) - Val(b)
        + 0x7fffffffffffffffffffffffffffffffffffffffffffffffffffffffffffffed * 4
  {
  }

  /** curve25519_sub_reduce */
  method SubReduce(a: Fe, b: Fe) returns (out: Fe)
    requires Loose(a) && Basic(b)
    ensures Tight(out) && Cg(Val(out), Val(a) - Val(b))
  {
    hide Num51, Val;
    out := CarryAround(a.a0 + 0x1fffffffffffb4 - b.a0, a.a1 + 0x1ffffffffffffc - b.a1, a.a2 + 0x1ffffffffffffc - b.a2,
        a.a3 + 0x1ffffffffffffc - b.a3, a.a4 + 0x1ffffffffffffc - b.a4);
    SubIdentity(a, b);
    ghost var t := Val(a) - Val(b) + 0x7fffffffffffffffffffffffffffffffffffffffffffffffffffffffffffffed * 4;
    CgByMultiple(t, Val(a) - Val(b), 4);
  }

  lemma NegIdentity(a: Fe)
    ensures Num51(0xfffffffffffda - a.a0, 0xffffffffffffe - a.a1, 0xffffffffffffe - a.a2, 0xffffffffffffe - a.a3,
        0xffffffffffffe - a.a4) == -Val(a) + 0x7fffffffffffffffffffffffffffffffffffffffffffffffffffffffffffffed * 2
  {
  }

  /** curve25519_neg */
  method Neg(a: Fe) returns (out: Fe)
    requires Tight(a)
    ensures Tight(out) && Cg(Val(out), -Val(a))
  {
    hide Num51, Val;
    out := CarryAround(0xfffffffffffda - a.a0, 0xffffffffffffe - a.a1, 0xffffffffffffe - a.a2, 0xffffffffffffe - a.a3,
        0xffffffffffffe - a.a4);
    NegIdentity(a);
    ghost var t := -Val(a) + 0x7fffffffffffffffffffffffffffffffffffffffffffffffffffffffffffffed * 2;
    CgByMultiple(t, -Val(a), 2);
  }
}
