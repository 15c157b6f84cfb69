/** Scalars from and to bytes (src/ed25519-donna/modm-donna-64bit.h, lines 152-211). */
module ModmCodec {
  import opened Arith
  import opened Bytes
  import opened ModmBatch
  import opened Modm

  /** ((x >> (64 - s)) | (y << s)) & (2^56 - 1), where m = 2^s. */
  function Join(x: U64, y: U64, m: int): U64
    requires m == 0x100 || m == 0x1_0000 || m == 0x100_0000 || m == 0x1_0000_0000
  {
    (x / (0x1_0000_0000_0000_0000 / m) + (y * m) % 0x1_0000_0000_0000_0000) % 0x100_0000_0000_0000
  }

  /** The join takes the high bits of x and, above them, as many low bits of y as fit. */
  lemma JoinIs(x: U64, y: U64)
    ensures Join(x, y, 0x100) == x / 0x100_0000_0000_0000 + 0x100 * (y % 0x1_0000_0000_0000)
    ensures Join(x, y, 0x1_0000) == x / 0x1_0000_0000_0000 + 0x1_0000 * (y % 0x100_0000_0000)
    ensures Join(x, y, 0x100_0000) == x / 0x100_0000_0000 + 0x100_0000 * (y % 0x1_0000_0000)
    ensures Join(x, y, 0x1_0000_0000) == x / 0x1_0000_0000 + 0x1_0000_0000 * (y % 0x100_0000)
  {
    JoinBy(x / 0x100_0000_0000_0000, y, 0x100, 0x1_0000_0000_0000, 0x100_0000_0000_0000);
    JoinBy(x / 0x1_0000_0000_0000, y, 0x1_0000, 0x100_0000_0000, 0x1_0000_0000_0000);
    JoinBy(x / 0x100_0000_0000, y, 0x100_0000, 0x1_0000_0000, 0x100_0000_0000);
    JoinBy(x / 0x1_0000_0000, y, 0x1_0000_0000, 0x100_0000, 0x1_0000_0000);
  }

  lemma JoinBy(h: nat, y: nat, m: nat, n: nat, k: nat)
    requires h < m && n > 0 && m * n == 0x100_0000_0000_0000 && k == 256 * n
    ensures (h + (y * m) % 0x1_0000_0000_0000_0000) % 0x100_0000_0000_0000 == h + m * (y % n)
  {
    var a, b := y / n, y % n;
    assert y == n * a + b;
    assert y * m == 0x100_0000_0000_0000 * a + m * b by {
      assert y * m == (n * a) * m + b * m;
      assert (n * a) * m == (m * n) * a;
    }
    MulBound(m, b, m, n - 1);
    assert m * (n - 1) == 0x100_0000_0000_0000 - m;
    var a1, a0 := a / 0x100, a % 0x100;
    DivUnique(y * m, 0x1_0000_0000_0000_0000, a1, 0x100_0000_0000_0000 * a0 + m * b);
    DivUnique(h + (0x100_0000_0000_0000 * a0 + m * b), 0x100_0000_0000_0000, a0, h + m * b);
  }

  /** The number with the eight 64-bit words x0, ..., x7. */
  function Words8(x0: int, x1: int, x2: int, x3: int, x4: int, x5: int, x6: int, x7: int): int {
    x0 + 0x10000000000000000 * x1 + 0x100000000000000000000000000000000 * x2 +
        0x1000000000000000000000000000000000000000000000000 * x3 +
        0x10000000000000000000000000000000000000000000000000000000000000000 * x4 +
                0x100000000000000000000000000000000000000000000000000000000000000000000000000000000 * x5 +
                    0x1000000000000000000000000000000000000000000000000000000000000000000000000000000000000000000000000
                    * x6 + 0x10000000000000000000000000000000000000000000000000000000000000000000000000000000000000000000000000000000000000000 * x7
  }

  lemma LeOfEightWords(b: seq<int>)
    requires |b| == 64
    ensures LeValue(b) == Words8(Word(b, 0), Word(b, 8), Word(b, 16), Word(b, 24), Word(b, 32), Word(b, 40),
        Word(b, 48), Word(b, 56))
  {
    hide Word;
    LeFromWord(b, 0);
    LeFromWord(b, 8);
    LeFromWord(b, 16);
    LeFromWord(b, 24);
    LeFromWord(b, 32);
    LeFromWord(b, 40);
    LeFromWord(b, 48);
    LeFromWord(b, 56);
    EightTail(b);
    EightWords(LeFrom(b, 0), LeFrom(b, 8), LeFrom(b, 16), LeFrom(b, 24), LeFrom(b, 32), LeFrom(b, 40), LeFrom(b, 48),
        LeFrom(b, 56),
               Word(b, 0), Word(b, 8), Word(b, 16), Word(b, 24), Word(b, 32), Word(b, 40), Word(b, 48), Word(b, 56));
  }

  lemma EightTail(b: seq<int>)
    requires |b| == 64
    ensures LeFrom(b, 64) == 0
  {
  }

  lemma EightWords(v0: int, v1: int, v2: int, v3: int, v4: int, v5: int, v6: int, v7: int, x0: int, x1: int, x2: int,
      x3: int, x4: int, x5: int, x6: int, x7: int)
    requires v0 == x0 + 0x1_0000_0000_0000_0000 * v1 && v1 == x1 + 0x1_0000_0000_0000_0000 * v2
    requires v2 == x2 + 0x1_0000_0000_0000_0000 * v3 && v3 == x3 + 0x1_0000_0000_0000_0000 * v4
    requires v4 == x4 + 0x1_0000_0000_0000_0000 * v5 && v5 == x5 + 0x1_0000_0000_0000_0000 * v6
    requires v6 == x6 + 0x1_0000_0000_0000_0000 * v7 && v7 == x7
    ensures v0 == Words8(x0, x1, x2, x3, x4, x5, x6, x7)
  {
  }

  /** The five limbs of the words modulo 2^264. */
  lemma LowLimbs(x0: int, x1: int, x2: int, x3: int, x4: int, x5: int, x6: int, x7: int, out: Limbs)
    requires IsLimbs(out) && 0 <= x4
    requires out[0] == x0 % 0x100000000000000
    requires out[1] == x0 / 0x100000000000000 + 0x100 * (x1 % 0x1000000000000)
    requires out[2] == x1 / 0x1000000000000 + 0x10000 * (x2 % 0x10000000000)
    requires out[3] == x2 / 0x10000000000 + 0x1000000 * (x3 % 0x100000000)
    requires out[4] == x3 / 0x100000000 + 0x100000000 * (x4 % 0x100) < 0x10000000000
    ensures Value(out) == Words8(x0, x1, x2, x3, x4, x5, x6, x7) % TWO264
  {
    hide LowValue, At;
    ValueIs(out);
    Below264(out);
    LowLimbsSum(x0, x1, x2, x3, x4, x5, x6, x7, x0 / 0x100000000000000, x0 % 0x100000000000000, x1 / 0x1000000000000,
        x1 % 0x1000000000000, x2 / 0x10000000000, x2 % 0x10000000000,
                x3 / 0x100000000, x3 % 0x100000000, x4 / 0x100, x4 % 0x100);
    hide Num5, Words8;
    DivUnique(Words8(x0, x1, x2, x3, x4, x5, x6, x7),
        0x1000000000000000000000000000000000000000000000000000000000000000000,
        x4 / 0x100 + 0x100000000000000 * x5 + 0x1000000000000000000000000000000 * x6
                + 0x10000000000000000000000000000000000000000000000 * x7, Value(out));
  }

  lemma LowLimbsSum(x0: int, x1: int, x2: int, x3: int, x4: int, x5: int, x6: int, x7: int, a1: int, a0: int, b1: int,
      b0: int, c1: int, c0: int, d1: int, d0: int, e1: int, e0: int)
    requires x0 == 0x100000000000000 * a1 + a0 && x1 == 0x1000000000000 * b1 + b0 && x2 == 0x10000000000 * c1 + c0
    requires x3 == 0x100000000 * d1 + d0 && x4 == 0x100 * e1 + e0
    ensures Words8(x0, x1, x2, x3, x4, x5, x6, x7)
        == 0x1000000000000000000000000000000000000000000000000000000000000000000 * (e1 + 0x100000000000000 * x5
        + 0x1000000000000000000000000000000 * x6 + 0x10000000000000000000000000000000000000000000000 * x7)
              + Num5(a0, a1 + 0x100 * b0, b1 + 0x10000 * c0, c1 + 0x1000000 * d0, d1 + 0x100000000 * e0)
  {
  }

  /** The five limbs of the words shifted right by 248. */
  lemma HighLimbs(x0: int, x1: int, x2: int, x3: int, x4: int, x5: int, x6: int, x7: int, q1: Limbs)
    requires IsLimbs(q1)
    requires 0 <= x0 < 0x10000000000000000 && 0 <= x1 < 0x10000000000000000 && 0 <= x2 < 0x10000000000000000
    requires q1[0] == x3 / 0x100000000000000 + 0x100 * (x4 % 0x1000000000000)
    requires q1[1] == x4 / 0x1000000000000 + 0x10000 * (x5 % 0x10000000000)
    requires q1[2] == x5 / 0x10000000000 + 0x1000000 * (x6 % 0x100000000)
    requires q1[3] == x6 / 0x100000000 + 0x100000000 * (x7 % 0x1000000)
    requires q1[4] == x7 / 0x1000000
    ensures Value(q1) == Words8(x0, x1, x2, x3, x4, x5, x6, x7) / TWO248
  {
    hide LowValue, At;
    ValueIs(q1);
    HighLimbsSum(x0, x1, x2, x3, x4, x5, x6, x7, x3 / 0x100000000000000, x3 % 0x100000000000000, x4 / 0x1000000000000,
        x4 % 0x1000000000000, x5 / 0x10000000000, x5 % 0x10000000000,
                 x6 / 0x100000000, x6 % 0x100000000, x7 / 0x1000000, x7 % 0x1000000);
    hide Num5, Words8;
    DivUnique(Words8(x0, x1, x2, x3, x4, x5, x6, x7), 0x100000000000000000000000000000000000000000000000000000000000000,
        Value(q1), x0 + 0x10000000000000000 * x1 + 0x100000000000000000000000000000000 * x2
        + 0x1000000000000000000000000000000000000000000000000 * (x3 % 0x100000000000000));
  }

  lemma HighLimbsSum(x0: int, x1: int, x2: int, x3: int, x4: int, x5: int, x6: int, x7: int, g1: int, g0: int, h1: int,
      h0: int, i1: int, i0: int, j1: int, j0: int, k1: int, k0: int)
    requires x3 == 0x100000000000000 * g1 + g0 && x4 == 0x1000000000000 * h1 + h0 && x5 == 0x10000000000 * i1 + i0
    requires x6 == 0x100000000 * j1 + j0 && x7 == 0x1000000 * k1 + k0
    ensures Words8(x0, x1, x2, x3, x4, x5, x6, x7)
        == 0x100000000000000000000000000000000000000000000000000000000000000 * Num5(g1 + 0x100 * h0, h1 + 0x10000 * i0,
        i1 + 0x1000000 * j0, j1 + 0x100000000 * k0, k1)
              + (x0 + 0x10000000000000000 * x1 + 0x100000000000000000000000000000000 * x2
                  + 0x1000000000000000000000000000000000000000000000000 * g0)
  {
  }

  /** ((x >> 32) | (y << 32)) & (2^40 - 1) */
  function JoinTop(x: U64, y: U64): U64 {
    (x / 0x100000000 + (y * 0x100000000) % 0x10000000000000000) % 0x10000000000
  }

  lemma JoinTopIs(x: U64, y: U64)
    ensures JoinTop(x, y) == x / 0x100000000 + 0x100000000 * (y % 256) < 0x10000000000
  {
    var a, b := y / 0x100000000, y % 0x100000000;
    DivUnique(y * 0x100000000, 0x10000000000000000, a, 0x100000000 * b);
    DivUnique(x / 0x100000000 + 0x100000000 * b, 0x10000000000, b / 256, x / 0x100000000 + 0x100000000 * (b % 256));
  }

  /** expand256_modm: the little-endian number in the bytes, modulo L. */
  method Expand256Modm(input: seq<int>) returns (out: Limbs)
    requires IsBytes(input) && |input| <= 64
    ensures IsLimbs(out) && Value(out) == LeValue(input) % L
  {
    hide Word, LowValue, At, Join, JoinTop, LeFrom, Words8;
    var work := input + seq(64 - |input|, i => 0);
    assert IsBytes(work);
    LePad(input, work, 0);
    LeOfEightWords(work);
    WordBound(work, 0); WordBound(work, 8); WordBound(work, 16); WordBound(work, 24);
    WordBound(work, 32); WordBound(work, 40); WordBound(work, 48); WordBound(work, 56);
    var x0: U64, x1: U64, x2: U64, x3: U64 := Word(work, 0), Word(work, 8), Word(work, 16), Word(work, 24);
    var x4: U64, x5: U64, x6: U64, x7: U64 := Word(work, 32), Word(work, 40), Word(work, 48), Word(work, 56);
    out := LowFive(x0, x1, x2, x3, x4, x5, x6, x7);
    if |input| < 32 {
      ShortIsReduced(work, x0, x1, x2, x3);
      return;
    }
    var q1 := HighFive(x0, x1, x2, x3, x4, x5, x6, x7);
    out := BarrettReduce256Modm(q1, out, LeValue(input));
  }

  method LowFive(x0: U64, x1: U64, x2: U64, x3: U64, x4: U64, ghost x5: U64, ghost x6: U64,
      ghost x7: U64) returns (out: Limbs)
    ensures IsLimbs(out) && out[4] < 0x10000000000 && Value(out) == Words8(x0, x1, x2, x3, x4, x5, x6, x7) % TWO264
  {
    hide Join, JoinTop, LowValue, At, Words8;
    JoinIs(x0, x1);
    JoinIs(x1, x2);
    JoinIs(x2, x3);
    JoinTopIs(x3, x4);
    out := [x0 % 0x100000000000000, Join(x0, x1, 0x100), Join(x1, x2, 0x1_0000), Join(x2, x3, 0x100_0000),
        JoinTop(x3, x4)];
    LowLimbs(x0, x1, x2, x3, x4, x5, x6, x7, out);
  }

  method HighFive(ghost x0: U64, ghost x1: U64, ghost x2: U64, x3: U64, x4: U64, x5: U64, x6: U64,
      x7: U64) returns (q1: Limbs)
    ensures IsLimbs(q1) && q1[4] < 0x10000000000 && Value(q1) == Words8(x0, x1, x2, x3, x4, x5, x6, x7) / TWO248
  {
    hide Join, LowValue, At, Words8;
    JoinIs(x3, x4);
    JoinIs(x4, x5);
    JoinIs(x5, x6);
    JoinIs(x6, x7);
    q1 := [Join(x3, x4, 0x100), Join(x4, x5, 0x1_0000), Join(x5, x6, 0x100_0000), Join(x6, x7, 0x1_0000_0000),
        x7 / 0x1000000];
    HighLimbs(x0, x1, x2, x3, x4, x5, x6, x7, q1);
  }

  /** Fewer than 32 bytes stay below 2^248 and need no reduction. */
  lemma ShortIsReduced(work: seq<int>, x0: int, x1: int, x2: int, x3: int)
    requires |work| == 64 && IsBytes(work) && forall i :: 31 <= i < 64 ==> work[i] == 0
    requires x0 == Word(work, 0) && x1 == Word(work, 8) && x2 == Word(work, 16) && x3 == Word(work, 24)
    ensures var v := Words8(x0, x1, x2, x3, Word(work, 32), Word(work, 40), Word(work, 48), Word(work, 56));
            0 <= v < L && v % L == v && v % TWO264 == v
  {
    WordBound(work, 0); WordBound(work, 8); WordBound(work, 16); WordBound(work, 24);
    assert x3 < 0x100000000000000;
    var v := Words8(x0, x1, x2, x3, 0, 0, 0, 0);
    assert Word(work, 32) == 0 && Word(work, 40) == 0 && Word(work, 48) == 0 && Word(work, 56) == 0;
    DivSmall(v, L);
    DivSmall(v, TWO264);
  }

  /** contract256_modm: the 32 little-endian bytes of the scalar. */
  method Contract256Modm(a: Limbs) returns (out: seq<int>)
    requires IsLimbs(a) && a[4] < 0x100000000
    ensures |out| == 32 && IsBytes(out) && LeValue(out) == Value(a)
  {
    hide WordBytes, LeFrom, LowValue, At;
    var w0: U64 := a[0] + (a[1] * 0x100000000000000) % 0x10000000000000000;
    var w1: U64 := a[1] / 0x100 + (a[2] * 0x1000000000000) % 0x10000000000000000;
    var w2: U64 := a[2] / 0x1_0000 + (a[3] * 0x10000000000) % 0x10000000000000000;
    var w3: U64 := a[3] / 0x100_0000 + a[4] * 0x100000000;
    out := WordBytes(w0) + WordBytes(w1) + WordBytes(w2) + WordBytes(w3);
    LeOfFourWords(out, w0, w1, w2, w3);
    ValueIs(a);
    ContractWords(a);
  }

  lemma ContractWords(a: Limbs)
    requires IsLimbs(a) && a[4] < 0x100000000
    ensures (a[0] + (a[1] * 0x100000000000000) % 0x10000000000000000)
        + 0x10000000000000000 * (a[1] / 0x100 + (a[2] * 0x1000000000000) % 0x10000000000000000)
          + 0x100000000000000000000000000000000 * (a[2] / 0x1_0000 + (a[3] * 0x10000000000) % 0x10000000000000000)
          + 0x1000000000000000000000000000000000000000000000000 * (a[3] / 0x100_0000 + a[4] * 0x100000000)
         == Num5(a[0], a[1], a[2], a[3], a[4])
  {
    var b1, b0 := a[1] / 0x100, a[1] % 0x100;
    DivUnique(a[1] * 0x100000000000000, 0x10000000000000000, b1, 0x100000000000000 * b0);
    var c1, c0 := a[2] / 0x1_0000, a[2] % 0x1_0000;
    DivUnique(a[2] * 0x1000000000000, 0x10000000000000000, c1, 0x1000000000000 * c0);
    var d1, d0 := a[3] / 0x100_0000, a[3] % 0x100_0000;
    DivUnique(a[3] * 0x10000000000, 0x10000000000000000, d1, 0x10000000000 * d0);
  }
}
