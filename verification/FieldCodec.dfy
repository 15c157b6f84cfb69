/** Field elements from and to 32 bytes (src/ed25519-donna/curve25519-donna-64bit.h, lines 286-373). */
module FieldCodec {
  import opened Arith
  import opened Bytes
  import opened Congruence
  import opened Modm
  import opened Field

  /** The number with the four 64-bit words x0, ..., x3. */
  function Words4(x0: int, x1: int, x2: int, x3: int): int {
    x0 + 0x10000000000000000 * x1 + 0x100000000000000000000000000000000 * x2 +
        0x1000000000000000000000000000000000000000000000000 * x3
  }

  // ---- expand ----

  /** (x | (y << s)) & (2^51 - 1), where m = 2^s and x has at most s bits. */
  lemma JoinLow(x: nat, y: nat, m: nat, n: nat)
    requires x < m && n > 0 && m * n == 0x8000000000000
    ensures (x + (y * m) % 0x10000000000000000) % 0x8000000000000 == x + m * (y % n) < 0x8000000000000
    ensures x + (y * m) % 0x10000000000000000 < 0x10000000000000000
  {
    var a, b := y / n, y % n;
    assert y * m == 0x8000000000000 * a + m * b by {
      assert y == n * a + b;
      assert y * m == (n * a) * m + b * m;
      assert (n * a) * m == (m * n) * a;
    }
    MulBound(m, b, m, n - 1);
    assert m * (n - 1) == 0x8000000000000 - m;
    var a1, a0 := a / 0x2000, a % 0x2000;
    DivUnique(y * m, 0x10000000000000000, a1, 0x8000000000000 * a0 + m * b);
    DivUnique(x + (0x8000000000000 * a0 + m * b), 0x8000000000000, a0, x + m * b);
  }

  lemma ExpandIdentity(x0: int, x1: int, x2: int, x3: int, a1: int, a0: int, b1: int, b0: int, c1: int, c0: int,
      d1: int, d0: int, e1: int, e0: int)
    requires x0 == 0x8000000000000 * a1 + a0 && x1 == 0x4000000000 * b1 + b0 && x2 == 0x2000000 * c1 + c0
    requires x3 == 0x1000 * d1 + d0 && d1 == 0x8000000000000 * e1 + e0
    ensures Words4(x0, x1, x2, x3) == TWO255 * e1
         + Num51(a0, a1 + 0x2000 * b0, b1 + 0x4000000 * c0, c1 + 0x8000000000 * d0, e0)
  {
  }

  lemma Num51Bound(f: Fe)
    requires Below(f, 0x8000000000000)
    ensures 0 <= Val(f) < TWO255
  {
  }

  method ExpandWords(x0: U64, x1: U64, x2: U64, x3: U64) returns (out: Fe)
    ensures Below(out, 0x8000000000000) && Val(out) == Words4(x0, x1, x2,
        x3) % TWO255
  {
    hide Words4, Num51;
    JoinLow(x0 / 0x8000000000000, x1, 0x2000, 0x4000000000);
    JoinLow(x1 / 0x4000000000, x2, 0x4000000, 0x2000000);
    JoinLow(x2 / 0x2000000, x3, 0x8000000000, 0x1000);
    var y0: U64 := x0 / 0x8000000000000 + (x1 * 0x2000) % 0x10000000000000000;
    var y1: U64 := x1 / 0x4000000000 + (x2 * 0x4000000) % 0x10000000000000000;
    var y2: U64 := x2 / 0x2000000 + (x3 * 0x8000000000) % 0x10000000000000000;
    var y3: U64 := x3 / 0x1000;
    out := Fe(x0 % 0x8000000000000, y0 % 0x8000000000000, y1 % 0x8000000000000, y2 % 0x8000000000000,
        y3 % 0x8000000000000);
    ExpandIdentity(x0, x1, x2, x3, x0 / 0x8000000000000, x0 % 0x8000000000000, x1 / 0x4000000000, x1 % 0x4000000000,
        x2 / 0x2000000, x2 % 0x2000000,
                   x3 / 0x1000, x3 % 0x1000, y3 / 0x8000000000000, y3 % 0x8000000000000);
    Num51Bound(out);
    DivUnique(Words4(x0, x1, x2, x3), TWO255,
        y3 / 0x8000000000000, Val(out));
  }

  /** curve25519_expand: the little-endian number without its top bit. */
  method Expand(input: seq<int>) returns (out: Fe)
    requires |input| == 32 && IsBytes(input)
    ensures Below(out, 0x8000000000000)
        && Val(out) == LeValue(input) % TWO255
  {
    hide Word, LeFrom, Num51;
    WordBound(input, 0);
    WordBound(input, 8);
    WordBound(input, 16);
    WordBound(input, 24);
    out := ExpandWords(Word(input, 0), Word(input, 8), Word(input, 16), Word(input, 24));
    LeOfWords(input);
  }

  // ---- contract ----

  /** Carrying a number below 2^255 + 171 around once leaves proper limbs and subtracts p at most once,
      exactly when the number is at least 2^255. */
  method CarryOnce(t0: U64, t1: U64, t2: U64, t3: U64, t4: U64) returns (d0: U64, d1: U64, d2: U64, d3: U64, d4: U64)
    requires Below(Fe(t0, t1, t2, t3, t4), 0x8000000000100)
    requires Num51(t0, t1, t2, t3, t4) < 0x80000000000000000000000000000000000000000000000000000000000000ab
    ensures Below(Fe(d0, d1, d2, d3, d4), 0x8000000000000)
    ensures Num51(d0, d1, d2, d3, d4) == Num51(t0, t1, t2, t3, t4) - (if Num51(t0, t1, t2, t3, t4) >= TWO255 then PRIME else 0)
  {
    hide Num51;
    var c;
    d0, d1, d2, d3, d4, c := CarryPass(t0, t1, t2, t3, t4);
    Num51Bound(Fe(d0, d1, d2, d3, d4));
    if c != 0 {
      LowLimb(d0, d1, d2, d3, d4);
    }
    AroundIdentity(d0, d1, d2, d3, d4, c);
    d0 := d0 + 19 * c;
  }

  lemma LowLimb(d0: int, d1: int, d2: int, d3: int, d4: int)
    requires 0 <= d0 && 0 <= d1 && 0 <= d2 && 0 <= d3 && 0 <= d4
    ensures d0 <= Num51(d0, d1, d2, d3, d4)
  {
  }

  /** The first carry brings the number below 2^255 + 171. */
  method FirstCarry(f: Fe) returns (d0: U64, d1: U64, d2: U64, d3: U64, d4: U64)
    requires Loose(f)
    ensures Below(Fe(d0, d1, d2, d3, d4), 0x8000000000100) && 0 <= Num51(d0, d1, d2, d3, d4)
        < 0x80000000000000000000000000000000000000000000000000000000000000ab
    ensures Cg(Val(f), Num51(d0, d1, d2, d3, d4))
  {
    hide Num51;
    var c;
    d0, d1, d2, d3, d4, c := CarryPass(f.a0, f.a1, f.a2, f.a3, f.a4);
    Num51Bound(Fe(d0, d1, d2, d3, d4));
    AroundIdentity(d0, d1, d2, d3, d4, c);
    assert c <= 8;
    d0 := d0 + 19 * c;
    AroundLimb(d0, d1, d2, d3, d4, c);
    ghost var k: int := c;
    CgByMultiple(Val(f), Num51(d0, d1, d2, d3, d4), k);
  }

  lemma AroundLimb(d0: int, d1: int, d2: int, d3: int, d4: int, c: int)
    requires 0 <= c <= 8 && 19 * c <= d0 < 0x8000000000000 + 19 * c && 0 <= d1 < 0x8000000000000
        && 0 <= d2 < 0x8000000000000 && 0 <= d3 < 0x8000000000000 && 0 <= d4 < 0x8000000000000
    ensures 0 <= Num51(d0, d1, d2, d3, d4) < 0x80000000000000000000000000000000000000000000000000000000000000ab
  {
  }

  lemma OffsetIdentity(t0: int, t1: int, t2: int, t3: int, t4: int)
    ensures Num51(t0 + 0x7ffffffffffed, t1 + 0x7ffffffffffff, t2 + 0x7ffffffffffff, t3 + 0x7ffffffffffff,
        t4 + 0x7ffffffffffff) == Num51(t0, t1, t2, t3, t4)
        + PRIME
    ensures Num51(t0 + 19, t1, t2, t3, t4) == Num51(t0, t1, t2, t3, t4) + 19
  {
  }

  /** The limbs of the residue in [0, p). */
  method Canonical(f: Fe) returns (t0: U64, t1: U64, t2: U64, t3: U64, t4: U64)
    requires Loose(f)
    ensures Below(Fe(t0, t1, t2, t3, t4), 0x8000000000000) && Num51(t0, t1, t2, t3, t4)
        == Val(f) % PRIME
  {
    hide Num51;
    t0, t1, t2, t3, t4 := FirstCarry(f);
    ghost var v1 := Num51(t0, t1, t2, t3, t4);
    t0, t1, t2, t3, t4 := CarryOnce(t0, t1, t2, t3, t4);
    ghost var v2 := Num51(t0, t1, t2, t3, t4);
    Num51Bound(Fe(t0, t1, t2, t3, t4));
    // v2 < 2^255, properly carried; adding 19 moves v2 >= p across 2^255
    OffsetIdentity(t0, t1, t2, t3, t4);
    t0 := t0 + 19;
    t0, t1, t2, t3, t4 := CarryOnce(t0, t1, t2, t3, t4);
    ghost var v3 := Num51(t0, t1, t2, t3, t4);
    OffsetIdentity(t0, t1, t2, t3, t4);
    t0 := t0 + 0x7ffffffffffed;
    t1 := t1 + 0x7ffffffffffff;
    t2 := t2 + 0x7ffffffffffff;
    t3 := t3 + 0x7ffffffffffff;
    t4 := t4 + 0x7ffffffffffff;
    var c;
    t0, t1, t2, t3, t4, c := CarryPass(t0, t1, t2, t3, t4);
    Num51Bound(Fe(t0, t1, t2, t3, t4));
    CanonicalResidue(Val(f), v1, v2, v3, Num51(t0, t1, t2, t3, t4), c);
  }

  lemma CanonicalResidue(v: int, v1: int, v2: int, v3: int, r: int, c: int)
    requires Cg(v, v1) && 0 <= v1 && v2 == v1 - (if v1 >= TWO255 then PRIME else 0) && 0 <= v2 < TWO255
    requires v3 == v2 + 19 - (if v2 + 19 >= TWO255 then PRIME else 0)
    requires v3 + PRIME == r + TWO255 * c && 0 <= r < TWO255
    ensures r == v % PRIME
  {
    var k := CgMultiple(v, v1);
    var j := (if v1 >= TWO255 then 1 else 0)
        + (if v2 + 19 >= TWO255 then 1 else 0);
    assert 0 <= v3 - 19 < PRIME;
    assert c == 1;
    DivUnique(v, PRIME, k + j, r);
  }

  /** x shifted right by 8k bits */
  function Shifted(x: nat, k: nat): nat {
    if k == 0 then x else Shifted(x, k - 1) / 256
  }

  /** The byte loop of write51full. */
  method WriteWord(w: U64) returns (out: seq<int>)
    ensures out == WordBytes(w)
  {
    hide WordBytes;
    var f: U64 := w;
    out := [];
    for i := 0 to 8
      invariant |out| == i && f == Shifted(w, i)
      invariant forall k :: 0 <= k < i ==> out[k] == Shifted(w, k) % 256
    {
      out := out + [f % 256];
      f := f / 256;
    }
    ShiftedBytes(w, out);
  }

  lemma ShiftedBytes(w: nat, out: seq<int>)
    requires |out| == 8 && forall k :: 0 <= k < 8 ==> out[k] == Shifted(w, k) % 256
    ensures out == WordBytes(w)
  {
    ShiftedIs(w);
    hide Shifted;
  }

  lemma ShiftByte(w: nat, d: nat)
    requires d > 0
    ensures (w / d) / 256 == w / (256 * d)
  {
    var t, r := w / d, w % d;
    var q, s := t / 256, t % 256;
    MulBound(d, s, d, 255);
    assert w == (256 * d) * q + (d * s + r) by {
      assert w == d * t + r;
      assert d * t == d * (256 * q) + d * s;
      assert d * (256 * q) == (256 * d) * q;
    }
    DivUnique(w, 256 * d, q, d * s + r);
  }

  lemma ShiftedIs(w: nat)
    ensures Shifted(w, 0) == w && Shifted(w, 1) == w / 0x100 && Shifted(w, 2) == w / 0x1_0000
        && Shifted(w, 3) == w / 0x100_0000
    ensures Shifted(w, 4) == w / 0x1_0000_0000 && Shifted(w, 5) == w / 0x100_0000_0000
    ensures Shifted(w, 6) == w / 0x1_0000_0000_0000 && Shifted(w, 7) == w / 0x100_0000_0000_0000
  {
    assert Shifted(w, 1) == w / 256;
    assert Shifted(w, 2) == Shifted(w, 1) / 256;
    assert Shifted(w, 3) == Shifted(w, 2) / 256;
    assert Shifted(w, 4) == Shifted(w, 3) / 256;
    assert Shifted(w, 5) == Shifted(w, 4) / 256;
    assert Shifted(w, 6) == Shifted(w, 5) / 256;
    assert Shifted(w, 7) == Shifted(w, 6) / 256;
    ShiftByte(w, 0x100);
    ShiftByte(w, 0x1_0000);
    ShiftByte(w, 0x100_0000);
    ShiftByte(w, 0x1_0000_0000);
    ShiftByte(w, 0x100_0000_0000);
    ShiftByte(w, 0x1_0000_0000_0000);
  }

  lemma ContractIdentity(t0: int, t1: int, t2: int, t3: int, t4: int, b1: int, b0: int, c1: int, c0: int, d1: int,
      d0: int)
    requires t1 == 0x2000 * b1 + b0 && t2 == 0x4000000 * c1 + c0 && t3 == 0x8000000000 * d1 + d0
    ensures Words4(t0 + 0x8000000000000 * b0, b1 + 0x4000000000 * c0, c1 + 0x2000000 * d0, d1 + 0x1000 * t4)
        == Num51(t0, t1, t2, t3, t4)
  {
  }

  /** (x >> s) | (y << (51 - s)) keeps the low bits of y that fit. */
  lemma JoinHigh(y: nat, m: nat, n: nat)
    requires n > 0 && m * n == 0x10000000000000000
    ensures (y * m) % 0x10000000000000000 == m * (y % n)
  {
    var a, b := y / n, y % n;
    assert y * m == 0x10000000000000000 * a + m * b by {
      assert y == n * a + b;
      assert y * m == (n * a) * m + b * m;
      assert (n * a) * m == (m * n) * a;
    }
    MulBound(m, b, m, n - 1);
    assert m * (n - 1) == 0x10000000000000000 - m;
    DivUnique(y * m, 0x10000000000000000, a, m * b);
  }

  /** curve25519_contract: the 32 little-endian bytes of the residue in [0, p). */
  method Contract(input: Fe) returns (out: seq<int>)
    requires Loose(input)
    ensures |out| == 32 && IsBytes(out)
        && LeValue(out) == Val(input) % PRIME
  {
    hide Num51, WordBytes, LeFrom, Words4;
    var t0, t1, t2, t3, t4 := Canonical(input);
    var w0, w1, w2, w3 := ContractWords(t0, t1, t2, t3, t4);
    var b0 := WriteWord(w0);
    var b1 := WriteWord(w1);
    var b2 := WriteWord(w2);
    var b3 := WriteWord(w3);
    out := b0 + b1 + b2 + b3;
    LeOfFourWords(out, w0, w1, w2, w3);
    Words4Is(w0, w1, w2, w3);
  }

  lemma Words4Is(w0: int, w1: int, w2: int, w3: int)
    ensures Words4(w0, w1, w2, w3) == w0 + 0x10000000000000000 * w1 + 0x100000000000000000000000000000000 * w2
        + 0x1000000000000000000000000000000000000000000000000 * w3
  {
  }

  method ContractWords(t0: U64, t1: U64, t2: U64, t3: U64, t4: U64) returns (w0: U64, w1: U64, w2: U64, w3: U64)
    requires Below(Fe(t0, t1, t2, t3, t4), 0x8000000000000)
    ensures Words4(w0, w1, w2, w3) == Num51(t0, t1, t2, t3, t4)
  {
    hide Num51, Words4;
    JoinHigh(t1, 0x8000000000000, 0x2000);
    JoinHigh(t2, 0x4000000000, 0x4000000);
    JoinHigh(t3, 0x2000000, 0x8000000000);
    w0 := t0 + (t1 * 0x8000000000000) % 0x10000000000000000;
    w1 := t1 / 0x2000 + (t2 * 0x4000000000) % 0x10000000000000000;
    w2 := t2 / 0x4000000 + (t3 * 0x2000000) % 0x10000000000000000;
    w3 := t3 / 0x8000000000 + t4 * 0x1000;
    ContractIdentity(t0, t1, t2, t3, t4, t1 / 0x2000, t1 % 0x2000, t2 / 0x4000000, t2 % 0x4000000, t3 / 0x8000000000,
        t3 % 0x8000000000);
  }

  /** Expanding and contracting gives back exactly the strings that encode a number below p. */
  method ContractExpand(b: seq<int>) returns (c: seq<int>)
    requires |b| == 32 && IsBytes(b)
    ensures c == b <==> LeValue(b) < PRIME
  {
    hide Num51, LeFrom;
    var f := Expand(b);
    c := Contract(f);
    LeNonnegative(b, 0);
    if LeValue(b) < PRIME {
      DivSmall(LeValue(b), TWO255);
      DivSmall(LeValue(b), PRIME);
      LeInjective(c, b, 0);
      assert c[0..] == c && b[0..] == b;
    }
  }
}
