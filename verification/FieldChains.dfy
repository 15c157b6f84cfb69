/** The addition chains for inversion and square roots
    (src/ed25519-donna/curve25519-donna-helpers.h, lines 12-67). */
module FieldChains {
  import opened Arith
  import opened Congruence
  import opened Modm
  import opened Field

  /** f = z^n (mod p), with reduced limbs. */
  ghost predicate Holds(f: Fe, z: Fe, n: nat) {
    Tight(f) && IsPower(Val(f), Val(z), n)
  }

  lemma TightIsLoose(f: Fe)
    requires Tight(f)
    ensures Loose(f)
  {
  }

  /** curve25519_square_times as a step of a chain: the exponent is shifted left by count bits. */
  method Shift(f: Fe, count: U64, ghost z: Fe, ghost n: nat, ghost s: nat) returns (out: Fe)
    requires count >= 1 && Holds(f, z, n) && s == n * Pow2(count)
    ensures Holds(out, z, s)
  {
    hide IsPower, Pow2, Tight, Loose, Val;
    TightIsLoose(f);
    out := SquareTimes(f, count);
    PowerPower(Val(out), Val(f), Val(z), n, Pow2(count));
  }

  /** curve25519_mul_noinline as a step of a chain: the exponents add up. */
  method Times(f: Fe, g: Fe, ghost z: Fe, ghost m: nat, ghost n: nat, ghost s: nat) returns (out: Fe)
    requires Holds(f, z, m) && Holds(g, z, n) && s == m + n
    ensures Holds(out, z, s)
  {
    hide IsPower, Tight, Loose, Val;
    TightIsLoose(f);
    TightIsLoose(g);
    out := Mul(f, g);
    PowerTimes(Val(out), Val(f), Val(g), Val(z), m, n);
  }

  lemma SmallShifts()
    ensures Pow2(1) == 2 && Pow2(2) == 4 && Pow2(5) == 32 && Pow2(10) == 0x400 && Pow2(20) == 0x10_0000
  {
    assert Pow2(3) == 8;
    Pow2Add(5, 5);
    Pow2Add(10, 10);
  }

  lemma LargeShifts()
    ensures Pow2(50) == 0x4000000000000 && Pow2(100) == 0x10000000000000000000000000
  {
    hide Pow2;
    SmallShifts();
    Pow2Add(20, 20);
    Pow2Add(40, 10);
    Pow2Add(50, 50);
  }

  /** curve25519_pow_two5mtwo0_two250mtwo0: from z^(2^5 - 1) to z^(2^250 - 1). */
  method PowTwo5mTwo0Two250mTwo0(b0: Fe, ghost z: Fe) returns (b: Fe)
    requires Holds(b0, z, 31)
    ensures Holds(b, z, 0x3ffffffffffffffffffffffffffffffffffffffffffffffffffffffffffffff)
  {
    hide Holds, Pow2;
    SmallShifts();
    LargeShifts();
    var t0, c;
    b := b0;
    t0 := Shift(b, 5, z, 0x1f, 0x3e0);
    b := Times(t0, b, z, 0x3e0, 0x1f, 0x3ff);
    t0 := Shift(b, 10, z, 0x3ff, 0xffc00);
    c := Times(t0, b, z, 0xffc00, 0x3ff, 0xfffff);
    t0 := Shift(c, 20, z, 0xfffff, 0xfffff00000);
    t0 := Times(t0, c, z, 0xfffff00000, 0xfffff, 0xffffffffff);
    t0 := Shift(t0, 10, z, 0xffffffffff, 0x3fffffffffc00);
    b := Times(t0, b, z, 0x3fffffffffc00, 0x3ff, 0x3ffffffffffff);
    t0 := Shift(b, 50, z, 0x3ffffffffffff, 0xffffffffffffc000000000000);
    c := Times(t0, b, z, 0xffffffffffffc000000000000, 0x3ffffffffffff, 0xfffffffffffffffffffffffff);
    t0 := Shift(c, 100, z, 0xfffffffffffffffffffffffff, 0xfffffffffffffffffffffffff0000000000000000000000000);
    t0 := Times(t0, c, z, 0xfffffffffffffffffffffffff0000000000000000000000000, 0xfffffffffffffffffffffffff,
        0xffffffffffffffffffffffffffffffffffffffffffffffffff);
    t0 := Shift(t0, 50, z, 0xffffffffffffffffffffffffffffffffffffffffffffffffff,
        0x3fffffffffffffffffffffffffffffffffffffffffffffffffc000000000000);
    b := Times(t0, b, z, 0x3fffffffffffffffffffffffffffffffffffffffffffffffffc000000000000, 0x3ffffffffffff,
        0x3ffffffffffffffffffffffffffffffffffffffffffffffffffffffffffffff);
  }

  /** The first squarings read the input itself, whose limbs need only fit a multiplication. */
  method ShiftFirst(z: Fe, count: U64, ghost s: nat) returns (out: Fe)
    requires count >= 1 && Loose(z) && s == Pow2(count)
    ensures Holds(out, z, s)
  {
    hide IsPower, Pow2, Loose, Val;
    out := SquareTimes(z, count);
  }

  method TimesInput(f: Fe, z: Fe, ghost m: nat, ghost s: nat) returns (out: Fe)
    requires Holds(f, z, m) && Loose(z) && s == m + 1
    ensures Holds(out, z, s)
  {
    hide IsPower, Tight, Loose, Val;
    TightIsLoose(f);
    out := Mul(f, z);
    PowerSelf(Val(z));
    PowerTimes(Val(out), Val(f), Val(z), Val(z), m, 1);
  }

  /** curve25519_recip: z^(p - 2). */
  method Recip(z: Fe) returns (out: Fe)
    requires Loose(z)
    ensures Holds(out, z, 0x7fffffffffffffffffffffffffffffffffffffffffffffffffffffffffffffeb)
  {
    hide Holds, Pow2, Loose;
    SmallShifts();
    var a, t0, b;
    a := ShiftFirst(z, 1, 2);
    t0 := Shift(a, 2, z, 0x2, 0x8);
    b := TimesInput(t0, z, 8, 9);
    a := Times(b, a, z, 0x9, 0x2, 0xb);
    t0 := Shift(a, 1, z, 0xb, 0x16);
    b := Times(t0, b, z, 0x16, 0x9, 0x1f);
    b := PowTwo5mTwo0Two250mTwo0(b, z);
    b := Shift(b, 5, z, 0x3ffffffffffffffffffffffffffffffffffffffffffffffffffffffffffffff,
        0x7fffffffffffffffffffffffffffffffffffffffffffffffffffffffffffffe0);
    out := Times(b, a, z, 0x7fffffffffffffffffffffffffffffffffffffffffffffffffffffffffffffe0, 0xb,
        0x7fffffffffffffffffffffffffffffffffffffffffffffffffffffffffffffeb);
  }

  /** curve25519_pow_two252m3: z^((p - 5) / 8). */
  method PowTwo252m3(z: Fe) returns (out: Fe)
    requires Loose(z)
    ensures Holds(out, z, 0xffffffffffffffffffffffffffffffffffffffffffffffffffffffffffffffd)
  {
    hide Holds, Pow2, Loose;
    SmallShifts();
    var b, c, t0;
    c := ShiftFirst(z, 1, 2);
    t0 := Shift(c, 2, z, 0x2, 0x8);
    b := TimesInput(t0, z, 8, 9);
    c := Times(b, c, z, 0x9, 0x2, 0xb);
    t0 := Shift(c, 1, z, 0xb, 0x16);
    b := Times(t0, b, z, 0x16, 0x9, 0x1f);
    b := PowTwo5mTwo0Two250mTwo0(b, z);
    b := Shift(b, 2, z, 0x3ffffffffffffffffffffffffffffffffffffffffffffffffffffffffffffff,
        0xffffffffffffffffffffffffffffffffffffffffffffffffffffffffffffffc);
    out := TimesInput(b, z, 0xffffffffffffffffffffffffffffffffffffffffffffffffffffffffffffffc,
        0xffffffffffffffffffffffffffffffffffffffffffffffffffffffffffffffd);
  }
}
