/** Scalars as five 56-bit limbs, and the variable-time helpers of batch verification
    (src/ed25519-donna/modm-donna-64bit.h, lines 282-361). A uint64_t subtraction that
    wraps is modelled by Sub64. */
module ModmBatch {
  import opened Arith

  const TWO56: nat := 0x100_0000_0000_0000
  const TWO64: nat := 0x1_0000_0000_0000_0000

  /** bignum256modm: five limbs, least significant first. */
  type Limbs = seq<nat>

  predicate IsLimbs(a: Limbs) {
    && |a| == 5
    && a[0] < 0x100_0000_0000_0000 && a[1] < 0x100_0000_0000_0000 && a[2] < 0x100_0000_0000_0000
    && a[3] < 0x100_0000_0000_0000 && a[4] < 0x100_0000_0000_0000
  }

  /** x * 2^(56 k): what a limb x contributes in position k. */
  function At(k: nat, x: nat): nat
    requires k <= 5
  {
    if k == 0 then x
    else if k == 1 then 0x100_0000_0000_0000 * x
    else if k == 2 then 0x1_0000_0000_0000_0000_0000_0000_0000 * x
    else if k == 3 then 0x100_0000_0000_0000_0000_0000_0000_0000_0000_0000_0000 * x
    else if k == 4 then 0x1_0000_0000_0000_0000_0000_0000_0000_0000_0000_0000_0000_0000_0000_0000 * x
    else 0x100_0000_0000_0000_0000_0000_0000_0000_0000_0000_0000_0000_0000_0000_0000_0000_0000_0000 * x
  }

  /** The number held by the lowest n limbs. */
  function LowValue(a: Limbs, n: nat): nat
    requires IsLimbs(a) && n <= 5
    decreases n
  {
    if n == 0 then 0 else LowValue(a, n - 1) + At(n - 1, a[n - 1])
  }

  function Value(a: Limbs): nat
    requires IsLimbs(a)
  {
    LowValue(a, |a|)
  }

  lemma {:induction false} LowValueBound(a: Limbs, n: nat)
    requires IsLimbs(a) && n <= 5
    ensures LowValue(a, n) < At(n, 1)
  {
    if n > 0 {
      LowValueBound(a, n - 1);
    }
  }

  lemma {:induction false} LowValueGrows(a: Limbs, n: nat, m: nat)
    requires IsLimbs(a) && n <= m <= 5
    ensures LowValue(a, n) <= LowValue(a, m)
    ensures (forall k :: n <= k < m ==> a[k] == 0) ==> LowValue(a, n) == LowValue(a, m)
    decreases m
  {
    if n < m {
      LowValueGrows(a, n, m - 1);
      assert At(m - 1, 0) == 0;
    }
  }

  lemma LimbShows(a: Limbs, k: nat)
    requires IsLimbs(a) && k < 5 && a[k] != 0
    ensures Value(a) >= At(k, 1)
  {
    LowValueGrows(a, k + 1, 5);
    assert LowValue(a, k + 1) == LowValue(a, k) + At(k, a[k]);
  }

  lemma AtMonotone(n: nat, k: nat)
    requires n <= k <= 5
    ensures At(n, 1) <= At(k, 1)
  {
  }

  /** The limbs from n upwards are zero exactly when the number is below 2^(56 n). */
  lemma FitsLimbs(a: Limbs, n: nat)
    requires IsLimbs(a) && n <= 5
    ensures Value(a) < At(n, 1) <==> Value(a) == LowValue(a, n)
    ensures Value(a) < At(n, 1) <==> forall k :: n <= k < 5 ==> a[k] == 0
  {
    LowValueBound(a, n);
    LowValueGrows(a, n, 5);
    forall k | n <= k < 5 && a[k] != 0
      ensures Value(a) >= At(n, 1)
    {
      LimbShows(a, k);
      AtMonotone(n, k);
    }
  }

  lemma {:induction false} LowValueLocal(a: Limbs, b: Limbs, n: nat)
    requires IsLimbs(a) && IsLimbs(b) && n <= 5
    requires forall k :: 0 <= k < n ==> a[k] == b[k]
    ensures LowValue(a, n) == LowValue(b, n)
  {
    if n > 0 {
      LowValueLocal(a, b, n - 1);
    }
  }

  function Sub64(x: nat, y: nat): nat {
    (x - y) % 0x1_0000_0000_0000_0000
  }

  /** The top bit of a uint64_t, read as "the subtraction wrapped". */
  function Borrow64(x: nat): nat {
    x / 0x8000_0000_0000_0000
  }

  lemma BorrowStep(x: nat, y: nat, borrow: nat)
    requires x < TWO56 && y < TWO56 && borrow <= 1
    ensures var t := Sub64(Sub64(x, y), borrow);
            && Borrow64(t) == (if x < y + borrow then 1 else 0)
            && t % TWO56 == x - y - borrow + Borrow64(t) * TWO56
            && (x >= y + borrow ==> t == x - y - borrow)
  {
    var u := Sub64(x, y);
    assert u == if x >= y then x - y else x - y + TWO64;
    var t := Sub64(u, borrow);
    if x >= y + borrow {
      assert t == x - y - borrow;
    } else {
      assert t == x - y - borrow + TWO64;
      assert t == (x - y - borrow + TWO56) + 255 * TWO56;
    }
  }

  /** The borrow out of the low n limbs says which number is smaller; one more limb keeps that. */
  lemma CompareStep(a: Limbs, b: Limbs, n: nat, borrow: nat)
    requires IsLimbs(a) && IsLimbs(b) && n <= 4
    requires borrow == if LowValue(a, n) < LowValue(b, n) then 1 else 0
    ensures Borrow64(Sub64(Sub64(a[n], b[n]), borrow))
            == if LowValue(a, n + 1) < LowValue(b, n + 1) then 1 else 0
  {
    BorrowStep(a[n], b[n], borrow);
    CompareLimb(a, b, n);
  }

  lemma CompareLimb(a: Limbs, b: Limbs, n: nat)
    requires IsLimbs(a) && IsLimbs(b) && n <= 4
    ensures LowValue(a, n + 1) < LowValue(b, n + 1)
       <==> a[n] < b[n] || (a[n] == b[n] && LowValue(a, n) < LowValue(b, n))
  {
    LowValueBound(a, n);
    LowValueBound(b, n);
  }

  /** lt256_modm_batch: is a < b, looking at limbs 0..limbsize only. */
  method Lt256ModmBatch(a: Limbs, b: Limbs, limbsize: nat) returns (less: bool)
    requires IsLimbs(a) && IsLimbs(b) && limbsize <= 4
    ensures less <==> LowValue(a, limbsize + 1) < LowValue(b, limbsize + 1)
  {
    // The source unrolls this as a switch that falls through from limbsize to 0.
    var carry := 0;
    for i := 0 to limbsize + 1
      invariant carry == if LowValue(a, i) < LowValue(b, i) then 1 else 0
    {
      CompareStep(a, b, i, carry);
      var t := Sub64(Sub64(a[i], b[i]), carry);
      carry := Borrow64(t);
    }
    less := carry != 0;
  }

  /** lte256_modm_batch: is a <= b, looking at limbs 0..limbsize only. */
  method Lte256ModmBatch(a: Limbs, b: Limbs, limbsize: nat) returns (atMost: bool)
    requires IsLimbs(a) && IsLimbs(b) && limbsize <= 4
    ensures atMost <==> LowValue(a, limbsize + 1) <= LowValue(b, limbsize + 1)
  {
    var carry := 0;
    for i := 0 to limbsize + 1
      invariant carry == if LowValue(b, i) < LowValue(a, i) then 1 else 0
    {
      CompareStep(b, a, i, carry);
      var t := Sub64(Sub64(b[i], a[i]), carry);
      carry := Borrow64(t);
    }
    atMost := carry == 0;
  }

  /** The first n limbs of out hold a - b, up to the borrow that is still owed; the rest are a's. */
  ghost predicate Subtracted(out: Limbs, a: Limbs, b: Limbs, n: nat, borrow: nat)
    requires IsLimbs(a) && IsLimbs(b) && n <= 5
  {
    && IsLimbs(out)
    && borrow == (if LowValue(a, n) < LowValue(b, n) then 1 else 0)
    && LowValue(out, n) == LowValue(a, n) - LowValue(b, n) + At(n, borrow)
    && forall k :: n <= k < 5 ==> out[k] == a[k]
  }

  lemma AtDigit(n: nat, x: nat, y: nat, borrow: nat, owed: nat, digit: nat)
    requires n <= 4
    requires digit == x - y - borrow + owed * 0x100_0000_0000_0000
    ensures At(n, digit) == At(n, x) - At(n, y) - At(n, borrow) + At(n + 1, owed)
  {
  }

  lemma SubDigit(out: Limbs, a: Limbs, b: Limbs, n: nat, borrow: nat, digit: nat, owed: nat)
    requires IsLimbs(a) && IsLimbs(b) && n <= 4
    requires Subtracted(out, a, b, n, borrow)
    requires digit == a[n] - b[n] - borrow + owed * 0x100_0000_0000_0000 < 0x100_0000_0000_0000
    requires owed == if LowValue(a, n + 1) < LowValue(b, n + 1) then 1 else 0
    ensures Subtracted(out[n := digit], a, b, n + 1, owed)
  {
    var next := out[n := digit];
    assert IsLimbs(next) by {
      assert forall k :: 0 <= k < 5 ==> next[k] == if k == n then digit else out[k];
    }
    AtDigit(n, a[n], b[n], borrow, owed, digit);
    LowValueLocal(next, out, n);
    assert LowValue(next, n + 1) == LowValue(out, n) + At(n, digit);
  }

  /** One of the cases 4 to 1 of the switch in sub256_modm_batch. */
  method SubLimb(out: Limbs, a: Limbs, b: Limbs, n: nat, borrow: nat) returns (next: Limbs, owed: nat)
    requires IsLimbs(a) && IsLimbs(b) && n <= 4
    requires Subtracted(out, a, b, n, borrow)
    ensures Subtracted(next, a, b, n + 1, owed)
  {
    BorrowStep(a[n], b[n], borrow);
    CompareStep(a, b, n, borrow);
    var t := Sub64(Sub64(a[n], b[n]), borrow);
    owed := Borrow64(t);
    next := out[n := t % TWO56];
    SubDigit(out, a, b, n, borrow, t % TWO56, owed);
  }

  /** The last case, which stores the difference unmasked: no borrow is left to mask. */
  method SubLastLimb(out: Limbs, a: Limbs, b: Limbs, n: nat, borrow: nat) returns (next: Limbs)
    requires IsLimbs(a) && IsLimbs(b) && n <= 4
    requires Subtracted(out, a, b, n, borrow)
    requires LowValue(b, n + 1) <= LowValue(a, n + 1)
    ensures Subtracted(next, a, b, n + 1, 0)
  {
    BorrowStep(a[n], b[n], borrow);
    CompareStep(a, b, n, borrow);
    var t := Sub64(Sub64(a[n], b[n]), borrow);
    next := out[n := t];
    SubDigit(out, a, b, n, borrow, t, 0);
  }

  /** sub256_modm_batch with out == a: limbs 0..limbsize of a become a - b. */
  method Sub256ModmBatch(a: Limbs, b: Limbs, limbsize: nat) returns (out: Limbs)
    requires IsLimbs(a) && IsLimbs(b) && limbsize <= 4
    requires LowValue(b, limbsize + 1) <= LowValue(a, limbsize + 1)
    ensures IsLimbs(out)
    ensures LowValue(out, limbsize + 1) == LowValue(a, limbsize + 1) - LowValue(b, limbsize + 1)
    ensures forall k :: limbsize < k < 5 ==> out[k] == a[k]
  {
    out := a;
    var carry := 0;
    for i := 0 to limbsize
      invariant Subtracted(out, a, b, i, carry)
    {
      out, carry := SubLimb(out, a, b, i, carry);
    }
    out := SubLastLimb(out, a, b, limbsize, carry);
  }

  /** iszero256_modm_batch */
  method IsZero256ModmBatch(a: Limbs) returns (zero: bool)
    requires IsLimbs(a)
    ensures zero <==> Value(a) == 0
  {
    FitsLimbs(a, 0);
    for i := 0 to 5
      invariant forall k :: 0 <= k < i ==> a[k] == 0
    {
      if a[i] != 0 {
        return false;
      }
    }
    return true;
  }

  /** isone256_modm_batch */
  method IsOne256ModmBatch(a: Limbs) returns (one: bool)
    requires IsLimbs(a)
    ensures one <==> Value(a) == 1
  {
    FitsLimbs(a, 1);
    for i := 0 to 5
      invariant forall k :: 0 <= k < i ==> a[k] == if k == 0 then 1 else 0
    {
      if a[i] != (if i != 0 then 0 else 1) {
        return false;
      }
    }
    return true;
  }

  /** isatmost128bits256_modm_batch: limbs 4 and 3 and the high 40 bits of limb 2 are all clear. */
  method IsAtMost128Bits256ModmBatch(a: Limbs) returns (small: bool)
    requires IsLimbs(a)
    ensures small <==> Value(a) < TWO128
  {
    FitsLimbs(a, 3);
    LowValueBound(a, 2);
    small := a[4] == 0 && a[3] == 0 && a[2] / 0x1_0000 == 0;
  }
}
