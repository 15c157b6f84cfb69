/** The two in-place scalar recodings (src/ed25519-donna/modm-donna-64bit.h, lines 213-280). */
module Recoding {
  import opened Arith
  import opened ModmBatch
  import Modm

  /** The number with binary digits d[i], d[i+1], ...; the digits may be signed. */
  function EvalFrom(d: seq<int>, i: nat): int
    requires i <= |d|
    decreases |d| - i
  {
    if i == |d| then 0 else d[i] + 2 * EvalFrom(d, i + 1)
  }

  ghost predicate BinaryFrom(d: seq<int>, i: nat) {
    forall k :: i <= k < |d| ==> d[k] == 0 || d[k] == 1
  }

  lemma {:induction false} EvalNonneg(d: seq<int>, i: nat)
    requires i <= |d| && BinaryFrom(d, i)
    ensures EvalFrom(d, i) >= 0
    decreases |d| - i
  {
    if i < |d| {
      EvalNonneg(d, i + 1);
    }
  }

  lemma {:induction false} EvalLocal(d: seq<int>, e: seq<int>, i: nat)
    requires i <= |d| == |e| && forall k :: i <= k < |d| ==> d[k] == e[k]
    ensures EvalFrom(d, i) == EvalFrom(e, i)
    decreases |d| - i
  {
    if i < |d| {
      EvalLocal(d, e, i + 1);
    }
  }

  /** If d and e agree on positions i..k-1, their values from i differ by 2^(k-i) times the
      difference of their values from k. */
  lemma {:induction false} EvalSuffix(d: seq<int>, e: seq<int>, i: nat, k: nat)
    requires i <= k <= |d| == |e| && forall t :: i <= t < k ==> d[t] == e[t]
    ensures EvalFrom(e, i) == EvalFrom(d, i) + Pow2(k - i) * (EvalFrom(e, k) - EvalFrom(d, k))
    decreases k - i
  {
    if i < k {
      EvalSuffix(d, e, i + 1, k);
      var x, y := Pow2(k - i - 1), EvalFrom(e, k) - EvalFrom(d, k);
      assert (2 * x) * y == 2 * (x * y);
    }
  }

  lemma EvalUpdate(d: seq<int>, i: nat, k: nat, x: int)
    requires i <= k < |d|
    ensures EvalFrom(d[k := x], i) == EvalFrom(d, i) + Pow2(k - i) * (x - d[k])
  {
    EvalSuffix(d, d[k := x], i, k);
    EvalLocal(d, d[k := x], k + 1);
  }

  /** The carry loop of the sliding window: add one at position start. */
  method Ripple(r: array<int>, start: nat)
    requires r.Length == 256 && start < 256 && BinaryFrom(r[..], start)
    requires EvalFrom(r[..], start) + 1 <= Pow2(255 - start)
    modifies r
    ensures BinaryFrom(r[..], start)
    ensures EvalFrom(r[..], start) == old(EvalFrom(r[..], start)) + 1
    ensures forall i :: 0 <= i < start ==> r[i] == old(r[i])
    ensures old(r[start]) == 1 ==> r[start] == 0
  {
    ghost var target := EvalFrom(r[..], start) + 1;
    var k := start;
    assert Pow2(0) == 1;
    while k < 256
      invariant start <= k < 256 && BinaryFrom(r[..], start)
      invariant EvalFrom(r[..], start) + Pow2(k - start) == target
      invariant EvalFrom(r[..], k) + 1 <= Pow2(255 - k)
      invariant forall i :: 0 <= i < start ==> r[i] == old(r[i])
      invariant forall i :: start <= i < k ==> r[i] == 0
      invariant k == start ==> r[start] == old(r[start])
    {
      ghost var d := r[..];
      if r[k] == 0 {
        EvalUpdate(d, start, k, 1);
        r[k] := 1;
        assert r[..] == d[k := 1];
        break;
      }
      EvalUpdate(d, start, k, 0);
      EvalLocal(d, d[k := 0], k + 1);
      EvalNonneg(d, k + 1);
      assert Pow2(0) == 1;
      r[k] := 0;
      assert r[..] == d[k := 0];
      k := k + 1;
    }
  }

  /** Positions between i and k hold zeros. */
  lemma {:induction false} EvalGap(d: seq<int>, i: nat, k: nat)
    requires i < k <= |d| && forall t :: i < t < k ==> d[t] == 0
    ensures EvalFrom(d, i) == d[i] + Pow2(k - i) * EvalFrom(d, k)
    decreases k - i
  {
    if i + 1 < k {
      EvalGap(d, i + 1, k);
      var x, y := Pow2(k - i - 1), EvalFrom(d, k);
      assert (2 * x) * y == 2 * (x * y);
    } else {
      assert Pow2(0) == 1;
      assert Pow2(1) == 2;
    }
  }

  /** The window at j after positions j+1..j+b-1 have been looked at. d0 is the array as it was
      when the window was opened. */
  ghost predicate WindowState(d: seq<int>, d0: seq<int>, j: nat, w: nat, b: nat) {
    && |d| == 256 == |d0| && j < 256 && 2 <= w <= 7 && 1 <= b <= 7 && j + b <= 256
    && (forall i :: 0 <= i < j ==> d[i] == d0[i])
    && BinaryFrom(d, j + 1)
    && EvalFrom(d, j) == EvalFrom(d0, j)
    && d[j] % 2 == 1
    && (b < w ==> 1 <= d[j] < Pow2(b))
    && (b >= w ==> -d[j] < Pow2(w - 1) && d[j] < Pow2(w - 1))
    && (forall t :: j < t < j + b && t < j + w ==> d[t] == 0)
    && (j < 255 ==> EvalFrom(d, j + 1) <= Pow2(254 - j))
  }

  lemma PowFacts(b: nat)
    requires b >= 1
    ensures Pow2(b) == 2 * Pow2(b - 1) && Pow2(b) >= 2 && Pow2(b) % 2 == 0
  {
  }

  /** A zero bit leaves the window as it is. */
  lemma AbsorbZero(d: seq<int>, d0: seq<int>, j: nat, w: nat, b: nat)
    requires WindowState(d, d0, j, w, b) && j + b < 256 && b <= 6 && d[j + b] == 0
    ensures WindowState(d, d0, j, w, b + 1)
    ensures d[j] < Pow2(w - 1)
  {
    hide EvalFrom, Pow2;
    if b < w {
      PowFacts(b + 1);
      Pow2Monotone(b, w - 1);
    }
  }

  /** A one before position w-1 is added into the digit. */
  lemma AbsorbOne(d: seq<int>, d0: seq<int>, j: nat, w: nat, b: nat)
    requires WindowState(d, d0, j, w, b) && j + b < 256 && d[j + b] == 1 && b + 1 < w
    ensures d[j] + Pow2(b) < Pow2(w - 1)
    ensures WindowState(d[j := d[j] + Pow2(b)][j + b := 0], d0, j, w, b + 1)
  {
    hide EvalFrom, Pow2;
    var e := d[j := d[j] + Pow2(b)];
    var f := e[j + b := 0];
    EvalUpdate(d, j, j, d[j] + Pow2(b));
    EvalUpdate(e, j, j + b, 0);
    PowZero();
    EvalUpdate(d, j + 1, j + b, 0);
    EvalLocal(f, d[j + b := 0], j + 1);
    PowFacts(b + 1);
    PowFacts(b);
    Pow2Monotone(b + 1, w - 1);
  }

  lemma PowZero()
    ensures Pow2(0) == 1
  {
  }

  /** A one at position w-1 cannot be added; it is subtracted instead, which leaves room for the
      carry below position 255. */
  lemma BorrowRoom(d: seq<int>, d0: seq<int>, j: nat, b: nat)
    requires WindowState(d, d0, j, b + 1, b) && j + b < 256 && d[j + b] == 1
    requires EvalFrom(d0, j) <= Pow2(255 - j)
    ensures EvalFrom(d, j + b) + 1 <= Pow2(255 - (j + b))
  {
    hide EvalFrom, Pow2;
    EvalGap(d, j, j + b);
    Pow2Add(b, 255 - (j + b));
    LessByFactor(Pow2(b), EvalFrom(d, j + b), Pow2(255 - (j + b)));
  }

  lemma MulNext(p: int, v: int)
    ensures p * (v + 1) == p * v + p
  {
  }

  lemma LessByFactor(p: nat, v: int, q: int)
    requires p * v < p * q
    ensures v < q
  {
    assert p * (q - v) > 0;
  }

  /** Subtracting the bit from the digit and carrying it upwards keeps the window. */
  lemma BorrowBit(d: seq<int>, d': seq<int>, d0: seq<int>, j: nat, b: nat)
    requires WindowState(d, d0, j, b + 1, b) && j + b < 256 && d[j + b] == 1
    requires EvalFrom(d, j + b) + 1 <= Pow2(255 - (j + b))
    requires |d'| == 256 && BinaryFrom(d', j + b) && d'[j + b] == 0
    requires EvalFrom(d', j + b) == EvalFrom(d, j + b) + 1
    requires forall i :: 0 <= i < j + b && i != j ==> d'[i] == d[i]
    requires d'[j] == d[j] - Pow2(b)
    ensures WindowState(d', d0, j, b + 1, b + 1)
  {
    hide EvalFrom, Pow2;
    var k := j + b;
    EvalGap(d, j, k);
    EvalGap(d', j, k);
    MulNext(Pow2(b), EvalFrom(d, k));
    PowFacts(b);
    assert EvalFrom(d', j) == EvalFrom(d0, j);
    CarriedBound(d', j, b);
  }

  lemma CarriedBound(d: seq<int>, j: nat, b: nat)
    requires |d| == 256 && 1 <= b && j + b < 256 && EvalFrom(d, j + b) <= Pow2(255 - (j + b))
    requires forall t :: j < t < j + b ==> d[t] == 0
    ensures EvalFrom(d, j + 1) <= Pow2(254 - j)
  {
    hide EvalFrom, Pow2;
    if b > 1 {
      EvalGap(d, j + 1, j + b);
      Pow2Add(b - 1, 255 - (j + b));
      var p, x, q := Pow2(b - 1), EvalFrom(d, j + b), Pow2(255 - (j + b));
      assert p * (q - x) >= 0;
      assert p * (q - x) == p * q - p * x;
    }
  }

  lemma WindowOpens(d: seq<int>, j: nat, w: nat)
    requires |d| == 256 && j < 256 && 2 <= w <= 7 && BinaryFrom(d, j) && d[j] == 1
    requires EvalFrom(d, j) <= Pow2(255 - j)
    ensures WindowState(d, d, j, w, 1)
  {
    PowFacts(1);
    if j < 255 {
      PowFacts(255 - j);
    }
  }

  /** The inner loop of the sliding window at a position j that holds a one. */
  method SlideAt(r: array<int>, j: nat, w: nat) returns (ghost b: nat)
    requires r.Length == 256 && j < 256 && 2 <= w <= 7
    requires BinaryFrom(r[..], j) && r[j] == 1 && EvalFrom(r[..], j) <= Pow2(255 - j)
    modifies r
    ensures WindowState(r[..], old(r[..]), j, w, b) && (b >= w || j + b == 256)
  {
    hide EvalFrom, Pow2, BinaryFrom;
    var m: int := Pow2(w - 1) - 1;
    ghost var d0 := r[..];
    WindowOpens(d0, j, w);
    var n: nat := 1;
    b := 1;
    while n < 256 - j && n <= 6
      invariant WindowState(r[..], d0, j, w, n) && b == n
      decreases 7 - n
    {
      ghost var d := r[..];
      PowerGap(w, n);
      WindowBit(d, d0, j, w, n);
      if d[j + n] == 0 {
        AbsorbZero(d, d0, j, w, n);
      } else if n < w - 1 {
        AbsorbOne(d, d0, j, w, n);
      }
      if r[j] + r[j + n] * Pow2(n) <= m {
        r[j] := r[j] + r[j + n] * Pow2(n);
        r[j + n] := 0;
        assert d[j + n] == 0 ==> r[..] == d;
        assert d[j + n] == 1 ==> r[..] == d[j := d[j] + Pow2(n)][j + n := 0];
      } else if r[j] - r[j + n] * Pow2(n) >= -m {
        BorrowRoom(d, d0, j, n);
        r[j] := r[j] - r[j + n] * Pow2(n);
        assert r[..] == d[j := d[j] - Pow2(n)];
        EvalLocal(d, r[..], j + n);
        BinaryLocal(d, r[..], j + 1, j + n);
        Ripple(r, j + n);
        BorrowBit(d, r[..], d0, j, n);
      } else if r[j + n] != 0 {
        break;
      }
      n := n + 1;
      b := n;
    }
  }

  lemma BinaryLocal(d: seq<int>, e: seq<int>, i: nat, k: nat)
    requires |d| == |e| && i <= k && BinaryFrom(d, i) && forall t :: k <= t < |d| ==> e[t] == d[t]
    ensures BinaryFrom(e, k)
  {
  }

  lemma WindowBit(d: seq<int>, d0: seq<int>, j: nat, w: nat, b: nat)
    requires WindowState(d, d0, j, w, b) && j + b < 256
    ensures d[j + b] == 0 || d[j + b] == 1
  {
  }

  /** How a power compares with the window: 2^b fits below it, equals its half, or exceeds it. */
  lemma PowerGap(w: nat, b: nat)
    requires 2 <= w
    ensures b >= w ==> Pow2(b) >= 2 * Pow2(w - 1)
  {
    if b >= w {
      Pow2Monotone(w, b);
    }
  }

  // ---- the binary expansion ----

  function Power(p: nat, n: nat): nat {
    if n == 0 then 1 else p * Power(p, n - 1)
  }

  /** The number with base-p digits d[i], ..., d[k-1]. */
  function EvalRange(d: seq<int>, p: nat, i: nat, k: nat): int
    requires i <= k <= |d|
    decreases k - i
  {
    if i == k then 0 else d[i] + p * EvalRange(d, p, i + 1, k)
  }

  lemma {:induction false} EvalRangeLocal(d: seq<int>, f: seq<int>, p: nat, i: nat, k: nat)
    requires i <= k <= |d| && k <= |f| && forall t :: i <= t < k ==> d[t] == f[t]
    ensures EvalRange(d, p, i, k) == EvalRange(f, p, i, k)
    decreases k - i
  {
    if i < k {
      EvalRangeLocal(d, f, p, i + 1, k);
    }
  }

  lemma {:induction false} EvalRangeSplit(d: seq<int>, p: nat, i: nat, m: nat, k: nat)
    requires i <= m <= k <= |d|
    ensures EvalRange(d, p, i, k) == EvalRange(d, p, i, m) + Power(p, m - i) * EvalRange(d, p, m, k)
    decreases m - i
  {
    if i < m {
      EvalRangeSplit(d, p, i + 1, m, k);
      SplitStep(p, Power(p, m - i - 1), EvalRange(d, p, i + 1, m), EvalRange(d, p, m, k));
      assert m - (i + 1) == m - i - 1;
    }
  }

  lemma SplitStep(p: int, q: int, x: int, y: int)
    ensures p * (x + q * y) == p * x + (p * q) * y
  {
  }

  lemma {:induction false} EvalRangeAll(d: seq<int>, i: nat)
    requires i <= |d|
    ensures EvalRange(d, 2, i, |d|) == EvalFrom(d, i)
    decreases |d| - i
  {
    if i < |d| {
      EvalRangeAll(d, i + 1);
    }
  }

  /** The inner loops of the expansions: write the low n base-p digits of v at position at. */
  method PutDigits(r: array<int>, at: nat, v: nat, n: nat, p: nat)
    requires at + n <= r.Length && p >= 2 && v < Power(p, n)
    modifies r
    ensures forall i :: 0 <= i < r.Length && !(at <= i < at + n) ==> r[i] == old(r[i])
    ensures forall i :: at <= i < at + n ==> 0 <= r[i] < p
    ensures EvalRange(r[..], p, at, at + n) == v
  {
    hide EvalRange, Power;
    var w: nat, j: nat := v, 0;
    DigitsStart(r[..], p, at, v);
    while j < n
      invariant j <= n
      invariant forall i :: 0 <= i < r.Length && !(at <= i < at + n) ==> r[i] == old(r[i])
      invariant forall i :: at <= i < at + j ==> 0 <= r[i] < p
      invariant EvalRange(r[..], p, at, at + j) + Power(p, j) * w == v
      invariant w < Power(p, n - j)
    {
      ghost var d := r[..];
      r[at + j] := w % p;
      DigitPut(d, r[..], p, at, at + j, w);
      ShrinkDigits(w, p, n - j);
      w := w / p;
      j := j + 1;
    }
    DigitsEnd(r[..], p, at, at + n, w);
  }

  lemma DigitsStart(d: seq<int>, p: nat, at: nat, v: nat)
    requires at <= |d|
    ensures EvalRange(d, p, at, at) + Power(p, 0) * v == v
  {
  }

  lemma DigitsEnd(d: seq<int>, p: nat, at: nat, k: nat, w: nat)
    requires at <= k <= |d| && w < Power(p, 0)
    ensures EvalRange(d, p, at, k) + Power(p, k - at) * w == EvalRange(d, p, at, k)
  {
    assert w == 0;
  }

  lemma DigitPut(d: seq<int>, f: seq<int>, p: nat, i: nat, k: nat, w: nat)
    requires i <= k < |d| == |f| && p >= 2 && f == d[k := w % p]
    ensures EvalRange(f, p, i, k + 1) + Power(p, k + 1 - i) * (w / p) == EvalRange(d, p, i, k) + Power(p, k - i) * w
  {
    EvalRangeSplit(f, p, i, k, k + 1);
    EvalRangeLocal(d, f, p, i, k);
    SingleDigit(f, p, k);
    PowerNext(p, k - i);
    DigitArith(Power(p, k - i), p, w);
  }

  lemma SingleDigit(f: seq<int>, p: nat, k: nat)
    requires k < |f|
    ensures EvalRange(f, p, k, k + 1) == f[k]
  {
    assert EvalRange(f, p, k + 1, k + 1) == 0;
  }

  lemma PowerNext(p: nat, n: nat)
    ensures Power(p, n + 1) == p * Power(p, n)
  {
  }

  lemma DigitArith(q: int, p: nat, w: nat)
    requires p >= 2
    ensures q * (w % p) + (p * q) * (w / p) == q * w
  {
    var a, b := w / p, w % p;
    assert w == p * a + b;
    assert q * w == q * (p * a) + q * b;
    assert q * (p * a) == (p * q) * a;
  }

  lemma ShrinkDigits(w: nat, p: nat, n: nat)
    requires n >= 1 && p >= 2 && w < Power(p, n)
    ensures w / p < Power(p, n - 1)
  {
    var q, a := Power(p, n - 1), w / p;
    assert w == p * a + w % p;
    LessByFactor(p, a, q);
  }

  lemma {:induction false} PowerAdd(p: nat, m: nat, n: nat)
    ensures Power(p, m + n) == Power(p, m) * Power(p, n)
  {
    if m > 0 {
      PowerAdd(p, m - 1, n);
      assert m + n - 1 == m - 1 + n;
      MulAssoc(p, Power(p, m - 1), Power(p, n));
    }
  }

  lemma AtIsMultiple(k: nat, x: nat)
    requires k <= 5
    ensures At(k, x) == At(k, 1) * x
  {
  }

  lemma LimbDigits()
    ensures Power(2, 56) == 0x100_0000_0000_0000 && Power(2, 32) == 0x1_0000_0000
    ensures Power(16, 14) == 0x100_0000_0000_0000 && Power(16, 8) == 0x1_0000_0000
  {
    hide Power;
    PowerFour(2);
    PowerFour(16);
    PowerAdd(2, 4, 4);
    PowerAdd(2, 8, 8);
    PowerAdd(2, 16, 16);
    PowerAdd(2, 32, 16);
    PowerAdd(2, 48, 8);
    PowerAdd(16, 4, 4);
    PowerAdd(16, 8, 4);
    PowerAdd(16, 12, 2);
  }

  lemma PowerFour(p: nat)
    ensures Power(p, 2) == p * p && Power(p, 4) == (p * p) * (p * p)
  {
    assert Power(p, 1) == p;
    assert Power(p, 3) == p * (p * p);
    MulAssoc(p, p, p * p);
  }

  /** The digits of all five limbs: n digits from each of the low four, last from the top one. */
  method ExpandDigits(r: array<int>, s: Limbs, p: nat, n: nat, last: nat)
    requires IsLimbs(s) && s[4] < 0x1_0000_0000 && p >= 2
    requires Power(p, n) == 0x100_0000_0000_0000 && Power(p, last) == 0x1_0000_0000
    requires r.Length == 4 * n + last
    modifies r
    ensures forall i :: 0 <= i < r.Length ==> 0 <= r[i] < p
    ensures EvalRange(r[..], p, 0, r.Length) == Value(s)
  {
    hide EvalRange, Power, LowValue, At;
    var at: nat := 0;
    ExpandStart(r[..], p, s);
    for i := 0 to 5
      invariant at == if i == 5 then 4 * n + last else i * n
      invariant forall k :: 0 <= k < at ==> 0 <= r[k] < p
      invariant EvalRange(r[..], p, 0, at) == LowValue(s, i)
      invariant i < 5 ==> Power(p, at) == At(i, 1)
    {
      var v, m := s[i], if i == 4 then last else n;
      ghost var d := r[..];
      assert at + m <= r.Length;
      PutDigits(r, at, v, m, p);
      ExpandLimb(d, r[..], p, s, i, at, m);
      if i < 4 { PowerAdd(p, at, n); AtNext(i); }
      at := at + m;
    }
  }

  lemma ExpandStart(d: seq<int>, p: nat, s: Limbs)
    requires IsLimbs(s)
    ensures EvalRange(d, p, 0, 0) == LowValue(s, 0) && Power(p, 0) == At(0, 1)
  {
  }

  lemma AtNext(i: nat)
    requires i < 5
    ensures At(i, 1) * 0x100_0000_0000_0000 == At(i + 1, 1)
  {
  }

  lemma ExpandLimb(d: seq<int>, f: seq<int>, p: nat, s: Limbs, i: nat, at: nat, m: nat)
    requires IsLimbs(s) && i < 5 && at + m <= |d| == |f| && Power(p, at) == At(i, 1)
    requires forall k :: 0 <= k < at ==> d[k] == f[k]
    requires EvalRange(d, p, 0, at) == LowValue(s, i) && EvalRange(f, p, at, at + m) == s[i]
    ensures EvalRange(f, p, 0, at + m) == LowValue(s, i + 1)
  {
    hide EvalRange, Power, At;
    EvalRangeLocal(d, f, p, 0, at);
    EvalRangeSplit(f, p, 0, at, at + m);
    AtIsMultiple(i, s[i]);
  }

  // ---- the sliding window ----

  /** A digit of a width-w signed sliding window: odd, below 2^(w-1), followed by w-1 zeros or the
      end of the array. */
  ghost predicate IsWindowDigit(d: seq<int>, i: nat, w: nat)
    requires i < |d| && w >= 1
  {
    && d[i] % 2 == 1
    && -d[i] < Pow2(w - 1) && d[i] < Pow2(w - 1)
    && forall t :: i < t < i + w && t < |d| ==> d[t] == 0
  }

  ghost predicate WindowedBelow(d: seq<int>, j: nat, w: nat)
    requires j <= |d| && w >= 1
  {
    forall i :: 0 <= i < j && d[i] != 0 ==> IsWindowDigit(d, i, w)
  }

  /** What the outer loop keeps while positions below j are done. */
  ghost predicate Sliding(d: seq<int>, j: nat, w: nat, v: int) {
    && |d| == 256 && j <= 256 && 2 <= w <= 7
    && WindowedBelow(d, j, w)
    && BinaryFrom(d, j)
    && EvalFrom(d, 0) == v
    && (j < 256 ==> EvalFrom(d, j) <= Pow2(255 - j))
  }

  lemma SlidePastZero(d: seq<int>, j: nat, w: nat, v: int)
    requires Sliding(d, j, w, v) && j < 256 && d[j] == 0
    ensures Sliding(d, j + 1, w, v)
  {
    if j < 255 { PowFacts(255 - j); }
  }

  lemma SlidePastWindow(d: seq<int>, d': seq<int>, j: nat, w: nat, v: int, b: nat)
    requires Sliding(d, j, w, v) && j < 256 && d[j] == 1
    requires WindowState(d', d, j, w, b) && (b >= w || j + b == 256)
    ensures Sliding(d', j + 1, w, v)
  {
    hide EvalFrom, Pow2;
    EvalSuffix(d, d', 0, j);
    assert EvalFrom(d', 0) == v;
    if b < w { Pow2Monotone(b, w - 1); }
    assert IsWindowDigit(d', j, w);
    forall i | 0 <= i < j && d'[i] != 0
      ensures IsWindowDigit(d', i, w)
    {
      assert IsWindowDigit(d, i, w);
      assert i + w <= j;
    }
  }

  /** contract256_slidingwindow_modm for every window size the source can handle (it uses 5 and 7):
      the digits keep the value and form a sliding window, and no carry leaves the array. */
  method ContractSlidingWindow(r: array<int>, s: Limbs, windowsize: nat)
    requires r.Length == 256 && IsLimbs(s) && s[4] < 0x1_0000_0000 && 2 <= windowsize <= 7
    requires Value(s) <= Pow2(255)
    modifies r
    ensures EvalFrom(r[..], 0) == Value(s)
    ensures WindowedBelow(r[..], 256, windowsize)
    ensures forall i, t :: 0 <= i < t < i + windowsize && t < 256 && r[i] != 0 ==> r[t] == 0
    ensures forall i :: 0 <= i < 256 && r[i] != 0 ==>
              r[i] % 2 == 1 && -r[i] < Pow2(windowsize - 1) && r[i] < Pow2(windowsize - 1)
  {
    hide EvalFrom, Pow2, Power, EvalRange, LowValue, WindowState, Sliding;
    LimbDigits();
    ExpandDigits(r, s, 2, 56, 32);
    SlideStart(r[..], windowsize, Value(s));
    for j := 0 to 256
      invariant Sliding(r[..], j, windowsize, Value(s))
    {
      SlidingFacts(r[..], j, windowsize, Value(s));
      ghost var d := r[..];
      if r[j] == 0 {
        SlidePastZero(d, j, windowsize, Value(s));
      } else {
        ghost var b := SlideAt(r, j, windowsize);
        SlidePastWindow(d, r[..], j, windowsize, Value(s), b);
      }
    }
    SlideDone(r[..], windowsize, Value(s));
  }

  lemma SlideStart(d: seq<int>, w: nat, v: int)
    requires |d| == 256 && 2 <= w <= 7 && v <= Pow2(255) && EvalRange(d, 2, 0, 256) == v
    requires forall i :: 0 <= i < 256 ==> 0 <= d[i] < 2
    ensures Sliding(d, 0, w, v)
  {
    hide EvalFrom, Pow2, EvalRange;
    EvalRangeAll(d, 0);
  }

  lemma SlidingFacts(d: seq<int>, j: nat, w: nat, v: int)
    requires Sliding(d, j, w, v) && j < 256
    ensures BinaryFrom(d, j) && (d[j] == 0 || d[j] == 1) && EvalFrom(d, j) <= Pow2(255 - j)
  {
    hide EvalFrom, Pow2;
  }

  lemma SlideDone(d: seq<int>, w: nat, v: int)
    requires Sliding(d, 256, w, v)
    ensures EvalFrom(d, 0) == v && WindowedBelow(d, 256, w)
  {
    hide EvalFrom, Pow2;
  }

  // ---- the signed radix-16 recoding ----

  /** The value of all digits, with a carry waiting to be added at position i. */
  ghost function WithCarry(d: seq<int>, i: nat, carry: int): int
    requires i <= |d|
  {
    EvalRange(d, 16, 0, i) + Power(16, i) * (EvalRange(d, 16, i, |d|) + carry)
  }

  /** One step of the loop that makes the digits signed. */
  lemma SignedStep(d: seq<int>, f: seq<int>, i: nat, carry: int, over: int, next: int)
    requires i + 1 < |d| == |f|
    requires f == d[i := d[i] + carry - 16 * (over + next)][i + 1 := d[i + 1] + over]
    ensures WithCarry(f, i + 1, next) == WithCarry(d, i, carry)
  {
    EvalRangeSplit(f, 16, 0, i, i + 1);
    EvalRangeLocal(d, f, 16, 0, i);
    SingleDigit(f, 16, i);
    EvalRangeLocal(d, f, 16, i + 2, |d|);
    PowerNext(16, i);
    var q, x := Power(16, i), EvalRange(d, 16, i + 1, |d|);
    assert EvalRange(f, 16, i + 1, |d|) == x + over;
    assert EvalRange(d, 16, i, |d|) == d[i] + 16 * x;
    SignedArith(q, d[i] + carry, over, next, x);
  }

  lemma SignedArith(q: int, t: int, over: int, next: int, x: int)
    ensures q * (t - 16 * (over + next)) + (16 * q) * (x + over + next) == q * (t + 16 * x)
  {
    var o := over + next;
    assert q * (t - 16 * o) == q * t - 16 * (q * o);
    assert (16 * q) * (x + o) == 16 * (q * x) + 16 * (q * o);
    assert q * (t + 16 * x) == q * t + 16 * (q * x);
  }

  lemma WithCarryStart(d: seq<int>)
    ensures WithCarry(d, 0, 0) == EvalRange(d, 16, 0, |d|)
  {
  }

  /** Adding the last carry to the top digit completes the value. */
  lemma WithCarryEnd(d: seq<int>, carry: int)
    requires |d| == 64
    ensures EvalRange(d[63 := d[63] + carry], 16, 0, 64) == WithCarry(d, 63, carry)
  {
    hide EvalRange, Power;
    var f := d[63 := d[63] + carry];
    EvalRangeSplit(f, 16, 0, 63, 64);
    EvalRangeLocal(d, f, 16, 0, 63);
    SingleDigit(f, 16, 63);
    SingleDigit(d, 16, 63);
  }

  /** contract256_window4_modm: the value is kept, all digits but the top one lie in [-8, 7], and
      the top one in [0, 8] for scalars below 2^255. */
  method ContractWindow4(r: array<int>, s: Limbs)
    requires r.Length == 64 && IsLimbs(s) && s[4] < 0x1_0000_0000
    modifies r
    ensures EvalRange(r[..], 16, 0, 64) == Value(s)
    ensures forall i :: 0 <= i < 63 ==> -8 <= r[i] <= 7
    ensures 0 <= r[63] <= 16 && (s[4] < 0x8000_0000 ==> r[63] <= 8)
  {
    hide EvalRange, Power, LowValue, At, WithCarry;
    LimbDigits();
    ExpandDigits(r, s, 16, 14, 8);
    TopNibble(r[..], s);
    WithCarryStart(r[..]);
    ghost var top := r[63];
    var carry := 0;
    for i := 0 to 63
      invariant carry == 0 || carry == 1
      invariant WithCarry(r[..], i, carry) == Value(s)
      invariant forall k :: 0 <= k < i ==> -8 <= r[k] <= 7
      invariant 0 <= r[i] && r[i] + carry <= (if i == 63 then top else 15) + 1
      invariant forall k :: i < k < 63 ==> 0 <= r[k] <= 15
      invariant i < 63 ==> r[63] == top
    {
      ghost var d, c := r[..], carry;
      r[i] := r[i] + carry;
      ghost var over := r[i] / 16;
      r[i + 1] := r[i + 1] + r[i] / 16;
      r[i] := r[i] % 16;
      carry := r[i] / 8;
      r[i] := r[i] - carry * 16;
      assert r[..] == d[i := d[i] + c - 16 * (over + carry)][i + 1 := d[i + 1] + over];
      SignedStep(d, r[..], i, c, over, carry);
    }
    WithCarryEnd(r[..], carry);
    ghost var d := r[..];
    r[63] := r[63] + carry;
    assert r[..] == d[63 := d[63] + carry];
  }

  /** The top nibble of a scalar is the top four bits of its last 32. */
  lemma TopNibble(d: seq<int>, s: Limbs)
    requires IsLimbs(s) && s[4] < 0x1_0000_0000 && |d| == 64
    requires EvalRange(d, 16, 0, 64) == Value(s) && forall i :: 0 <= i < 64 ==> 0 <= d[i] < 16
    ensures s[4] < 0x8000_0000 ==> d[63] < 8
  {
    hide Power, LowValue, At, EvalRange;
    EvalRangeSplit(d, 16, 0, 63, 64);
    SingleDigit(d, 16, 63);
    EvalRangeNonneg(d, 16, 0, 63);
    Power63();
    Modm.ValueIs(s);
  }

  lemma Power63()
    ensures Power(16, 63) == 0x1000000000000000000000000000000000000000000000000000000000000000
  {
    hide Power;
    PowerFour(16);
    PowerAdd(16, 4, 4);
    PowerAdd(16, 8, 8);
    PowerAdd(16, 16, 16);
    PowerAdd(16, 32, 16);
    PowerAdd(16, 48, 8);
    PowerAdd(16, 56, 4);
    PowerAdd(16, 60, 2);
    PowerNext(16, 62);
  }

  lemma {:induction false} EvalRangeNonneg(d: seq<int>, p: nat, i: nat, k: nat)
    requires i <= k <= |d| && forall t :: i <= t < k ==> d[t] >= 0
    ensures EvalRange(d, p, i, k) >= 0
    decreases k - i
  {
    if i < k {
      EvalRangeNonneg(d, p, i + 1, k);
      MulBound(0, 0, p, EvalRange(d, p, i + 1, k));
    }
  }
}
