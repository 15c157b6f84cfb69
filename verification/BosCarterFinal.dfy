/** ge25519_multi_scalarmult_vartime_final and the whole multi-scalar multiplication
    (src/ed25519-donna/ed25519-donna-batchverify.h, lines 105-188). */
module BosCarterFinal {
  import opened Arith
  import opened Groups
  import opened ModmBatch
  import opened BatchHeaps
  import opened BosCarterStep
  import opened BosCarter

  /** n is the bit length of t. */
  ghost predicate HasBitLength(t: int, n: nat) {
    n > 0 && Pow2(n - 1) <= t < Pow2(n)
  }

  /** The result of the final step. OutOfRange: the search for the first set limb runs off the
      front of the scalar. */
  datatype FinalResult<P> = OutOfRange | Done(r: P)

  /** Limbs n..3 as a number. */
  function Above(a: Limbs, n: nat): nat
    requires IsLimbs(a) && n <= 4
    decreases 4 - n
  {
    if n == 4 then 0 else a[n] + 0x100_0000_0000_0000 * Above(a, n + 1)
  }

  lemma AboveIsLowValue(a: Limbs)
    requires IsLimbs(a)
    ensures Above(a, 0) == LowValue(a, 4)
  {
    assert Above(a, 3) == a[3];
    assert Above(a, 2) == a[2] + 0x100_0000_0000_0000 * a[3];
    assert LowValue(a, 2) == a[0] + 0x100_0000_0000_0000 * a[1];
  }

  /** The number formed by the bits of limbs limb..3 from bit b of limb upwards. */
  ghost function Prefix(a: Limbs, limb: nat, b: nat): int
    requires IsLimbs(a) && limb < 4 && b <= 56
  {
    Above(a, limb + 1) * Pow2(56 - b) + a[limb] / Pow2(b)
  }

  lemma Pow2Of56()
    ensures Pow2(55) == 0x80_0000_0000_0000 && Pow2(56) == 0x100_0000_0000_0000
  {
    assert Pow2(14) == 0x4000;
    assert Pow2(28) == 0x1000_0000;
    assert Pow2(42) == 0x400_0000_0000;
  }

  lemma PrefixTop(a: Limbs, limb: nat)
    requires IsLimbs(a) && limb < 4
    ensures Prefix(a, limb, 56) == Above(a, limb + 1)
  {
    Pow2Of56();
    DivSmall(a[limb], Pow2(56));
  }

  lemma PrefixBottom(a: Limbs, limb: nat)
    requires IsLimbs(a) && limb < 4
    ensures Prefix(a, limb, 0) == Above(a, limb)
  {
    Pow2Of56();
  }

  /** Going one bit down appends that bit. */
  lemma PrefixNextBit(a: Limbs, limb: nat, b: nat)
    requires IsLimbs(a) && limb < 4 && b < 56
    ensures Prefix(a, limb, b) == 2 * Prefix(a, limb, b + 1) + (a[limb] / Pow2(b)) % 2
  {
    hide Above;
    DivTwice(a[limb], Pow2(b));
    assert Pow2(56 - b) == 2 * Pow2(55 - b);
    var x, y := Above(a, limb + 1), Pow2(55 - b);
    assert x * (2 * y) == 2 * (x * y);
  }

  lemma BitLengthNext(t: int, n: nat, bit: nat)
    requires bit <= 1
    requires (n == 0 && t == 0 && bit == 1) || HasBitLength(t, n)
    ensures HasBitLength(2 * t + bit, n + 1)
  {
    assert Pow2(0) == 1;
  }

  /** Doubling and adding the bit: [2^n + t]p becomes [2^(n+1) + 2t + bit]p. */
  lemma DoubleAndAdd<P(!new)>(g: Group<P>, p: P, r: P, n: nat, t: int, bit: nat)
    requires IsAbelian(g) && bit <= 1
    requires r == Mul(g, Pow2(n) + t, p)
    ensures var d := g.add(r, r);
            (if bit == 1 then g.add(d, p) else d) == Mul(g, Pow2(n + 1) + (2 * t + bit), p)
  {
    hide IsAbelian;
    var k := Pow2(n) + t;
    MulAdd(g, k, k, p);
    assert k + k == Pow2(n + 1) + 2 * t;
    if bit == 1 {
      MulSucc(g, k + k, p);
    }
  }

  /** The state of the exponentiation before bit b of limb is processed: r is [2^n + t]point for
      the n bits t above it. */
  ghost predicate Exponentiating<P(!new)>(g: Group<P>, point: P, scalar: Limbs, r: P, n: nat, limb: nat, b: nat) {
    && IsLimbs(scalar) && limb < 4 && b < 56
    && var t := Prefix(scalar, limb, b + 1);
    && r == Mul(g, Pow2(n) + t, point)
    && ((n == 0 && t == 0 && (scalar[limb] / Pow2(b)) % 2 == 1) || HasBitLength(t, n))
  }

  lemma ExponentiateBit<P(!new)>(g: Group<P>, point: P, scalar: Limbs, r: P, n: nat, limb: nat, b: nat)
    requires IsAbelian(g) && Exponentiating(g, point, scalar, r, n, limb, b)
    ensures var d := g.add(r, r);
            var r' := if (scalar[limb] / Pow2(b)) % 2 == 1 then g.add(d, point) else d;
            && (b > 0 ==> Exponentiating(g, point, scalar, r', n + 1, limb, b - 1))
            && (b == 0 && limb > 0 ==> Exponentiating(g, point, scalar, r', n + 1, limb - 1, 55))
            && (b == 0 && limb == 0 ==>
                  HasBitLength(Above(scalar, 0), n + 1) && r' == Mul(g, Pow2(n + 1) + Above(scalar, 0), point))
  {
    hide IsAbelian, Prefix, HasBitLength;
    var t, bit := Prefix(scalar, limb, b + 1), (scalar[limb] / Pow2(b)) % 2;
    PrefixNextBit(scalar, limb, b);
    BitLengthNext(t, n, bit);
    DoubleAndAdd(g, point, r, n, t, bit);
    if b == 0 {
      PrefixBottom(scalar, limb);
      if limb > 0 {
        PrefixTop(scalar, limb - 1);
      }
    }
  }

  /** The search for the first set bit: limb and flag with nothing set above them. */
  method FindFirstBit(scalar: Limbs) returns (limb: nat, flag: nat, ghost b: nat)
    requires IsLimbs(scalar) && Above(scalar, 0) != 0
    ensures limb < 4 && b < 56 && flag == Pow2(b)
    ensures Prefix(scalar, limb, b + 1) == 0 && (scalar[limb] / flag) % 2 == 1
  {
    limb := 3;
    while scalar[limb] == 0
      invariant limb < 4 && Above(scalar, limb + 1) == 0
      invariant exists k :: 0 <= k <= limb && scalar[k] != 0
      decreases limb
    {
      limb := limb - 1;
    }
    Pow2Of56();
    flag, b := 0x80_0000_0000_0000, 55;
    DivSmall(scalar[limb], Pow2(56));
    while (scalar[limb] / flag) % 2 == 0
      invariant b < 56 && flag == Pow2(b)
      invariant scalar[limb] < Pow2(b + 1)
      decreases b
    {
      DivTwice(scalar[limb], flag);
      DivSmall(scalar[limb], 2 * flag);
      assert scalar[limb] < flag;
      assert Pow2(0) == 1;
      flag, b := flag / 2, b - 1;
    }
    DivSmall(scalar[limb], Pow2(b + 1));
  }

  /** The loop of lines 135-147, from the first set bit to the last. */
  method Exponentiate<P(!new)>(g: Group<P>, point: P, scalar: Limbs, limb0: nat, flag0: nat, ghost b0: nat)
    returns (r: P, ghost n: nat)
    requires IsAbelian(g) && IsLimbs(scalar)
    requires limb0 < 4 && b0 < 56 && flag0 == Pow2(b0)
    requires Prefix(scalar, limb0, b0 + 1) == 0 && (scalar[limb0] / flag0) % 2 == 1
    ensures HasBitLength(Above(scalar, 0), n)
    ensures r == Mul(g, Pow2(n) + Above(scalar, 0), point)
  {
    hide IsAbelian, Prefix, Exponentiating;
    r := point;
    n := 0;
    ExponentiateStart(g, point, scalar, limb0, b0);
    Pow2Of56();
    var limb: nat, flag: nat := limb0, flag0;
    ghost var b: nat := b0;
    while true
      invariant limb < 4 && b < 56 && flag == Pow2(b)
      invariant Exponentiating(g, point, scalar, r, n, limb, b)
      decreases limb, b
    {
      ExponentiateBit(g, point, scalar, r, n, limb, b);
      r := g.add(r, r);
      if (scalar[limb] / flag) % 2 == 1 {
        r := g.add(r, point);
      }
      n := n + 1;
      flag := flag / 2;
      if flag == 0 {
        if limb == 0 {
          break;
        }
        limb := limb - 1;
        flag, b := 0x80_0000_0000_0000, 55;
      } else {
        b := b - 1;
      }
    }
  }

  lemma ExponentiateStart<P(!new)>(g: Group<P>, point: P, scalar: Limbs, limb: nat, b: nat)
    requires IsAbelian(g) && IsLimbs(scalar) && limb < 4 && b < 56
    requires Prefix(scalar, limb, b + 1) == 0 && (scalar[limb] / Pow2(b)) % 2 == 1
    ensures Exponentiating(g, point, scalar, point, 0, limb, b)
  {
    hide IsAbelian, Prefix;
    MulOne(g, point);
    assert Pow2(0) == 1;
  }

  /** ge25519_multi_scalarmult_vartime_final. For scalars other than 0 and 1 the leading bit is
      added twice: the result is [2^n + t]point, where t is the scalar modulo 2^224 and n its
      bit length. */
  method MultiScalarmultVartimeFinal<P(!new)>(g: Group<P>, point: P, scalar: Limbs)
    returns (res: FinalResult<P>, ghost n: nat)
    requires IsAbelian(g) && IsLimbs(scalar)
    ensures Value(scalar) == 1 ==> res == Done(point)
    ensures Value(scalar) == 0 ==> res == Done(g.zero)
    ensures Value(scalar) > 1 && LowValue(scalar, 4) == 0 <==> res == OutOfRange
    ensures Value(scalar) > 1 && LowValue(scalar, 4) > 0 ==>
              && HasBitLength(LowValue(scalar, 4), n)
              && res == Done(Mul(g, Pow2(n) + LowValue(scalar, 4), point))
  {
    AboveIsLowValue(scalar);
    n := 0;
    var one := IsOne256ModmBatch(scalar);
    if one {
      return Done(point), 0;
    }
    var zero := IsZero256ModmBatch(scalar);
    if zero {
      return Done(g.zero), 0;
    }
    if scalar[3] == 0 && scalar[2] == 0 && scalar[1] == 0 && scalar[0] == 0 {
      return OutOfRange, 0;
    }
    assert Above(scalar, 0) != 0;
    var limb, flag;
    ghost var b;
    limb, flag, b := FindFirstBit(scalar);
    var r;
    r, n := Exponentiate(g, point, scalar, limb, flag, b);
    res := Done(r);
  }

  /** When [2^n + s]p is [s]p after all: exactly when [2^n]p is neutral. */
  lemma FinalIsMultipleIff<P(!new)>(g: Group<P>, s: nat, n: nat, p: P)
    requires IsAbelian(g)
    ensures Mul(g, Pow2(n) + s, p) == Mul(g, s, p) <==> Mul(g, Pow2(n), p) == g.zero
  {
    MulAdd(g, Pow2(n), s, p);
    Zero(g, Mul(g, s, p));
    if Mul(g, Pow2(n) + s, p) == Mul(g, s, p) {
      Cancel(g, Mul(g, Pow2(n), p), g.zero, Mul(g, s, p));
    }
  }

  /** The integers under addition. */
  function Integers(): Group<int> {
    Group(0, (a, b) => a + b, a => -a)
  }

  /** A run of the final step over the integers: for s = 2 and the point 1 it gives 6 and not 2. */
  method FinalDoublesLeadingBit() returns (res: FinalResult<int>)
    ensures IsAbelian(Integers()) && res == Done(6) && Mul(Integers(), 2, 1) == 2
  {
    hide Mul, Pow2, LowValue, HasBitLength;
    var scalar := [2, 0, 0, 0, 0];
    TwoInLimbs(scalar);
    ghost var n;
    res, n := MultiScalarmultVartimeFinal(Integers(), 1, scalar);
    LengthOfTwo(n);
    MulInteger(2);
    MulInteger(6);
  }

  lemma TwoInLimbs(a: Limbs)
    requires a == [2, 0, 0, 0, 0]
    ensures IsLimbs(a) && Value(a) == LowValue(a, 4) == 2
  {
  }

  lemma LengthOfTwo(n: nat)
    requires HasBitLength(2, n)
    ensures n == 2 && Pow2(2) == 4
  {
    assert Pow2(1) == 2 && Pow2(2) == 4;
    if n > 2 {
      Pow2Monotone(2, n - 1);
    }
  }

  lemma {:induction false} MulInteger(k: nat)
    ensures Mul(Integers(), k, 1) == k
  {
    if k > 0 {
      MulInteger(k - 1);
    }
  }

  /** For points of a prime order above 2^130 and 128-bit scalars the doubled leading bit does not
      change whether the result is neutral. */
  lemma FinalNeutralIff<P(!new)>(g: Group<P>, l: int, s: nat, n: nat, p: P)
    requires IsAbelian(g) && IsPrime(l) && l >= 4 * TWO128 && Mul(g, l, p) == g.zero
    requires 1 < s < TWO128 && HasBitLength(s, n)
    ensures Mul(g, Pow2(n) + s, p) == g.zero <==> Mul(g, s, p) == g.zero
  {
    hide IsAbelian, IsPrime;
    assert Pow2(n) == 2 * Pow2(n - 1);
    PrimeOrderNeutral(g, l, Pow2(n) + s, p);
    PrimeOrderNeutral(g, l, s, p);
  }

  const TWO224: nat := 0x1_0000_0000_0000_0000_0000_0000_0000_0000_0000_0000_0000_0000_0000_0000

  lemma LowValueIs(a: Limbs)
    requires IsLimbs(a)
    ensures LowValue(a, 4) == Value(a) % TWO224
  {
    hide LowValue;
    LowValueSplit(a);
    DivUnique(Value(a), TWO224, a[4], LowValue(a, 4));
  }

  lemma LowValueSplit(a: Limbs)
    requires IsLimbs(a)
    ensures Value(a) == LowValue(a, 4) + TWO224 * a[4] && 0 <= LowValue(a, 4) < TWO224
  {
    LowValueBound(a, 4);
  }

  /** What the final step makes of the scalar s and the point p. */
  ghost predicate FinalOf<P(!new)>(g: Group<P>, s: nat, p: P, res: FinalResult<P>) {
    var t := s % TWO224;
    if s == 0 then res == Done(g.zero)
    else if s == 1 then res == Done(p)
    else if t == 0 then res == OutOfRange
    else exists n: nat :: HasBitLength(t, n) && res == Done(Mul(g, Pow2(n) + t, p))
  }

  /** How large a prime order must be for the test: 2^130 when all scalars are in play, and otherwise 2^225 and more
      than every scalar in play. */
  ghost predicate LargeOrder(l: int, vals: seq<nat>, m: nat)
    requires m <= |vals|
  {
    IsPrime(l) && l >= 4 * TWO128 && (Stuck(vals, m) ==> l >= 2 * TWO224 && forall i :: 0 <= i < m ==> vals[i] < l)
  }

  /** For points of a large prime order the final step does not change whether the result is neutral. */
  lemma FinalKeepsNeutral<P(!new)>(g: Group<P>, l: int, s: nat, p: P, res: FinalResult<P>)
    requires IsAbelian(g) && IsPrime(l) && l >= 4 * TWO128 && Mul(g, l, p) == g.zero && FinalOf(g, s, p, res)
    requires s < TWO128 || (s < l && l >= 2 * TWO224)
    ensures res.Done? ==> (res.r == g.zero <==> Mul(g, s, p) == g.zero)
  {
    hide IsAbelian, IsPrime, Mul, Pow2, HasBitLength;
    var t := s % TWO224;
    if s <= 1 {
      MulOne(g, p);
      MulNone(g, p);
    } else if t != 0 {
      var n: nat :| HasBitLength(t, n) && res == Done(Mul(g, Pow2(n) + t, p));
      if s < TWO128 {
        DivSmall(s, TWO224);
        FinalNeutralIff(g, l, s, n, p);
      } else {
        WideNeutralIff(g, l, s, t, n, p);
      }
    }
  }

  /** The same for scalars of any size below an order of 2^225 or more: what is left of the scalar decides. */
  lemma WideNeutralIff<P(!new)>(g: Group<P>, l: int, s: nat, t: nat, n: nat, p: P)
    requires IsAbelian(g) && IsPrime(l) && l >= 2 * TWO224 && Mul(g, l, p) == g.zero
    requires 0 < s < l && 0 < t < TWO224 && HasBitLength(t, n)
    ensures Mul(g, Pow2(n) + t, p) == g.zero <==> Mul(g, s, p) == g.zero
  {
    hide IsAbelian, IsPrime, Mul, Pow2, HasBitLength;
    BitLengthAtMost(t, n);
    Pow2Monotone(0, n);
    PrimeOrderNeutral(g, l, Pow2(n) + t, p);
    PrimeOrderNeutral(g, l, s, p);
  }

  lemma BitLengthAtMost(t: int, n: nat)
    requires HasBitLength(t, n) && 0 <= t < TWO224
    ensures Pow2(n) <= TWO224
  {
    if n > 224 {
      Pow2Monotone(224, n - 1);
    } else {
      Pow2Monotone(n, 224);
    }
    Pow2Of224();
  }

  lemma Pow2Of224()
    ensures Pow2(224) == TWO224
  {
    Pow2Of56();
    hide Pow2;
    Pow2Add(56, 56);
    Pow2Add(112, 112);
  }

  /** How many of the scalars the loop takes into account. */
  ghost function InPlay(vals: seq<nat>, count: nat): nat
    requires InitialSize(count) <= |vals|
  {
    if Stuck(vals, InitialSize(count)) then InitialSize(count) else count
  }

  /** The gcd of the first n scalars is a nonzero multiple of 2^224. */
  ghost predicate RunsOff(vals: seq<nat>, n: nat)
    requires n <= |vals|
  {
    exists s: nat :: s > 1 && s % TWO224 == 0 && IsGcd(s, vals, n)
  }

  /** ge25519_multi_scalarmult_vartime, on every input. The result is the final step at the gcd s of the scalars in play
      and a point whose multiple by s is their sum. So the final step runs off the scalar exactly if s is a nonzero
      multiple of 2^224, and for points of a large prime order the result is neutral exactly if the sum of the scalars
      in play is. */
  method MultiScalarmultVartime<P(!new)>(g: Group<P>, batch: BatchHeap<P>, count: nat) returns (res: FinalResult<P>)
    requires IsAbelian(g)
    requires batch.Shaped() && 5 <= count <= HEAP_BATCH_SIZE && count % 2 == 1
    requires forall i :: 0 <= i < count ==> IsLimbs(batch.scalars[i])
    requires forall i :: InitialSize(count) <= i < count ==> Num(batch.scalars[i]) < TWO128
    modifies batch.heap, batch.scalars, batch.points, batch`size
    ensures var vals0, pts0 := old(Keys(batch.scalars[..])), old(batch.points[..]);
            var n := InPlay(vals0, count);
            && (exists s: nat, p ::
                  IsGcd(s, vals0, n) && Mul(g, s, p) == Sum(g, vals0, pts0, n) && FinalOf(g, s, p, res))
            && (res.OutOfRange? <==> RunsOff(vals0, n))
            && forall l :: LargeOrder(l, vals0, InitialSize(count)) && KilledBy(g, l, pts0, count) && res.Done? ==>
                 (res.r == g.zero <==> Sum(g, vals0, pts0, n) == g.zero)
  {
    hide IsAbelian, Stuck, IsPrime, KilledBy, LowValue, IsGcd, FinalOf, Sum, RunsOff;
    ghost var vals0, pts0 := Keys(batch.scalars[..]), batch.points[..];
    var max1, extended := BosCarterLoop(g, batch, count);
    ghost var n := InPlay(vals0, count);
    var point, scalar := batch.points[max1], batch.scalars[max1];
    ghost var s, k := Value(scalar), 0;
    res, k := MultiScalarmultVartimeFinal(g, point, scalar);
    LowValueIs(scalar);
    FinalIs(g, s, point, res, k);
    RunsOffIff(g, vals0, n, s, point, res);
    forall l | LargeOrder(l, vals0, InitialSize(count)) && KilledBy(g, l, pts0, count) && res.Done?
      ensures res.r == g.zero <==> Sum(g, vals0, pts0, n) == g.zero
    {
      if !extended {
        GcdBelow(s, vals0, n, l);
      }
      FinalKeepsNeutral(g, l, s, point, res);
    }
  }

  lemma FinalIs<P(!new)>(g: Group<P>, s: nat, p: P, res: FinalResult<P>, n: nat)
    requires s == 1 ==> res == Done(p)
    requires s == 0 ==> res == Done(g.zero)
    requires s > 1 && s % TWO224 == 0 ==> res == OutOfRange
    requires s > 1 && s % TWO224 > 0 ==> HasBitLength(s % TWO224, n) && res == Done(Mul(g, Pow2(n) + s % TWO224, p))
    ensures FinalOf(g, s, p, res)
  {
    hide HasBitLength, Mul;
  }

  lemma RunsOffIff<P(!new)>(g: Group<P>, vals: seq<nat>, n: nat, s: nat, p: P, res: FinalResult<P>)
    requires n <= |vals| && IsGcd(s, vals, n) && FinalOf(g, s, p, res)
    ensures res.OutOfRange? <==> RunsOff(vals, n)
  {
    hide HasBitLength, Mul, IsGcd;
    if t: nat :| t > 1 && t % TWO224 == 0 && IsGcd(t, vals, n) {
      GcdUnique(s, t, vals, n);
    }
  }

  /** A run that leaves the loop early: the first three scalars are zero, so the fourth is never admitted. The result is
      neutral although the whole sum is the point p. */
  method StuckRun<P(!new)>(g: Group<P>, p: P) returns (res: FinalResult<P>)
    requires IsAbelian(g)
    ensures res == Done(g.zero) && Stuck([0, 0, 0, 1, 0], 3) && Sum(g, [0, 0, 0, 1, 0], [p, p, p, p, p], 5) == p
  {
    hide IsAbelian, FinalOf, Sum, IsGcd, RunsOff, LargeOrder, Stuck, Num, LowValue, Mul, KilledBy;
    var scalars := new Limbs[HEAP_BATCH_SIZE](_ => [0, 0, 0, 0, 0]);
    scalars[3] := [1, 0, 0, 0, 0];
    var points := new P[HEAP_BATCH_SIZE](_ => p);
    var batch := new BatchHeap(points, scalars);
    ghost var vals, pts := Keys(scalars[..]), points[..];
    StuckKeys(scalars[..]);
    res := MultiScalarmultVartime(g, batch, 5);
    NeutralByZero(g, vals, pts, res);
    SumOfOne(g, [0, 0, 0, 1, 0], [p, p, p, p, p], 5, 3);
    MulOne(g, p);
  }

  /** A run whose final step reads outside the scalar: 2^224 is the only scalar that is not zero. */
  method OverrunRun<P(!new)>(g: Group<P>, p: P) returns (res: FinalResult<P>)
    requires IsAbelian(g)
    ensures res == OutOfRange && RunsOff([TWO224, 0, 0, 0, 0], 3) && Stuck([TWO224, 0, 0, 0, 0], 3)
  {
    hide IsAbelian, FinalOf, Sum, IsGcd, RunsOff, LargeOrder, Stuck, Num, LowValue, Mul, KilledBy;
    var scalars := new Limbs[HEAP_BATCH_SIZE](_ => [0, 0, 0, 0, 0]);
    scalars[0] := [0, 0, 0, 0, 1];
    var points := new P[HEAP_BATCH_SIZE](_ => p);
    var batch := new BatchHeap(points, scalars);
    forall i | 0 <= i < 5
      ensures IsLimbs(scalars[i]) && Num(scalars[i]) == if i == 0 then TWO224 else 0
    {
      TopValue(scalars[i]);
    }
    LoneTop(Keys(scalars[..]));
    LoneTop([TWO224, 0, 0, 0, 0]);
    res := MultiScalarmultVartime(g, batch, 5);
  }

  lemma TopValue(a: Limbs)
    requires |a| == 5 && a[0] == 0 && a[1] == 0 && a[2] == 0 && a[3] == 0 && 0 <= a[4] < 2
    ensures IsLimbs(a) && Num(a) == TWO224 * a[4]
  {
    hide LowValue;
    LowZero(a);
    LowValueSplit(a);
  }

  lemma LowZero(a: Limbs)
    requires IsLimbs(a) && a[0] == 0 && a[1] == 0 && a[2] == 0 && a[3] == 0
    ensures LowValue(a, 4) == 0
  {
  }

  lemma LoneTop(vals: seq<nat>)
    requires |vals| >= 5 && vals[0] == TWO224 && vals[1] == vals[2] == 0
    ensures Stuck(vals, 3) && RunsOff(vals, 3)
  {
    GcdOfOne(vals, 3, 0);
    hide IsGcd;
    assert AtMostOneNonzero(vals, 3);
    assert TWO224 % TWO224 == 0;
  }

  lemma StuckKeys(scalars: seq<Limbs>)
    requires |scalars| == HEAP_BATCH_SIZE
    requires scalars[..5] == [[0, 0, 0, 0, 0], [0, 0, 0, 0, 0], [0, 0, 0, 0, 0], [1, 0, 0, 0, 0], [0, 0, 0, 0, 0]]
    ensures forall i :: 0 <= i < 5 ==> IsLimbs(scalars[i]) && Num(scalars[i]) == [0, 0, 0, 1, 0][i]
    ensures Stuck(Keys(scalars), 3) && Stuck([0, 0, 0, 1, 0], 3)
  {
    var s := scalars[..5];
    forall i | 0 <= i < 5
      ensures IsLimbs(scalars[i]) && Num(scalars[i]) == [0, 0, 0, 1, 0][i]
    {
      assert scalars[i] == s[i];
      OneLimb(s[i]);
    }
  }

  lemma NeutralByZero<P(!new)>(g: Group<P>, vals: seq<nat>, pts: seq<P>, res: FinalResult<P>)
    requires |vals| >= 3 && |pts| >= 3 && vals[0] == vals[1] == vals[2] == 0
    requires exists s: nat, p :: IsGcd(s, vals, 3) && Mul(g, s, p) == Sum(g, vals, pts, 3) && FinalOf(g, s, p, res)
    ensures res == Done(g.zero)
  {
    hide IsGcd, Sum, Mul, Pow2, HasBitLength;
    var s: nat, p :| IsGcd(s, vals, 3) && Mul(g, s, p) == Sum(g, vals, pts, 3) && FinalOf(g, s, p, res);
    GcdBelow(s, vals, 3, 1);
  }
}
