/** The equation that a batch of signatures tests (src/ed25519-donna/ed25519-donna-batchverify.h, lines 219-250), over
    any abelian group: the weighted sum of [S]b - [h]A - R, and the part of it that a stuck batch tests instead. */
module BatchEquation {
  import opened Arith
  import opened Bytes
  import opened Groups
  import opened Modular
  import opened BosCarterStep
  import opened BosCarter
  import opened BosCarterFinal
  import Modm

  datatype Option<P> = None | Some(value: P)

  /** One signature: the 32 bytes of S, the 64 bytes of H(R, A, m), and the negated points -A and -R if they decode. */
  datatype Entry<P> = Entry(s: seq<int>, hram: seq<int>, a: Option<P>, r: Option<P>)

  /** The weights are 128-bit numbers. */
  ghost predicate Short(z: seq<int>) {
    forall i :: 0 <= i < |z| ==> 0 <= z[i] < TWO128
  }

  // ---- the weighted equation ----

  ghost predicate Decoded<P>(es: seq<Entry<P>>) {
    forall i :: 0 <= i < |es| ==> es[i].a.Some? && es[i].r.Some?
  }

  /** [S]b - [h]A - R: neutral exactly if the signature satisfies its verification equation. */
  ghost function Residual<P>(g: Group<P>, b: P, e: Entry<P>): P
    requires e.a.Some? && e.r.Some?
  {
    g.add(g.add(Mul(g, LeValue(e.s), b), Mul(g, LeValue(e.hram), e.a.value)), e.r.value)
  }

  /** For the negated points of A and R the residual vanishes exactly if [S]b = R + [h]A. */
  lemma ResidualIff<P(!new)>(g: Group<P>, b: P, e: Entry<P>, a: P, r: P)
    requires IsAbelian(g) && e.a == Some(g.neg(a)) && e.r == Some(g.neg(r))
    ensures Residual(g, b, e) == g.zero <==> Mul(g, LeValue(e.s), b) == g.add(r, Mul(g, LeValue(e.hram), a))
  {
    hide IsAbelian, Mul, LeValue;
    var x, y := Mul(g, LeValue(e.s), b), Mul(g, LeValue(e.hram), a);
    var w := g.add(r, y);
    MulOfNeg(g, LeValue(e.hram), a);
    Assoc(g, x, g.neg(y), g.neg(r));
    Comm(g, g.neg(y), g.neg(r));
    NegOfSum(g, r, y);
    Neg(g, w);
    if g.add(x, g.neg(w)) == g.zero {
      Cancel(g, x, w, g.neg(w));
    }
  }

  /** The sum of the first n residuals, the i-th multiplied by z[i]. */
  ghost function Weighted<P>(g: Group<P>, b: P, es: seq<Entry<P>>, z: seq<int>, n: nat): P
    requires Decoded(es) && n <= |es| && n <= |z|
  {
    if n == 0 then g.zero else g.add(Weighted(g, b, es, z, n - 1), Mul(g, z[n - 1], Residual(g, b, es[n - 1])))
  }

  /** Sum of z[i] S[i]. */
  ghost function BaseScalar<P>(es: seq<Entry<P>>, z: seq<int>, n: nat): int
    requires n <= |es| && n <= |z|
  {
    if n == 0 then 0 else BaseScalar(es, z, n - 1) + z[n - 1] * LeValue(es[n - 1].s)
  }

  ghost function KeySum<P>(g: Group<P>, es: seq<Entry<P>>, z: seq<int>, n: nat): P
    requires Decoded(es) && n <= |es| && n <= |z|
  {
    if n == 0 then g.zero else g.add(KeySum(g, es, z, n - 1), Mul(g, z[n - 1] * LeValue(es[n - 1].hram),
        es[n - 1].a.value))
  }

  ghost function RSum<P>(g: Group<P>, es: seq<Entry<P>>, z: seq<int>, n: nat): P
    requires Decoded(es) && n <= |es| && n <= |z|
  {
    if n == 0 then g.zero else g.add(RSum(g, es, z, n - 1), Mul(g, z[n - 1], es[n - 1].r.value))
  }

  /** The whole first scalar and all keys, but only k of the points R. With all of them it is the weighted sum. */
  ghost function Formed<P>(g: Group<P>, b: P, es: seq<Entry<P>>, z: seq<int>, k: nat): P
    requires Decoded(es) && |es| <= |z| && k <= |es|
  {
    g.add(g.add(Mul(g, BaseScalar(es, z, |es|), b), KeySum(g, es, z, |es|)), RSum(g, es, z, k))
  }

  lemma ResidualTimes<P(!new)>(g: Group<P>, z: int, s: int, b: P, h: int, a: P, r: P)
    requires IsAbelian(g)
    ensures Mul(g, z, g.add(g.add(Mul(g, s, b), Mul(g, h, a)), r))
         == g.add(g.add(Mul(g, z * s, b), Mul(g, z * h, a)), Mul(g, z, r))
  {
    hide IsAbelian;
    MulDistributes(g, z, g.add(Mul(g, s, b), Mul(g, h, a)), r);
    MulDistributes(g, z, Mul(g, s, b), Mul(g, h, a));
    MulMul(g, z, s, b);
    MulMul(g, z, h, a);
  }

  /** ((p + q) + r) + ((x + y) + w) = ((p + x) + (q + y)) + (r + w) */
  lemma SixTerms<P(!new)>(g: Group<P>, p: P, q: P, r: P, x: P, y: P, w: P)
    requires IsAbelian(g)
    ensures g.add(g.add(g.add(p, q), r), g.add(g.add(x, y), w)) == g.add(g.add(g.add(p, x), g.add(q, y)), g.add(r, w))
  {
    hide IsAbelian;
    Interchange(g, g.add(p, q), r, g.add(x, y), w);
    Interchange(g, p, q, x, y);
  }

  /** The weighted residuals, collected point by point. */
  lemma {:induction false} Collected<P(!new)>(g: Group<P>, b: P, es: seq<Entry<P>>, z: seq<int>, n: nat)
    requires IsAbelian(g) && Decoded(es) && n <= |es| && n <= |z|
    ensures Weighted(g, b, es, z, n)
         == g.add(g.add(Mul(g, BaseScalar(es, z, n), b), KeySum(g, es, z, n)), RSum(g, es, z, n))
  {
    hide IsAbelian, Mul, Residual, LeValue;
    if n == 0 {
      MulNone(g, b);
      Zero(g, g.zero);
    } else {
      Collected(g, b, es, z, n - 1);
      CollectOne(g, b, es[n - 1], z[n - 1], Weighted(g, b, es, z, n - 1), BaseScalar(es, z, n - 1),
                 KeySum(g, es, z, n - 1), RSum(g, es, z, n - 1));
    }
  }

  lemma CollectOne<P(!new)>(g: Group<P>, b: P, e: Entry<P>, k: int, w: P, s: int, keys: P, rs: P)
    requires IsAbelian(g) && e.a.Some? && e.r.Some? && w == g.add(g.add(Mul(g, s, b), keys), rs)
    ensures g.add(w, Mul(g, k, Residual(g, b, e)))
         == g.add(g.add(Mul(g, s + k * LeValue(e.s), b), g.add(keys, Mul(g, k * LeValue(e.hram), e.a.value))),
                  g.add(rs, Mul(g, k, e.r.value)))
  {
    hide IsAbelian, Mul, LeValue;
    ResidualTimes(g, k, LeValue(e.s), b, LeValue(e.hram), e.a.value, e.r.value);
    SixTerms(g, Mul(g, s, b), keys, rs, Mul(g, k * LeValue(e.s), b), Mul(g, k * LeValue(e.hram), e.a.value),
        Mul(g, k, e.r.value));
    MulAdd(g, s, k * LeValue(e.s), b);
  }

  /** If every equation holds, the weighted sum is neutral whatever the weights are. */
  lemma {:induction false} ValidIsNeutral<P(!new)>(g: Group<P>, b: P, es: seq<Entry<P>>, z: seq<int>, n: nat)
    requires IsAbelian(g) && Decoded(es) && n <= |es| && n <= |z|
    requires forall i :: 0 <= i < n ==> Residual(g, b, es[i]) == g.zero
    ensures Weighted(g, b, es, z, n) == g.zero
  {
    hide IsAbelian, Residual;
    if n > 0 {
      ValidIsNeutral(g, b, es, z, n - 1);
      MulZeroPoint(g, z[n - 1]);
      Zero(g, g.zero);
    }
  }

  // ---- what the arrays hold ----

  /** scalars[0] = sum z[i] S[i], scalars[1+i] = z[i] h[i] and scalars[n+1+i] = z[i], modulo L. */
  ghost predicate ScalarsLoaded<P>(vals: seq<nat>, es: seq<Entry<P>>, z: seq<int>) {
    && |z| == |es| && |vals| > 2 * |es|
    && Same(vals[0], BaseScalar(es, z, |es|), Modm.L)
    && (forall k :: 1 <= k <= |es| ==> Same(vals[k], z[k - 1] * LeValue(es[k - 1].hram), Modm.L))
    && (forall k :: |es| < k <= 2 * |es| ==> vals[k] == z[k - |es| - 1])
  }

  /** points[0] = b, points[1+i] = -A[i] and points[n+1+i] = -R[i]. */
  ghost predicate PointsLoaded<P>(pts: seq<P>, b: P, es: seq<Entry<P>>) {
    && Decoded(es) && |pts| > 2 * |es| && pts[0] == b
    && (forall k :: 1 <= k <= |es| ==> pts[k] == es[k - 1].a.value)
    && (forall k :: |es| < k <= 2 * |es| ==> pts[k] == es[k - |es| - 1].r.value)
  }

  lemma {:induction false} KeyPart<P(!new)>(g: Group<P>, vals: seq<nat>, pts: seq<P>, b: P, es: seq<Entry<P>>,
      z: seq<int>, k: nat)
    requires IsAbelian(g) && ScalarsLoaded(vals, es, z) && PointsLoaded(pts, b, es) && k <= |es|
    requires KilledBy(g, Modm.L, pts, 2 * |es| + 1)
    ensures Sum(g, vals, pts, 1 + k) == g.add(Mul(g, BaseScalar(es, z, |es|), b), KeySum(g, es, z, k))
  {
    hide IsAbelian, Mul, Same, LeValue, BaseScalar;
    if k == 0 {
      SameMultiple(g, Modm.L, vals[0], BaseScalar(es, z, |es|), b);
      assert Sum(g, vals, pts, 0) == g.zero;
      Zero(g, Mul(g, vals[0], b));
    } else {
      KeyPart(g, vals, pts, b, es, z, k - 1);
      SameMultiple(g, Modm.L, vals[k], z[k - 1] * LeValue(es[k - 1].hram), pts[k]);
      Assoc(g, Mul(g, BaseScalar(es, z, |es|), b), KeySum(g, es, z, k - 1), Mul(g, vals[k], pts[k]));
    }
  }

  lemma {:induction false} RPart<P(!new)>(g: Group<P>, vals: seq<nat>, pts: seq<P>, b: P, es: seq<Entry<P>>,
      z: seq<int>, k: nat)
    requires IsAbelian(g) && ScalarsLoaded(vals, es, z) && PointsLoaded(pts, b, es) && k <= |es|
    requires KilledBy(g, Modm.L, pts, 2 * |es| + 1)
    ensures Sum(g, vals, pts, |es| + 1 + k) == Formed(g, b, es, z, k)
  {
    hide IsAbelian, Mul, Same, LeValue, BaseScalar, KeySum, KilledBy;
    var n := |es|;
    var q := g.add(Mul(g, BaseScalar(es, z, n), b), KeySum(g, es, z, n));
    if k == 0 {
      KeyPart(g, vals, pts, b, es, z, n);
      Zero(g, q);
    } else {
      RPart(g, vals, pts, b, es, z, k - 1);
      Assoc(g, q, RSum(g, es, z, k - 1), Mul(g, z[k - 1], es[k - 1].r.value));
    }
  }

  /** With all points in play the sum is the weighted sum of the residuals. */
  lemma LoadedSum<P(!new)>(g: Group<P>, vals: seq<nat>, pts: seq<P>, b: P, es: seq<Entry<P>>, z: seq<int>)
    requires IsAbelian(g) && ScalarsLoaded(vals, es, z) && PointsLoaded(pts, b, es)
    requires KilledBy(g, Modm.L, pts, 2 * |es| + 1)
    ensures Sum(g, vals, pts, 2 * |es| + 1) == Weighted(g, b, es, z, |es|) == Formed(g, b, es, z, |es|)
  {
    hide IsAbelian, Mul, Weighted, KeySum, RSum, BaseScalar, KilledBy, Sum;
    RPart(g, vals, pts, b, es, z, |es|);
    Collected(g, b, es, z, |es|);
  }

  // ---- the scalars of a batch ----

  function ModL(x: int): (r: nat)
    ensures r < Modm.L
  {
    x % Modm.L
  }

  lemma ModLUnique(v: int, x: int)
    requires Same(v, x, Modm.L) && 0 <= v < Modm.L
    ensures v == ModL(x)
  {
    var k :| v == x + k * Modm.L;
    DivUnique(x, Modm.L, -k, v);
  }

  ghost function LoadedAt<P>(es: seq<Entry<P>>, z: seq<int>, k: nat): nat
    requires |es| == |z| && Short(z) && k <= 2 * |es|
  {
    if k == 0 then ModL(BaseScalar(es, z, |es|))
    else if k <= |es| then ModL(z[k - 1] * LeValue(es[k - 1].hram))
    else z[k - |es| - 1]
  }

  /** The scalars of the batch: scalars[0] = sum z[i] S[i], scalars[1+i] = z[i] h[i], both modulo L, and
      scalars[n+1+i] = z[i]. */
  ghost function Loaded<P>(es: seq<Entry<P>>, z: seq<int>): (vals: seq<nat>)
    requires |es| == |z| && Short(z)
    ensures |vals| == 2 * |es| + 1 && forall k :: 0 <= k <= 2 * |es| ==> vals[k] == LoadedAt(es, z, k)
  {
    seq(2 * |es| + 1, k requires 0 <= k < 2 * |es| + 1 => LoadedAt(es, z, k))
  }

  lemma LoadedIs<P>(es: seq<Entry<P>>, z: seq<int>)
    requires |es| == |z| && Short(z)
    ensures ScalarsLoaded(Loaded(es, z), es, z)
  {
    hide BaseScalar, Same, LeValue, ModL;
    ModLSame(BaseScalar(es, z, |es|));
    forall k | 1 <= k <= |es|
      ensures Same(LoadedAt(es, z, k), z[k - 1] * LeValue(es[k - 1].hram), Modm.L)
    {
      ModLSame(z[k - 1] * LeValue(es[k - 1].hram));
    }
  }

  lemma ModLSame(x: int)
    ensures Same(ModL(x), x, Modm.L)
  {
    SameMod(x, Modm.L);
  }

  lemma LoadedReduced<P>(es: seq<Entry<P>>, z: seq<int>, k: nat)
    requires |es| == |z| && Short(z) && k <= 2 * |es|
    ensures Loaded(es, z)[k] < Modm.L
  {
    hide BaseScalar, LeValue, ModL;
  }

  // ---- what the test of a batch decides ----

  /** Every point of the batch lies in a subgroup of order L. */
  ghost predicate InSubgroup<P(!new)>(g: Group<P>, b: P, es: seq<Entry<P>>) {
    && IsPrime(Modm.L) && Mul(g, Modm.L, b) == g.zero
    && forall e :: e in es && e.a.Some? && e.r.Some? ==>
         Mul(g, Modm.L, e.a.value) == g.zero && Mul(g, Modm.L, e.r.value) == g.zero
  }

  lemma SubgroupKills<P(!new)>(g: Group<P>, pts: seq<P>, b: P, es: seq<Entry<P>>)
    requires PointsLoaded(pts, b, es) && InSubgroup(g, b, es)
    ensures KilledBy(g, Modm.L, pts, 2 * |es| + 1)
  {
    hide Mul, IsPrime;
    forall k | 0 <= k < 2 * |es| + 1
      ensures Mul(g, Modm.L, pts[k]) == g.zero
    {
      if k > |es| {
        assert es[k - |es| - 1] in es;
      } else if k > 0 {
        assert es[k - 1] in es;
      }
    }
  }

  /** The first scalars of the batch are stuck, so that the others are never admitted. */
  ghost predicate IsStuck<P>(es: seq<Entry<P>>, z: seq<int>)
    requires |es| == |z| && Short(z) && |es| >= 4
  {
    Stuck(Loaded(es, z), InitialSize(2 * |es| + 1))
  }

  /** How many of the points R take part: all, or in a stuck batch of odd size one and of even size none. */
  ghost function Counted<P>(es: seq<Entry<P>>, z: seq<int>): (k: nat)
    requires |es| == |z| && Short(z) && |es| >= 4
    ensures k <= |es| && (!IsStuck(es, z) ==> k == |es|) && (IsStuck(es, z) ==> k == |es| % 2)
    ensures InPlay(Loaded(es, z), 2 * |es| + 1) == |es| + 1 + k
  {
    if IsStuck(es, z) then |es| % 2 else |es|
  }

  /** The final step reads outside the scalar; only a stuck batch can do that. */
  ghost predicate Overruns<P>(es: seq<Entry<P>>, z: seq<int>)
    requires |es| == |z| && Short(z) && |es| >= 4
  {
    RunsOff(Loaded(es, z), |es| + 1 + Counted(es, z))
  }

  lemma OnlyStuckOverruns<P>(es: seq<Entry<P>>, z: seq<int>)
    requires |es| == |z| && Short(z) && |es| >= 4 && Overruns(es, z)
    ensures IsStuck(es, z)
  {
    hide IsGcd, Loaded, CommonDivisor;
    var vals, n := Loaded(es, z), |es| + 1 + Counted(es, z);
    var s: nat :| s > 1 && s % TWO224 == 0 && IsGcd(s, vals, n);
    GcdDivides(s, vals, n, InitialSize(2 * |es| + 1));
    assert s >= TWO128;
  }

  lemma GcdDivides(s: nat, vals: seq<nat>, n: nat, m: nat)
    requires m <= n <= |vals| && IsGcd(s, vals, n)
    ensures CommonDivisor(s, vals, m)
  {
    DividesSelf(s);
    assert CommonDivisor(s, vals, n);
  }

  /** The points of the batch: b, the keys and the points R. */
  ghost function PointsOf<P>(b: P, es: seq<Entry<P>>): (pts: seq<P>)
    requires Decoded(es)
    ensures |pts| == 2 * |es| + 1
  {
    [b] + seq(|es|, i requires 0 <= i < |es| => es[i].a.value) + seq(|es|, i requires 0 <= i < |es| => es[i].r.value)
  }

  lemma PointsOfIs<P>(b: P, es: seq<Entry<P>>, pts: seq<P>)
    requires PointsLoaded(pts, b, es)
    ensures pts[..2 * |es| + 1] == PointsOf(b, es)
  {
  }

  /** What the test tells about any points that decode: it is the outcome of the final step at the gcd s of the scalars
      in play and a point whose multiple by s is their sum, as long as the step does not overrun. */
  ghost predicate TestOutcome<P(!new)>(g: Group<P>, b: P, es: seq<Entry<P>>, z: seq<int>, neutral: bool)
    requires |es| == |z| && Short(z) && |es| >= 4 && Decoded(es)
  {
    exists s: nat, p, res :: TestAt(g, b, es, z, s, p, res) && (res.Done? ==> (neutral <==> res.r == g.zero))
  }

  ghost predicate TestAt<P(!new)>(g: Group<P>, b: P, es: seq<Entry<P>>, z: seq<int>, s: nat, p: P, res: FinalResult<P>)
    requires |es| == |z| && Short(z) && |es| >= 4 && Decoded(es)
  {
    var vals, n := Loaded(es, z), |es| + 1 + Counted(es, z);
    IsGcd(s, vals, n) && Mul(g, s, p) == Sum(g, vals, PointsOf(b, es), n) && FinalOf(g, s, p, res)
  }

  /** The batch test succeeds: all points decode and the sum that is formed is neutral. */
  ghost predicate Passes<P(!new)>(g: Group<P>, b: P, es: seq<Entry<P>>, z: seq<int>)
    requires |es| == |z| && Short(z) && |es| >= 4
  {
    Decoded(es) && Formed(g, b, es, z, Counted(es, z)) == g.zero
  }

  /** If every equation holds and the batch is not stuck, the test succeeds. */
  lemma ValidPasses<P(!new)>(g: Group<P>, b: P, es: seq<Entry<P>>, z: seq<int>)
    requires IsAbelian(g) && |es| == |z| && Short(z) && |es| >= 4 && Decoded(es) && !IsStuck(es, z)
    requires forall i :: 0 <= i < |es| ==> Residual(g, b, es[i]) == g.zero
    ensures Passes(g, b, es, z)
  {
    hide IsAbelian, Residual, IsStuck, Weighted, KeySum, RSum, BaseScalar, Mul;
    ValidIsNeutral(g, b, es, z, |es|);
    Collected(g, b, es, z, |es|);
  }

  // ---- an invalid signature ----

  /** Changing one weight: the new sum plus the old term is the old sum plus the new term. */
  lemma {:induction false} WeightedUpdate<P(!new)>(g: Group<P>, b: P, es: seq<Entry<P>>, z: seq<int>, n: nat, i: nat,
      x: int)
    requires IsAbelian(g) && Decoded(es) && i < n <= |es| && n <= |z|
    ensures var r := Residual(g, b, es[i]);
            g.add(Weighted(g, b, es, z[i := x], n), Mul(g, z[i], r)) == g.add(Weighted(g, b, es, z, n), Mul(g, x, r))
  {
    hide IsAbelian, Mul, Residual;
    var r := Residual(g, b, es[i]);
    var w, w' := Weighted(g, b, es, z, n - 1), Weighted(g, b, es, z[i := x], n - 1);
    if i == n - 1 {
      WeightedLocal(g, b, es, z, z[i := x], n - 1);
      Exchange(g, w, Mul(g, x, r), Mul(g, z[i], r));
    } else {
      WeightedUpdate(g, b, es, z, n - 1, i, x);
      var last := Mul(g, z[n - 1], Residual(g, b, es[n - 1]));
      Exchange(g, w', last, Mul(g, z[i], r));
      Exchange(g, w, last, Mul(g, x, r));
    }
  }

  /** (w + x) + y = (w + y) + x */
  lemma Exchange<P(!new)>(g: Group<P>, w: P, x: P, y: P)
    requires IsAbelian(g)
    ensures g.add(g.add(w, x), y) == g.add(g.add(w, y), x)
  {
    hide IsAbelian;
    Assoc(g, w, x, y);
    Comm(g, x, y);
    Assoc(g, w, y, x);
  }

  lemma {:induction false} WeightedLocal<P(!new)>(g: Group<P>, b: P, es: seq<Entry<P>>, z: seq<int>, z': seq<int>,
      n: nat)
    requires Decoded(es) && n <= |es| && n <= |z| && n <= |z'| && forall i :: 0 <= i < n ==> z[i] == z'[i]
    ensures Weighted(g, b, es, z, n) == Weighted(g, b, es, z', n)
  {
    if n > 0 {
      WeightedLocal(g, b, es, z, z', n - 1);
    }
  }

  /** A batch with an invalid signature: whatever the other weights are, at most one of the 2^128 weights of that
      signature makes the weighted sum neutral. */
  lemma OneWeightPasses<P(!new)>(g: Group<P>, b: P, es: seq<Entry<P>>, z: seq<int>, i: nat, x: int)
    requires IsAbelian(g) && |es| == |z| && Short(z) && Decoded(es) && InSubgroup(g, b, es)
    requires i < |es| && Residual(g, b, es[i]) != g.zero && 0 <= x < TWO128
    requires Weighted(g, b, es, z, |es|) == g.zero && Weighted(g, b, es, z[i := x], |es|) == g.zero
    ensures x == z[i]
  {
    hide IsAbelian, IsPrime, Mul, Residual, Weighted;
    var r := Residual(g, b, es[i]);
    WeightedUpdate(g, b, es, z, |es|, i, x);
    Zero(g, Mul(g, x, r));
    Zero(g, Mul(g, z[i], r));
    ResidualOrder(g, b, es, i);
    MultiplesDiffer(g, Modm.L, x, z[i], r);
  }

  /** So a batch with an invalid signature, stuck batches aside, passes for at most one weight of that signature. */
  lemma OneWeightOfBatch<P(!new)>(g: Group<P>, b: P, es: seq<Entry<P>>, z: seq<int>, i: nat, x: int)
    requires IsAbelian(g) && |es| == |z| && Short(z) && |es| >= 4 && InSubgroup(g, b, es)
    requires i < |es| && 0 <= x < TWO128 && Short(z[i := x])
    requires Passes(g, b, es, z) && !IsStuck(es, z) && Passes(g, b, es, z[i := x]) && !IsStuck(es, z[i := x])
    ensures x == z[i] || Residual(g, b, es[i]) == g.zero
  {
    hide IsAbelian, InSubgroup, Residual, IsStuck, Weighted, KeySum, RSum, BaseScalar, Mul;
    Collected(g, b, es, z, |es|);
    Collected(g, b, es, z[i := x], |es|);
    if Residual(g, b, es[i]) != g.zero {
      OneWeightPasses(g, b, es, z, i, x);
    }
  }

  lemma ResidualOrder<P(!new)>(g: Group<P>, b: P, es: seq<Entry<P>>, i: nat)
    requires IsAbelian(g) && Decoded(es) && InSubgroup(g, b, es) && i < |es|
    ensures IsPrime(Modm.L) && Mul(g, Modm.L, Residual(g, b, es[i])) == g.zero
  {
    hide IsAbelian, IsPrime, Mul;
    var e := es[i];
    assert e in es;
    MulKilled(g, Modm.L, LeValue(e.s), b);
    MulKilled(g, Modm.L, LeValue(e.hram), e.a.value);
    MulDistributes(g, Modm.L, g.add(Mul(g, LeValue(e.s), b), Mul(g, LeValue(e.hram), e.a.value)), e.r.value);
    MulDistributes(g, Modm.L, Mul(g, LeValue(e.s), b), Mul(g, LeValue(e.hram), e.a.value));
    Zero(g, g.zero);
  }

  // ---- stuck batches that pass ----

  /** Every S is zero and every key is the neutral element. */
  ghost predicate NeutralKeys<P>(g: Group<P>, es: seq<Entry<P>>) {
    Decoded(es) && forall i :: 0 <= i < |es| ==> LeValue(es[i].s) == 0 && es[i].a.value == g.zero
  }

  lemma {:induction false} NeutralKeySum<P(!new)>(g: Group<P>, es: seq<Entry<P>>, z: seq<int>, n: nat)
    requires IsAbelian(g) && NeutralKeys(g, es) && n <= |es| && n <= |z|
    ensures BaseScalar(es, z, n) == 0 && KeySum(g, es, z, n) == g.zero
  {
    hide IsAbelian, LeValue, Mul;
    if n > 0 {
      NeutralKeySum(g, es, z, n - 1);
      MulZeroPoint(g, z[n - 1] * LeValue(es[n - 1].hram));
      Zero(g, g.zero);
    }
  }

  /** A stuck batch of even size does not look at the points R: with neutral keys and S = 0 it passes for all of
      them. */
  lemma StuckPasses<P(!new)>(g: Group<P>, b: P, es: seq<Entry<P>>, z: seq<int>)
    requires IsAbelian(g) && |es| == |z| && Short(z) && |es| >= 4 && |es| % 2 == 0 && NeutralKeys(g, es)
    requires IsStuck(es, z)
    ensures Passes(g, b, es, z)
  {
    hide IsAbelian, LeValue, Mul, KeySum, BaseScalar, IsStuck;
    NeutralKeySum(g, es, z, |es|);
    MulNone(g, b);
    Zero(g, g.zero);
  }

  /** If only the first weight is not zero, the only scalar in play is its product with the first challenge. So the
      batch is stuck, and it overruns exactly if that product modulo L is a nonzero multiple of 2^224. */
  lemma LoneWeightStuck<P(!new)>(g: Group<P>, es: seq<Entry<P>>, z: seq<int>)
    requires IsAbelian(g) && |es| == |z| && Short(z) && |es| >= 4 && |es| % 2 == 0 && NeutralKeys(g, es)
    requires forall i :: 0 < i < |z| ==> z[i] == 0
    ensures IsStuck(es, z)
    ensures Overruns(es, z) <==> TooEven(z[0] * LeValue(es[0].hram))
  {
    hide IsAbelian, LeValue, Mul, IsGcd, CommonDivisor, KeySum, BaseScalar;
    var n, vals := |es|, Loaded(es, z);
    NeutralKeySum(g, es, z, n);
    forall k | 0 <= k <= n && k != 1
      ensures vals[k] == 0
    {
    }
    assert InitialSize(2 * n + 1) == n + 1;
    assert AtMostOneNonzero(vals, n + 1);
    GcdOfOne(vals, n + 1, 1);
    if s: nat :| s > 1 && s % TWO224 == 0 && IsGcd(s, vals, n + 1) {
      GcdUnique(s, vals[1], vals, n + 1);
    }
  }

  /** Modulo L the number is a nonzero multiple of 2^224. */
  predicate TooEven(x: int) {
    ModL(x) != 0 && ModL(x) % TWO224 == 0
  }

  /** Whatever the challenge is, there is a weight for which the batch does not overrun. */
  lemma GoodWeight(h: int) returns (w: int)
    ensures 0 < w < TWO128 && !TooEven(w * h)
  {
    hide ModL;
    w := 1;
    if TooEven(1 * h) {
      w := DoubleUp(ModL(h), 1);
      OddMultiple(w, h);
    }
  }

  /** Doubling x < L until it passes L. */
  lemma {:induction false} DoubleUp(x: nat, w: nat) returns (v: nat)
    requires w >= 1 && TWO224 * w <= x * w < Modm.L
    ensures 0 < v < TWO128 && v % 2 == 0 && Modm.L <= x * v < 2 * Modm.L
    decreases Modm.L - x * w
  {
    var y := x * w;
    assert x * (2 * w) == 2 * y;
    if 2 * y < Modm.L {
      v := DoubleUp(x, 2 * w);
    } else {
      v := 2 * w;
      SmallWeight(w, x);
    }
  }

  lemma SmallWeight(w: nat, x: nat)
    requires TWO224 * w <= x * w < Modm.L
    ensures 2 * w < TWO128
  {
  }

  lemma OddMultiple(v: nat, h: int)
    requires v % 2 == 0 && Modm.L <= ModL(h) * v < 2 * Modm.L
    ensures !TooEven(v * h)
  {
    hide Same, ModL;
    var x := ModL(h);
    var y := x * v;
    var r := y + -1 * Modm.L;
    ModLSame(h);
    SameTimes(x, h, v, Modm.L);
    SameShift(y, -1, Modm.L);
    SameTrans(r, y, h * v, Modm.L);
    MulComm(h, v);
    ModLUnique(r, v * h);
    EvenTimes(x, v);
    OddIsNotMultiple(r);
  }

  lemma EvenTimes(x: int, v: int)
    requires v % 2 == 0
    ensures (x * v) % 2 == 0
  {
    var u := v / 2;
    assert x * v == 2 * (x * u);
  }

  lemma OddIsNotMultiple(r: nat)
    requires r % 2 == 1
    ensures r % TWO224 != 0
  {
  }
}
