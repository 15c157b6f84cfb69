/** Batch verification (src/ed25519-donna/ed25519-donna-batchverify.h, lines 204-274), from messages, keys and
    signatures. The points are those of the curve group; its addition is a parameter. */
module BatchVerify {
  import opened Arith
  import opened Bytes
  import opened Groups
  import opened Modular
  import opened EdwardsCurve
  import opened EdwardsGroup
  import opened ModmBatch
  import opened BatchHeaps
  import opened BosCarterStep
  import opened BosCarter
  import opened BosCarterFinal
  import opened BatchEquation
  import opened ModmCodec
  import opened PointCodec
  import opened Ladder
  import opened Signatures
  import Points
  import Modm

  // ---- the signatures ----

  /** A message, a public key and a signature. */
  datatype Input = Input(m: seq<int>, pk: seq<int>, rs: seq<int>)

  ghost predicate IsInput(x: Input) {
    IsBytes(x.m) && |x.pk| == 32 && IsBytes(x.pk) && |x.rs| == 64 && IsBytes(x.rs)
  }

  ghost predicate AreInputs(ins: seq<Input>) {
    forall i :: 0 <= i < |ins| ==> IsInput(ins[i])
  }

  /** ed25519_sign_open accepts */
  ghost predicate Verdict(hash: Hash, b: CurvePoint, x: Input)
    requires IsInput(x)
  {
    Accepts(hash, x.m, x.pk, x.rs, b)
  }

  /** The point that the bytes decode to, if there is one. */
  ghost function DecodedAs(p: seq<int>): Option<CurvePoint>
    requires |p| == 32
  {
    if exists a: CurvePoint :: Decodes(p, a) then var a: CurvePoint :| Decodes(p, a); Some(a) else None
  }

  lemma DecodedIs(p: seq<int>, a: CurvePoint)
    requires IsPrime(Congruence.PRIME) && NonSquare(D) && |p| == 32 && IsBytes(p) && Decodes(p, a)
    ensures DecodedAs(p) == Some(a)
  {
    hide IsPrime, NonSquare, Decodes, OnCurve;
    DecodesUnique(p, a, DecodedAs(p).value);
  }

  ghost function EntryOf(hash: Hash, x: Input): Entry<CurvePoint>
    requires IsInput(x)
  {
    Entry(x.rs[32..], hash(x.rs[..32] + x.pk + x.m), DecodedAs(x.pk), DecodedAs(x.rs[..32]))
  }

  ghost function Entries(hash: Hash, ins: seq<Input>): (es: seq<Entry<CurvePoint>>)
    requires AreInputs(ins)
    ensures |es| == |ins| && forall i :: 0 <= i < |es| ==> es[i] == EntryOf(hash, ins[i])
  {
    seq(|ins|, i requires 0 <= i < |ins| => EntryOf(hash, ins[i]))
  }

  lemma EntriesSlice(hash: Hash, ins: seq<Input>, i: nat, j: nat)
    requires AreInputs(ins) && i <= j <= |ins|
    ensures AreInputs(ins[i..j]) && Entries(hash, ins[i..j]) == Entries(hash, ins)[i..j]
  {
    hide EntryOf, IsInput;
  }

  ghost predicate Randoms(rnd: seq<seq<int>>) {
    forall i :: 0 <= i < |rnd| ==> |rnd[i]| == 16 && IsBytes(rnd[i])
  }

  // ---- loading ----

  lemma Reduced(x: int)
    ensures 0 <= x % Modm.L < Modm.L
  {
  }

  lemma SmallTop(a: Limbs)
    requires IsLimbs(a) && Value(a) < Modm.L
    ensures a[4] < 0x1_0000_0000
  {
    Modm.TopLimb(a);
  }

  /** The weights: 16 random bytes each, below 2^128 and so not changed by the reduction. */
  lemma {:induction false} SixteenBytes(b: seq<int>)
    requires |b| == 16 && IsBytes(b)
    ensures 0 <= LeValue(b) < TWO128
  {
    LeFromWord(b, 0);
    LeFromWord(b, 8);
    WordBound(b, 0);
    WordBound(b, 8);
    assert LeFrom(b, 16) == 0;
    hide Word, LeFrom;
  }

  ghost function Weights(rnd: seq<seq<int>>): (z: seq<int>)
    requires Randoms(rnd)
    ensures |z| == |rnd| && Short(z) && forall i :: 0 <= i < |z| ==> z[i] == LeValue(rnd[i])
  {
    assert forall i :: 0 <= i < |rnd| ==> 0 <= LeValue(rnd[i]) < TWO128 by {
      forall i | 0 <= i < |rnd|
        ensures 0 <= LeValue(rnd[i]) < TWO128
      {
        SixteenBytes(rnd[i]);
      }
    }
    seq(|rnd|, i requires 0 <= i < |rnd| => LeValue(rnd[i]))
  }

  /** a is the scalar x modulo L */
  ghost predicate Holding(a: Limbs, x: int) {
    IsLimbs(a) && Value(a) < Modm.L && Same(Value(a), x, Modm.L)
  }

  method ReadScalar(b: seq<int>) returns (a: Limbs)
    requires IsBytes(b) && |b| <= 64
    ensures Holding(a, LeValue(b))
  {
    hide LowValue, LeFrom;
    a := Expand256Modm(b);
    Reduced(LeValue(b));
    SameMod(LeValue(b), Modm.L);
  }

  method Product(a: Limbs, c: Limbs, ghost x: int, ghost y: int) returns (r: Limbs)
    requires Holding(a, x) && Holding(c, y)
    ensures Holding(r, y * x)
  {
    hide LowValue, Same;
    SmallTop(a);
    SmallTop(c);
    r := Modm.Mul256Modm(a, c);
    ghost var p := Value(a) * Value(c);
    Reduced(p);
    SameMod(p, Modm.L);
    SameProduct(Value(r), Value(a), Value(c), x, y, Modm.L);
    MulComm(x, y);
  }

  method Add(a: Limbs, c: Limbs, ghost x: int, ghost y: int) returns (r: Limbs)
    requires Holding(a, x) && Holding(c, y)
    ensures Holding(r, x + y)
  {
    hide LowValue, Same;
    r := Modm.Add256Modm(a, c);
    ghost var p := Value(a) + Value(c);
    Reduced(p);
    SameMod(p, Modm.L);
    SameTotal(Value(r), Value(a), Value(c), x, y, Modm.L);
  }

  /** The last n scalars are the weights. */
  ghost predicate WeightsIn(sc: seq<Limbs>, z: seq<int>) {
    2 * |z| < |sc| && forall k :: |z| < k <= 2 * |z| ==> Holding(sc[k], z[k - |z| - 1]) && Num(sc[k]) == z[k - |z| - 1]
  }

  method LoadWeights(rnd: seq<seq<int>>, scalars: array<Limbs>)
    requires Randoms(rnd) && 0 < |rnd| && 2 * |rnd| < scalars.Length
    modifies scalars
    ensures WeightsIn(scalars[..], Weights(rnd))
  {
    hide LeFrom, Holding, Num;
    var n := |rnd|;
    for i := 0 to n
      invariant forall k :: n < k <= n + i ==>
                  Holding(scalars[k], LeValue(rnd[k - n - 1])) && Num(scalars[k]) == LeValue(rnd[k - n - 1])
    {
      var a := ReadWeight(rnd[i]);
      scalars[n + 1 + i] := a;
    }
  }

  method ReadWeight(b: seq<int>) returns (a: Limbs)
    requires |b| == 16 && IsBytes(b)
    ensures Holding(a, LeValue(b)) && Num(a) == LeValue(b)
  {
    hide LowValue, LeFrom;
    a := Expand256Modm(b);
    SixteenBytes(b);
    DivSmall(LeValue(b), Modm.L);
    SameMod(LeValue(b), Modm.L);
  }

  /** scalars[i] = S[i] z[i], then summed up in scalars[0]. */
  method LoadFirst(hash: Hash, ins: seq<Input>, scalars: array<Limbs>, ghost z: seq<int>)
    requires AreInputs(ins) && |ins| == |z| && 0 < |ins| && WeightsIn(scalars[..], z)
    modifies scalars
    ensures WeightsIn(scalars[..], z) && Holding(scalars[0], BaseScalar(Entries(hash, ins), z, |ins|))
  {
    hide LeFrom, Holding, Num, BaseScalar;
    var n := |ins|;
    ghost var es := Entries(hash, ins);
    for i := 0 to n
      invariant WeightsIn(scalars[..], z)
      invariant forall k :: 0 <= k < i ==> Holding(scalars[k], z[k] * LeValue(es[k].s))
    {
      assert IsInput(ins[i]) && Holding(scalars[..][n + 1 + i], z[i]);
      var x := ReadScalar(ins[i].rs[32..]);
      var y := Product(x, scalars[n + 1 + i], LeValue(es[i].s), z[i]);
      WeightsElsewhere(scalars[..], z, i, y);
      scalars[i] := y;
    }
    FirstTerm(es, z);
    for i := 1 to n
      invariant WeightsIn(scalars[..], z)
      invariant Holding(scalars[0], BaseScalar(es, z, i))
      invariant forall k :: i <= k < n ==> Holding(scalars[k], z[k] * LeValue(es[k].s))
    {
      var y := Add(scalars[0], scalars[i], BaseScalar(es, z, i), z[i] * LeValue(es[i].s));
      NextTerm(es, z, i);
      WeightsElsewhere(scalars[..], z, 0, y);
      scalars[0] := y;
    }
  }

  lemma FirstTerm<P>(es: seq<Entry<P>>, z: seq<int>)
    requires |es| == |z| && 0 < |es|
    ensures BaseScalar(es, z, 1) == z[0] * LeValue(es[0].s)
  {
    assert BaseScalar(es, z, 0) == 0;
  }

  lemma NextTerm<P>(es: seq<Entry<P>>, z: seq<int>, i: nat)
    requires |es| == |z| && i < |es|
    ensures BaseScalar(es, z, i + 1) == BaseScalar(es, z, i) + z[i] * LeValue(es[i].s)
  {
  }

  lemma WeightsElsewhere(sc: seq<Limbs>, z: seq<int>, i: nat, y: Limbs)
    requires WeightsIn(sc, z) && i <= |z|
    ensures WeightsIn(sc[i := y], z)
  {
    hide Holding, Num;
  }

  /** scalars[1+i] = H(R[i], A[i], m[i]) z[i]. */
  method LoadKeys(hash: Hash, ins: seq<Input>, scalars: array<Limbs>, ghost z: seq<int>)
    requires IsHash(hash) && AreInputs(ins) && |ins| == |z| && 0 < |ins| && WeightsIn(scalars[..], z)
    requires Holding(scalars[0], BaseScalar(Entries(hash, ins), z, |ins|))
    modifies scalars
    ensures WeightsIn(scalars[..], z) && Holding(scalars[0], BaseScalar(Entries(hash, ins), z, |ins|))
    ensures KeysIn(scalars[..], Entries(hash, ins), z)
  {
    hide LeFrom, Holding, Num, BaseScalar;
    var n := |ins|;
    ghost var es := Entries(hash, ins);
    for i := 0 to n
      invariant WeightsIn(scalars[..], z) && Holding(scalars[0], BaseScalar(es, z, n))
      invariant forall k :: 1 <= k <= i ==> Holding(scalars[k], z[k - 1] * LeValue(es[k - 1].hram))
    {
      assert IsInput(ins[i]) && Holding(scalars[..][n + 1 + i], z[i]);
      var hram := hash(ins[i].rs[..32] + ins[i].pk + ins[i].m);
      var x := ReadScalar(hram);
      var y := Product(x, scalars[n + 1 + i], LeValue(es[i].hram), z[i]);
      WeightsElsewhere(scalars[..], z, i + 1, y);
      scalars[i + 1] := y;
    }
  }

  /** The weighted challenges are in place. */
  ghost predicate KeysIn(sc: seq<Limbs>, es: seq<Entry<CurvePoint>>, z: seq<int>) {
    |es| == |z| && |es| < |sc| && forall k :: 1 <= k <= |es| ==> Holding(sc[k], z[k - 1] * LeValue(es[k - 1].hram))
  }

  /** ge25519_unpack_negative_vartime, as a point of the group. */
  method Unpack(p: seq<int>) returns (a: Option<CurvePoint>)
    requires IsEd25519() && |p| == 32 && IsBytes(p)
    ensures a == DecodedAs(p)
  {
    hide IsEd25519, IsPrime, NonSquare, OnCurve, Decodes, YOf;
    CurveFacts();
    var ok, c := UnpackAffine(p);
    if !ok {
      NotDecodable(p);
      return None;
    }
    DecodedOnCurve(p, c);
    var point: CurvePoint := c;
    DecodedIs(p, point);
    a := Some(point);
  }

  ghost predicate Strings(strs: seq<seq<int>>) {
    forall i :: 0 <= i < |strs| ==> |strs[i]| == 32 && IsBytes(strs[i])
  }

  /** One of the two loops over the points: unpack the strings to points[at], points[at+1], ... */
  method UnpackRun(strs: seq<seq<int>>, points: array<CurvePoint>, at: nat) returns (ok: bool)
    requires IsEd25519() && Strings(strs) && at + |strs| <= points.Length
    modifies points
    ensures ok <==> forall i :: 0 <= i < |strs| ==> DecodedAs(strs[i]).Some?
    ensures ok ==> forall i :: 0 <= i < |strs| ==> points[at + i] == DecodedAs(strs[i]).value
    ensures forall k :: 0 <= k < points.Length && !(at <= k < at + |strs|) ==> points[k] == old(points[k])
  {
    hide IsEd25519, OnCurve, DecodedAs;
    for i := 0 to |strs|
      invariant forall k :: 0 <= k < i ==> DecodedAs(strs[k]).Some? && points[at + k] == DecodedAs(strs[k]).value
      invariant forall k :: 0 <= k < points.Length && !(at <= k < at + i) ==> points[k] == old(points[k])
    {
      var a := Unpack(strs[i]);
      if a.None? {
        return false;
      }
      points[at + i] := a.value;
    }
    return true;
  }

  /** The points; decoding stops at the first failure. */
  method LoadPoints(ghost hash: Hash, ins: seq<Input>, points: array<CurvePoint>, b: CurvePoint) returns (decoded: bool)
    requires IsEd25519() && AreInputs(ins) && 2 * |ins| < points.Length
    modifies points
    ensures decoded <==> Decoded(Entries(hash, ins))
    ensures decoded ==> PointsLoaded(points[..], b, Entries(hash, ins))
  {
    hide IsEd25519, OnCurve, DecodedAs;
    var n := |ins|;
    ghost var es := Entries(hash, ins);
    var keys := seq(n, i requires 0 <= i < n => ins[i].pk);
    var rs := seq(n, i requires 0 <= i < n => if |ins[i].rs| >= 32 then ins[i].rs[..32] else []);
    InputStrings(hash, ins, keys, rs);
    points[0] := b;
    decoded := UnpackRun(keys, points, 1);
    if decoded {
      decoded := UnpackRun(rs, points, n + 1);
      if decoded {
        PointsAre(points[..], b, es, keys, rs);
      }
    }
  }

  lemma InputStrings(hash: Hash, ins: seq<Input>, keys: seq<seq<int>>, rs: seq<seq<int>>)
    requires AreInputs(ins) && |keys| == |ins| == |rs|
    requires forall i :: 0 <= i < |ins| ==> keys[i] == ins[i].pk
    requires forall i :: 0 <= i < |ins| ==> rs[i] == if |ins[i].rs| >= 32 then ins[i].rs[..32] else []
    ensures Strings(keys) && Strings(rs) && Unpacked(Entries(hash, ins), keys, rs)
  {
    hide DecodedAs, OnCurve;
    assert forall i :: 0 <= i < |ins| ==> IsInput(ins[i]);
  }

  /** The points of the entries are what the strings decode to. */
  ghost predicate Unpacked(es: seq<Entry<CurvePoint>>, keys: seq<seq<int>>, rs: seq<seq<int>>) {
    && |keys| == |es| == |rs| && Strings(keys) && Strings(rs)
    && forall i :: 0 <= i < |es| ==> es[i].a == DecodedAs(keys[i]) && es[i].r == DecodedAs(rs[i])
  }

  lemma PointsAre(pts: seq<CurvePoint>, b: CurvePoint, es: seq<Entry<CurvePoint>>, keys: seq<seq<int>>,
      rs: seq<seq<int>>)
    requires Unpacked(es, keys, rs) && |pts| > 2 * |es| && pts[0] == b
    requires forall i :: 0 <= i < |es| ==> DecodedAs(keys[i]).Some? && pts[1 + i] == DecodedAs(keys[i]).value
    requires forall i :: 0 <= i < |es| ==> DecodedAs(rs[i]).Some? && pts[|es| + 1 + i] == DecodedAs(rs[i]).value
    ensures PointsLoaded(pts, b, es)
  {
    hide DecodedAs, OnCurve;
    forall k | 1 <= k <= |es|
      ensures pts[k] == es[k - 1].a.value
    {
      assert pts[1 + (k - 1)] == DecodedAs(keys[k - 1]).value;
    }
    forall k | |es| < k <= 2 * |es|
      ensures pts[k] == es[k - |es| - 1].r.value
    {
      assert pts[|es| + 1 + (k - |es| - 1)] == DecodedAs(rs[k - |es| - 1]).value;
    }
  }

  /** The scalars in the array are the scalars of the batch. */
  lemma LoadedKeys(sc: seq<Limbs>, es: seq<Entry<CurvePoint>>, z: seq<int>, k: nat)
    requires |es| == |z| && Short(z) && k <= 2 * |es| && WeightsIn(sc, z) && KeysIn(sc, es, z)
    requires Holding(sc[0], BaseScalar(es, z, |es|))
    ensures IsLimbs(sc[k]) && Num(sc[k]) == Loaded(es, z)[k]
  {
    hide BaseScalar, LeFrom, Holding, Num, IsLimbs, ModL;
    var n := |es|;
    if k > n {
      HoldingKey(sc[k], z[k - n - 1]);
    } else if k > 0 {
      HoldingKey(sc[k], z[k - 1] * LeValue(es[k - 1].hram));
    } else {
      HoldingKey(sc[0], BaseScalar(es, z, n));
    }
  }

  lemma HoldingKey(a: Limbs, x: int)
    requires Holding(a, x)
    ensures IsLimbs(a) && Num(a) == ModL(x)
  {
    hide Same, LowValue, ModL;
    ModLUnique(Value(a), x);
  }

  method LoadScalars(hash: Hash, ins: seq<Input>, rnd: seq<seq<int>>) returns (scalars: array<Limbs>)
    requires IsHash(hash) && AreInputs(ins) && 4 <= |ins| <= MAX_BATCH_SIZE && |rnd| == |ins| && Randoms(rnd)
    ensures fresh(scalars) && scalars.Length == HEAP_BATCH_SIZE
    ensures forall k :: 0 <= k <= 2 * |ins| ==>
              IsLimbs(scalars[k]) && Num(scalars[k]) == Loaded(Entries(hash, ins), Weights(rnd))[k]
  {
    hide Holding, BaseScalar, LeFrom, Num, IsLimbs, LoadedAt, Randoms, Weights, WeightsIn, KeysIn;
    ghost var es, z := Entries(hash, ins), Weights(rnd);
    scalars := new Limbs[HEAP_BATCH_SIZE](_ => [0, 0, 0, 0, 0]);
    LoadWeights(rnd, scalars);
    LoadFirst(hash, ins, scalars, z);
    LoadKeys(hash, ins, scalars, z);
    forall k | 0 <= k <= 2 * |ins|
      ensures IsLimbs(scalars[k]) && Num(scalars[k]) == Loaded(es, z)[k]
    {
      LoadedKeys(scalars[..], es, z, k);
    }
  }

  // ---- one batch ----

  /** What the loop says about the array is said about the scalars of the batch. */
  lemma SamePrefix<P(!new)>(g: Group<P>, vals: seq<nat>, loaded: seq<nat>, pts: seq<P>, count: nat)
    requires InitialSize(count) <= count == |loaded| <= |vals| && count <= |pts| && vals[..count] == loaded
    ensures Stuck(vals, InitialSize(count)) <==> Stuck(loaded, InitialSize(count))
    ensures InPlay(vals, count) == InPlay(loaded, count)
    ensures RunsOff(vals, InPlay(vals, count)) <==> RunsOff(loaded, InPlay(vals, count))
    ensures Sum(g, vals, pts, InPlay(vals, count)) == Sum(g, loaded, pts, InPlay(vals, count))
    ensures forall s: nat :: IsGcd(s, vals, InPlay(vals, count)) <==> IsGcd(s, loaded, InPlay(vals, count))
  {
    hide Sum, Divides;
    assert forall i :: 0 <= i < count ==> vals[i] == loaded[i];
    assert forall d, n: nat :: n <= count ==> (CommonDivisor(d, vals, n) <==> CommonDivisor(d, loaded, n));
    assert forall s: nat, n: nat :: n <= count ==> (IsGcd(s, vals, n) <==> IsGcd(s, loaded, n));
    SumLocal(g, vals, pts, loaded, pts, InPlay(vals, count));
  }

  /** The group operations that the points are added with. */
  ghost predicate Arithmetic(g: Group<CurvePoint>) {
    IsEd25519() && g == Ed25519()
  }

  lemma ArithmeticIs(g: Group<CurvePoint>)
    requires Arithmetic(g)
    ensures IsEd25519() && IsAbelian(g)
  {
    hide IsEd25519, OnCurve, IsAbelian;
    CurveGroup();
  }

  /** The sum that the multiplication forms, and the order that makes its test exact. */
  lemma BatchSum(g: Group<CurvePoint>, b: CurvePoint, es: seq<Entry<CurvePoint>>, z: seq<int>, pts: seq<CurvePoint>)
    requires IsAbelian(g) && |es| == |z| && Short(z) && |es| >= 4 && PointsLoaded(pts, b, es) && InSubgroup(g, b, es)
    ensures Sum(g, Loaded(es, z), pts, |es| + 1 + Counted(es, z)) == Formed(g, b, es, z, Counted(es, z))
    ensures LargeOrder(Modm.L, Loaded(es, z), InitialSize(2 * |es| + 1)) && KilledBy(g, Modm.L, pts, 2 * |es| + 1)
  {
    hide IsAbelian, Mul, IsPrime, KilledBy, Formed, Sum, ScalarsLoaded, Loaded, IsStuck, Stuck;
    SubgroupKills(g, pts, b, es);
    LoadedIs(es, z);
    RPart(g, Loaded(es, z), pts, b, es, z, Counted(es, z));
    forall k | 0 <= k <= 2 * |es|
      ensures Loaded(es, z)[k] < Modm.L
    {
      LoadedReduced(es, z, k);
    }
  }

  /** The multi-scalar multiplication and its test. When the final step reads outside the scalar, the outcome is left
      open. */
  method TestBatch(g: Group<CurvePoint>, b: CurvePoint, scalars: array<Limbs>, points: array<CurvePoint>, n: nat,
      ghost es: seq<Entry<CurvePoint>>, ghost z: seq<int>) returns (neutral: bool)
    requires IsAbelian(g) && |es| == |z| == n && Short(z) && 4 <= n <= MAX_BATCH_SIZE
    requires scalars.Length == points.Length == HEAP_BATCH_SIZE && points as object != scalars
    requires forall k :: 0 <= k <= 2 * n ==> IsLimbs(scalars[k]) && Num(scalars[k]) == Loaded(es, z)[k]
    requires PointsLoaded(points[..], b, es)
    modifies scalars, points
    ensures TestOutcome(g, b, es, z, neutral)
    ensures InSubgroup(g, b, es) && !Overruns(es, z) ==> (neutral <==> Passes(g, b, es, z))
  {
    hide IsAbelian, OnCurve, Mul, Stuck, KilledBy, InSubgroup, Sum, LoadedAt, Formed, LargeOrder, RunsOff, FinalOf,
        IsGcd, Num, IsLimbs, PointsLoaded, TestOutcome, Overruns, Passes;
    var batch := new BatchHeap(points, scalars);
    ghost var vals, pts := Keys(scalars[..]), points[..];
    TailIsShort(es, z);
    assert vals[..2 * n + 1] == Loaded(es, z);
    var res := MultiScalarmultVartime(g, batch, 2 * n + 1);
    if res.OutOfRange? {
      neutral := *;
    } else {
      neutral := res.r == g.zero;
    }
    OutcomeIs(g, b, es, z, vals, pts, res, neutral);
    if InSubgroup(g, b, es) && !Overruns(es, z) {
      TestDecides(g, b, es, z, vals, pts, res);
    }
  }

  lemma TestDecides(g: Group<CurvePoint>, b: CurvePoint, es: seq<Entry<CurvePoint>>, z: seq<int>, vals: seq<nat>,
      pts: seq<CurvePoint>, res: FinalResult<CurvePoint>)
    requires IsAbelian(g) && |es| == |z| && Short(z) && |es| >= 4 && PointsLoaded(pts, b, es)
    requires 2 * |es| + 1 <= |vals| && vals[..2 * |es| + 1] == Loaded(es, z)
    requires InSubgroup(g, b, es) && !Overruns(es, z)
    requires res.OutOfRange? <==> RunsOff(vals, InPlay(vals, 2 * |es| + 1))
    requires LargeOrder(Modm.L, vals, InitialSize(2 * |es| + 1)) && KilledBy(g, Modm.L, pts, 2 * |es| + 1) ==>
               (res.Done? ==> (res.r == g.zero <==> Sum(g, vals, pts, InPlay(vals, 2 * |es| + 1)) == g.zero))
    ensures res.Done? && (res.r == g.zero <==> Passes(g, b, es, z))
  {
    hide IsAbelian, OnCurve, Mul, Stuck, KilledBy, InSubgroup, Sum, Loaded, Formed, LargeOrder, RunsOff, IsStuck;
    SamePrefix(g, vals, Loaded(es, z), pts, 2 * |es| + 1);
    BatchSum(g, b, es, z, pts);
    SameOrder(vals, Loaded(es, z), InitialSize(2 * |es| + 1));
  }

  /** The scalars, the points and the multi-scalar multiplication of one batch. For points of order L, and unless the
      final step reads outside the scalar, the test succeeds exactly if Passes says so. */
  method CheckBatch(g: Group<CurvePoint>, b: CurvePoint, hash: Hash, ins: seq<Input>, rnd: seq<seq<int>>)
    returns (decoded: bool, neutral: bool)
    requires Arithmetic(g) && IsHash(hash) && AreInputs(ins) && 4 <= |ins| <= MAX_BATCH_SIZE
    requires |rnd| == |ins| && Randoms(rnd)
    ensures decoded <==> Decoded(Entries(hash, ins))
    ensures decoded ==> TestOutcome(g, b, Entries(hash, ins), Weights(rnd), neutral)
    ensures var es, z := Entries(hash, ins), Weights(rnd);
            InSubgroup(g, b, es) && !Overruns(es, z) ==> (decoded && neutral <==> Passes(g, b, es, z))
  {
    hide Arithmetic, IsAbelian, IsEd25519, OnCurve, InSubgroup, LoadedAt, Formed, Weights, Randoms, Num, IsLimbs,
        Decoded, PointsLoaded, EntryOf, TestOutcome, Overruns;
    ArithmeticIs(g);
    var scalars := LoadScalars(hash, ins, rnd);
    var points := new CurvePoint[HEAP_BATCH_SIZE](_ => b);
    decoded := LoadPoints(hash, ins, points, b);
    neutral := false;
    if decoded {
      neutral := TestBatch(g, b, scalars, points, |ins|, Entries(hash, ins), Weights(rnd));
    }
  }

  lemma OutcomeIs(g: Group<CurvePoint>, b: CurvePoint, es: seq<Entry<CurvePoint>>, z: seq<int>, vals: seq<nat>,
      pts: seq<CurvePoint>, res: FinalResult<CurvePoint>, neutral: bool)
    requires |es| == |z| && Short(z) && |es| >= 4 && PointsLoaded(pts, b, es)
    requires 2 * |es| + 1 <= |vals| && vals[..2 * |es| + 1] == Loaded(es, z)
    requires var n := InPlay(vals, 2 * |es| + 1);
             exists s: nat, p :: IsGcd(s, vals, n) && Mul(g, s, p) == Sum(g, vals, pts, n) && FinalOf(g, s, p, res)
    requires res.Done? ==> (neutral <==> res.r == g.zero)
    ensures TestOutcome(g, b, es, z, neutral)
  {
    hide IsGcd, Mul, Sum, FinalOf, Loaded, IsStuck, Stuck, RunsOff, PointsOf, OnCurve, Decoded;
    var count := 2 * |es| + 1;
    SamePrefix(g, vals, Loaded(es, z), pts, count);
    var n := InPlay(vals, count);
    var s: nat, p :| IsGcd(s, vals, n) && Mul(g, s, p) == Sum(g, vals, pts, n) && FinalOf(g, s, p, res);
    PointsOfIs(b, es, pts);
    assert forall i :: 0 <= i < count ==> pts[i] == pts[..count][i];
    SumLocal(g, Loaded(es, z), pts, Loaded(es, z), PointsOf(b, es), n);
    assert TestAt(g, b, es, z, s, p, res);
  }

  lemma SameOrder(vals: seq<nat>, loaded: seq<nat>, m: nat)
    requires m <= |loaded| <= |vals| && vals[..|loaded|] == loaded && (Stuck(vals, m) <==> Stuck(loaded, m))
    ensures LargeOrder(Modm.L, vals, m) <==> LargeOrder(Modm.L, loaded, m)
  {
    hide Stuck, IsPrime;
    assert forall i :: 0 <= i < m ==> vals[i] == loaded[i];
  }

  /** The scalars that are not in the first heap are weights, below 2^128. */
  lemma TailIsShort(es: seq<Entry<CurvePoint>>, z: seq<int>)
    requires |es| == |z| && Short(z)
    ensures forall i :: InitialSize(2 * |z| + 1) <= i < 2 * |z| + 1 ==> Loaded(es, z)[i] < TWO128
  {
    hide BaseScalar, ModL;
  }

  // ---- all signatures ----

  /** Where the batch that starts at position at ends. */
  function BatchEnd(at: nat, n: nat): nat
    requires at <= n
  {
    if n - at > MAX_BATCH_SIZE then at + MAX_BATCH_SIZE else n
  }

  /** A batch starts at every multiple of 64 with more than three signatures to go. */
  predicate IsBatch(at: nat, n: nat) {
    at % MAX_BATCH_SIZE == 0 && at + 3 < n
  }

  /** Where the batch of signature i would start. */
  function Start(i: nat): nat {
    i - i % MAX_BATCH_SIZE
  }

  function Window<T>(s: seq<T>, at: nat): seq<T>
    requires at <= |s|
  {
    s[at..BatchEnd(at, |s|)]
  }

  lemma WeightsWindow(rnd: seq<seq<int>>, at: nat)
    requires Randoms(rnd) && at <= |rnd|
    ensures Randoms(Window(rnd, at)) && Weights(Window(rnd, at)) == Window(Weights(rnd), at)
  {
  }

  lemma ShortWindow(z: seq<int>, at: nat)
    requires Short(z) && at <= |z|
    ensures Short(Window(z, at))
  {
  }

  /** What is known about the batch at position at: it passes only if its points decode, and then as TestOutcome says;
      for points of order L it passes exactly if Passes says so, unless the final step overruns. */
  ghost predicate Tested(g: Group<CurvePoint>, b: CurvePoint, es: seq<Entry<CurvePoint>>, z: seq<int>, at: nat,
      pass: bool)
    requires |es| == |z| && IsBatch(at, |es|) && Short(z)
  {
    ShortWindow(z, at);
    var part, w := Window(es, at), Window(z, at);
    && (pass ==> Decoded(part))
    && (Decoded(part) ==> TestOutcome(g, b, part, w, pass))
    && (InSubgroup(g, b, part) && !Overruns(part, w) ==> (pass <==> Passes(g, b, part, w)))
  }

  /** The batch at position at was decoded and did not pass. */
  ghost predicate Retried(es: seq<Entry<CurvePoint>>, passed: set<nat>, at: nat) {
    IsBatch(at, |es|) && at !in passed && Decoded(Window(es, at))
  }

  /** The batches before position at have been tested, and passed are those that passed. */
  ghost predicate TestedTo(g: Group<CurvePoint>, b: CurvePoint, es: seq<Entry<CurvePoint>>, z: seq<int>, at: nat,
      passed: set<nat>, retried: bool)
    requires |es| == |z| && Short(z)
  {
    && (forall w :: w in passed ==> w < at && IsBatch(w, |es|))
    && (forall w :: 0 <= w < at && IsBatch(w, |es|) ==> Tested(g, b, es, z, w, w in passed))
    && (retried <==> exists w :: 0 <= w < at && Retried(es, passed, w))
  }

  /** Signature i counts as valid if it verifies or its batch passed. */
  ghost predicate Mark(verdicts: seq<bool>, passed: set<nat>, i: nat)
    requires i < |verdicts|
  {
    verdicts[i] || Start(i) in passed
  }

  /** Signatures before position at are marked, and bad records whether one is marked invalid. */
  ghost predicate MarkedTo(verdicts: seq<bool>, valid: seq<int>, at: nat, passed: set<nat>, bad: bool) {
    && at <= |verdicts| == |valid|
    && (forall i :: 0 <= i < at ==> valid[i] == if Mark(verdicts, passed, i) then 1 else 0)
    && (forall i :: at <= i < |valid| ==> valid[i] == 1)
    && (bad <==> exists i :: 0 <= i < |valid| && valid[i] == 0)
  }

  ghost function Verdicts(hash: Hash, b: CurvePoint, ins: seq<Input>): (v: seq<bool>)
    requires AreInputs(ins)
    ensures |v| == |ins| && forall i :: 0 <= i < |v| ==> (v[i] <==> Verdict(hash, b, ins[i]))
  {
    seq(|ins|, i requires 0 <= i < |ins| => Verdict(hash, b, ins[i]))
  }

  /** Verifying signatures at, ..., end-1 one by one. */
  method VerifyEach(hash: Hash, ins: seq<Input>, sliding: seq<Points.GeNiels>, ghost b: CurvePoint, valid: array<int>,
      at: nat, end: nat, bad0: bool) returns (bad: bool)
    requires IsHash(hash) && IsEd25519() && SlidingTable(sliding, b) && AreInputs(ins)
    requires at <= end <= |ins| == valid.Length
    modifies valid
    ensures forall i :: 0 <= i < valid.Length && !(at <= i < end) ==> valid[i] == old(valid[i])
    ensures forall i :: at <= i < end ==> valid[i] == if Verdict(hash, b, ins[i]) then 1 else 0
    ensures bad <==> bad0 || exists i :: at <= i < end && valid[i] == 0
  {
    hide IsHash, IsEd25519, SlidingTable, Accepts, OnCurve;
    bad := bad0;
    for i := at to end
      invariant forall k :: 0 <= k < valid.Length && !(at <= k < i) ==> valid[k] == old(valid[k])
      invariant forall k :: at <= k < i ==> valid[k] == if Verdict(hash, b, ins[k]) then 1 else 0
      invariant bad <==> bad0 || exists k :: at <= k < i && valid[k] == 0
    {
      assert IsInput(ins[i]);
      var ok := SignOpen(hash, ins[i].m, ins[i].pk, ins[i].rs, sliding, b);
      valid[i] := if ok then 1 else 0;
      bad := bad || valid[i] == 0;
    }
  }

  lemma StartOf(at: nat, i: nat)
    requires at % MAX_BATCH_SIZE == 0 && at <= i < at + MAX_BATCH_SIZE
    ensures Start(i) == at
  {
  }

  lemma StartBefore(at: nat, i: nat)
    requires i < at
    ensures Start(i) != at
  {
  }

  /** After verifying a stretch one by one. */
  lemma MarkedEach(verdicts: seq<bool>, v: seq<int>, w: seq<int>, at: nat, end: nat, passed: set<nat>, bad: bool,
      bad': bool)
    requires MarkedTo(verdicts, v, at, passed, bad) && at <= end <= |verdicts| == |w|
    requires at == end || (at % MAX_BATCH_SIZE == 0 && end <= at + MAX_BATCH_SIZE && at !in passed)
    requires forall i :: 0 <= i < |w| && !(at <= i < end) ==> w[i] == v[i]
    requires forall i :: at <= i < end ==> w[i] == if verdicts[i] then 1 else 0
    requires bad' <==> bad || exists i :: at <= i < end && w[i] == 0
    ensures MarkedTo(verdicts, w, end, passed, bad')
  {
    hide Start;
    forall i | at <= i < end
      ensures w[i] == if Mark(verdicts, passed, i) then 1 else 0
    {
      StartOf(at, i);
    }
    if i :| 0 <= i < |v| && v[i] == 0 {
      assert i < at;
      assert w[i] == 0;
    }
    if i :| at <= i < end && w[i] == 0 {
      assert w[i] == 0;
    }
    if i :| 0 <= i < |w| && w[i] == 0 {
      if i < at || i >= end {
        assert v[i] == 0;
      }
    }
  }

  /** After a batch that passed. */
  lemma MarkedPassed(verdicts: seq<bool>, v: seq<int>, at: nat, end: nat, passed: set<nat>, bad: bool)
    requires MarkedTo(verdicts, v, at, passed, bad) && at <= end <= |verdicts|
    requires at % MAX_BATCH_SIZE == 0 && end <= at + MAX_BATCH_SIZE
    ensures MarkedTo(verdicts, v, end, passed + {at}, bad)
  {
    hide Start;
    forall i | 0 <= i < end
      ensures v[i] == if Mark(verdicts, passed + {at}, i) then 1 else 0
    {
      if i < at {
        StartBefore(at, i);
      } else {
        StartOf(at, i);
      }
    }
  }

  lemma TestedNext(g: Group<CurvePoint>, b: CurvePoint, es: seq<Entry<CurvePoint>>, z: seq<int>, at: nat,
      passed: set<nat>, passed': set<nat>, retried: bool, pass: bool)
    requires |es| == |z| && Short(z) && IsBatch(at, |es|) && TestedTo(g, b, es, z, at, passed, retried)
    requires Tested(g, b, es, z, at, pass) && passed' == if pass then passed + {at} else passed
    ensures TestedTo(g, b, es, z, BatchEnd(at, |es|), passed', retried || (!pass && Decoded(Window(es, at))))
  {
    hide Tested, Decoded;
    var end := BatchEnd(at, |es|);
    assert at !in passed;
    forall w | 0 <= w < end && IsBatch(w, |es|)
      ensures w < at || w == at
    {
      OneStart(at, w, |es|);
    }
    forall w | 0 <= w < at
      ensures Retried(es, passed', w) <==> Retried(es, passed, w)
    {
    }
    if w :| 0 <= w < at && Retried(es, passed, w) {
      assert Retried(es, passed', w);
    }
    if !pass && Decoded(Window(es, at)) {
      assert Retried(es, passed', at);
    }
  }

  lemma OneStart(at: nat, w: nat, n: nat)
    requires IsBatch(at, n) && IsBatch(w, n) && w < BatchEnd(at, n)
    ensures w <= at
  {
  }

  /** All signatures satisfy their equations with points of order L, and no batch is stuck. */
  ghost predicate Balanced(g: Group<CurvePoint>, b: CurvePoint, es: seq<Entry<CurvePoint>>, z: seq<int>)
    requires |es| == |z| && Short(z)
  {
    && Decoded(es) && InSubgroup(g, b, es)
    && (forall i :: 0 <= i < |es| ==> Residual(g, b, es[i]) == g.zero)
    && forall at :: 0 <= at && IsBatch(at, |es|) ==> Flows(es, z, at)
  }

  /** The batch at position at is not stuck. */
  ghost predicate Flows(es: seq<Entry<CurvePoint>>, z: seq<int>, at: nat)
    requires |es| == |z| && Short(z) && IsBatch(at, |es|)
  {
    ShortWindow(z, at);
    !IsStuck(Window(es, at), Window(z, at))
  }

  /** A batch of balanced signatures passes. */
  lemma BalancedBatch(g: Group<CurvePoint>, b: CurvePoint, es: seq<Entry<CurvePoint>>, z: seq<int>, at: nat, pass: bool)
    requires IsAbelian(g) && |es| == |z| && Short(z) && Balanced(g, b, es, z)
    requires IsBatch(at, |es|) && Tested(g, b, es, z, at, pass)
    ensures pass
  {
    hide IsAbelian, Mul, Stuck, IsPrime, Residual, Loaded, OnCurve, Overruns, IsStuck, Formed, TestOutcome;
    var part, w := Window(es, at), Window(z, at);
    ShortWindow(z, at);
    assert Flows(es, z, at);
    assert forall e :: e in part ==> e in es;
    if Overruns(part, w) {
      OnlyStuckOverruns(part, w);
    }
    ValidPasses(g, b, part, w);
  }

  /** So nothing is retried, and everything that is in a batch is marked valid. */
  lemma BalancedResult(g: Group<CurvePoint>, b: CurvePoint, es: seq<Entry<CurvePoint>>, z: seq<int>,
      verdicts: seq<bool>, valid: seq<int>, passed: set<nat>, bad: bool, retried: bool)
    requires IsAbelian(g) && |es| == |z| == |verdicts| && Short(z) && Balanced(g, b, es, z)
    requires TestedTo(g, b, es, z, |es|, passed, retried) && MarkedTo(verdicts, valid, |es|, passed, bad)
    ensures !retried && forall i :: 0 <= i < |es| && (verdicts[i] || IsBatch(Start(i), |es|)) ==> valid[i] == 1
  {
    hide IsAbelian, OnCurve, Balanced, Decoded, Tested;
    if w :| 0 <= w < |es| && Retried(es, passed, w) {
      BalancedBatch(g, b, es, z, w, false);
    }
    forall i | 0 <= i < |es| && IsBatch(Start(i), |es|)
      ensures Start(i) in passed
    {
      BalancedBatch(g, b, es, z, Start(i), Start(i) in passed);
    }
  }

  lemma Begin(g: Group<CurvePoint>, b: CurvePoint, es: seq<Entry<CurvePoint>>, z: seq<int>, verdicts: seq<bool>,
      v: seq<int>)
    requires |es| == |z| == |verdicts| == |v| && Short(z) && forall k :: 0 <= k < |v| ==> v[k] == 1
    ensures MarkedTo(verdicts, v, 0, {}, false) && TestedTo(g, b, es, z, 0, {}, false)
  {
    hide Tested;
  }

  lemma BatchTested(g: Group<CurvePoint>, b: CurvePoint, hash: Hash, ins: seq<Input>, rnd: seq<seq<int>>, at: nat,
      pass: bool)
    requires AreInputs(ins) && |rnd| == |ins| && Randoms(rnd) && IsBatch(at, |ins|)
    requires AreInputs(Window(ins, at)) && Randoms(Window(rnd, at))
    requires var es, z := Entries(hash, Window(ins, at)), Weights(Window(rnd, at));
             && (pass ==> Decoded(es))
             && (Decoded(es) ==> TestOutcome(g, b, es, z, pass))
             && (InSubgroup(g, b, es) && !Overruns(es, z) ==> (pass <==> Passes(g, b, es, z)))
    ensures Tested(g, b, Entries(hash, ins), Weights(rnd), at, pass)
    ensures Entries(hash, Window(ins, at)) == Window(Entries(hash, ins), at)
  {
    hide Passes, Overruns, InSubgroup, Decoded, EntryOf, IsInput, TestOutcome;
    EntriesSlice(hash, ins, at, BatchEnd(at, |ins|));
    WeightsWindow(rnd, at);
  }

  lemma VerdictsAre(hash: Hash, b: CurvePoint, ins: seq<Input>)
    requires AreInputs(ins)
    ensures |Verdicts(hash, b, ins)| == |ins|
    ensures forall i :: 0 <= i < |ins| ==> (Verdicts(hash, b, ins)[i] <==> Verdict(hash, b, ins[i]))
  {
    hide Verdict, IsInput;
  }

  lemma NotInPassed(g: Group<CurvePoint>, b: CurvePoint, es: seq<Entry<CurvePoint>>, z: seq<int>, at: nat,
      passed: set<nat>, retried: bool)
    requires |es| == |z| && Short(z) && TestedTo(g, b, es, z, at, passed, retried)
    ensures at !in passed
  {
  }

  lemma LastTested(g: Group<CurvePoint>, b: CurvePoint, es: seq<Entry<CurvePoint>>, z: seq<int>, at: nat,
      passed: set<nat>, retried: bool)
    requires |es| == |z| && Short(z) && at <= |es| <= at + 3 && TestedTo(g, b, es, z, at, passed, retried)
    ensures TestedTo(g, b, es, z, |es|, passed, retried)
  {
    hide Tested, Decoded;
    assert forall w :: 0 <= w && IsBatch(w, |es|) ==> w < at;
  }

  lemma Finished(g: Group<CurvePoint>, b: CurvePoint, es: seq<Entry<CurvePoint>>, z: seq<int>, verdicts: seq<bool>,
      v: seq<int>, passed: set<nat>, bad: bool, retried: bool)
    requires |es| == |z| == |verdicts| && Short(z)
    requires MarkedTo(verdicts, v, |es|, passed, bad) && TestedTo(g, b, es, z, |es|, passed, retried)
    ensures forall i :: 0 <= i < |es| ==> v[i] == if verdicts[i] || i / 64 * 64 in passed then 1 else 0
    ensures forall at :: at in passed ==> at % 64 == 0 && at + 3 < |es|
    ensures forall at :: 0 <= at && at % 64 == 0 && at + 3 < |es| ==> Tested(g, b, es, z, at, at in passed)
    ensures bad <==> exists i :: 0 <= i < |es| && v[i] == 0
    ensures retried <==> exists at :: 0 <= at && at % 64 == 0 && at + 3 < |es| && at !in passed
                                    && Decoded(Window(es, at))
  {
    hide Tested, Start, Decoded, Window;
    forall i | 0 <= i < |es|
      ensures v[i] == if verdicts[i] || i / 64 * 64 in passed then 1 else 0
    {
      StartIs(i);
    }
    if at :| 0 <= at && at % 64 == 0 && at + 3 < |es| && at !in passed && Decoded(Window(es, at)) {
      assert Retried(es, passed, at);
    }
  }

  lemma StartIs(i: nat)
    ensures Start(i) == i / 64 * 64
  {
  }

  /** One pass of the outer loop. */
  method OneBatch(g: Group<CurvePoint>, b: CurvePoint, hash: Hash, ins: seq<Input>, rnd: seq<seq<int>>,
      sliding: seq<Points.GeNiels>, valid: array<int>, at: nat, bad0: bool, retried0: bool, ghost passed: set<nat>)
    returns (end: nat, pass: bool, bad: bool, retried: bool)
    requires Arithmetic(g) && IsHash(hash) && SlidingTable(sliding, b) && AreInputs(ins)
    requires |rnd| == |ins| == valid.Length && Randoms(rnd) && IsBatch(at, |ins|)
    requires MarkedTo(Verdicts(hash, b, ins), valid[..], at, passed, bad0)
    requires TestedTo(g, b, Entries(hash, ins), Weights(rnd), at, passed, retried0)
    modifies valid
    ensures end == BatchEnd(at, |ins|)
    ensures var passed' := if pass then passed + {at} else passed;
            && MarkedTo(Verdicts(hash, b, ins), valid[..], end, passed', bad)
            && TestedTo(g, b, Entries(hash, ins), Weights(rnd), end, passed', retried)
  {
    hide Arithmetic, IsAbelian, IsEd25519, IsHash, OnCurve, SlidingTable, Tested, TestedTo, MarkedTo, Weights, Randoms,
        AreInputs, Entries, Verdicts, Verdict, Passes, Overruns, InSubgroup, Decoded, TestOutcome;
    ghost var es, z, verdicts := Entries(hash, ins), Weights(rnd), Verdicts(hash, b, ins);
    ArithmeticIs(g);
    end := BatchEnd(at, |ins|);
    EntriesSlice(hash, ins, at, end);
    WeightsWindow(rnd, at);
    var decoded, neutral := CheckBatch(g, b, hash, ins[at..end], rnd[at..end]);
    pass := decoded && neutral;
    retried := retried0 || (decoded && !neutral);
    BatchTested(g, b, hash, ins, rnd, at, pass);
    TestedNext(g, b, es, z, at, passed, if pass then passed + {at} else passed, retried0, pass);
    bad := bad0;
    if pass {
      MarkedPassed(verdicts, valid[..], at, end, passed, bad);
    } else {
      ghost var v := valid[..];
      NotInPassed(g, b, es, z, at, passed, retried0);
      bad := VerifyEach(hash, ins, sliding, b, valid, at, end, bad);
      VerdictsAre(hash, b, ins);
      MarkedEach(verdicts, v, valid[..], at, end, passed, bad0, bad);
    }
  }

  /** ed25519_sign_open_batch: valid[i] and the return value, bit 0 for a signature marked invalid and bit 1 for a batch
      that was decoded and had to be verified one by one after its test failed. */
  method SignOpenBatch(g: Group<CurvePoint>, b: CurvePoint, hash: Hash, ins: seq<Input>, rnd: seq<seq<int>>,
      sliding: seq<Points.GeNiels>, valid: array<int>) returns (ret: int, ghost passed: set<nat>)
    requires Arithmetic(g) && IsHash(hash) && SlidingTable(sliding, b) && AreInputs(ins)
    requires |rnd| == |ins| == valid.Length && Randoms(rnd)
    modifies valid
    ensures forall i :: 0 <= i < |ins| ==>
              valid[i] == if Verdict(hash, b, ins[i]) || i / 64 * 64 in passed then 1 else 0
    ensures forall at :: at in passed ==> at % 64 == 0 && at + 3 < |ins|
    ensures forall at :: 0 <= at && at % 64 == 0 && at + 3 < |ins| ==>
              Tested(g, b, Entries(hash, ins), Weights(rnd), at, at in passed)
    ensures 0 <= ret < 4 && (ret % 2 == 1 <==> exists i :: 0 <= i < |ins| && valid[i] == 0)
    ensures ret >= 2 <==> exists at :: 0 <= at && at % 64 == 0 && at + 3 < |ins| && at !in passed
                                    && Decoded(Window(Entries(hash, ins), at))
    ensures Balanced(g, b, Entries(hash, ins), Weights(rnd)) ==>
              ret < 2 && forall i :: 0 <= i < |ins| && IsBatch(Start(i), |ins|) ==> valid[i] == 1
  {
    hide Arithmetic, IsAbelian, IsEd25519, IsHash, OnCurve, SlidingTable, Balanced, Tested, TestedTo, MarkedTo, Weights,
        Randoms, AreInputs, Entries, Verdicts, Verdict, Start;
    var n := |ins|;
    ghost var es, z, verdicts := Entries(hash, ins), Weights(rnd), Verdicts(hash, b, ins);
    ArithmeticIs(g);
    for i := 0 to n
      invariant forall k :: 0 <= k < i ==> valid[k] == 1
    {
      valid[i] := 1;
    }
    var bad, retried, at := false, false, 0;
    passed := {};
    Begin(g, b, es, z, verdicts, valid[..]);
    while n - at > 3
      invariant 0 <= at <= n && (at == n || at % MAX_BATCH_SIZE == 0)
      invariant MarkedTo(verdicts, valid[..], at, passed, bad) && TestedTo(g, b, es, z, at, passed, retried)
    {
      var end, pass;
      end, pass, bad, retried := OneBatch(g, b, hash, ins, rnd, sliding, valid, at, bad, retried, passed);
      passed := if pass then passed + {at} else passed;
      at := end;
    }
    ghost var v, bad0 := valid[..], bad;
    NotInPassed(g, b, es, z, at, passed, retried);
    bad := VerifyEach(hash, ins, sliding, b, valid, at, n, bad);
    VerdictsAre(hash, b, ins);
    MarkedEach(verdicts, v, valid[..], at, n, passed, bad0, bad);
    LastTested(g, b, es, z, at, passed, retried);
    ret := (if bad then 1 else 0) + (if retried then 2 else 0);
    Finished(g, b, es, z, verdicts, valid[..], passed, bad, retried);
    if Balanced(g, b, es, z) {
      BalancedResult(g, b, es, z, verdicts, valid[..], passed, bad, retried);
    }
  }
}
