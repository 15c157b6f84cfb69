/** What batch verification decides about signatures, compared with verifying them one by one. */
module BatchTheorems {
  import opened Arith
  import opened Bytes
  import opened Groups
  import opened Congruence
  import opened EdwardsCurve
  import opened EdwardsGroup
  import opened BatchEquation
  import opened BatchVerify
  import opened PointCodec
  import opened Ladder
  import opened BaseMult
  import opened Signatures
  import opened Rfc8032
  import Points
  import Modm

  // ---- one signature ----

  lemma DecodedValue(p: seq<int>)
    requires |p| == 32 && DecodedAs(p).Some?
    ensures Decodes(p, DecodedAs(p).value)
  {
    hide Decodes, OnCurve;
  }

  /** [h]a + [S]b with the scalars reduced or not. */
  lemma UnreducedBoth(h: seq<int>, a: CurvePoint, s: seq<int>, b: CurvePoint)
    requires IsEd25519() && Times(Modm.L, a) == Affine(0, 1) && Times(Modm.L, b) == Affine(0, 1)
    ensures Both(Scalar(h), a, Scalar(s), b) == Plus(Times(LeValue(s), b), Times(LeValue(h), a))
  {
    hide IsEd25519, OnCurve, Mul, IsAbelian, LeFrom;
    ReducedChallenge(LeValue(h), a);
    ReducedChallenge(LeValue(s), b);
    CurveGroup();
    Comm(Ed25519(), Times(LeValue(s), b), Times(LeValue(h), a));
  }

  /** q + r is neutral exactly if q is the negative of r. */
  lemma OppositeIff(q: CurvePoint, r: CurvePoint)
    requires IsEd25519()
    ensures Plus(q, r) == Affine(0, 1) <==> q == NegAffine(r)
  {
    hide IsEd25519, OnCurve, IsAbelian;
    CurveGroup();
    var g := Ed25519();
    NegPointIs(r);
    Neg(g, r);
    if Plus(q, r) == g.zero {
      Cancel(g, q, g.neg(r), r);
    }
  }

  /** For points of order L, a signature whose points decode verifies exactly if its residual vanishes, S is below 2^253
      and R is canonical. The batch tests the residual only. */
  lemma VerdictIff(hash: Hash, b: CurvePoint, x: Input)
    requires IsEd25519() && IsInput(x) && Times(Modm.L, b) == Affine(0, 1)
    requires EntryOf(hash, x).a.Some? && EntryOf(hash, x).r.Some?
    requires Times(Modm.L, EntryOf(hash, x).a.value) == Affine(0, 1)
    ensures Verdict(hash, b, x)
       <==> x.rs[63] < 32 && IsCanonical(x.rs[..32]) && Residual(Ed25519(), b, EntryOf(hash, x)) == Affine(0, 1)
  {
    hide IsEd25519, OnCurve, IsPrime, NonSquare, Accepts, Decodes, DecodedAs, IsEncoding, IsCanonical, LeFrom, Mul,
        Both, Scalar;
    CurveFacts();
    var e := EntryOf(hash, x);
    var a, r, rb := e.a.value, e.r.value, x.rs[..32];
    DecodedValue(x.pk);
    DecodedValue(rb);
    var q := Plus(Times(LeValue(e.s), b), Times(LeValue(e.hram), a));
    UnreducedBoth(e.hram, a, e.s, b);
    OppositeIff(q, r);
    DecodedIsEncoding(rb, r);
    if IsEncoding(rb, q) {
      UnpackOfPack(rb, q, r);
      NegTwice(q);
    }
    if x.rs[63] < 32 {
      OneDecoding(hash, x.m, x.pk, x.rs, a, b);
    } else {
      Rejected(hash, x.m, x.pk, x.rs, b);
    }
  }

  /** x is a message with the public key and the signature that belong to the secret key sk. */
  ghost predicate MadeBy(hash: Hash, sk: seq<int>, b: CurvePoint, x: Input)
    requires IsHash(hash)
  {
    && IsBytes(sk) && IsInput(x)
    && IsEncoding(x.pk, Times(SecretScalar(hash, sk), b)) && IsEncoding(x.rs[..32], Times(Nonce(hash, sk, x.m), b))
    && LeValue(x.rs[32..])
       == Response(Challenge(hash, x.rs[..32], x.pk, x.m), SecretScalar(hash, sk), Nonce(hash, sk, x.m)) < Modm.L
  }

  /** The encoding of a multiple of b decodes to the negative of that multiple, which has the order of b. */
  lemma MultipleDecodes(p: seq<int>, k: int, b: CurvePoint)
    requires IsEd25519() && Times(Modm.L, b) == Affine(0, 1) && |p| == 32 && IsBytes(p) && IsEncoding(p, Times(k, b))
    ensures DecodedAs(p) == Some(Times(-k, b)) && Times(Modm.L, Times(-k, b)) == Affine(0, 1)
  {
    hide IsEd25519, OnCurve, IsPrime, NonSquare, Decodes, DecodedAs, IsEncoding, Mul, IsAbelian;
    CurveFacts();
    CurveGroup();
    NegatedKey(k, b);
    UnpackOfPack(p, Times(k, b), Times(-k, b));
    DecodedIs(p, Times(-k, b));
    MulKilled(Ed25519(), Modm.L, -k, b);
  }

  /** A signature by the matching key: both points decode and have order L, it verifies, and its residual vanishes. */
  lemma SignedEntry(hash: Hash, sk: seq<int>, b: CurvePoint, x: Input)
    requires IsEd25519() && IsHash(hash) && Times(Modm.L, b) == Affine(0, 1) && MadeBy(hash, sk, b, x)
    ensures var e := EntryOf(hash, x);
            && e.a.Some? && e.r.Some? && Verdict(hash, b, x)
            && Times(Modm.L, e.a.value) == Affine(0, 1) && Times(Modm.L, e.r.value) == Affine(0, 1)
            && Residual(Ed25519(), b, e) == Affine(0, 1)
  {
    hide IsEd25519, IsHash, OnCurve, DecodedAs, IsEncoding, Mul, Accepts, SecretScalar, Nonce, Challenge, Response,
        LeFrom, Residual, IsCanonical;
    MultipleDecodes(x.pk, SecretScalar(hash, sk), b);
    MultipleDecodes(x.rs[..32], Nonce(hash, sk, x.m), b);
    SignedIsAccepted(hash, x.m, sk, x.pk, x.rs, b);
    VerdictIff(hash, b, x);
  }

  /** The points of the signature decode and have order L, and its residual vanishes. */
  ghost predicate IsBalanced(hash: Hash, b: CurvePoint, x: Input)
    requires IsInput(x)
  {
    var e := EntryOf(hash, x);
    && e.a.Some? && e.r.Some? && Residual(Ed25519(), b, e) == Affine(0, 1)
    && Times(Modm.L, e.a.value) == Affine(0, 1) && Times(Modm.L, e.r.value) == Affine(0, 1)
  }

  // ---- signatures that only a batch accepts ----

  /** The same signature with S + 2L, which is 2^253 or more. */
  function WithLargeS(x: Input): Input
    requires |x.rs| == 64
  {
    Input(x.m, x.pk, x.rs[..32] + Bytes32(LeValue(x.rs[32..]) + 2 * Modm.L))
  }

  /** It does not verify, but it is balanced. */
  lemma LargeSOnlyInBatch(hash: Hash, sk: seq<int>, b: CurvePoint, x: Input)
    requires IsEd25519() && IsHash(hash) && Times(Modm.L, b) == Affine(0, 1) && MadeBy(hash, sk, b, x)
    ensures IsInput(WithLargeS(x)) && !Verdict(hash, b, WithLargeS(x)) && IsBalanced(hash, b, WithLargeS(x))
  {
    hide IsEd25519, IsHash, OnCurve, DecodedAs, IsEncoding, Mul, Accepts, SecretScalar, Nonce, Challenge, Response,
        LeFrom, IsCanonical, Bytes32, IsAbelian;
    var s := LeValue(x.rs[32..]);
    LeNonnegative(x.rs[32..], 0);
    Bytes32Is(s + 2 * Modm.L);
    var y := WithLargeS(x);
    assert y.rs[..32] == x.rs[..32] && y.rs[32..] == Bytes32(s + 2 * Modm.L);
    Rejected(hash, y.m, y.pk, y.rs, b);
    SignedEntry(hash, sk, b, x);
    CurveGroup();
    MulModOrder(Ed25519(), Modm.L, s, 2, b);
  }

  /** S = 0 under the key (0, 1), with the bytes of p + 1 for R = (0, 1). */
  function WithLargeR(m: seq<int>): Input {
    Input(m, Bytes32(1), Bytes32(PRIME + 1) + Bytes32(0))
  }

  /** It does not verify for any hash, because R is not canonical, but it is balanced. */
  lemma LargeROnlyInBatch(hash: Hash, b: CurvePoint, m: seq<int>)
    requires IsEd25519() && Times(Modm.L, b) == Affine(0, 1) && IsBytes(m)
    ensures IsInput(WithLargeR(m)) && !Verdict(hash, b, WithLargeR(m)) && IsBalanced(hash, b, WithLargeR(m))
  {
    hide IsEd25519, OnCurve, Decodes, DecodedAs, Encoding, Mul, Accepts, LeFrom, Bytes32, IsAbelian;
    var x := WithLargeR(m);
    Bytes32Is(0);
    Bytes32Is(1);
    Bytes32Is(PRIME + 1);
    assert x.rs[..32] == Bytes32(PRIME + 1) && x.rs[32..] == Bytes32(0);
    CurveFacts();
    NeutralDecodes(x.pk, 1);
    NeutralDecodes(x.rs[..32], PRIME + 1);
    NeutralResidual(hash, b, x);
    NeutralTimes(Modm.L);
    DivSmall(PRIME + 1, TWO255);
    VerdictIff(hash, b, x);
  }

  lemma NeutralTimes(k: int)
    requires IsEd25519()
    ensures OnCurve(Affine(0, 1)) && Times(k, Affine(0, 1)) == Affine(0, 1)
  {
    hide IsEd25519, OnCurve, Mul, IsAbelian;
    ZeroOnCurve();
    CurveGroup();
    MulZeroPoint(Ed25519(), k);
  }

  /** The bytes of 1 and of p + 1 decode to (0, 1). */
  lemma NeutralDecodes(p: seq<int>, y: int)
    requires IsEd25519() && |p| == 32 && IsBytes(p) && LeValue(p) == y && (y == 1 || y == PRIME + 1)
    ensures OnCurve(Affine(0, 1)) && DecodedAs(p) == Some(Ed25519().zero)
  {
    hide IsEd25519, OnCurve, DecodedAs, LeFrom;
    ZeroOnCurve();
    CurveFacts();
    DivSmall(y, TWO255);
    ResidueIs(y);
    DivUnique(y, PRIME, if y == 1 then 0 else 1, 1);
    DecodedIs(p, Affine(0, 1));
  }

  /** With S = 0 under the key (0, 1) the residual is -R. */
  lemma NeutralResidual(hash: Hash, b: CurvePoint, x: Input)
    requires IsEd25519() && IsInput(x) && EntryOf(hash, x).a == Some(Ed25519().zero) && EntryOf(hash, x).r.Some?
    requires LeValue(x.rs[32..]) == 0
    ensures Residual(Ed25519(), b, EntryOf(hash, x)) == EntryOf(hash, x).r.value
  {
    hide IsEd25519, OnCurve, IsAbelian, Mul, DecodedAs, LeFrom;
    CurveGroup();
    var g, e := Ed25519(), EntryOf(hash, x);
    MulNone(g, b);
    MulZeroPoint(g, LeValue(e.hram));
    Zero(g, g.zero);
    Zero(g, e.r.value);
  }

  // ---- signatures by matching keys pass ----

  ghost predicate AllMadeBy(hash: Hash, sks: seq<seq<int>>, b: CurvePoint, ins: seq<Input>)
    requires IsHash(hash)
  {
    |sks| == |ins| && forall i :: 0 <= i < |ins| ==> MadeBy(hash, sks[i], b, ins[i])
  }

  lemma AllMadeAreInputs(hash: Hash, sks: seq<seq<int>>, b: CurvePoint, ins: seq<Input>)
    requires IsHash(hash) && AllMadeBy(hash, sks, b, ins)
    ensures AreInputs(ins)
  {
    hide IsInput, IsEncoding, IsHash;
  }

  lemma AllBalanced(hash: Hash, b: CurvePoint, ins: seq<Input>, z: seq<int>)
    requires IsEd25519() && IsPrime(Modm.L) && Times(Modm.L, b) == Affine(0, 1)
    requires AreInputs(ins) && |z| == |ins| && Short(z) && forall i :: 0 <= i < |ins| ==> IsBalanced(hash, b, ins[i])
    requires forall at :: 0 <= at && IsBatch(at, |ins|) ==> Flows(Entries(hash, ins), z, at)
    ensures Balanced(Ed25519(), b, Entries(hash, ins), z)
  {
    hide IsEd25519, OnCurve, IsPrime, Mul, Residual, EntryOf, Flows, IsInput;
    var es := Entries(hash, ins);
    forall i | 0 <= i < |ins|
      ensures es[i].a.Some? && es[i].r.Some? && Residual(Ed25519(), b, es[i]) == Affine(0, 1)
      ensures Times(Modm.L, es[i].a.value) == Affine(0, 1) && Times(Modm.L, es[i].r.value) == Affine(0, 1)
    {
      assert IsBalanced(hash, b, ins[i]);
    }
  }

  /** Any list of signatures by matching keys is balanced and verifies, if no batch of it is stuck. */
  lemma SignedIsGood(hash: Hash, sks: seq<seq<int>>, b: CurvePoint, ins: seq<Input>, z: seq<int>)
    requires IsEd25519() && IsHash(hash) && IsPrime(Modm.L) && Times(Modm.L, b) == Affine(0, 1)
    requires AllMadeBy(hash, sks, b, ins) && AreInputs(ins) && |z| == |ins| && Short(z)
    requires forall at :: 0 <= at && IsBatch(at, |ins|) ==> Flows(Entries(hash, ins), z, at)
    ensures Balanced(Ed25519(), b, Entries(hash, ins), z) && forall i :: 0 <= i < |ins| ==> Verdict(hash, b, ins[i])
  {
    hide IsEd25519, IsHash, OnCurve, IsPrime, Mul, Residual, Verdict, MadeBy, EntryOf, Flows, IsInput;
    forall i | 0 <= i < |ins|
      ensures IsBalanced(hash, b, ins[i]) && Verdict(hash, b, ins[i])
    {
      SignedEntry(hash, sks[i], b, ins[i]);
    }
    AllBalanced(hash, b, ins, z);
  }

  /** Key generation and signing for a list of messages, and then batch verification: nothing is rejected or retried,
      unless a batch is stuck. */
  method SignThenOpenBatch(g: Group<CurvePoint>, b: CurvePoint, hash: Hash, sks: seq<seq<int>>, ms: seq<seq<int>>,
      table: seq<seq<int>>, sliding: seq<Points.GeNiels>, rnd: seq<seq<int>>, valid: array<int>)
    returns (ins: seq<Input>, ret: int)
    requires Arithmetic(g) && IsHash(hash) && Setting(b, table, sliding) && IsPrime(Modm.L)
    requires |sks| == |ms| == |rnd| == valid.Length && Randoms(rnd)
    requires forall i :: 0 <= i < |ms| ==> IsBytes(sks[i]) && IsBytes(ms[i])
    modifies valid
    ensures |ins| == |ms| && AreInputs(ins) && forall i :: 0 <= i < |ms| ==> ins[i].m == ms[i]
    ensures forall i :: 0 <= i < |ms| ==> valid[i] == 1
    ensures (forall at :: 0 <= at && IsBatch(at, |ins|) ==> Flows(Entries(hash, ins), Weights(rnd), at)) ==> ret == 0
  {
    hide IsEd25519, IsHash, OnCurve, IsPrime, BaseTable, SlidingTable, Encoding, LeFrom, SecretScalar, Nonce, Challenge,
        Response, Times, Tested, Balanced, Verdict, Flows, Weights, Randoms, Entries, Start;
    ins := [];
    for i := 0 to |ms|
      invariant |ins| == i && AllMadeBy(hash, sks[..i], b, ins) && forall k :: 0 <= k < i ==> ins[k].m == ms[k]
    {
      var pk := PublicKey(hash, sks[i], table, b);
      var rs := Sign(hash, ms[i], sks[i], pk, table, b);
      ins := ins + [Input(ms[i], pk, rs)];
    }
    assert sks[..|ms|] == sks;
    AllMadeAreInputs(hash, sks, b, ins);
    AllVerify(hash, sks, b, ins);
    ghost var passed;
    ret, passed := SignOpenBatch(g, b, hash, ins, rnd, sliding, valid);
    if forall at :: 0 <= at && IsBatch(at, |ins|) ==> Flows(Entries(hash, ins), Weights(rnd), at) {
      SignedIsGood(hash, sks, b, ins, Weights(rnd));
    }
  }

  lemma AllVerify(hash: Hash, sks: seq<seq<int>>, b: CurvePoint, ins: seq<Input>)
    requires IsEd25519() && IsHash(hash) && Times(Modm.L, b) == Affine(0, 1) && AllMadeBy(hash, sks, b, ins)
    requires AreInputs(ins)
    ensures forall i :: 0 <= i < |ins| ==> Verdict(hash, b, ins[i])
  {
    hide IsEd25519, IsHash, OnCurve, Verdict, MadeBy, Times, IsInput, EntryOf, Residual;
    forall i | 0 <= i < |ins|
      ensures Verdict(hash, b, ins[i])
    {
      SignedEntry(hash, sks[i], b, ins[i]);
    }
  }

  /** Replacing one of these signatures by any balanced one that does not verify: in a batch that is not stuck it is
      marked valid. */
  method OpenReplaced(g: Group<CurvePoint>, b: CurvePoint, hash: Hash, sks: seq<seq<int>>, ins: seq<Input>, i: nat,
      y: Input, rnd: seq<seq<int>>, sliding: seq<Points.GeNiels>, valid: array<int>) returns (ret: int)
    requires Arithmetic(g) && IsHash(hash) && SlidingTable(sliding, b) && IsPrime(Modm.L)
    requires Times(Modm.L, b) == Affine(0, 1) && AllMadeBy(hash, sks, b, ins)
    requires |rnd| == |ins| == valid.Length && Randoms(rnd) && i < |ins| && IsBatch(Start(i), |ins|)
    requires IsInput(y) && IsBalanced(hash, b, y) && AreInputs(ins[i := y])
    requires forall at :: 0 <= at && IsBatch(at, |ins|) ==> Flows(Entries(hash, ins[i := y]), Weights(rnd), at)
    modifies valid
    ensures ret == 0 && forall k :: 0 <= k < |ins| ==> valid[k] == 1
  {
    hide IsEd25519, IsHash, OnCurve, IsPrime, SlidingTable, Mul, Residual, Verdict, MadeBy, EntryOf, Flows, IsInput,
        Weights, Randoms, Entries, Start, Tested, Balanced;
    ghost var passed;
    var all := ins[i := y];
    forall k | 0 <= k < |all|
      ensures IsBalanced(hash, b, all[k]) && (k != i ==> Verdict(hash, b, all[k]))
    {
      if k != i {
        SignedEntry(hash, sks[k], b, ins[k]);
      }
    }
    AllBalanced(hash, b, all, Weights(rnd));
    ret, passed := SignOpenBatch(g, b, hash, all, rnd, sliding, valid);
  }

  /** A signature with S + 2L among others: it is marked valid, and it does not verify. */
  method LargeSRun(g: Group<CurvePoint>, b: CurvePoint, hash: Hash, sks: seq<seq<int>>, ins: seq<Input>, i: nat,
      rnd: seq<seq<int>>, sliding: seq<Points.GeNiels>, valid: array<int>) returns (y: Input, ret: int)
    requires Arithmetic(g) && IsHash(hash) && SlidingTable(sliding, b) && IsPrime(Modm.L)
    requires Times(Modm.L, b) == Affine(0, 1) && AllMadeBy(hash, sks, b, ins) && i < |ins|
    requires |rnd| == |ins| == valid.Length && Randoms(rnd) && IsBatch(Start(i), |ins|)
    requires IsInput(ins[i]) && AreInputs(ins[i := WithLargeS(ins[i])])
    requires forall at :: 0 <= at && IsBatch(at, |ins|) ==>
               Flows(Entries(hash, ins[i := WithLargeS(ins[i])]), Weights(rnd), at)
    modifies valid
    ensures ret == 0 && valid[i] == 1 && y == WithLargeS(ins[i]) && IsInput(y) && !Verdict(hash, b, y)
  {
    hide IsEd25519, IsHash, OnCurve, IsPrime, SlidingTable, Times, Verdict, MadeBy, Flows, Weights, Randoms,
        Entries, Start, WithLargeS, IsBalanced;
    ArithmeticIs(g);
    assert MadeBy(hash, sks[i], b, ins[i]);
    LargeSOnlyInBatch(hash, sks[i], b, ins[i]);
    y := WithLargeS(ins[i]);
    ret := OpenReplaced(g, b, hash, sks, ins, i, y, rnd, sliding, valid);
  }

  /** The same for an R that is not canonical. */
  method LargeRRun(g: Group<CurvePoint>, b: CurvePoint, hash: Hash, sks: seq<seq<int>>, ins: seq<Input>, i: nat,
      m: seq<int>, rnd: seq<seq<int>>, sliding: seq<Points.GeNiels>, valid: array<int>) returns (y: Input, ret: int)
    requires Arithmetic(g) && IsHash(hash) && SlidingTable(sliding, b) && IsPrime(Modm.L) && IsBytes(m)
    requires Times(Modm.L, b) == Affine(0, 1) && AllMadeBy(hash, sks, b, ins) && i < |ins|
    requires |rnd| == |ins| == valid.Length && Randoms(rnd) && IsBatch(Start(i), |ins|)
    requires AreInputs(ins[i := WithLargeR(m)])
    requires forall at :: 0 <= at && IsBatch(at, |ins|) ==>
               Flows(Entries(hash, ins[i := WithLargeR(m)]), Weights(rnd), at)
    modifies valid
    ensures ret == 0 && valid[i] == 1 && y == WithLargeR(m) && IsInput(y) && !Verdict(hash, b, y)
  {
    hide IsEd25519, IsHash, OnCurve, IsPrime, SlidingTable, Times, Verdict, MadeBy, Flows, IsInput, Weights, Randoms,
        Entries, Start, WithLargeR, IsBalanced;
    ArithmeticIs(g);
    LargeROnlyInBatch(hash, b, m);
    y := WithLargeR(m);
    ret := OpenReplaced(g, b, hash, sks, ins, i, y, rnd, sliding, valid);
  }

  // ---- a stuck batch ----

  /** S = 0 under the key (0, 1), with R the encoding of b. */
  function WrongInput(m: seq<int>, enc: seq<int>): Input {
    Input(m, Bytes32(1), enc + Bytes32(0))
  }

  ghost predicate AreWrong(ins: seq<Input>, enc: seq<int>) {
    |ins| == 4 && forall i :: 0 <= i < 4 ==> IsBytes(ins[i].m) && ins[i] == WrongInput(ins[i].m, enc)
  }

  /** Whatever the hash is, the residual of such a signature is -b, and it does not verify. */
  lemma WrongInputIs(hash: Hash, b: CurvePoint, m: seq<int>, enc: seq<int>)
    requires IsEd25519() && Times(Modm.L, b) == Affine(0, 1) && b != Affine(0, 1) && IsEncoding(enc, b) && IsBytes(m)
    ensures OnCurve(Affine(0, 1)) && IsInput(WrongInput(m, enc))
    ensures var x := WrongInput(m, enc); var e := EntryOf(hash, x);
            && LeValue(e.s) == 0 && e.a == Some(Ed25519().zero) && e.r == Some(Times(-1, b)) && !Verdict(hash, b, x)
            && Times(Modm.L, Affine(0, 1)) == Affine(0, 1) && Times(Modm.L, Times(-1, b)) == Affine(0, 1)
            && Residual(Ed25519(), b, e) == Times(-1, b) != Affine(0, 1)
  {
    hide IsEd25519, OnCurve, IsAbelian, DecodedAs, Encoding, Mul, Accepts, IsCanonical, LeFrom, Bytes32;
    var x := WrongInput(m, enc);
    Bytes32Is(0);
    Bytes32Is(1);
    assert x.rs[..32] == enc && x.rs[32..] == Bytes32(0);
    CurveGroup();
    MulOne(Ed25519(), b);
    NeutralDecodes(x.pk, 1);
    MultipleDecodes(enc, 1, b);
    NeutralResidual(hash, b, x);
    NeutralTimes(Modm.L);
    VerdictIff(hash, b, x);
    NotNeutral(b);
  }

  lemma NotNeutral(b: CurvePoint)
    requires IsEd25519() && b != Affine(0, 1)
    ensures Times(-1, b) != Affine(0, 1)
  {
    hide IsEd25519, OnCurve, IsAbelian, Mul;
    CurveGroup();
    var g := Ed25519();
    MulOne(g, b);
    MulNeg(g, 1, b);
    NegNeg(g, b);
    NegZero(g);
  }

  /** If only the first weight is not zero, the whole sum is [w](-b). */
  lemma LoneWeighted(g: Group<CurvePoint>, b: CurvePoint, es: seq<Entry<CurvePoint>>, z: seq<int>, r: CurvePoint,
      n: nat)
    requires IsAbelian(g) && Decoded(es) && 0 < n <= |es| == |z| && Residual(g, b, es[0]) == r
    requires forall i :: 0 < i < |z| ==> z[i] == 0
    ensures Weighted(g, b, es, z, n) == Mul(g, z[0], r)
    decreases n
  {
    hide IsAbelian, Mul, Residual, OnCurve;
    if n == 1 {
      assert Weighted(g, b, es, z, 0) == g.zero;
      Zero(g, Mul(g, z[0], r));
    } else {
      LoneWeighted(g, b, es, z, r, n - 1);
      MulNone(g, Residual(g, b, es[n - 1]));
      Zero(g, Mul(g, z[0], r));
    }
  }

  /** Only the first weight is not zero, and its product with the challenge is not a multiple of 2^224 modulo L. */
  ghost predicate LoneWeight(z: seq<int>, e: Entry<CurvePoint>) {
    |z| == 4 && z[0] > 0 && z[1] == z[2] == z[3] == 0 && !TooEven(z[0] * LeValue(e.hram))
  }

  /** The whole weighted sum is not neutral. */
  ghost predicate IsUnbalanced(g: Group<CurvePoint>, b: CurvePoint, es: seq<Entry<CurvePoint>>, z: seq<int>) {
    Decoded(es) && |es| == |z| && Weighted(g, b, es, z, |es|) != g.zero
  }

  /** There is such a weight for every challenge. */
  lemma LoneWeightExists(e: Entry<CurvePoint>) returns (z: seq<int>)
    ensures Short(z) && LoneWeight(z, e)
  {
    hide TooEven, LeValue;
    var w := GoodWeight(LeValue(e.hram));
    z := [w, 0, 0, 0];
  }

  lemma WrongBatch(g: Group<CurvePoint>, b: CurvePoint, hash: Hash, ins: seq<Input>, enc: seq<int>, z: seq<int>)
    requires Arithmetic(g) && IsPrime(Modm.L) && Times(Modm.L, b) == Affine(0, 1) && b != Affine(0, 1)
    requires IsEncoding(enc, b) && AreWrong(ins, enc) && AreInputs(ins)
    requires Short(z) && LoneWeight(z, EntryOf(hash, ins[0]))
    ensures var es := Entries(hash, ins);
            && |es| == 4 && IsStuck(es, z) && !Overruns(es, z)
            && Passes(g, b, es, z) && InSubgroup(g, b, es) && IsUnbalanced(g, b, es, z)
    ensures forall i :: 0 <= i < 4 ==> !Verdict(hash, b, ins[i])
  {
    hide IsEd25519, OnCurve, IsAbelian, IsPrime, Mul, DecodedAs, IsEncoding, Accepts, LeValue, Passes, Overruns,
        IsStuck, EntryOf, IsInput, Verdict, WrongInput, Residual, TooEven, Weighted;
    var es := Entries(hash, ins);
    ArithmeticIs(g);
    forall i | 0 <= i < 4
      ensures LeValue(es[i].s) == 0 && es[i].a == Some(g.zero) && es[i].r == Some(Times(-1, b))
      ensures !Verdict(hash, b, ins[i]) && Residual(g, b, es[i]) == Times(-1, b) != g.zero
      ensures Times(Modm.L, g.zero) == g.zero && Times(Modm.L, Times(-1, b)) == g.zero
    {
      WrongInputIs(hash, b, ins[i].m, enc);
    }
    assert Decoded(es) && NeutralKeys(g, es);
    LoneWeightStuck(g, es, z);
    StuckPasses(g, b, es, z);
    LoneWeighted(g, b, es, z, Times(-1, b), 4);
    PrimeOrderNeutral(g, Modm.L, z[0], Times(-1, b));
  }

  /** Four signatures none of which verifies, whatever the hash is, in a batch that passes: with the weights w, 0, 0, 0
      the only scalar in play is w h, on the neutral key, so the points R are never taken into account. The whole
      weighted sum is not neutral. Such a w exists for every hash, by LoneWeightExists. */
  method StuckBatch(g: Group<CurvePoint>, b: CurvePoint, hash: Hash, ins: seq<Input>, enc: seq<int>, rnd: seq<seq<int>>,
      sliding: seq<Points.GeNiels>) returns (valid: array<int>, ret: int)
    requires Arithmetic(g) && IsHash(hash) && SlidingTable(sliding, b) && IsPrime(Modm.L)
    requires Times(Modm.L, b) == Affine(0, 1) && b != Affine(0, 1) && IsEncoding(enc, b)
    requires AreWrong(ins, enc) && AreInputs(ins) && |rnd| == 4 && Randoms(rnd)
    requires LoneWeight(Weights(rnd), EntryOf(hash, ins[0]))
    ensures valid.Length == 4 && ret == 0 && forall i :: 0 <= i < 4 ==> valid[i] == 1 && !Verdict(hash, b, ins[i])
    ensures IsUnbalanced(g, b, Entries(hash, ins), Weights(rnd))
  {
    hide Arithmetic, IsHash, IsEd25519, OnCurve, IsPrime, SlidingTable, IsEncoding, Times, Balanced, Verdict, Weights,
        Randoms, EntryOf, Decoded, IsUnbalanced, Passes, Overruns, InSubgroup, IsStuck, TestOutcome,
        LoneWeight, WrongInput;
    valid := new int[4];
    ArithmeticIs(g);
    ghost var passed, es, z := {}, Entries(hash, ins), Weights(rnd);
    WrongBatch(g, b, hash, ins, enc, z);
    assert es[0..4] == es && z[0..4] == z;
    ret, passed := SignOpenBatch(g, b, hash, ins, rnd, sliding, valid);
    assert Tested(g, b, es, z, 0, 0 in passed);
  }
}
