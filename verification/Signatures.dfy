/** Keys, signing and verification (src/ed25519-donna/ed25519.c, lines 22-116). The hash is a parameter. */
module Signatures {
  import opened Arith
  import opened Bytes
  import opened Congruence
  import opened Groups
  import opened EdwardsCurve
  import opened EdwardsGroup
  import opened ModmBatch
  import opened ModmCodec
  import Modm
  import FieldChains
  import opened Points
  import opened PointCodec
  import opened Ladder
  import opened BaseMult

  type Hash = seq<int> -> seq<int>

  /** The hash gives 64 bytes for every byte string. */
  ghost predicate IsHash(hash: Hash) {
    forall m :: IsBytes(m) ==> |hash(m)| == 64 && IsBytes(hash(m))
  }

  /** The little-endian number in the bytes, modulo the group order. */
  function Scalar(b: seq<int>): int {
    LeValue(b) % Modm.L
  }

  // ---- keys ----

  /** Clamping: the three low bits and the top bit cleared, bit 254 set. */
  function Clamped(h: seq<int>): seq<int>
    requires |h| == 64
  {
    h[0 := h[0] / 8 * 8][31 := h[31] % 64 + 64]
  }

  /** ed25519_extsk */
  function ExtSk(hash: Hash, sk: seq<int>): (r: seq<int>)
    requires |hash(sk)| == 64 && IsBytes(hash(sk))
    ensures |r| == 64 && IsBytes(r) && r[32..] == hash(sk)[32..]
  {
    Clamped(hash(sk))
  }

  /** Clamping makes a number of 255 bits that is a multiple of 8 and keeps bits 3 to 253. */
  lemma ClampedValue(h: seq<int>)
    requires |h| == 64 && IsBytes(h)
    ensures LeValue(Clamped(h)[..32]) == TWO254 + LeValue(h[..32]) % TWO254 / 8 * 8
  {
    hide LeFrom, Word;
    var b, c := h[..32], Clamped(h)[..32];
    LeOfWords(b);
    LeOfWords(c);
    assert Word(c, 8) == Word(b, 8) && Word(c, 16) == Word(b, 16) by {
      SameWord(b, c, 8);
      SameWord(b, c, 16);
    }
    LowWord(b, c);
    TopWord(b, c);
    WordBound(b, 0);
    WordBound(b, 8);
    WordBound(b, 16);
    ClampArith(Word(b, 0), Word(b, 8), Word(b, 16), Word(b, 24));
  }

  lemma SameWord(b: seq<int>, c: seq<int>, i: nat)
    requires |b| == |c| && i + 8 <= |b| && forall k :: i <= k < i + 8 ==> b[k] == c[k]
    ensures Word(b, i) == Word(c, i)
  {
  }

  lemma LowWord(b: seq<int>, c: seq<int>)
    requires |b| == |c| == 32 && c[0] == b[0] / 8 * 8 && forall k :: 1 <= k < 8 ==> b[k] == c[k]
    ensures Word(c, 0) == Word(b, 0) / 8 * 8
  {
    var hi := b[1] + 0x100 * b[2] + 0x1_0000 * b[3] + 0x100_0000 * b[4] + 0x1_0000_0000 * b[5]
      + 0x100_0000_0000 * b[6] + 0x1_0000_0000_0000 * b[7];
    var k := b[0] / 8;
    assert Word(b, 0) == b[0] + 256 * hi && Word(c, 0) == 8 * k + 256 * hi;
    DivUnique(Word(b, 0), 8, k + 32 * hi, b[0] % 8);
  }

  lemma TopWord(b: seq<int>, c: seq<int>)
    requires |b| == |c| == 32 && IsBytes(b) && c[31] == b[31] % 64 + 64 && forall k :: 24 <= k < 31 ==> b[k] == c[k]
    ensures Word(b, 24) >= 0 && Word(c, 24) == Word(b, 24) % 0x4000_0000_0000_0000 + 0x4000_0000_0000_0000
  {
    var low := Word(b, 24) - 0x100_0000_0000_0000 * b[31];
    DivUnique(Word(b, 24), 0x4000_0000_0000_0000, b[31] / 64, low + 0x100_0000_0000_0000 * (b[31] % 64));
  }

  /** Four words: the low one rounded to a multiple of 8, the high one with bit 62 set and bit 63 cleared. */
  lemma ClampArith(w0: int, w1: int, w2: int, w3: int)
    requires 0 <= w0 < 0x1_0000_0000_0000_0000 && 0 <= w1 < 0x1_0000_0000_0000_0000
    requires 0 <= w2 < 0x1_0000_0000_0000_0000 && 0 <= w3
    ensures Join(w0 / 8 * 8, w1, w2, w3 % 0x4000_0000_0000_0000 + 0x4000_0000_0000_0000)
         == TWO254 + Join(w0, w1, w2, w3) % TWO254 / 8 * 8
  {
    var v, top := Join(w0, w1, w2, w3), w3 % 0x4000_0000_0000_0000;
    var low := Join(w0, w1, w2, top);
    DivUnique(v, TWO254, w3 / 0x4000_0000_0000_0000, low);
    DivUnique(low, 8, Join(w0 / 8, 0, 0, 0) + 0x2000_0000_0000_0000 * (w1 + 0x1_0000_0000_0000_0000 * w2
        + 0x1_0000_0000_0000_0000_0000_0000_0000_0000 * top), w0 % 8);
  }

  function Join(w0: int, w1: int, w2: int, w3: int): int {
    w0 + 0x1_0000_0000_0000_0000 * w1 + 0x1_0000_0000_0000_0000_0000_0000_0000_0000 * w2
    + 0x1_0000_0000_0000_0000_0000_0000_0000_0000_0000_0000_0000_0000 * w3
  }

  const TWO254: int := 0x4000000000000000000000000000000000000000000000000000000000000000

  /** The constants by their formulas: 2^254, L = 2^252 + 27742317777372353535851937790883648493 and p = 2^255 - 19. */
  lemma ConstantsAre()
    ensures TWO254 == Pow2(254) && Modm.L == Pow2(252) + 27742317777372353535851937790883648493
    ensures PRIME == Pow2(255) - 19
  {
    hide Pow2;
    FieldChains.SmallShifts();
    FieldChains.LargeShifts();
    Pow2Add(2, 2);
    Pow2Add(100, 100);
    Pow2Add(200, 50);
    Pow2Add(250, 2);
    Pow2Add(250, 4);
    Pow2Add(250, 5);
  }

  /** The secret scalar of a key. */
  ghost function SecretScalar(hash: Hash, sk: seq<int>): int
    requires IsHash(hash) && IsBytes(sk)
  {
    Scalar(ExtSk(hash, sk)[..32])
  }

  lemma SecretScalarIs(hash: Hash, sk: seq<int>)
    requires IsHash(hash) && IsBytes(sk)
    ensures SecretScalar(hash, sk) == (TWO254 + LeValue(hash(sk)[..32]) % TWO254 / 8 * 8) % Modm.L
  {
    hide LeFrom, Clamped, Scalar;
    ClampedValue(hash(sk));
    ScalarIs(ExtSk(hash, sk)[..32]);
  }

  /** The scalar behind R. */
  ghost function Nonce(hash: Hash, sk: seq<int>, m: seq<int>): int
    requires IsHash(hash) && IsBytes(sk)
  {
    Scalar(hash(ExtSk(hash, sk)[32..] + m))
  }

  /** H(R, A, m) */
  ghost function Challenge(hash: Hash, r: seq<int>, pk: seq<int>, m: seq<int>): int {
    Scalar(hash(r + pk + m))
  }

  /** What the multiplications assume: the curve, a point of order L, and the two tables for it. */
  ghost predicate Setting(b: CurvePoint, table: seq<seq<int>>, sliding: seq<GeNiels>) {
    IsEd25519() && Times(Modm.L, b) == Affine(0, 1) && BaseTable(table, b) && SlidingTable(sliding, b)
  }

  lemma PowerOf255()
    ensures Pow2(255) == 0x8000000000000000000000000000000000000000000000000000000000000000
  {
    hide Pow2;
    FieldChains.SmallShifts();
    FieldChains.LargeShifts();
    Pow2Add(100, 100);
    Pow2Add(200, 50);
    Pow2Add(250, 5);
  }

  lemma ReducedTop(s: Limbs)
    requires IsLimbs(s) && Value(s) < Modm.L
    ensures s[4] < 0x8000_0000 && Value(s) <= Pow2(255)
  {
    hide LowValue, Pow2;
    Modm.ValueIs(s);
    PowerOf255();
  }

  /** [s]b for a scalar read from bytes, packed. */
  method PackMultiple(table: seq<seq<int>>, s: Limbs, ghost b: CurvePoint) returns (r: seq<int>)
    requires IsEd25519() && BaseTable(table, b) && IsLimbs(s) && Value(s) < Modm.L
    ensures IsEncoding(r, Times(Value(s), b))
  {
    hide IsEd25519, OnCurve, RepFull, Rep, Times, BaseTable, LowValue, IsEncoding;
    ReducedTop(s);
    var p := ScalarmultBaseNiels(table, s, b);
    FullIsRep(p, Times(Value(s), b));
    PrimeIs();
    r := Pack(p, Times(Value(s), b));
  }

  /** ed25519_publickey */
  method PublicKey(hash: Hash, sk: seq<int>, table: seq<seq<int>>, ghost b: CurvePoint) returns (pk: seq<int>)
    requires IsHash(hash) && IsBytes(sk) && IsEd25519() && BaseTable(table, b)
    ensures IsEncoding(pk, Times(SecretScalar(hash, sk), b))
    ensures IsEncoding(pk, Times((TWO254 + LeValue(hash(sk)[..32]) % TWO254 / 8 * 8) % Modm.L, b))
  {
    hide IsEd25519, OnCurve, Times, BaseTable, LowValue, IsEncoding, LeFrom, Clamped;
    SecretScalarIs(hash, sk);
    var extsk := ExtSk(hash, sk);
    var a := Expand256Modm(extsk[..32]);
    pk := PackMultiple(table, a, b);
  }

  // ---- signing ----

  /** r + h a modulo L, as the code reduces it */
  ghost function Response(h: int, a: int, r: int): int {
    (h * a % Modm.L + r) % Modm.L
  }

  /** The second half of a signature. */
  method Respond(hram: seq<int>, ext: seq<int>, r: Limbs) returns (s: seq<int>)
    requires |hram| == 64 && IsBytes(hram) && |ext| == 32 && IsBytes(ext) && IsLimbs(r) && Value(r) < Modm.L
    ensures |s| == 32 && IsBytes(s) && LeValue(s) == Response(Scalar(hram), Scalar(ext), Value(r)) < Modm.L
  {
    hide LowValue, LeFrom;
    var h := Expand256Modm(hram);
    var a := Expand256Modm(ext);
    ReducedTop(h);
    ReducedTop(a);
    var x := Modm.Mul256Modm(h, a);
    x := Modm.Add256Modm(x, r);
    ReducedTop(x);
    s := Contract256Modm(x);
  }

  /** ed25519_sign: R = [r]b and S = r + H(R, A, m) a modulo L. */
  method Sign(hash: Hash, m: seq<int>, sk: seq<int>, pk: seq<int>, table: seq<seq<int>>, ghost b: CurvePoint)
    returns (rs: seq<int>)
    requires IsHash(hash) && IsBytes(m) && IsBytes(sk) && IsBytes(pk) && IsEd25519() && BaseTable(table, b)
    ensures |rs| == 64 && IsBytes(rs) && IsEncoding(rs[..32], Times(Nonce(hash, sk, m), b))
    ensures LeValue(rs[32..]) == Response(Challenge(hash, rs[..32], pk, m), SecretScalar(hash, sk), Nonce(hash, sk, m))
        < Modm.L
    ensures IsEncoding(rs[..32], Times(LeValue(hash(hash(sk)[32..] + m)) % Modm.L, b))
  {
    hide IsEd25519, OnCurve, Times, BaseTable, LowValue, LeFrom, Encoding, Response, ExtSk, Scalar;
    var extsk := ExtSk(hash, sk);
    var hashr := hash(extsk[32..] + m);
    var r := Expand256Modm(hashr);
    ScalarIs(hashr);
    var rBytes := PackMultiple(table, r, b);
    var hram := hash(rBytes + pk + m);
    var sBytes := Respond(hram, extsk[..32], r);
    rs := rBytes + sBytes;
    assert rs[..32] == rBytes && rs[32..] == sBytes;
  }

  /** The R of two messages signed with one key is the same exactly if the two nonce digests agree modulo L. */
  lemma SameRIff(hash: Hash, sk: seq<int>, m: seq<int>, m': seq<int>, r: seq<int>, r': seq<int>, b: CurvePoint)
    requires IsHash(hash) && IsEd25519() && IsPrime(Modm.L) && Times(Modm.L, b) == Affine(0, 1) && b != Affine(0, 1)
    requires IsBytes(sk) && IsEncoding(r, Times(LeValue(hash(hash(sk)[32..] + m)) % Modm.L, b))
    requires IsEncoding(r', Times(LeValue(hash(hash(sk)[32..] + m')) % Modm.L, b))
    ensures r == r' <==> LeValue(hash(hash(sk)[32..] + m)) % Modm.L == LeValue(hash(hash(sk)[32..] + m')) % Modm.L
  {
    hide IsEd25519, OnCurve, IsPrime, Mul, LeFrom, Encoding, IsAbelian;
    CurveFacts();
    CurveGroup();
    var k, k' := LeValue(hash(hash(sk)[32..] + m)) % Modm.L, LeValue(hash(hash(sk)[32..] + m')) % Modm.L;
    SameEncoding(r, r', Times(k', b));
    if r == r' {
      EncodingUnique(r, Times(k, b), Times(k', b));
      MultiplesDiffer(Ed25519(), Modm.L, k, k', b);
    }
  }

  lemma ScalarIs(b: seq<int>)
    ensures Scalar(b) == LeValue(b) % Modm.L
  {
  }

  // ---- verification ----

  /** The signature passes: S is below 2^253, the key decodes to a point a (the negative of the public
      point), and R is the encoding of [S]b + [h]a. */
  ghost predicate Accepts(hash: Hash, m: seq<int>, pk: seq<int>, rs: seq<int>, b: CurvePoint)
    requires |pk| == 32 && |rs| == 64
  {
    && rs[63] < 32
    && exists a: CurvePoint :: Decodes(pk, a) && IsEncoding(rs[..32],
        Both(Challenge(hash, rs[..32], pk, m), a, Scalar(rs[32..]), b))
  }

  lemma CurveFacts()
    requires IsEd25519()
    ensures IsPrime(PRIME) && NonSquare(D)
  {
  }

  lemma NotDecodable(pk: seq<int>)
    requires |pk| == 32 && forall x: int :: !OnCurve(Affine(x, YOf(pk)))
    ensures forall a: CurvePoint :: !Decodes(pk, a)
  {
    hide YOf;
    forall a: CurvePoint
      ensures !Decodes(pk, a)
    {
      assert a == Affine(a.x, a.y);
    }
  }

  lemma Rejected(hash: Hash, m: seq<int>, pk: seq<int>, rs: seq<int>, b: CurvePoint)
    requires |pk| == 32 && |rs| == 64 && (rs[63] >= 32 || forall a: CurvePoint :: !Decodes(pk, a))
    ensures !Accepts(hash, m, pk, rs, b)
  {
    hide OnCurve, Both, Decodes, IsEncoding, Challenge, Scalar;
  }

  lemma DecodedOnCurve(pk: seq<int>, a: Affine)
    requires |pk| == 32 && Decodes(pk, a)
    ensures OnCurve(a)
  {
  }

  /** Since the key decodes to one point only, acceptance is decided at that point. */
  lemma OneDecoding(hash: Hash, m: seq<int>, pk: seq<int>, rs: seq<int>, a: CurvePoint, b: CurvePoint)
    requires IsPrime(PRIME) && NonSquare(D) && |pk| == 32 && IsBytes(pk) && |rs| == 64 && rs[63] < 32 && Decodes(pk, a)
    ensures Accepts(hash, m, pk, rs, b)
       <==> IsEncoding(rs[..32], Both(Challenge(hash, rs[..32], pk, m), a, Scalar(rs[32..]), b))
  {
    hide IsPrime, NonSquare, OnCurve, Both, Decodes, IsEncoding, Challenge, Scalar;
    forall c: CurvePoint | Decodes(pk, c)
      ensures c == a
    {
      DecodesUnique(pk, a, c);
    }
  }

  /** The R that belongs to S and the challenge: the encoding of [S]b + [h]a. */
  method Recompute(p: Ge, h: seq<int>, s: seq<int>, sliding: seq<GeNiels>, ghost a: CurvePoint,
      ghost b: CurvePoint) returns (checkR: seq<int>)
    requires IsEd25519() && SlidingTable(sliding, b) && RepFull(p, a)
    requires |h| == 64 && IsBytes(h) && |s| == 32 && IsBytes(s)
    ensures IsEncoding(checkR, Both(Scalar(h), a, Scalar(s), b))
  {
    hide IsEd25519, OnCurve, Both, SlidingTable, LowValue, LeFrom, RepFull, Rep, IsEncoding;
    var x := Expand256Modm(h);
    var y := Expand256Modm(s);
    ReducedTop(x);
    ReducedTop(y);
    var r := DoubleScalarmultVartime(p, x, y, sliding, a, b);
    PrimeIs();
    checkR := Pack(r, Both(Value(x), a, Value(y), b));
  }

  /** ed25519_sign_open returns 0 */
  method SignOpen(hash: Hash, m: seq<int>, pk: seq<int>, rs: seq<int>, sliding: seq<GeNiels>,
      ghost b: CurvePoint) returns (ok: bool)
    requires IsHash(hash) && IsEd25519() && SlidingTable(sliding, b)
    requires IsBytes(m) && |pk| == 32 && IsBytes(pk) && |rs| == 64 && IsBytes(rs)
    ensures ok <==> Accepts(hash, m, pk, rs, b)
  {
    hide IsEd25519, OnCurve, Both, SlidingTable, LeFrom, Decodes, RepFull, Rep, Encoding, IsPrime, NonSquare, Accepts,
        YOf, Scalar;
    if rs[63] / 32 != 0 {
      Rejected(hash, m, pk, rs, b);
      return false;
    }
    CurveFacts();
    var unpacked, p;
    ghost var a: Affine;
    unpacked, p, a := UnpackNegativeVartime(pk);
    if !unpacked {
      NotDecodable(pk);
      Rejected(hash, m, pk, rs, b);
      return false;
    }
    DecodedOnCurve(pk, a);
    var h := hash(rs[..32] + pk + m);
    var checkR := Recompute(p, h, rs[32..], sliding, a, b);
    ok := Verify(rs[..32], checkR);
    SameEncoding(rs[..32], checkR, Both(Scalar(h), a, Scalar(rs[32..]), b));
    OneDecoding(hash, m, pk, rs, a, b);
  }

  // ---- a signature by the matching key is accepted ----

  /** [h](-[a]b) + [s]b = [s - h a]b */
  lemma Combine(h: int, a: int, s: int, b: CurvePoint)
    requires IsEd25519()
    ensures Both(h, Times(-a, b), s, b) == Times(s - h * a, b)
  {
    hide IsEd25519, OnCurve, Mul, IsAbelian;
    CurveGroup();
    var g := Ed25519();
    MulMul(g, h, -a, b);
    assert h * -a == -(h * a);
    MulAdd(g, -(h * a), s, b);
  }

  lemma NegatedKey(a: int, b: CurvePoint)
    requires IsEd25519()
    ensures NegAffine(Times(a, b)) == Times(-a, b)
  {
    hide IsEd25519, OnCurve, Mul, IsAbelian;
    CurveGroup();
    NegOnCurve(Times(a, b));
    MulNeg(Ed25519(), a, b);
  }

  /** Modulo the order of b, S - h a is r. */
  lemma ResponseIs(r: int, h: int, a: int, s: int, b: CurvePoint)
    requires IsEd25519() && Times(Modm.L, b) == Affine(0, 1) && s == Response(h, a, r)
    ensures Times(s - h * a, b) == Times(r, b)
  {
    hide IsEd25519, OnCurve, Mul, IsAbelian, Response;
    CurveGroup();
    var k := ResponseMultiple(r, h * a, h, a);
    MulModOrder(Ed25519(), Modm.L, r, k, b);
  }

  lemma ResponseMultiple(r: int, p: int, h: int, a: int) returns (k: int)
    requires p == h * a
    ensures Response(h, a, r) - p == r + k * Modm.L
  {
    var t := p % Modm.L + r;
    k := -(p / Modm.L) - t / Modm.L;
  }

  lemma TopByteOfScalar(b: seq<int>)
    requires |b| == 32 && IsBytes(b) && LeValue(b) < Modm.L
    ensures b[31] < 32
  {
    hide LeFrom;
    WordBound(b, 0);
    WordBound(b, 8);
    WordBound(b, 16);
    LeOfWords(b);
  }

  /** Whatever Sign produces under the key that matches pk is accepted. */
  lemma SignedIsAccepted(hash: Hash, m: seq<int>, sk: seq<int>, pk: seq<int>, rs: seq<int>, b: CurvePoint)
    requires IsHash(hash) && IsBytes(sk) && IsEd25519() && Times(Modm.L, b) == Affine(0, 1)
    requires IsEncoding(pk, Times(SecretScalar(hash, sk), b))
    requires |rs| == 64 && IsBytes(rs) && IsEncoding(rs[..32], Times(Nonce(hash, sk, m), b))
    requires LeValue(rs[32..]) == Response(Challenge(hash, rs[..32], pk, m), SecretScalar(hash, sk),
        Nonce(hash, sk, m)) < Modm.L
    ensures Accepts(hash, m, pk, rs, b)
  {
    hide IsEd25519, OnCurve, Times, Both, LeFrom, Decodes, IsHash, Encoding, SecretScalar, Nonce, Challenge, Response;
    CurveFacts();
    var a, r, h := SecretScalar(hash, sk), Nonce(hash, sk, m), Challenge(hash, rs[..32], pk, m);
    var s := LeValue(rs[32..]);
    LeNonnegative(rs[32..], 0);
    DivSmall(s, Modm.L);
    TopByteOfScalar(rs[32..]);
    NegatedKey(a, b);
    UnpackOfPack(pk, Times(a, b), Times(-a, b));
    Combine(h, a, s, b);
    ResponseIs(r, h, a, s, b);
    OneDecoding(hash, m, pk, rs, Times(-a, b), b);
  }

  /** Key generation, signing and verification, one after the other. */
  method SignThenOpen(hash: Hash, sk: seq<int>, m: seq<int>, table: seq<seq<int>>, sliding: seq<GeNiels>,
      ghost b: CurvePoint)
    returns (ok: bool)
    requires IsHash(hash) && IsBytes(sk) && IsBytes(m) && Setting(b, table, sliding)
    ensures ok
  {
    hide IsEd25519, OnCurve, Times, LeFrom, IsHash, Encoding, SecretScalar, Nonce, Challenge, BaseTable, SlidingTable;
    var pk := PublicKey(hash, sk, table, b);
    var rs := Sign(hash, m, sk, pk, table, b);
    ok := SignOpen(hash, m, pk, rs, sliding, b);
    SignedIsAccepted(hash, m, sk, pk, rs, b);
  }

  /** The verification equation [S]b = R + [h]A, with S and h reduced modulo L. */
  ghost predicate Satisfies(hash: Hash, m: seq<int>, pk: seq<int>, rs: seq<int>, p: CurvePoint, r: CurvePoint,
      b: CurvePoint)
    requires |rs| == 64
  {
    Times(Scalar(rs[32..]), b) == Plus(r, Times(Challenge(hash, rs[..32], pk, m), p))
  }

  /** Acceptance, for all strings: S is below 2^253, the key decodes to a point A (of which the code keeps the
      negative), R is the encoding of a point, and the equation holds. */
  lemma AcceptsIff(hash: Hash, m: seq<int>, pk: seq<int>, rs: seq<int>, b: CurvePoint)
    requires IsEd25519() && |pk| == 32 && IsBytes(pk) && |rs| == 64
    ensures Accepts(hash, m, pk, rs, b)
       <==> rs[63] < 32 && exists p: CurvePoint, r: CurvePoint ::
              Decodes(pk, NegAffine(p)) && IsEncoding(rs[..32], r) && Satisfies(hash, m, pk, rs, p, r, b)
  {
    hide IsEd25519, OnCurve, Both, Decodes, IsEncoding, Challenge, Scalar, Satisfies;
    if Accepts(hash, m, pk, rs, b) {
      var a: CurvePoint :| Decodes(pk, a) && IsEncoding(rs[..32],
        Both(Challenge(hash, rs[..32], pk, m), a, Scalar(rs[32..]), b));
      var p := NegOf(a);
      var r := Both(Challenge(hash, rs[..32], pk, m), a, Scalar(rs[32..]), b);
      AcceptsAt(hash, m, pk, rs, p, r, b);
    }
    if rs[63] < 32 && exists p: CurvePoint, r: CurvePoint ::
        Decodes(pk, NegAffine(p)) && IsEncoding(rs[..32], r) && Satisfies(hash, m, pk, rs, p, r, b) {
      var p: CurvePoint, r: CurvePoint :|
        Decodes(pk, NegAffine(p)) && IsEncoding(rs[..32], r) && Satisfies(hash, m, pk, rs, p, r, b);
      AcceptsAt(hash, m, pk, rs, p, r, b);
    }
  }

  lemma NegOf(a: CurvePoint) returns (p: CurvePoint)
    ensures NegAffine(p) == a
  {
    NegOnCurve(a);
    NegTwice(a);
    p := NegAffine(a);
  }

  /** The same at given points: if the key stands for p and R for r, acceptance is the equation. */
  lemma AcceptsAt(hash: Hash, m: seq<int>, pk: seq<int>, rs: seq<int>, p: CurvePoint, r: CurvePoint, b: CurvePoint)
    requires IsEd25519() && |pk| == 32 && IsBytes(pk) && Decodes(pk, NegAffine(p))
    requires |rs| == 64 && IsEncoding(rs[..32], r) && rs[63] < 32
    ensures Accepts(hash, m, pk, rs, b) <==> Satisfies(hash, m, pk, rs, p, r, b)
  {
    hide IsEd25519, OnCurve, Both, LeFrom, Decodes, Encoding, Challenge, Scalar, Mul, IsAbelian, Ed25519;
    CurveFacts();
    CurveGroup();
    var g, h, s := Ed25519(), Challenge(hash, rs[..32], pk, m), Scalar(rs[32..]);
    var n: CurvePoint := g.neg(p);
    NegPointIs(p);
    OneDecoding(hash, m, pk, rs, n, b);
    Equation(h, p, s, b, r);
    if IsEncoding(rs[..32], Both(h, n, s, b)) {
      EncodingUnique(rs[..32], Both(h, n, s, b), r);
    }
  }

  lemma NegPointIs(p: CurvePoint)
    ensures Ed25519().neg(p) == NegAffine(p)
  {
    hide OnCurve;
    NegOnCurve(p);
  }

  /** [h](-p) + [s]b = r exactly if [s]b = r + [h]p. */
  lemma Equation(h: int, p: CurvePoint, s: int, b: CurvePoint, r: CurvePoint)
    requires IsEd25519()
    ensures Both(h, Ed25519().neg(p), s, b) == r <==> Times(s, b) == Plus(r, Times(h, p))
  {
    hide IsEd25519, OnCurve, Mul, IsAbelian, Ed25519;
    CurveGroup();
    var g := Ed25519();
    var x, y := Times(h, p), Times(s, b);
    MulOfNeg(g, h, p);
    Comm(g, g.neg(x), y);
    Assoc(g, y, g.neg(x), x);
    Neg(g, x);
    Zero(g, y);
    if Plus(g.neg(x), y) == r {
    }
    if y == Plus(r, x) {
      Assoc(g, r, x, g.neg(x));
      Zero(g, r);
    }
  }
}
