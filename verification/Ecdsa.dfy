/** Multiplication of points and ECDSA over any abelian group (bin/python/ecdsa/ellipticcurve.py, lines 109-138;
    bin/python/ecdsa/ecdsa.py, lines 93-151). Exceptions are results. */
module Ecdsa {
  import opened Arith
  import opened Groups
  import opened Modular
  import opened NumberTheory
  import opened Outcome

  // ---- Point.__mul__ ----

  /** leftmost_bit: the largest power of two that is at most x. */
  method LeftmostBit(x: nat) returns (top: nat, ghost n: nat)
    requires x > 0
    ensures top == Pow2(n) && top <= x < 2 * top
  {
    var result := 1;
    n := 0;
    while result <= x
      invariant result == Pow2(n) && (n == 0 || result <= 2 * x)
      invariant n > 0 ==> Pow2(n - 1) <= x
      decreases 2 * x + 1 - result
    {
      result := 2 * result;
      n := n + 1;
    }
    n := n - 1;
    top := result / 2;
  }

  /** The multiple reached when bits below 2i are still to come: the digits are bit(3e) - bit(e). */
  function Reached(e: nat, i: nat): int
    requires i > 0
  {
    3 * e / (2 * i) - e / (2 * i)
  }

  lemma ReachedStart(e: nat, top: nat, i: nat)
    requires e > 0 && top <= 3 * e < 2 * top && top == 2 * i
    ensures Reached(e, i) == 1
  {
    DivUnique(3 * e, top, 1, 3 * e - top);
    DivSmall(e, top);
  }

  lemma ReachedStep(e: nat, i: nat)
    requires i > 1 && i % 2 == 0
    ensures Reached(e, i / 2) == 2 * Reached(e, i) + (3 * e / i) % 2 - (e / i) % 2
  {
    DivTwice(3 * e, i);
    DivTwice(e, i);
  }

  lemma ReachedEnd(e: nat)
    ensures Reached(e, 1) == e
  {
  }

  /** The loop of X9.62 D.3.2. */
  method DoubleAndAddSubtract<P(!new)>(g: Group<P>, p: P, e: nat) returns (result: P)
    requires IsAbelian(g) && e > 0
    ensures result == Mul(g, e, p)
  {
    hide IsAbelian, Mul, Pow2, Reached;
    var e3 := 3 * e;
    var negative := g.neg(p);
    var top: nat;
    ghost var n: nat;
    top, n := LeftmostBit(e3);
    HalvePower(n, top, e3);
    n := n - 1;
    var i := top / 2;
    result := p;
    ReachedStart(e, top, i);
    MulOne(g, p);
    while i > 1
      invariant i >= 1 && i == Pow2(n)
      invariant result == Mul(g, Reached(e, i), p)
      decreases i
    {
      ghost var k := Reached(e, i);
      HalvePower(n, i, i);
      ReachedStep(e, i);
      result := g.add(result, result);
      MulAdd(g, k, k, p);
      if (e3 / i) % 2 != 0 && (e / i) % 2 == 0 {
        result := g.add(result, p);
        MulSucc(g, 2 * k, p);
      }
      if (e3 / i) % 2 == 0 && (e / i) % 2 != 0 {
        result := g.add(result, negative);
        MulPred(g, 2 * k, p);
      }
      i := i / 2;
      n := n - 1;
    }
    ReachedEnd(e);
  }

  lemma HalvePower(n: nat, top: nat, x: nat)
    requires top == Pow2(n) && (top > 1 || (top <= x < 2 * top && x >= 2))
    ensures n > 0 && top % 2 == 0 && top / 2 == Pow2(n - 1) && top / 2 >= 1
  {
  }

  lemma MulPred<P(!new)>(g: Group<P>, k: int, p: P)
    requires IsAbelian(g)
    ensures g.add(Mul(g, k, p), g.neg(p)) == Mul(g, k - 1, p)
  {
    hide IsAbelian;
    MulOne(g, p);
    MulNeg(g, 1, p);
    MulAdd(g, k, -1, p);
  }

  /** Point.__mul__, with order 0 for a point without a known order. It fails only on a negative multiplier that no
      order reduces. */
  method Multiply<P(==, !new)>(g: Group<P>, p: P, order: nat, other: int) returns (res: Result<P>)
    requires IsAbelian(g)
    ensures res == Failed <==> order == 0 && other < 0 && p != g.zero
    ensures res.Done? && order == 0 ==> res.value == Mul(g, other, p)
    ensures res.Done? && order > 0 ==> res.value == Mul(g, other % order, p)
    ensures res.Done? && order > 0 && Mul(g, order, p) == g.zero ==> res.value == Mul(g, other, p)
  {
    hide IsAbelian, Mul;
    var e := other;
    if order != 0 {
      e := e % order;
      ReduceByOrder(g, order, other, p);
    }
    MulNone(g, p);
    if e == 0 {
      return Done(g.zero);
    }
    MulZeroPoint(g, e);
    if p == g.zero {
      return Done(g.zero);
    }
    if e < 0 {
      return Failed;
    }
    var r := DoubleAndAddSubtract(g, p, e);
    return Done(r);
  }

  lemma ReduceByOrder<P(!new)>(g: Group<P>, order: nat, k: int, p: P)
    requires IsAbelian(g) && order > 0
    ensures Mul(g, order, p) == g.zero ==> Mul(g, k % order, p) == Mul(g, k, p)
  {
    hide IsAbelian;
    if Mul(g, order, p) == g.zero {
      assert k == k % order + (k / order) * order;
      MulModOrder(g, order, k % order, k / order, p);
    }
  }

  // ---- signatures ----

  datatype Signature = Signature(r: int, s: int)

  /** A generator of order n and the coordinates of the points other than infinity. */
  datatype Domain<!P> = Domain(g: Group<P>, gen: P, n: nat, x: P -> int, y: P -> int)

  ghost predicate IsDomain<P(!new)>(d: Domain<P>) {
    && IsAbelian(d.g) && d.n >= 2 && Mul(d.g, d.n, d.gen) == d.g.zero
    && forall p :: d.x(p) >= 0
  }

  /** The constructor of Public_key: the point is killed by n and both coordinates are below n. The point at infinity
      has no coordinates to compare. */
  method MakeKey<P(==, !new)>(d: Domain<P>, q: P, qOrder: nat) returns (res: Result<P>)
    requires IsDomain(d) && (qOrder > 0 ==> Mul(d.g, qOrder, q) == d.g.zero)
    ensures res == if Mul(d.g, d.n, q) == d.g.zero && q != d.g.zero && 0 <= d.x(q) < d.n && 0 <= d.y(q) < d.n
                   then Done(q) else Failed
  {
    hide IsAbelian, Mul;
    var multiple := Multiply(d.g, q, qOrder, d.n);
    if multiple.value != d.g.zero || q == d.g.zero {
      return Failed;
    }
    if d.x(q) < 0 || d.n <= d.x(q) || d.y(q) < 0 || d.n <= d.y(q) {
      return Failed;
    }
    return Done(q);
  }

  /** s k = hash + secret r (mod n), and the point [k]gen has x coordinate r. */
  ghost predicate SignedBy<P>(d: Domain<P>, secret: int, hash: int, k: int, sig: Signature) {
    && Mul(d.g, k, d.gen) != d.g.zero && sig.r == d.x(Mul(d.g, k, d.gen)) && sig.r != 0
    && 1 <= sig.s < d.n && Same(sig.s * k, hash + secret * sig.r, d.n)
  }

  /** Private_key.sign */
  method Sign<P(==, !new)>(d: Domain<P>, secret: int, hash: int, randomK: int) returns (res: Result<Signature>)
    requires IsDomain(d)
    ensures res.Done? ==> SignedBy(d, secret, hash, randomK % d.n, res.value)
    ensures var k := randomK % d.n; var p := Mul(d.g, k, d.gen);
            res.Done? <==> p != d.g.zero && d.x(p) != 0 && Coprime(k, d.n) && !Same(hash + secret * d.x(p), 0, d.n)
  {
    hide IsAbelian, Mul, Coprime, Same;
    var k := randomK % d.n;
    var multiple := Multiply(d.g, d.gen, d.n, k);
    var p := multiple.value;
    if p == d.g.zero {
      return Failed;
    }
    var r := d.x(p);
    if r == 0 {
      return Failed;
    }
    var ok, inverse := InverseMod(k, d.n);
    if !ok {
      return Failed;
    }
    var s := Respond(inverse, hash, secret, r, k, d.n);
    if s == 0 {
      return Failed;
    }
    return Done(Signature(r, s));
  }

  /** s = inverse (hash + secret r mod n) mod n */
  method Respond(inverse: int, hash: int, secret: int, r: int, k: int, n: nat) returns (s: int)
    requires n >= 2 && (k * inverse) % n == 1 % n
    ensures 0 <= s < n && Same(s * k, hash + secret * r, n)
    ensures s == 0 <==> Same(hash + secret * r, 0, n)
  {
    hide Same;
    ghost var x := hash + secret * r;
    var y := hash + (secret * r) % n;
    s := (inverse * y) % n;
    SameMod(secret * r, n);
    SameMod(inverse * y, n);
    SameMod(k * inverse, n);
    DivSmall(1, n);
    SameSum(hash, (secret * r) % n, secret * r, n);
    ResponseSame(s, inverse, y, x, k, n);
    ResponseZero(s, k, x, inverse, y, n);
  }

  lemma ResponseSame(s: int, i: int, y: int, x: int, k: int, n: nat)
    requires Same(s, i * y, n) && Same(y, x, n) && Same(k * i, 1, n)
    ensures Same(s * k, x, n)
  {
    hide Same;
    SameTimes(s, i * y, k, n);
    assert i * y * k == (k * i) * y;
    SameTimes(k * i, 1, y, n);
    SameTrans(s * k, (k * i) * y, 1 * y, n);
    SameTrans(s * k, y, x, n);
  }

  lemma ResponseZero(s: int, k: int, x: int, i: int, y: int, n: nat)
    requires n > 0 && 0 <= s < n && Same(s * k, x, n) && Same(s, i * y, n) && Same(y, x, n)
    ensures s == 0 <==> Same(x, 0, n)
  {
    hide Same;
    if s == 0 {
      SameSym(s * k, x, n);
    }
    if Same(x, 0, n) {
      SameTrans(y, x, 0, n);
      SameTimes(y, 0, i, n);
      SameTrans(s, i * y, i * 0, n);
      SmallSame(s, 0, n);
    }
  }

  ghost predicate Inverts(c: int, s: int, n: nat) {
    Same(s * c, 1, n)
  }

  /** The point [hash c]gen + [r c]q, with c an inverse of s, decides about a signature in range. */
  ghost function Checked<P>(d: Domain<P>, q: P, hash: int, r: int, c: int): P {
    d.g.add(Mul(d.g, hash * c, d.gen), Mul(d.g, r * c, q))
  }

  /** Public_key.verifies: fails when s has no inverse or the sum is the point at infinity. */
  method Verifies<P(==, !new)>(d: Domain<P>, q: P, qOrder: nat, hash: int, sig: Signature) returns (res: Result<bool>)
    requires IsDomain(d) && Mul(d.g, d.n, q) == d.g.zero && (qOrder > 0 ==> Mul(d.g, qOrder, q) == d.g.zero)
    ensures sig.r < 1 || sig.r > d.n - 1 || sig.s < 1 || sig.s > d.n - 1 ==> res == Done(false)
    ensures 1 <= sig.r < d.n && 1 <= sig.s < d.n && !Coprime(sig.s, d.n) ==> res == Failed
    ensures 1 <= sig.r < d.n && 1 <= sig.s < d.n ==>
              forall c :: Inverts(c, sig.s, d.n) ==>
                var p := Checked(d, q, hash, sig.r, c);
                res == if p == d.g.zero then Failed else Done(d.x(p) % d.n == sig.r)
  {
    hide IsAbelian, Mul, Coprime, Same, Inverts;
    if sig.r < 1 || sig.r > d.n - 1 {
      return Done(false);
    }
    if sig.s < 1 || sig.s > d.n - 1 {
      return Done(false);
    }
    var ok, inverse := InverseMod(sig.s, d.n);
    if !ok {
      NoInverse(sig.s, d.n);
      return Failed;
    }
    var u1 := (hash * inverse) % d.n;
    var u2 := (sig.r * inverse) % d.n;
    var left := Multiply(d.g, d.gen, d.n, u1);
    var right := Multiply(d.g, q, qOrder, u2);
    var p := d.g.add(left.value, right.value);
    forall c | Inverts(c, sig.s, d.n)
      ensures p == Checked(d, q, hash, sig.r, c)
    {
      InverseSame(sig.s, inverse, c, d.n);
      ReplaceMultiple(d.g, d.gen, d.n, hash, inverse, c);
      ReplaceMultiple(d.g, q, d.n, sig.r, inverse, c);
    }
    if p == d.g.zero {
      return Failed;
    }
    return Done(d.x(p) % d.n == sig.r);
  }

  /** A number with an inverse modulo n is coprime to n. */
  lemma NoInverse(s: int, n: nat)
    requires !Coprime(s, n)
    ensures forall c :: !Inverts(c, s, n)
  {
    forall c: int
      ensures !Inverts(c, s, n)
    {
      if Inverts(c, s, n) {
        InverseCoprime(s, c, n);
      }
    }
  }

  lemma InverseCoprime(s: int, c: int, n: nat)
    requires Inverts(c, s, n)
    ensures Coprime(s, n)
  {
    var t :| s * c == 1 + t * n;
    GcdOfTwo(1, s, n);
    forall e: int
      ensures Divides(e, s) && Divides(e, n) <==> Divides(e, 1)
    {
      if Divides(e, s) && Divides(e, n) {
        DividesLinear(e, s, n, c, -t);
        assert c * s + -t * n == 1;
      }
      if Divides(e, 1) {
        DividesZero(e);
        DividesLinear(e, 1, 0, s, 0);
        DividesLinear(e, 1, 0, n, 0);
      }
    }
  }

  /** Two inverses of s are the same modulo n. */
  lemma InverseSame(s: int, i: int, c: int, n: nat)
    requires n >= 2 && (s * i) % n == 1 % n && Inverts(c, s, n)
    ensures Same(i, c, n)
  {
    hide Same;
    SameMod(s * i, n);
    DivSmall(1, n);
    SameTimes(s * i, 1, c, n);
    SameTimes(s * c, 1, i, n);
    assert s * i * c == s * c * i;
    SameSym(s * i * c, 1 * c, n);
    SameSym(s * c * i, 1 * i, n);
    SameTrans(i, s * c * i, c, n);
  }

  /** The reduced multiplier gives the same point. */
  lemma ReplaceMultiple<P(!new)>(g: Group<P>, p: P, n: nat, h: int, i: int, c: int)
    requires IsAbelian(g) && n >= 2 && Mul(g, n, p) == g.zero && Same(i, c, n)
    ensures Mul(g, (h * i) % n, p) == Mul(g, h * c, p)
  {
    hide IsAbelian, Mul, Same;
    SameTimes(i, c, h, n);
    SameMod(h * i, n);
    SameTrans((h * i) % n, h * i, h * c, n);
    SameMultiple(g, n, (h * i) % n, h * c, p);
  }

  // ---- a signature by the matching key ----

  /** Modulo n the multipliers add up to k. */
  lemma MultipliersAddUp(h: int, r: int, e: int, s: int, c: int, k: int, n: nat)
    requires Same(s * k, h + e * r, n) && Inverts(c, s, n)
    ensures Same(h * c + (r * c) * e, k, n)
  {
    hide Same;
    SameTimes(s * k, h + e * r, c, n);
    SameTimes(s * c, 1, k, n);
    MultiplierArith(h, r, e, s, c, k);
    SameSym((s * k) * c, (h + e * r) * c, n);
    SameTrans((h + e * r) * c, (s * k) * c, 1 * k, n);
  }

  lemma MultiplierArith(h: int, r: int, e: int, s: int, c: int, k: int)
    ensures (h + e * r) * c == h * c + (r * c) * e && (s * k) * c == (s * c) * k
  {
    assert (e * r) * c == (r * c) * e;
  }

  /** For the key [e]gen the checked point is [k]gen, the point r came from. */
  lemma CheckedIsNonce<P(!new)>(d: Domain<P>, e: int, hash: int, k: int, sig: Signature, c: int)
    requires IsDomain(d) && SignedBy(d, e, hash, k, sig) && Inverts(c, sig.s, d.n)
    ensures Checked(d, Mul(d.g, e, d.gen), hash, sig.r, c) == Mul(d.g, k, d.gen)
  {
    hide IsAbelian, Mul, Same, Inverts;
    MultipliersAddUp(hash, sig.r, e, sig.s, c, k, d.n);
    MulMul(d.g, sig.r * c, e, d.gen);
    MulAdd(d.g, hash * c, (sig.r * c) * e, d.gen);
    SameMultiple(d.g, d.n, hash * c + (sig.r * c) * e, k, d.gen);
  }

  lemma PrimeInverts(s: int, n: nat) returns (c: int)
    requires IsPrime(n) && 0 < s < n
    ensures Inverts(c, s, n)
  {
    var u, v := PrimeBezout(s, n);
    c := u;
    assert s * u == 1 + -v * n;
  }

  /** Signing and then verifying with the key [e]gen, for a prime order. Since sign does not reduce the x coordinate
      modulo n, the signature is accepted exactly if that coordinate is below n. */
  method SignThenVerify<P(==, !new)>(d: Domain<P>, q: P, qOrder: nat, e: int, hash: int, randomK: int)
    returns (sig: Result<Signature>, ok: Result<bool>)
    requires IsDomain(d) && IsPrime(d.n) && q == Mul(d.g, e, d.gen) && (qOrder > 0 ==> Mul(d.g, qOrder, q) == d.g.zero)
    ensures sig.Done? ==> ok == Done(d.x(Mul(d.g, randomK % d.n, d.gen)) < d.n)
  {
    hide IsAbelian, IsPrime, Mul, Same, Coprime, Inverts, Checked;
    sig := Sign(d, e, hash, randomK);
    ok := Failed;
    if sig.Done? {
      MulKilled(d.g, d.n, e, d.gen);
      ok := Verifies(d, q, qOrder, hash, sig.value);
      ghost var c := PrimeInverts(sig.value.s, d.n);
      CheckedIsNonce(d, e, hash, randomK % d.n, sig.value, c);
      if sig.value.r < d.n {
        DivSmall(sig.value.r, d.n);
      }
    }
  }

  // ---- one s for every signature ----

  /** If a signature is accepted, no other s of the same residue is. */
  method VerifyShifted<P(==, !new)>(d: Domain<P>, q: P, qOrder: nat, hash: int, sig: Signature, k: int)
    returns (ok: Result<bool>, shifted: Result<bool>)
    requires IsDomain(d) && Mul(d.g, d.n, q) == d.g.zero && (qOrder > 0 ==> Mul(d.g, qOrder, q) == d.g.zero)
    ensures ok == Done(true) && k != 0 ==> shifted == Done(false)
  {
    hide IsAbelian, Mul, Coprime, Inverts, Checked;
    ok := Verifies(d, q, qOrder, hash, sig);
    shifted := Verifies(d, q, qOrder, hash, Signature(sig.r, sig.s + k * d.n));
    if k > 0 {
      MulAtLeast(d.n, k);
    } else if k < 0 {
      MulAtLeast(d.n, -k);
    }
  }

  // ---- a signature that is not accepted ----

  /** The coordinates of the multiples of (13, 7) on y^2 = x^3 + x + 1 modulo 23. */
  const XS: seq<int> := [0, 13, 5, 17, 17, 5, 13]
  const YS: seq<int> := [0, 7, 4, 3, 20, 19, 16]

  /** The point i times (13, 7); 0 is infinity. */
  type Seventh = i: int | 0 <= i < 7

  function Sevenths(): Group<Seventh> {
    Group<Seventh>.Group(0, (i: Seventh, j: Seventh) => if i + j < 7 then i + j else i + j - 7,
        (i: Seventh) => if i == 0 then 0 else 7 - i)
  }

  function SmallDomain(): Domain<Seventh> {
    Domain(Sevenths(), 1, 7, (i: Seventh) => XS[i], (i: Seventh) => YS[i])
  }

  /** x3 and y3 as Point.__add__ computes them with the slope l. */
  predicate OnLine(x1: int, y1: int, x2: int, l: int, x3: int, y3: int) {
    x3 == (l * l - x1 - x2) % 23 && y3 == (l * (x1 - x3) - y1) % 23
  }

  /** The slope of the chord or, for equal points, the tangent. */
  ghost predicate IsSlope(l: int, x1: int, y1: int, x2: int, y2: int) {
    if x1 == x2 then (l * (2 * y1) - (3 * x1 * x1 + 1)) % 23 == 0 else (l * (x2 - x1) - (y2 - y1)) % 23 == 0
  }

  /** The slopes from (13, 7) to its multiples. */
  const SLOPES: seq<int> := [0, 10, 9, 22, 9, 10]

  /** Point i + 1 is (13, 7) plus point i, and point 7 is infinity. */
  lemma MultiplesOnCurve(i: Seventh)
    requires i != 0
    ensures (YS[i] * YS[i] - (XS[i] * XS[i] * XS[i] + XS[i] + 1)) % 23 == 0
    ensures if i == 6 then XS[i] == 13 && (YS[i] + 7) % 23 == 0
            else IsSlope(SLOPES[i], 13, 7, XS[i], YS[i]) && OnLine(13, 7, XS[i], SLOPES[i], XS[i + 1], YS[i + 1])
  {
    assert i == 1 || i == 2 || i == 3 || i == 4 || i == 5 || i == 6;
  }

  lemma SeventhsAreAGroup()
    ensures IsAbelian(Sevenths())
  {
  }

  lemma {:induction false} MultipleIsIndex(k: Seventh)
    ensures Mul(Sevenths(), k, 1) == k
  {
    if k > 0 {
      MultipleIsIndex(k - 1);
    }
  }

  lemma SevenIsInfinity()
    ensures Mul(Sevenths(), 7, 1) == 0
  {
    MultipleIsIndex(6);
  }

  lemma SmallDomainIsDomain()
    ensures IsDomain(SmallDomain())
    ensures Mul(Sevenths(), 1, 1) == 1 && Mul(Sevenths(), 2, 1) == 2
  {
    hide Mul, IsAbelian;
    SeventhsAreAGroup();
    MultipleIsIndex(1);
    MultipleIsIndex(2);
    SevenIsInfinity();
  }

  /** The key with secret 2 is (5, 4), which the constructor admits. Hash 0 and nonce 1 give r = 13 and s = 5, and the
      signature is rejected because 13 is not below 7. */
  method UnreducedIsRejected() returns (key: Result<Seventh>, sig: Result<Signature>, ok: Result<bool>)
    ensures Mul(Sevenths(), 2, SmallDomain().gen) == 2 && key == Done(2)
    ensures sig == Done(Signature(13, 5)) && ok == Done(false)
  {
    hide IsAbelian, Mul, Same, Coprime;
    var d := SmallDomain();
    SmallDomainIsDomain();
    MulKilled(d.g, d.n, 2, d.gen);
    key := MakeKey(d, 2, 0);
    CoprimeToOne(7);
    NotZeroModSeven();
    sig := Sign(d, 2, 0, 1);
    FiveModSeven(sig.value.s);
    ok := Verifies(d, 2, 0, 0, sig.value);
  }

  lemma CoprimeToOne(n: nat)
    ensures Coprime(1, n)
  {
    assert 1 * 1 == 1 + 0 * n;
    InverseCoprime(1, 1, n);
  }

  lemma NotZeroModSeven()
    ensures !Same(0 + 2 * 13, 0, 7)
  {
  }

  lemma FiveModSeven(s: int)
    requires 0 <= s < 7 && Same(s * 1, 0 + 2 * 13, 7)
    ensures s == 5
  {
  }

  /** On the same curve, for the secret 2 and the hash 0: (5, 5) is accepted and (5, 12) is not, because 12 is
      above 6. */
  method ShiftedIsRejected() returns (ok: Result<bool>, shifted: Result<bool>)
    ensures ok == Done(true) && shifted == Done(false)
  {
    hide IsAbelian, Mul, Same, Coprime;
    var d := SmallDomain();
    SmallDomainIsDomain();
    MulKilled(d.g, d.n, 2, d.gen);
    ok := Verifies(d, 2, 0, 0, Signature(5, 5));
    assert Same(5 * 3, 1, 7) by {
      assert 5 * 3 == 1 + 2 * 7;
      SameShift(1, 2, 7);
    }
    assert Inverts(3, 5, 7);
    CheckedAtTwo();
    shifted := Verifies(d, 2, 0, 0, Signature(5, 12));
  }

  /** [0]g + [15](5, 4) = (5, 4) */
  lemma CheckedAtTwo()
    ensures Checked(SmallDomain(), 2, 0, 5, 3) == 2
  {
    hide Mul, IsAbelian;
    var g := Sevenths();
    SeventhsAreAGroup();
    SmallDomainIsDomain();
    MulNone(g, 1);
    MulKilled(g, 7, 2, 1);
    MulModOrder(g, 7, 1, 2, 2);
    MulOne(g, 2);
    Zero(g, 2);
  }
}
