/** Euclid's algorithm and modular inverses (bin/python/ecdsa/numbertheory.py, lines 185-210). */
module NumberTheory {
  import opened Arith

  /** Python's x % m, whose sign is that of m. */
  function FloorMod(x: int, m: int): int
    requires m != 0
  {
    if m > 0 then x % m else -((-x) % (-m))
  }

  lemma FloorModMultiple(x: int, m: int) returns (q: int)
    requires m != 0
    ensures x == q * m + FloorMod(x, m)
    ensures if m > 0 then 0 <= FloorMod(x, m) < m else m < FloorMod(x, m) <= 0
  {
    q := if m > 0 then x / m else (-x) / (-m);
    if m < 0 {
      var n, y := -m, -x;
      assert y == n * (y / n) + y % n;
      assert q * m == -(q * n);
    }
  }

  lemma GcdOfTwo(r: int, a: int, b: int)
    ensures IsGcd(r, [a, b], 2) <==> forall d: int :: Divides(d, a) && Divides(d, b) <==> Divides(d, r)
  {
    hide Divides;
    forall d: int
      ensures CommonDivisor(d, [a, b], 2) <==> Divides(d, a) && Divides(d, b)
    {
      assert [a, b][0] == a && [a, b][1] == b;
    }
  }

  ghost predicate SameCommon(a: int, b: int, c: int, d: int) {
    forall k: int :: Divides(k, a) && Divides(k, b) <==> Divides(k, c) && Divides(k, d)
  }

  /** One Euclidean step keeps the common divisors. */
  lemma EuclidStep(a: int, b: int, q: int, r: int)
    requires b == q * a + r
    ensures SameCommon(a, b, r, a)
  {
    forall k: int
      ensures Divides(k, a) && Divides(k, b) <==> Divides(k, r) && Divides(k, a)
    {
      if Divides(k, a) && Divides(k, b) {
        DividesLinear(k, a, b, -q, 1);
        assert -q * a + 1 * b == r;
      }
      if Divides(k, r) && Divides(k, a) {
        DividesLinear(k, a, r, q, 1);
        assert q * a + 1 * r == b;
      }
    }
  }

  /** gcd2, for integers of any sign. The remainder has the sign of the divisor, so the result has the sign of the first
      argument; for the first argument 0 it is the second. */
  method Gcd2(a0: int, b0: int) returns (r: int)
    ensures IsGcd(r, [a0, b0], 2)
    ensures a0 > 0 ==> r > 0
    ensures a0 < 0 ==> r < 0
    ensures a0 == 0 ==> r == b0
  {
    hide Divides;
    var a, b := a0, b0;
    while a != 0
      invariant SameCommon(a, b, a0, b0)
      invariant if a0 > 0 then a >= 0 && (a == 0 ==> b > 0) else a <= 0 && (a == 0 && a0 < 0 ==> b < 0)
      invariant a0 == 0 ==> a == 0 && b == b0
      decreases if a < 0 then -a else a
    {
      ghost var q := FloorModMultiple(b, a);
      EuclidStep(a, b, q, FloorMod(b, a));
      a, b := FloorMod(b, a), a;
    }
    AllDivideZero();
    r := b;
    GcdOfTwo(r, a0, b0);
  }

  lemma AllDivideZero()
    ensures forall d: int :: Divides(d, 0)
  {
    forall d: int
      ensures Divides(d, 0)
    {
      DividesZero(d);
    }
  }

  /** a and m have no common divisor but 1 and -1. */
  ghost predicate Coprime(a: int, m: int) {
    IsGcd(1, [a, m], 2)
  }

  // ---- extended Euclid ----

  /** The loop of inverse_mod: c and d are combinations of a and m; the coefficients of a have opposite signs
      and their sizes p and r satisfy p d + r c = m. */
  ghost predicate Extended(a: int, m: int, c: int, d: int, uc: int, vc: int, ud: int, vd: int, p: int, r: int) {
    && 0 <= c < d && c == uc * a + vc * m && d == ud * a + vd * m
    && SameCommon(c, d, a, m)
    && p >= 1 && 0 <= r <= p && p * d + r * c == m
    && ((uc == p && ud == -r) || (uc == -p && ud == r))
  }

  lemma ExtendedStep(a: int, m: int, c: int, d: int, uc: int, vc: int, ud: int, vd: int, p: int, r: int, q: int, e: int)
    requires Extended(a, m, c, d, uc, vc, ud, vd, p, r) && c != 0 && d == q * c + e && 0 <= e < c
    ensures Extended(a, m, e, c, ud - q * uc, vd - q * vc, uc, vc, r + q * p, p)
  {
    hide Divides;
    EuclidStep(c, d, q, e);
    if q <= 0 {
      NonPositive(q, c);
    }
    MulAtLeast(p, q);
    NextCombination(a, m, c, d, uc, vc, ud, vd, q, e);
    NextSizes(m, c, d, p, r, q, e);
    NegLeft(q, p);
  }

  lemma NonPositive(q: int, c: int)
    requires q <= 0 <= c
    ensures q * c <= 0
  {
  }

  lemma NegLeft(q: int, p: int)
    ensures q * -p == -(q * p) && q * p == p * q
  {
  }

  lemma NextCombination(a: int, m: int, c: int, d: int, uc: int, vc: int, ud: int, vd: int, q: int, e: int)
    requires c == uc * a + vc * m && d == ud * a + vd * m && d == q * c + e
    ensures e == (ud - q * uc) * a + (vd - q * vc) * m
  {
    TimesDifference(ud, q, uc, a);
    TimesDifference(vd, q, vc, m);
    assert q * c == q * (uc * a) + q * (vc * m);
  }

  lemma TimesDifference(x: int, q: int, u: int, a: int)
    ensures (x - q * u) * a == x * a - q * (u * a)
  {
  }

  lemma NextSizes(m: int, c: int, d: int, p: int, r: int, q: int, e: int)
    requires p * d + r * c == m && d == q * c + e
    ensures (r + q * p) * c + p * e == m
  {
    assert p * d == p * (q * c) + p * e;
    assert p * (q * c) == (q * p) * c;
  }

  lemma ExtendedStart(a: int, m: int)
    requires 0 <= a < m
    ensures Extended(a, m, a, m, 1, 0, 0, 1, 1, 0)
  {
    hide Divides;
  }

  /** Python's assertion at the end fails exactly if a and m have a common divisor. */
  method InverseMod(a0: int, m: int) returns (ok: bool, inverse: int)
    requires m >= 1
    ensures ok <==> Coprime(a0, m)
    ensures ok ==> (a0 * inverse) % m == 1 % m
    ensures ok && m >= 2 ==> 1 <= inverse <= m - 1
  {
    hide Extended, Divides, IsGcd;
    var a := a0;
    if a < 0 || m <= a {
      a := a % m;
    }
    ReducedCommon(a0, a, m);
    var c, d := a, m;
    var uc, vc, ud, vd := 1, 0, 0, 1;
    ghost var p, r := 1, 0;
    ExtendedStart(a, m);
    while c != 0
      invariant Extended(a, m, c, d, uc, vc, ud, vd, p, r)
      decreases c
    {
      ExtendedSign(a, m, c, d, uc, vc, ud, vd, p, r);
      var q, e := d / c, d % c;
      ExtendedStep(a, m, c, d, uc, vc, ud, vd, p, r, q, e);
      p, r := r + q * p, p;
      c, d := e, c;
      uc, vc, ud, vd := ud - q * uc, vd - q * vc, uc, vc;
    }
    CoprimeIff(a, m, d, uc, vc, ud, vd, p, r);
    CoprimeSame(a0, a, m);
    ok := d == 1;
    inverse := if ud > 0 then ud else ud + m;
    if ok {
      InverseIs(a, m, uc, vc, ud, vd, p, r);
      InverseOfReduced(a0, a, m, inverse);
    }
  }

  lemma ExtendedSign(a: int, m: int, c: int, d: int, uc: int, vc: int, ud: int, vd: int, p: int, r: int)
    requires Extended(a, m, c, d, uc, vc, ud, vd, p, r)
    ensures 0 <= c < d
  {
    hide Divides;
  }

  /** Reducing a modulo m keeps the common divisors with m. */
  lemma ReducedCommon(a0: int, a: int, m: int)
    requires m >= 1 && a == if a0 < 0 || m <= a0 then a0 % m else a0
    ensures 0 <= a < m && exists q: int :: a0 == a + q * m
  {
    var q := if a0 < 0 || m <= a0 then a0 / m else 0;
    assert a0 == a + q * m;
  }

  lemma CoprimeSame(a0: int, a: int, m: int)
    requires exists q: int :: a0 == a + q * m
    ensures Coprime(a0, m) <==> Coprime(a, m)
  {
    hide Divides;
    var q :| a0 == a + q * m;
    GcdOfTwo(1, a0, m);
    GcdOfTwo(1, a, m);
    EuclidStep(m, a0, q, a);
    assert SameCommon(m, a0, a, m);
  }

  lemma CoprimeIff(a: int, m: int, d: int, uc: int, vc: int, ud: int, vd: int, p: int, r: int)
    requires Extended(a, m, 0, d, uc, vc, ud, vd, p, r)
    ensures d == 1 <==> Coprime(a, m)
  {
    AllDivideZero();
    GcdOfTwo(1, a, m);
    if Coprime(a, m) {
      DividesSelf(d);
      assert Divides(d, 0) && Divides(d, d);
      assert Divides(d, 1);
      DividesBound(d, 1);
    }
    hide Divides;
  }

  /** The coefficient of a at the end is an inverse, and small. */
  lemma InverseIs(a: int, m: int, uc: int, vc: int, ud: int, vd: int, p: int, r: int)
    requires m >= 1 && Extended(a, m, 0, 1, uc, vc, ud, vd, p, r)
    ensures var i := if ud > 0 then ud else ud + m; (a * i) % m == 1 % m && (m >= 2 ==> 1 <= i <= m - 1)
  {
    hide Divides;
    assert p == m && 1 == ud * a + vd * m;
    var i := if ud > 0 then ud else ud + m;
    var k := if ud > 0 then -vd else a - vd;
    assert a * i == 1 + k * m by {
      assert a * (ud + m) == a * ud + a * m;
      assert (a - vd) * m == a * m - vd * m;
      assert -vd * m == -(vd * m);
    }
    if m == 1 {
      assert (a * i) % 1 == 0;
    } else {
      assert a * i == m * k + 1;
      DivUnique(a * i, m, k, 1);
      DivSmall(1, m);
      NotWhole(a, m, ud, vd);
    }
  }

  /** Neither 0 nor m nor -m is an inverse. */
  lemma NotWhole(a: int, m: int, u: int, v: int)
    requires m >= 2 && 1 == u * a + v * m
    ensures u != 0 && u != m && u != -m
  {
    if u == 0 {
      NoUnit(m, v);
    } else if u == m {
      assert 1 == (a + v) * m;
      NoUnit(m, a + v);
    } else if u == -m {
      assert -m * a == -(a * m);
      assert 1 == (v - a) * m;
      NoUnit(m, v - a);
    }
  }

  lemma NoUnit(m: int, k: int)
    requires m >= 2
    ensures k * m != 1
  {
    if k >= 1 {
      MulAtLeast(m, k);
    } else {
      assert k * m <= 0;
    }
  }

  lemma InverseOfReduced(a0: int, a: int, m: int, i: int)
    requires m >= 1 && (exists q: int :: a0 == a + q * m) && (a * i) % m == 1 % m
    ensures (a0 * i) % m == 1 % m
  {
    var q :| a0 == a + q * m;
    var x, k := a * i, q * i;
    assert a0 * i == x + m * k by {
      assert (a + q * m) * i == a * i + (q * m) * i;
      assert (q * m) * i == m * (q * i);
    }
    DivUnique(a0 * i, m, x / m + k, x % m);
  }
}
