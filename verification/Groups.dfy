/** Abelian groups given by their operations, and integer multiples of an element. */
module Groups {
  import opened Arith

  /** A candidate group on P. IsAbelian says which of these records really are groups. */
  datatype Group<!P> = Group(zero: P, add: (P, P) -> P, neg: P -> P)

  // The laws are instantiated one at a time through these named predicates, which
  // keeps associativity and commutativity from firing on every term in sight.
  ghost predicate CommLaw<P>(g: Group<P>, a: P, b: P) { g.add(a, b) == g.add(b, a) }
  ghost predicate AssocLaw<P>(g: Group<P>, a: P, b: P, c: P) {
    g.add(g.add(a, b), c) == g.add(a, g.add(b, c))
  }
  ghost predicate ZeroLaw<P>(g: Group<P>, a: P) { g.add(g.zero, a) == a }
  ghost predicate NegLaw<P>(g: Group<P>, a: P) { g.add(a, g.neg(a)) == g.zero }

  ghost predicate IsAbelian<P(!new)>(g: Group<P>) {
    && (forall a, b :: CommLaw(g, a, b))
    && (forall a, b, c :: AssocLaw(g, a, b, c))
    && (forall a :: ZeroLaw(g, a))
    && (forall a :: NegLaw(g, a))
  }

  /** [k]p for every integer k. */
  function Mul<P>(g: Group<P>, k: int, p: P): P
    decreases if k < 0 then 1 - k else k
  {
    if k == 0 then g.zero
    else if k > 0 then g.add(Mul(g, k - 1, p), p)
    else g.neg(Mul(g, -k, p))
  }

  lemma Comm<P(!new)>(g: Group<P>, a: P, b: P)
    requires IsAbelian(g)
    ensures g.add(a, b) == g.add(b, a)
  {
    assert CommLaw(g, a, b);
  }

  lemma Assoc<P(!new)>(g: Group<P>, a: P, b: P, c: P)
    requires IsAbelian(g)
    ensures g.add(g.add(a, b), c) == g.add(a, g.add(b, c))
  {
    assert AssocLaw(g, a, b, c);
  }

  lemma Zero<P(!new)>(g: Group<P>, a: P)
    requires IsAbelian(g)
    ensures g.add(g.zero, a) == a
    ensures g.add(a, g.zero) == a
  {
    assert ZeroLaw(g, a);
    Comm(g, a, g.zero);
  }

  lemma Neg<P(!new)>(g: Group<P>, a: P)
    requires IsAbelian(g)
    ensures g.add(a, g.neg(a)) == g.zero
    ensures g.add(g.neg(a), a) == g.zero
  {
    assert NegLaw(g, a);
    Comm(g, a, g.neg(a));
  }

  /** (a + b) + (c + d) == (a + c) + (b + d) */
  lemma Interchange<P(!new)>(g: Group<P>, a: P, b: P, c: P, d: P)
    requires IsAbelian(g)
    ensures g.add(g.add(a, b), g.add(c, d)) == g.add(g.add(a, c), g.add(b, d))
  {
    Assoc(g, a, b, g.add(c, d));
    Assoc(g, b, c, d);
    Comm(g, b, c);
    Assoc(g, c, b, d);
    Assoc(g, a, c, g.add(b, d));
  }

  /** Right cancellation. */
  lemma Cancel<P(!new)>(g: Group<P>, a: P, b: P, c: P)
    requires IsAbelian(g)
    requires g.add(a, c) == g.add(b, c)
    ensures a == b
  {
    Assoc(g, a, c, g.neg(c));
    Assoc(g, b, c, g.neg(c));
    Neg(g, c);
    Zero(g, a);
    Zero(g, b);
  }

  lemma NegOfSum<P(!new)>(g: Group<P>, a: P, b: P)
    requires IsAbelian(g)
    ensures g.neg(g.add(a, b)) == g.add(g.neg(a), g.neg(b))
  {
    Neg(g, g.add(a, b));
    Interchange(g, g.neg(a), g.neg(b), a, b);
    Neg(g, a);
    Neg(g, b);
    Zero(g, g.zero);
    Cancel(g, g.neg(g.add(a, b)), g.add(g.neg(a), g.neg(b)), g.add(a, b));
  }

  lemma NegZero<P(!new)>(g: Group<P>)
    requires IsAbelian(g)
    ensures g.neg(g.zero) == g.zero
  {
    Neg(g, g.zero);
    Zero(g, g.neg(g.zero));
  }

  lemma NegNeg<P(!new)>(g: Group<P>, a: P)
    requires IsAbelian(g)
    ensures g.neg(g.neg(a)) == a
  {
    Neg(g, a);
    Neg(g, g.neg(a));
    Cancel(g, g.neg(g.neg(a)), a, g.neg(a));
  }

  lemma MulNone<P(!new)>(g: Group<P>, p: P)
    ensures Mul(g, 0, p) == g.zero
  {
  }

  lemma MulOne<P(!new)>(g: Group<P>, p: P)
    requires IsAbelian(g)
    ensures Mul(g, 1, p) == p
  {
    Zero(g, p);
    assert Mul(g, 0, p) == g.zero;
  }

  lemma {:induction false} MulZeroPoint<P(!new)>(g: Group<P>, k: int)
    requires IsAbelian(g)
    ensures Mul(g, k, g.zero) == g.zero
    decreases if k < 0 then 1 - k else k
  {
    if k > 0 {
      MulZeroPoint(g, k - 1);
      Zero(g, g.zero);
    } else if k < 0 {
      MulZeroPoint(g, -k);
      NegZero(g);
    }
  }

  lemma MulNeg<P(!new)>(g: Group<P>, k: int, p: P)
    requires IsAbelian(g)
    ensures Mul(g, -k, p) == g.neg(Mul(g, k, p))
  {
    if k == 0 {
      NegZero(g);
    } else if k < 0 {
      NegNeg(g, Mul(g, -k, p));
    }
  }

  /** [k+1]p == [k]p + p also for negative k. */
  lemma MulSucc<P(!new)>(g: Group<P>, k: int, p: P)
    requires IsAbelian(g)
    ensures Mul(g, k + 1, p) == g.add(Mul(g, k, p), p)
  {
    if k < 0 {
      var n := Mul(g, -k - 1, p);
      assert Mul(g, -k, p) == g.add(n, p);
      NegOfSum(g, n, p);
      Assoc(g, g.neg(n), g.neg(p), p);
      Neg(g, p);
      Zero(g, g.neg(n));
      MulNeg(g, -k - 1, p);
    }
  }

  lemma {:induction false} MulAdd<P(!new)>(g: Group<P>, j: int, k: int, p: P)
    requires IsAbelian(g)
    ensures Mul(g, j + k, p) == g.add(Mul(g, j, p), Mul(g, k, p))
    decreases if k < 0 then -k else k
  {
    var a := Mul(g, j, p);
    if k == 0 {
      Zero(g, a);
    } else if k > 0 {
      MulAdd(g, j, k - 1, p);
      MulSucc(g, j + k - 1, p);
      Assoc(g, a, Mul(g, k - 1, p), p);
    } else {
      MulAdd(g, j, k + 1, p);
      MulSucc(g, j + k, p);
      MulSucc(g, k, p);
      Assoc(g, a, Mul(g, k, p), p);
      Cancel(g, Mul(g, j + k, p), g.add(a, Mul(g, k, p)), p);
    }
  }

  lemma {:induction false} MulDistributes<P(!new)>(g: Group<P>, k: int, p: P, q: P)
    requires IsAbelian(g)
    ensures Mul(g, k, g.add(p, q)) == g.add(Mul(g, k, p), Mul(g, k, q))
    decreases if k < 0 then 1 - k else k
  {
    if k == 0 {
      Zero(g, g.zero);
    } else if k > 0 {
      MulDistributes(g, k - 1, p, q);
      Interchange(g, Mul(g, k - 1, p), Mul(g, k - 1, q), p, q);
    } else {
      MulDistributes(g, -k, p, q);
      NegOfSum(g, Mul(g, -k, p), Mul(g, -k, q));
    }
  }

  lemma {:induction false} MulMul<P(!new)>(g: Group<P>, j: int, k: int, p: P)
    requires IsAbelian(g)
    ensures Mul(g, j, Mul(g, k, p)) == Mul(g, j * k, p)
    decreases if j < 0 then 1 - j else j
  {
    if j > 0 {
      MulMul(g, j - 1, k, p);
      MulAdd(g, (j - 1) * k, k, p);
      assert (j - 1) * k + k == j * k;
    } else if j < 0 {
      MulMul(g, -j, k, p);
      assert (-j) * k == -(j * k);
      MulNeg(g, j * k, p);
      NegNeg(g, Mul(g, j * k, p));
    }
  }

  lemma MulOfNeg<P(!new)>(g: Group<P>, k: int, p: P)
    requires IsAbelian(g)
    ensures Mul(g, k, g.neg(p)) == g.neg(Mul(g, k, p))
  {
    MulOne(g, p);
    assert Mul(g, -1, p) == g.neg(p);
    MulMul(g, k, -1, p);
    MulNeg(g, k, p);
  }

  /** Multiples that agree modulo an order of p agree. */
  lemma MulModOrder<P(!new)>(g: Group<P>, n: int, j: int, k: int, p: P)
    requires IsAbelian(g)
    requires Mul(g, n, p) == g.zero
    ensures Mul(g, j + k * n, p) == Mul(g, j, p)
  {
    MulAdd(g, j, k * n, p);
    MulMul(g, k, n, p);
    MulZeroPoint(g, k);
    Zero(g, Mul(g, j, p));
  }

  /** What kills a point kills its multiples. */
  lemma MulKilled<P(!new)>(g: Group<P>, n: int, k: int, p: P)
    requires IsAbelian(g) && Mul(g, n, p) == g.zero
    ensures Mul(g, n, Mul(g, k, p)) == g.zero
  {
    hide IsAbelian, Mul;
    MulMul(g, n, k, p);
    MulMul(g, k, n, p);
    MulComm(n, k);
    MulZeroPoint(g, k);
  }

  /** x - y is neutral exactly if x = y. */
  lemma DifferenceZero<P(!new)>(g: Group<P>, x: P, y: P)
    requires IsAbelian(g)
    ensures g.add(x, g.neg(y)) == g.zero <==> x == y
  {
    Neg(g, y);
    if g.add(x, g.neg(y)) == g.zero {
      Cancel(g, x, y, g.neg(y));
    }
  }

  lemma MulDifference<P(!new)>(g: Group<P>, k: int, x: P, y: P)
    requires IsAbelian(g)
    ensures Mul(g, k, g.add(x, g.neg(y))) == g.add(Mul(g, k, x), g.neg(Mul(g, k, y)))
  {
    MulDistributes(g, k, x, g.neg(y));
    MulOfNeg(g, k, y);
  }

  /** In a group element killed by a prime l, a multiple between 0 and l vanishes only if the
      element does. */
  lemma PrimeOrderNeutral<P(!new)>(g: Group<P>, l: int, k: int, p: P)
    requires IsAbelian(g) && IsPrime(l) && Mul(g, l, p) == g.zero
    requires 0 < k < l
    ensures Mul(g, k, p) == g.zero <==> p == g.zero
  {
    if p == g.zero {
      MulZeroPoint(g, k);
    }
    if Mul(g, k, p) == g.zero {
      var u, v := PrimeBezout(k, l);
      MulAdd(g, u * k, v * l, p);
      MulMul(g, u, k, p);
      MulMul(g, v, l, p);
      MulZeroPoint(g, u);
      MulZeroPoint(g, v);
      Zero(g, g.zero);
      MulOne(g, p);
    }
  }

  /** Two different multiples of a point of prime order are different. */
  lemma MultiplesDiffer<P(!new)>(g: Group<P>, l: int, x: int, y: int, p: P)
    requires IsAbelian(g) && IsPrime(l) && Mul(g, l, p) == g.zero && p != g.zero && 0 <= x < l && 0 <= y < l
    requires Mul(g, x, p) == Mul(g, y, p)
    ensures x == y
  {
    hide IsAbelian, IsPrime, Mul;
    if x != y {
      var lo, hi := if x < y then x else y, if x < y then y else x;
      MulAdd(g, hi - lo, lo, p);
      Zero(g, Mul(g, lo, p));
      Cancel(g, Mul(g, hi - lo, p), g.zero, Mul(g, lo, p));
      PrimeOrderNeutral(g, l, hi - lo, p);
    }
  }
}
