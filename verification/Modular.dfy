/** Congruence modulo any n, with the cofactor in the open. */
module Modular {
  import opened Arith
  import opened Groups

  /** a = b (mod n) */
  ghost predicate Same(a: int, b: int, n: nat) {
    exists t: int :: a == b + t * n
  }

  lemma SameMod(a: int, n: nat)
    requires n > 0
    ensures Same(a % n, a, n) && Same(a, a % n, n)
  {
    assert a % n == a + -(a / n) * n;
    assert a == a % n + (a / n) * n;
  }

  lemma SameShift(a: int, t: int, n: nat)
    ensures Same(a + t * n, a, n)
  {
  }

  lemma SameTrans(a: int, b: int, c: int, n: nat)
    requires Same(a, b, n) && Same(b, c, n)
    ensures Same(a, c, n)
  {
    var t :| a == b + t * n;
    var u :| b == c + u * n;
    assert a == c + (t + u) * n;
  }

  lemma SameSym(a: int, b: int, n: nat)
    requires Same(a, b, n)
    ensures Same(b, a, n)
  {
    var t :| a == b + t * n;
    assert b == a + -t * n;
  }

  lemma SameSum(h: int, a: int, b: int, n: nat)
    requires Same(a, b, n)
    ensures Same(h + a, h + b, n)
  {
    var t :| a == b + t * n;
    assert h + a == h + b + t * n;
  }

  lemma SameTimes(a: int, b: int, c: int, n: nat)
    requires Same(a, b, n)
    ensures Same(a * c, b * c, n) && Same(c * a, c * b, n)
  {
    var t :| a == b + t * n;
    assert a * c == b * c + (t * c) * n by {
      assert (b + t * n) * c == b * c + (t * n) * c;
      assert (t * n) * c == (t * c) * n;
    }
    assert a * c == c * a && b * c == c * b;
  }

  /** v = x y with x = a and y = b gives v = a b. */
  lemma SameProduct(v: int, x: int, y: int, a: int, b: int, n: nat)
    requires Same(v, x * y, n) && Same(x, a, n) && Same(y, b, n)
    ensures Same(v, a * b, n)
  {
    hide Same;
    SameTimes(x, a, y, n);
    SameTimes(y, b, a, n);
    SameTrans(v, x * y, a * y, n);
    SameTrans(v, a * y, a * b, n);
  }

  /** v = x + y with x = a and y = b gives v = a + b. */
  lemma SameTotal(v: int, x: int, y: int, a: int, b: int, n: nat)
    requires Same(v, x + y, n) && Same(x, a, n) && Same(y, b, n)
    ensures Same(v, a + b, n)
  {
    hide Same;
    SameSum(y, x, a, n);
    SameSum(a, y, b, n);
    SameTrans(v, x + y, a + y, n);
    SameTrans(v, a + y, a + b, n);
  }

  lemma SmallSame(a: int, b: int, n: nat)
    requires 0 <= a < n && 0 <= b < n && Same(a, b, n)
    ensures a == b
  {
    var t :| a == b + t * n;
    if t >= 1 {
      MulAtLeast(n, t);
    } else if t <= -1 {
      MulAtLeast(n, -t);
    }
  }

  /** Multiples of a point that n kills depend on the multiplier modulo n only. */
  lemma SameMultiple<P(!new)>(g: Group<P>, n: nat, a: int, b: int, p: P)
    requires IsAbelian(g) && Mul(g, n, p) == g.zero && Same(a, b, n)
    ensures Mul(g, a, p) == Mul(g, b, p)
  {
    hide IsAbelian;
    var t :| a == b + t * n;
    MulModOrder(g, n, b, t, p);
  }
}
