/** The arithmetic of one Bos-Carter step: the largest scalar loses the second largest and the
    second point gains the first. What the step keeps, and what it says about where the loop
    can stop. */
module BosCarterStep {
  import opened Arith
  import opened Groups

  // ---- the weighted sum of the points ----

  ghost function Sum<P>(g: Group<P>, vals: seq<nat>, pts: seq<P>, n: nat): P
    requires n <= |vals| && n <= |pts|
  {
    if n == 0 then g.zero else g.add(Sum(g, vals, pts, n - 1), Mul(g, vals[n - 1], pts[n - 1]))
  }

  lemma {:induction false} SumLocal<P(!new)>(g: Group<P>, vals: seq<nat>, pts: seq<P>, vals': seq<nat>, pts': seq<P>,
      n: nat)
    requires n <= |vals| && n <= |pts| && n <= |vals'| && n <= |pts'|
    requires forall i :: 0 <= i < n ==> vals[i] == vals'[i] && pts[i] == pts'[i]
    ensures Sum(g, vals, pts, n) == Sum(g, vals', pts', n)
  {
    if n > 0 {
      SumLocal(g, vals, pts, vals', pts', n - 1);
    }
  }

  /** Replacing one summand: the new sum plus the old term is the old sum plus the new term. */
  lemma {:induction false} SumUpdate<P(!new)>(g: Group<P>, vals: seq<nat>, pts: seq<P>, n: nat, i: nat, x: nat, q: P)
    requires IsAbelian(g)
    requires i < n <= |vals| && n <= |pts|
    ensures g.add(Sum(g, vals[i := x], pts[i := q], n), Mul(g, vals[i], pts[i]))
         == g.add(Sum(g, vals, pts, n), Mul(g, x, q))
  {
    var vals', pts' := vals[i := x], pts[i := q];
    var old1, new1 := Mul(g, vals[i], pts[i]), Mul(g, x, q);
    if i == n - 1 {
      SumLocal(g, vals, pts, vals', pts', n - 1);
      var s := Sum(g, vals, pts, n - 1);
      Assoc(g, s, new1, old1);
      Comm(g, new1, old1);
      Assoc(g, s, old1, new1);
    } else {
      SumUpdate(g, vals, pts, n - 1, i, x, q);
      var last := Mul(g, vals[n - 1], pts[n - 1]);
      var s, s' := Sum(g, vals, pts, n - 1), Sum(g, vals', pts', n - 1);
      assert Sum(g, vals', pts', n) == g.add(s', last);
      Assoc(g, s', last, old1);
      Comm(g, last, old1);
      Assoc(g, s', old1, last);
      Assoc(g, s, new1, last);
      Comm(g, new1, last);
      Assoc(g, s, last, new1);
    }
  }

  /** (s_a - s_b) P_a + s_b (P_b + P_a) == s_a P_a + s_b P_b, inside the whole sum. */
  lemma StepKeepsSum<P(!new)>(g: Group<P>, vals: seq<nat>, pts: seq<P>, n: nat, a: nat, b: nat)
    requires IsAbelian(g)
    requires a < n <= |vals| && b < n <= |pts| && a != b && vals[b] <= vals[a]
    ensures Sum(g, vals[a := vals[a] - vals[b]], pts[b := g.add(pts[b], pts[a])], n) == Sum(g, vals, pts, n)
  {
    var d := vals[a] - vals[b];
    var vals1 := vals[a := d];
    var pts2 := pts[b := g.add(pts[b], pts[a])];
    var s0, s1, s2 := Sum(g, vals, pts, n), Sum(g, vals1, pts, n), Sum(g, vals1, pts2, n);
    var da, ba, bb := Mul(g, d, pts[a]), Mul(g, vals[b], pts[a]), Mul(g, vals[b], pts[b]);

    // s1 + vals[a] P_a == s0 + d P_a, and vals[a] P_a == b P_a + d P_a
    SumUpdate(g, vals, pts, n, a, d, pts[a]);
    assert pts[a := pts[a]] == pts;
    MulAdd(g, vals[b], d, pts[a]);
    Assoc(g, s1, ba, da);
    Cancel(g, g.add(s1, ba), s0, da);

    // s2 + b P_b == s1 + (b P_b + b P_a)
    SumUpdate(g, vals1, pts, n, b, vals1[b], g.add(pts[b], pts[a]));
    assert vals1[b := vals1[b]] == vals1;
    MulDistributes(g, vals[b], pts[b], pts[a]);
    Comm(g, bb, ba);
    Assoc(g, s1, ba, bb);
    Cancel(g, s2, g.add(s1, ba), bb);
  }

  lemma {:induction false} SumOfZeros<P(!new)>(g: Group<P>, vals: seq<nat>, pts: seq<P>, n: nat)
    requires IsAbelian(g)
    requires n <= |vals| && n <= |pts|
    requires forall i :: 0 <= i < n ==> vals[i] == 0
    ensures Sum(g, vals, pts, n) == g.zero
  {
    if n > 0 {
      SumOfZeros(g, vals, pts, n - 1);
      Zero(g, g.zero);
    }
  }

  lemma {:induction false} SumOfOne<P(!new)>(g: Group<P>, vals: seq<nat>, pts: seq<P>, n: nat, k: nat)
    requires IsAbelian(g)
    requires k < n <= |vals| && n <= |pts|
    requires forall i :: 0 <= i < n && i != k ==> vals[i] == 0
    ensures Sum(g, vals, pts, n) == Mul(g, vals[k], pts[k])
  {
    if k == n - 1 {
      SumOfZeros(g, vals, pts, n - 1);
      Zero(g, Mul(g, vals[k], pts[k]));
    } else {
      SumOfOne(g, vals, pts, n - 1, k);
      Zero(g, Mul(g, vals[k], pts[k]));
    }
  }

  lemma {:induction false} SumExtends<P(!new)>(g: Group<P>, vals: seq<nat>, pts: seq<P>, vals': seq<nat>, pts': seq<P>,
      m: nat, n: nat)
    requires m <= n <= |vals| && n <= |pts| && n <= |vals'| && n <= |pts'|
    requires Sum(g, vals, pts, m) == Sum(g, vals', pts', m)
    requires forall i :: m <= i < n ==> vals[i] == vals'[i] && pts[i] == pts'[i]
    ensures Sum(g, vals, pts, n) == Sum(g, vals', pts', n)
    decreases n
  {
    if m < n {
      SumExtends(g, vals, pts, vals', pts', m, n - 1);
    }
  }

  // ---- common divisors ----

  ghost predicate SameDivisors(vals: seq<nat>, vals': seq<nat>, n: nat)
    requires n <= |vals| && n <= |vals'|
  {
    forall d :: CommonDivisor(d, vals, n) <==> CommonDivisor(d, vals', n)
  }

  lemma StepKeepsDivisors(vals: seq<nat>, n: nat, a: nat, b: nat)
    requires a < n <= |vals| && b < n && a != b && vals[b] <= vals[a]
    ensures SameDivisors(vals[a := vals[a] - vals[b]], vals, n)
  {
    var next := vals[a := vals[a] - vals[b]];
    forall d
      ensures CommonDivisor(d, next, n) <==> CommonDivisor(d, vals, n)
    {
      if CommonDivisor(d, next, n) {
        assert Divides(d, next[a]) && Divides(d, next[b]);
        DividesAdd(d, next[a], next[b]);
        forall i | 0 <= i < n ensures Divides(d, vals[i]) { assert Divides(d, next[i]); }
      }
      if CommonDivisor(d, vals, n) {
        assert Divides(d, vals[a]) && Divides(d, vals[b]);
        DividesSub(d, vals[a], vals[b]);
        forall i | 0 <= i < n ensures Divides(d, next[i]) { assert Divides(d, vals[i]); }
      }
    }
  }

  lemma SameDivisorsExtends(vals: seq<nat>, vals': seq<nat>, m: nat, n: nat)
    requires m <= n <= |vals| && n <= |vals'|
    requires SameDivisors(vals, vals', m)
    requires forall i :: m <= i < n ==> vals[i] == vals'[i]
    ensures SameDivisors(vals, vals', n)
  {
    forall d
      ensures CommonDivisor(d, vals, n) <==> CommonDivisor(d, vals', n)
    {
      assert CommonDivisor(d, vals, m) <==> CommonDivisor(d, vals', m);
      assert CommonDivisor(d, vals, n) <==> CommonDivisor(d, vals, m) && forall i :: m <= i < n ==> Divides(d, vals[i]);
      assert CommonDivisor(d, vals', n)
         <==> CommonDivisor(d, vals', m) && forall i :: m <= i < n ==> Divides(d, vals'[i]);
    }
  }

  lemma GcdOfOne(vals: seq<nat>, n: nat, k: nat)
    requires k < n <= |vals|
    requires forall i :: 0 <= i < n && i != k ==> vals[i] == 0
    ensures IsGcd(vals[k], vals, n)
  {
    forall d
      ensures CommonDivisor(d, vals, n) <==> Divides(d, vals[k])
    {
      DividesZero(d);
    }
  }

  lemma GcdUnique(v: nat, w: nat, vals: seq<nat>, n: nat)
    requires n <= |vals| && IsGcd(v, vals, n) && IsGcd(w, vals, n)
    ensures v == w
  {
    DividesSelf(v);
    DividesSelf(w);
    assert Divides(v, w) && Divides(w, v);
    DividesZero(v + 1);
    DividesZero(w + 1);
    if v > 0 && w > 0 {
      DividesBound(v, w);
      DividesBound(w, v);
    }
  }

  /** The gcd is at most every positive scalar, and it is zero if there is none. */
  lemma GcdBelow(v: nat, vals: seq<nat>, n: nat, l: nat)
    requires n <= |vals| && IsGcd(v, vals, n) && l > 0 && forall i :: 0 <= i < n ==> vals[i] < l
    ensures v < l
    ensures (forall i :: 0 <= i < n ==> vals[i] == 0) ==> v == 0
  {
    DividesSelf(v);
    assert CommonDivisor(v, vals, n);
    if i :| 0 <= i < n && vals[i] > 0 {
      assert Divides(v, vals[i]);
      DividesBound(v, vals[i]);
    } else {
      GcdOfNone(vals, n);
      GcdUnique(v, 0, vals, n);
    }
  }

  lemma GcdOfNone(vals: seq<nat>, n: nat)
    requires n <= |vals| && forall i :: 0 <= i < n ==> vals[i] == 0
    ensures IsGcd(0, vals, n)
  {
    forall d
      ensures CommonDivisor(d, vals, n) <==> Divides(d, 0)
    {
      DividesZero(d);
    }
  }

  // ---- where the loop can stop before the second half of the scalars is admitted ----

  ghost predicate AtMostOneNonzero(vals: seq<nat>, n: nat)
    requires n <= |vals|
  {
    forall i, j :: 0 <= i < j < n ==> vals[i] == 0 || vals[j] == 0
  }

  /** The condition on the first m scalars under which the loop never admits the others. */
  ghost predicate Stuck(vals: seq<nat>, m: nat)
    requires m <= |vals|
  {
    AtMostOneNonzero(vals, m) || exists d :: d >= TWO128 && CommonDivisor(d, vals, m)
  }

  /** What holds of the scalars while the loop has made a step but has not been extended. */
  ghost predicate StillLarge(vals: seq<nat>, m: nat)
    requires m <= |vals|
  {
    && (exists i :: 0 <= i < m && vals[i] >= TWO127)
    && (forall i :: 0 <= i < m && vals[i] > 0 && (forall j :: 0 <= j < m && j != i ==> vals[j] == 0)
          ==> vals[i] >= TWO128)
  }

  /** The maximum at most halves in a step, and a step cannot leave a lone scalar below 2^128. */
  lemma StepStaysLarge(vals: seq<nat>, m: nat, a: nat, b: nat)
    requires a < m <= |vals| && b < m && a != b
    requires vals[a] >= TWO128 && 0 < vals[b] <= vals[a]
    ensures StillLarge(vals[a := vals[a] - vals[b]], m)
  {
    var next := vals[a := vals[a] - vals[b]];
    assert next[b] == vals[b] && next[a] == vals[a] - vals[b];
    assert next[a] >= TWO127 || next[b] >= TWO127;
  }

  lemma NotStuck(vals0: seq<nat>, vals: seq<nat>, m: nat, a: nat)
    requires a < m <= |vals0| && m <= |vals|
    requires SameDivisors(vals, vals0, m)
    requires !AtMostOneNonzero(vals0, m)
    requires 0 < vals[a] < TWO128
    ensures !Stuck(vals0, m)
  {
    forall d | d >= TWO128 && CommonDivisor(d, vals0, m)
      ensures false
    {
      assert CommonDivisor(d, vals, m);
      assert Divides(d, vals[a]);
      DividesBound(d, vals[a]);
    }
  }

  lemma StuckByLoneScalar(vals0: seq<nat>, vals: seq<nat>, m: nat, a: nat)
    requires a < m <= |vals0| && m <= |vals|
    requires SameDivisors(vals, vals0, m)
    requires vals[a] >= TWO128
    requires forall i :: 0 <= i < m && i != a ==> vals[i] == 0
    ensures Stuck(vals0, m)
  {
    GcdOfOne(vals, m, a);
    DividesSelf(vals[a]);
    assert CommonDivisor(vals[a], vals, m);
    assert CommonDivisor(vals[a], vals0, m);
  }

  // ---- termination ----

  function Total(vals: seq<nat>, n: nat): nat
    requires n <= |vals|
  {
    if n == 0 then 0 else Total(vals, n - 1) + vals[n - 1]
  }

  lemma {:induction false} TotalUpdate(vals: seq<nat>, n: nat, i: nat, x: nat)
    requires i < n <= |vals|
    ensures Total(vals[i := x], n) == Total(vals, n) - vals[i] + x
  {
    if i < n - 1 {
      TotalUpdate(vals, n - 1, i, x);
    } else {
      TotalLocal(vals, vals[i := x], n - 1);
    }
  }

  lemma {:induction false} TotalLocal(vals: seq<nat>, vals': seq<nat>, n: nat)
    requires n <= |vals| && n <= |vals'|
    requires forall i :: 0 <= i < n ==> vals[i] == vals'[i]
    ensures Total(vals, n) == Total(vals', n)
  {
    if n > 0 {
      TotalLocal(vals, vals', n - 1);
    }
  }

  // ---- what every state of the loop satisfies ----

  /** n scalars are in play; the weighted sum and the common divisors are still the original ones. */
  ghost predicate Conserved<P(!new)>(g: Group<P>, vals0: seq<nat>, pts0: seq<P>, vals: seq<nat>, pts: seq<P>, n: nat) {
    && n <= |vals0| == |pts0| == |vals| == |pts|
    && Sum(g, vals, pts, n) == Sum(g, vals0, pts0, n)
    && SameDivisors(vals, vals0, n)
  }

  /** Entries m..count-1 are untouched 128-bit scalars. */
  ghost predicate TailWaits<P(!new)>(vals0: seq<nat>, pts0: seq<P>, vals: seq<nat>, pts: seq<P>, m: nat, count: nat) {
    && m <= count <= |vals0| == |pts0| == |vals| == |pts|
    && forall i :: m <= i < count ==> vals[i] == vals0[i] < TWO128 && pts[i] == pts0[i]
  }

  lemma ConservedStep<P(!new)>(g: Group<P>, vals0: seq<nat>, pts0: seq<P>, vals: seq<nat>, pts: seq<P>, n: nat, a: nat,
      b: nat)
    requires IsAbelian(g) && Conserved(g, vals0, pts0, vals, pts, n)
    requires a < n && b < n && a != b && vals[b] <= vals[a]
    ensures Conserved(g, vals0, pts0, vals[a := vals[a] - vals[b]], pts[b := g.add(pts[b], pts[a])], n)
  {
    StepKeepsSum(g, vals, pts, n, a, b);
    StepKeepsDivisors(vals, n, a, b);
    var next := vals[a := vals[a] - vals[b]];
    forall d
      ensures CommonDivisor(d, next, n) <==> CommonDivisor(d, vals0, n)
    {
      assert CommonDivisor(d, vals, n) <==> CommonDivisor(d, vals0, n);
    }
  }

  lemma ConservedExtends<P(!new)>(g: Group<P>, vals0: seq<nat>, pts0: seq<P>, vals: seq<nat>, pts: seq<P>, m: nat,
      count: nat)
    requires Conserved(g, vals0, pts0, vals, pts, m) && TailWaits(vals0, pts0, vals, pts, m, count)
    ensures Conserved(g, vals0, pts0, vals, pts, count)
  {
    SumExtends(g, vals, pts, vals0, pts0, m, count);
    SameDivisorsExtends(vals, vals0, m, count);
  }

  ghost predicate KilledBy<P(!new)>(g: Group<P>, l: int, pts: seq<P>, n: nat)
    requires n <= |pts|
  {
    forall i :: 0 <= i < n ==> Mul(g, l, pts[i]) == g.zero
  }

  /** Every order shared by the original points is an order of the current ones. */
  ghost predicate TorsionKept<P(!new)>(g: Group<P>, pts0: seq<P>, pts: seq<P>, n: nat)
    requires n <= |pts0| && n <= |pts|
  {
    forall l :: KilledBy(g, l, pts0, n) ==> KilledBy(g, l, pts, n)
  }

  lemma TorsionStep<P(!new)>(g: Group<P>, pts0: seq<P>, pts: seq<P>, n: nat, a: nat, b: nat)
    requires IsAbelian(g) && a < n <= |pts| && b < n <= |pts0| && TorsionKept(g, pts0, pts, n)
    ensures TorsionKept(g, pts0, pts[b := g.add(pts[b], pts[a])], n)
  {
    hide IsAbelian;
    var next := pts[b := g.add(pts[b], pts[a])];
    forall l | KilledBy(g, l, pts0, n)
      ensures KilledBy(g, l, next, n)
    {
      assert KilledBy(g, l, pts, n);
      MulDistributes(g, l, pts[b], pts[a]);
      Zero(g, g.zero);
    }
  }

  /** What the loop keeps about the numbers and points, before (m scalars in play) and after
      (count scalars in play) the 128-bit scalars are admitted. */
  ghost predicate Account<P(!new)>(g: Group<P>, vals0: seq<nat>, pts0: seq<P>, vals: seq<nat>, pts: seq<P>,
                                   m: nat, count: nat, extended: bool) {
    && m <= count <= |vals0| == |pts0| == |vals| == |pts|
    && Conserved(g, vals0, pts0, vals, pts, if extended then count else m)
    && TorsionKept(g, pts0, pts, count)
    && (!extended ==> TailWaits(vals0, pts0, vals, pts, m, count))
    && (extended ==> !Stuck(vals0, m) && forall i :: 0 <= i < count ==> vals[i] < TWO128)
  }

  lemma AccountStart<P(!new)>(g: Group<P>, vals0: seq<nat>, pts0: seq<P>, m: nat, count: nat)
    requires m <= count <= |vals0| == |pts0|
    requires forall i :: m <= i < count ==> vals0[i] < TWO128
    ensures Account(g, vals0, pts0, vals0, pts0, m, count, false)
  {
  }

  lemma AccountStep<P(!new)>(g: Group<P>, vals0: seq<nat>, pts0: seq<P>, vals: seq<nat>, pts: seq<P>,
                             m: nat, count: nat, extended: bool, a: nat, b: nat)
    requires IsAbelian(g) && Account(g, vals0, pts0, vals, pts, m, count, extended)
    requires var n := if extended then count else m; a < n && b < n && a != b
    requires vals[b] <= vals[a]
    ensures Account(g, vals0, pts0, vals[a := vals[a] - vals[b]], pts[b := g.add(pts[b], pts[a])], m, count, extended)
  {
    hide Stuck, IsAbelian, Conserved, TorsionKept;
    ConservedStep(g, vals0, pts0, vals, pts, if extended then count else m, a, b);
    TorsionStep(g, pts0, pts, count, a, b);
  }

  lemma AccountExtends<P(!new)>(g: Group<P>, vals0: seq<nat>, pts0: seq<P>, vals: seq<nat>, pts: seq<P>,
                                m: nat, count: nat, a: nat)
    requires Account(g, vals0, pts0, vals, pts, m, count, false)
    requires a < m && 0 < vals[a] < TWO128 && forall i :: 0 <= i < m ==> vals[i] <= vals[a]
    requires !AtMostOneNonzero(vals0, m)
    ensures Account(g, vals0, pts0, vals, pts, m, count, true)
  {
    NotStuck(vals0, vals, m, a);
    ConservedExtends(g, vals0, pts0, vals, pts, m, count);
  }

  /** Before the extension: either no step has been taken, or the scalars are still large. */
  ghost predicate Waiting(vals0: seq<nat>, vals: seq<nat>, m: nat, limbsize: nat)
    requires m <= |vals| == |vals0|
  {
    || (limbsize == 4 && vals == vals0)
    || (StillLarge(vals, m) && !AtMostOneNonzero(vals0, m))
  }

  lemma StartNonzero(vals0: seq<nat>, vals: seq<nat>, m: nat, limbsize: nat, a: nat, b: nat)
    requires m <= |vals| == |vals0| && Waiting(vals0, vals, m, limbsize)
    requires a < m && b < m && a != b && vals[a] > 0 && vals[b] > 0
    ensures !AtMostOneNonzero(vals0, m)
  {
    if vals == vals0 {
      assert vals[if a < b then a else b] > 0 && vals[if a < b then b else a] > 0;
    }
  }

  lemma LoneScalar(vals0: seq<nat>, vals: seq<nat>, n: nat, k: nat)
    requires k < n <= |vals| && n <= |vals0| && SameDivisors(vals, vals0, n)
    requires forall i :: 0 <= i < n && i != k ==> vals[i] == 0
    ensures IsGcd(vals[k], vals0, n)
  {
    GcdOfOne(vals, n, k);
    forall d
      ensures CommonDivisor(d, vals0, n) <==> Divides(d, vals[k])
    {
      assert CommonDivisor(d, vals, n) <==> CommonDivisor(d, vals0, n);
    }
  }

  lemma StuckAtExit(vals0: seq<nat>, vals: seq<nat>, m: nat, k: nat, limbsize: nat)
    requires k < m <= |vals| == |vals0| && SameDivisors(vals, vals0, m)
    requires forall i :: 0 <= i < m && i != k ==> vals[i] == 0
    requires Waiting(vals0, vals, m, limbsize)
    ensures Stuck(vals0, m)
  {
    if StillLarge(vals, m) {
      StuckByLoneScalar(vals0, vals, m, k);
    }
  }

  /** What is known when all scalars in play but one are zero: the loop was extended exactly when
      the first m scalars were not stuck, and the survivor carries the sum and the gcd. */
  lemma AccountAtExit<P(!new)>(g: Group<P>, vals0: seq<nat>, pts0: seq<P>, vals: seq<nat>, pts: seq<P>,
                               m: nat, count: nat, extended: bool, limbsize: nat, k: nat)
    requires IsAbelian(g) && Account(g, vals0, pts0, vals, pts, m, count, extended)
    requires !extended ==> Waiting(vals0, vals, m, limbsize)
    requires var n := if extended then count else m; k < n && forall i :: 0 <= i < n && i != k ==> vals[i] == 0
    ensures var n := if extended then count else m;
            && (extended <==> !Stuck(vals0, m))
            && IsGcd(vals[k], vals0, n)
            && Mul(g, vals[k], pts[k]) == Sum(g, vals0, pts0, n)
            && (extended ==> vals[k] < TWO128)
            && (forall l :: KilledBy(g, l, pts0, count) ==> Mul(g, l, pts[k]) == g.zero)
  {
    var n := if extended then count else m;
    SumOfOne(g, vals, pts, n, k);
    hide IsAbelian;
    LoneScalar(vals0, vals, n, k);
    if !extended {
      StuckAtExit(vals0, vals, m, k, limbsize);
    }
    forall l | KilledBy(g, l, pts0, count)
      ensures Mul(g, l, pts[k]) == g.zero
    {
      assert KilledBy(g, l, pts, count);
    }
  }
}
