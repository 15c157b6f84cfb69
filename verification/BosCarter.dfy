/** ge25519_multi_scalarmult_vartime (src/ed25519-donna/ed25519-donna-batchverify.h, lines
    105-188) over an arbitrary abelian group. */
module BosCarter {
  import opened Arith
  import opened Groups
  import opened ModmBatch
  import opened HeapOrder
  import opened BatchHeaps
  import opened BosCarterStep

  /** The number of scalars the heap starts with: ((count + 1) / 2) | 1. */
  function InitialSize(count: nat): nat {
    var half := (count + 1) / 2;
    if half % 2 == 1 then half else half + 1
  }

  /** The loop invariant: a valid heap over the scalars in play, narrow enough for limbsize. */
  ghost predicate HeapReady<P(!new)>(batch: BatchHeap<P>, count: nat, limbsize: nat, extended: bool)
    reads batch, batch.heap, batch.scalars
  {
    && batch.Valid() && batch.Fits(batch.size, limbsize)
    && batch.size == (if extended then count else InitialSize(count))
    && count <= HEAP_BATCH_SIZE
    && forall i :: 0 <= i < count ==> IsLimbs(batch.scalars[i])
  }

  /** Where limbsize may be when the 128-bit scalars are admitted. */
  lemma RoomForTail(a: Limbs, vals0: seq<nat>, vals: seq<nat>, m: nat, limbsize: nat)
    requires IsLimbs(a) && m <= |vals| == |vals0| && limbsize <= 4
    requires Waiting(vals0, vals, m, limbsize)
    requires forall i :: 0 <= i < m ==> vals[i] <= Value(a)
    requires Value(a) < At(limbsize + 1, 1)
    ensures (if a[limbsize] == 0 then limbsize - 1 else limbsize) >= 2
  {
    if StillLarge(vals, m) {
      FitsLimbs(a, 2);
      FitsLimbs(a, limbsize + 1);
      AtMonotone(if limbsize <= 1 then limbsize + 1 else 2, 2);
    }
  }

  /** Dropping a limb that is zero in the largest scalar keeps all scalars in reach. */
  lemma NarrowFits<P>(batch: BatchHeap<P>, n: nat, max1: nat, limbsize: nat)
    requires batch.Fits(n, limbsize) && max1 < n
    requires IsLimbs(batch.scalars[max1]) && batch.scalars[max1][limbsize] == 0
    requires Value(batch.scalars[max1]) > 0
    requires forall i :: 0 <= i < n ==> Num(batch.scalars[i]) <= Num(batch.scalars[max1])
    ensures limbsize >= 1 && batch.Fits(n, limbsize - 1)
  {
    var a := batch.scalars[max1];
    FitsLimbs(a, limbsize + 1);
    FitsLimbs(a, limbsize);
    assert forall k :: limbsize <= k < 5 ==> a[k] == 0;
  }

  /** The two largest of the scalars in play, as heap_get_top2 leaves them. */
  ghost predicate Top2<P(!new)>(batch: BatchHeap<P>, max1: nat, max2: nat)
    reads batch, batch.heap, batch.scalars
  {
    && batch.Holds()
    && max1 < batch.size && max2 < batch.size && max1 != max2 && max1 == batch.heap[0]
    && (forall i :: 0 <= i < batch.size ==> Num(batch.scalars[i]) <= Num(batch.scalars[max1]))
    && (forall i :: 0 <= i < batch.size && i != max1 ==> Num(batch.scalars[i]) <= Num(batch.scalars[max2]))
  }

  /** The loop invariant on the numbers and points currently in the batch. */
  ghost predicate Tracks<P(!new)>(g: Group<P>, batch: BatchHeap<P>, count: nat, extended: bool,
                                  vals0: seq<nat>, pts0: seq<P>)
    reads batch.scalars, batch.points
  {
    Account(g, vals0, pts0, Keys(batch.scalars[..]), batch.points[..], InitialSize(count), count, extended)
  }

  ghost predicate AwaitsTail<P>(batch: BatchHeap<P>, count: nat, limbsize: nat, vals0: seq<nat>)
    reads batch.scalars
  {
    && InitialSize(count) <= batch.scalars.Length == |vals0|
    && Waiting(vals0, Keys(batch.scalars[..]), InitialSize(count), limbsize)
  }

  /** Line 171-173: narrow the limb width when the largest scalar has exhausted another limb. */
  method Narrow<P(!new)>(batch: BatchHeap<P>, count: nat, limbsize: nat, extended: bool, max1: nat, max2: nat)
    returns (limbsize': nat)
    requires HeapReady(batch, count, limbsize, extended) && Top2(batch, max1, max2) && Num(batch.scalars[max2]) > 0
    ensures HeapReady(batch, count, limbsize', extended)
    ensures limbsize' == if batch.scalars[max1][limbsize] == 0 then limbsize - 1 else limbsize
  {
    hide IsMaxHeap, IsPermutation;
    limbsize' := limbsize;
    if batch.scalars[max1][limbsize] == 0 {
      NarrowFits(batch, batch.size, max1, limbsize);
      limbsize' := limbsize - 1;
    }
  }

  /** heap_extend and the second heap_get_top2 of the loop body. */
  method Extend<P(!new)>(batch: BatchHeap<P>, count: nat, limbsize: nat) returns (max1: nat, max2: nat)
    requires HeapReady(batch, count, limbsize, false) && InitialSize(count) <= count && batch.size >= 3
    requires 2 <= limbsize <= 4
    requires forall i :: InitialSize(count) <= i < count ==> Num(batch.scalars[i]) < TWO128
    modifies batch.heap, batch`size
    ensures HeapReady(batch, count, limbsize, true)
    ensures Top2(batch, max1, max2)
  {
    AtMonotone(3, limbsize + 1);
    batch.HeapExtend(count);
    max1, max2 := batch.HeapGetTop2(limbsize);
  }

  /** The extension does not touch a scalar, so the two largest stay at least as large. */
  lemma TopsGrow<P(!new)>(batch: BatchHeap<P>, a: nat, b: nat, max1: nat, max2: nat)
    requires Top2(batch, max1, max2) && a < batch.size && b < batch.size && a != b
    requires Num(batch.scalars[a]) > 0 && Num(batch.scalars[b]) > 0
    ensures Num(batch.scalars[max2]) > 0
  {
    assert Num(batch.scalars[if a == max1 then b else a]) <= Num(batch.scalars[max2]);
  }

  /** Lines 176-180 when the guard holds: admit the 128-bit scalars. */
  method Admit<P(!new)>(g: Group<P>, batch: BatchHeap<P>, count: nat, limbsize: nat, max1: nat, max2: nat,
                        ghost wide: nat, ghost vals0: seq<nat>, ghost pts0: seq<P>)
    returns (max1': nat, max2': nat)
    requires 5 <= count && count % 2 == 1
    requires HeapReady(batch, count, limbsize, false) && Tracks(g, batch, count, false, vals0, pts0)
    requires batch.Fits(batch.size, wide) && AwaitsTail(batch, count, wide, vals0)
    requires Top2(batch, max1, max2) && Num(batch.scalars[max2]) > 0 && Num(batch.scalars[max1]) < TWO128
    requires limbsize == if batch.scalars[max1][wide] == 0 then wide - 1 else wide
    modifies batch.heap, batch`size
    ensures HeapReady(batch, count, limbsize, true) && Tracks(g, batch, count, true, vals0, pts0)
    ensures Top2(batch, max1', max2') && Num(batch.scalars[max2']) > 0
  {
    hide Stuck, Conserved, TorsionKept, IsMaxHeap, IsPermutation, AtMostOneNonzero, StillLarge;
    ghost var vals, m := Keys(batch.scalars[..]), InitialSize(count);
    StartNonzero(vals0, vals, m, wide, max1, max2);
    RoomForTail(batch.scalars[max1], vals0, vals, m, wide);
    AccountExtends(g, vals0, pts0, vals, batch.points[..], m, count, max1);
    max1', max2' := Extend(batch, count, limbsize);
    TopsGrow(batch, max1, max2, max1', max2');
  }

  /** Lines 171-180: narrow, and admit the 128-bit scalars when the rest has come down to 128 bits. */
  method Prepare<P(!new)>(g: Group<P>, batch: BatchHeap<P>, count: nat, limbsize: nat, extended: bool,
                          max1: nat, max2: nat, ghost vals0: seq<nat>, ghost pts0: seq<P>)
    returns (limbsize': nat, extended': bool, max1': nat, max2': nat)
    requires 5 <= count && count % 2 == 1
    requires HeapReady(batch, count, limbsize, extended) && Tracks(g, batch, count, extended, vals0, pts0)
    requires !extended ==> AwaitsTail(batch, count, limbsize, vals0)
    requires Top2(batch, max1, max2) && Num(batch.scalars[max2]) > 0
    modifies batch.heap, batch`size
    ensures HeapReady(batch, count, limbsize', extended') && Tracks(g, batch, count, extended', vals0, pts0)
    ensures Top2(batch, max1', max2') && Num(batch.scalars[max2']) > 0
    ensures !extended' ==> Num(batch.scalars[max1']) >= TWO128 && !AtMostOneNonzero(vals0, InitialSize(count))
  {
    hide Waiting, Account, IsMaxHeap, IsPermutation, AtMostOneNonzero;
    if !extended {
      StartNonzero(vals0, Keys(batch.scalars[..]), InitialSize(count), limbsize, max1, max2);
    }
    extended', max1', max2' := extended, max1, max2;
    limbsize' := Narrow(batch, count, limbsize, extended, max1, max2);
    var small := IsAtMost128Bits256ModmBatch(batch.scalars[max1]);
    if !extended && small {
      max1', max2' := Admit(g, batch, count, limbsize', max1, max2, limbsize, vals0, pts0);
      extended' := true;
    }
  }

  /** The first two statements of the step: subtract the scalars, add the points. */
  method SubtractAndAdd<P(!new)>(g: Group<P>, batch: BatchHeap<P>, max1: nat, max2: nat, limbsize: nat)
    requires batch.Shaped() && batch.size <= HEAP_BATCH_SIZE && batch.Fits(batch.size, limbsize)
    requires max1 < batch.size && max2 < batch.size && max1 != max2
    requires IsLimbs(batch.scalars[max1]) && IsLimbs(batch.scalars[max2])
    requires Value(batch.scalars[max2]) <= Value(batch.scalars[max1])
    modifies batch.scalars, batch.points
    ensures batch.Fits(batch.size, limbsize)
    ensures batch.scalars[..] == old(batch.scalars[..])[max1 := batch.scalars[max1]] && IsLimbs(batch.scalars[max1])
    ensures Value(batch.scalars[max1]) == old(Value(batch.scalars[max1])) - old(Value(batch.scalars[max2]))
    ensures batch.points[..]
         == old(batch.points[..])[max2 := g.add(old(batch.points[max2]), old(batch.points[max1]))]
  {
    var a, b := batch.scalars[max1], batch.scalars[max2];
    FitsLimbs(a, limbsize + 1);
    FitsLimbs(b, limbsize + 1);
    var out := Sub256ModmBatch(a, b, limbsize);
    FitsLimbs(out, limbsize + 1);
    batch.scalars[max1] := out;
    batch.points[max2] := g.add(batch.points[max2], batch.points[max1]);
  }

  lemma RootChanged(h: seq<nat>, keys: seq<nat>, n: nat, x: nat)
    requires IsPermutation(h, n) && 0 < n <= |keys| && IsMaxHeap(View(h, keys, n))
    ensures HeapButAt(View(h, keys[h[0] := x], n), 0)
  {
    var v, w := View(h, keys, n), View(h, keys[h[0] := x], n);
    forall j | 0 < j < n && HeapOrder.Parent(j) != 0
      ensures EdgeOk(w, j)
    {
      assert EdgeOk(v, j);
    }
  }

  /** Lines 182-184: subtract, add, repair the heap. */
  method StepOnce<P(!new)>(g: Group<P>, batch: BatchHeap<P>, count: nat, limbsize: nat, extended: bool, max1: nat,
      max2: nat)
    requires 5 <= count && count % 2 == 1
    requires HeapReady(batch, count, limbsize, extended) && Top2(batch, max1, max2)
    modifies batch.heap, batch.scalars, batch.points
    ensures HeapReady(batch, count, limbsize, extended)
    ensures var vals := old(Keys(batch.scalars[..]));
            vals[max2] <= vals[max1] && Keys(batch.scalars[..]) == vals[max1 := vals[max1] - vals[max2]]
    ensures batch.points[..]
         == old(batch.points[..])[max2 := g.add(old(batch.points[max2]), old(batch.points[max1]))]
  {
    hide IsMaxHeap, HeapButAt, IsPermutation, LowValue, At, Sifted, Restores;
    ghost var vals := Keys(batch.scalars[..]);
    RootChanged(batch.heap[..], vals, batch.size, vals[max1] - vals[max2]);
    SubtractAndAdd(g, batch, max1, max2, limbsize);
    assert Keys(batch.scalars[..]) == vals[max1 := vals[max1] - vals[max2]];
    batch.HeapUpdatedRoot(limbsize);
  }

  /** The step, seen from the loop invariant. */
  method TakeStep<P(!new)>(g: Group<P>, batch: BatchHeap<P>, count: nat, limbsize: nat, extended: bool,
                           max1: nat, max2: nat, ghost vals0: seq<nat>, ghost pts0: seq<P>)
    requires IsAbelian(g) && 5 <= count && count % 2 == 1
    requires HeapReady(batch, count, limbsize, extended) && Tracks(g, batch, count, extended, vals0, pts0)
    requires Top2(batch, max1, max2) && Num(batch.scalars[max2]) > 0
    requires !extended ==> Num(batch.scalars[max1]) >= TWO128 && !AtMostOneNonzero(vals0, InitialSize(count))
    modifies batch.heap, batch.scalars, batch.points
    ensures HeapReady(batch, count, limbsize, extended) && Tracks(g, batch, count, extended, vals0, pts0)
    ensures !extended ==> AwaitsTail(batch, count, limbsize, vals0)
    ensures Total(Keys(batch.scalars[..]), count) < old(Total(Keys(batch.scalars[..]), count))
  {
    hide IsAbelian, Conserved, TorsionKept, TailWaits, Stuck, IsMaxHeap, IsPermutation, AtMostOneNonzero, StillLarge,
        Total;
    hide Num, LowValue, At, IsLimbs;
    ghost var vals, pts, m := Keys(batch.scalars[..]), batch.points[..], InitialSize(count);
    if !extended {
      StepStaysLarge(vals, m, max1, max2);
    }
    AccountStep(g, vals0, pts0, vals, pts, m, count, extended, max1, max2);
    TotalUpdate(vals, count, max1, vals[max1] - vals[max2]);
    StepOnce(g, batch, count, limbsize, extended, max1, max2);
  }

  /** Lines 155-185: the loop up to the final multiplication. */
  method BosCarterLoop<P(!new)>(g: Group<P>, batch: BatchHeap<P>, count: nat) returns (max1: nat, extended: bool)
    requires IsAbelian(g)
    requires batch.Shaped() && 5 <= count <= HEAP_BATCH_SIZE && count % 2 == 1
    requires forall i :: 0 <= i < count ==> IsLimbs(batch.scalars[i])
    requires forall i :: InitialSize(count) <= i < count ==> Num(batch.scalars[i]) < TWO128
    modifies batch.heap, batch.scalars, batch.points, batch`size
    ensures var vals0, pts0 := old(Keys(batch.scalars[..])), old(batch.points[..]);
            var n := if extended then count else InitialSize(count);
            && (extended <==> !Stuck(vals0, InitialSize(count)))
            && max1 < n
            && (forall i :: 0 <= i < count ==> IsLimbs(batch.scalars[i]))
            && (forall i :: 0 <= i < n && i != max1 ==> Num(batch.scalars[i]) == 0)
            && IsGcd(Num(batch.scalars[max1]), vals0, n)
            && Mul(g, Num(batch.scalars[max1]), batch.points[max1]) == Sum(g, vals0, pts0, n)
            && (extended ==> Num(batch.scalars[max1]) < TWO128)
            && (forall l :: KilledBy(g, l, pts0, count) ==> Mul(g, l, batch.points[max1]) == g.zero)
  {
    hide IsAbelian, Stuck, Account, Conserved, IsMaxHeap, IsPermutation, StillLarge, TailWaits, IsGcd, Total, LowValue,
        KilledBy;
    ghost var vals0, pts0, m := Keys(batch.scalars[..]), batch.points[..], InitialSize(count);
    AccountStart(g, vals0, pts0, m, count);
    var limbsize: nat := 4;
    extended := false;
    batch.HeapBuild(InitialSize(count));
    batch.FitsAll(batch.size);
    var max2;
    while true
      invariant HeapReady(batch, count, limbsize, extended) && Tracks(g, batch, count, extended, vals0, pts0)
      invariant !extended ==> AwaitsTail(batch, count, limbsize, vals0)
      decreases Total(Keys(batch.scalars[..]), count)
    {
      max1, max2 := batch.HeapGetTop2(limbsize);
      var done := IsZero256ModmBatch(batch.scalars[max2]);
      if done {
        break;
      }
      limbsize, extended, max1, max2 := Prepare(g, batch, count, limbsize, extended, max1, max2, vals0, pts0);
      TakeStep(g, batch, count, limbsize, extended, max1, max2, vals0, pts0);
    }
    AccountAtExit(g, vals0, pts0, Keys(batch.scalars[..]), batch.points[..], m, count, extended, limbsize, max1);
  }
}
