/** The index heap of batch verification (src/ed25519-donna/ed25519-donna-batchverify.h,
    lines 1-103), mutated in place. */
module BatchHeaps {
  import opened ModmBatch
  import opened HeapOrder

  const MAX_BATCH_SIZE: nat := 64
  const HEAP_BATCH_SIZE: nat := 129

  function Num(a: Limbs): nat {
    if IsLimbs(a) then Value(a) else 0
  }

  function Keys(scalars: seq<Limbs>): (k: seq<nat>)
    ensures |k| == |scalars| && forall i :: 0 <= i < |k| ==> k[i] == Num(scalars[i])
  {
    seq(|scalars|, i requires 0 <= i < |scalars| => Num(scalars[i]))
  }

  class BatchHeap<P> {
    const points: array<P>
    const scalars: array<Limbs>
    const heap: array<nat>
    var size: nat

    ghost predicate Shaped() {
      && points.Length == HEAP_BATCH_SIZE && scalars.Length == HEAP_BATCH_SIZE && heap.Length == HEAP_BATCH_SIZE
      && points as object != scalars && points as object != heap && scalars as object != heap
    }

    /** The heap holds the indices 0..size-1 of well-formed scalars. */
    ghost predicate Holds()
      reads this, heap, scalars
    {
      && Shaped() && size <= HEAP_BATCH_SIZE
      && IsPermutation(heap[..], size)
      && forall i :: 0 <= i < size ==> IsLimbs(scalars[i])
    }

    ghost function HeapKeys(): seq<nat>
      requires Holds()
      reads this, heap, scalars
    {
      View(heap[..], Keys(scalars[..]), size)
    }

    ghost predicate Valid()
      reads this, heap, scalars
    {
      Holds() && IsMaxHeap(HeapKeys())
    }

    constructor (points: array<P>, scalars: array<Limbs>)
      requires points.Length == HEAP_BATCH_SIZE && scalars.Length == HEAP_BATCH_SIZE
      requires points as object != scalars
      ensures this.points == points && this.scalars == scalars && fresh(heap)
      ensures Valid() && size == 0
    {
      this.points := points;
      this.scalars := scalars;
      this.heap := new nat[HEAP_BATCH_SIZE];
      this.size := 0;
    }

    /** heap_swap */
    method HeapSwap(a: nat, b: nat)
      requires a < heap.Length && b < heap.Length
      modifies heap
      ensures heap[..] == Swap(old(heap[..]), a, b)
    {
      var temp := heap[a];
      heap[a] := heap[b];
      heap[b] := temp;
    }

    /** The first n heap entries hold the indices 0..n-1 of well-formed scalars, and v lists
        the values of these scalars in heap order. */
    ghost predicate Shows(n: nat, v: seq<nat>)
      reads heap, scalars
    {
      && Shaped() && n <= HEAP_BATCH_SIZE
      && IsPermutation(heap[..], n)
      && (forall i :: 0 <= i < n ==> IsLimbs(scalars[i]))
      && v == View(heap[..], Keys(scalars[..]), n)
    }

    /** heap_swap, seen through the values in heap order. */
    method SwapAt(a: nat, b: nat, ghost n: nat, ghost v: seq<nat>)
      requires Shows(n, v) && a < n && b < n
      modifies heap
      ensures Shows(n, Swap(v, a, b))
    {
      ViewOfSwap(heap[..], Keys(scalars[..]), n, a, b);
      HeapSwap(a, b);
    }

    /** lt256_modm_batch applied to the scalars at heap positions a and b. */
    method LessAt(a: nat, b: nat, limbsize: nat, ghost n: nat, ghost v: seq<nat>) returns (less: bool)
      requires Shows(n, v) && a < n && b < n && Fits(n, limbsize)
      ensures less <==> v[a] < v[b]
    {
      FitsLimbs(scalars[heap[a]], limbsize + 1);
      FitsLimbs(scalars[heap[b]], limbsize + 1);
      less := Lt256ModmBatch(scalars[heap[a]], scalars[heap[b]], limbsize);
    }

    /** lte256_modm_batch applied to the scalars at heap positions a and b. */
    method AtMostAt(a: nat, b: nat, limbsize: nat, ghost n: nat, ghost v: seq<nat>) returns (atMost: bool)
      requires Shows(n, v) && a < n && b < n && Fits(n, limbsize)
      ensures atMost <==> v[a] <= v[b]
    {
      FitsLimbs(scalars[heap[a]], limbsize + 1);
      FitsLimbs(scalars[heap[b]], limbsize + 1);
      atMost := Lte256ModmBatch(scalars[heap[a]], scalars[heap[b]], limbsize);
    }

    /** The guard of the upward loops: node's parent, and whether node must swap with it. In the
        source parent wraps around when node is 0, and is then not used. */
    method RiseStrict(node: nat, limbsize: nat, ghost n: nat, ghost v: seq<nat>) returns (parent: nat, up: bool)
      requires Shows(n, v) && node < n && Fits(n, limbsize)
      ensures node > 0 ==> parent == HeapOrder.Parent(node)
      ensures up <==> node > 0 && v[HeapOrder.Parent(node)] < v[node]
    {
      parent, up := 0, false;
      if node != 0 {
        parent := (node - 1) / 2;
        up := LessAt(parent, node, limbsize, n, v);
      }
    }

    method Rise(node: nat, limbsize: nat, ghost n: nat, ghost v: seq<nat>) returns (parent: nat, up: bool)
      requires Shows(n, v) && node < n && Fits(n, limbsize)
      ensures node > 0 ==> parent == HeapOrder.Parent(node)
      ensures up <==> node > 0 && v[HeapOrder.Parent(node)] <= v[node]
    {
      parent, up := 0, false;
      if node != 0 {
        parent := (node - 1) / 2;
        up := AtMostAt(parent, node, limbsize, n, v);
      }
    }

    /** The scalars 0..n-1 are zero above limb limbsize. */
    ghost predicate Fits(n: nat, limbsize: nat)
      reads scalars
    {
      n <= scalars.Length && limbsize <= 4 && forall i :: 0 <= i < n ==> Num(scalars[i]) < At(limbsize + 1, 1)
    }

    lemma FitsAll(n: nat)
      requires n <= scalars.Length
      ensures Fits(n, 4)
    {
      forall i | 0 <= i < n
        ensures Num(scalars[i]) < At(5, 1)
      {
        if IsLimbs(scalars[i]) { LowValueBound(scalars[i], 5); }
      }
    }

    /** The second half of heap_insert_next: sift node up to its sorted spot. */
    method SiftInserted(bottom: nat, ghost before: seq<nat>) returns (ghost v: seq<nat>)
      requires bottom < HEAP_BATCH_SIZE && Shows(bottom + 1, before) && HeapButUp(before, bottom)
      modifies heap
      ensures Shows(bottom + 1, v) && IsMaxHeap(v)
    {
      v := before;
      ghost var n := bottom + 1;
      FitsAll(n);
      var node: nat := bottom;
      var parent, up := RiseStrict(node, 4, n, v);
      while up
        invariant node > 0 ==> parent == HeapOrder.Parent(node)
        invariant Shows(n, v) && HeapButUp(v, node)
        invariant up <==> node > 0 && v[parent] < v[node]
        decreases node
      {
        SiftUpStep(v, node);
        SwapAt(parent, node, n, v);
        v := Swap(v, parent, node);
        node := parent;
        parent, up := RiseStrict(node, 4, n, v);
      }
      SiftUpDone(v, node);
    }

    /** heap_insert_next: add the scalar at the end of the list to the heap. */
    method HeapInsertNext()
      requires Valid() && size < HEAP_BATCH_SIZE && IsLimbs(scalars[size])
      modifies heap, `size
      ensures Valid() && size == old(size) + 1
    {
      ghost var before := PlaceNext();
      ghost var v := SiftInserted(size, before);
      size := size + 1;
    }

    /** The first half of heap_insert_next: the new index goes to the bottom. */
    method PlaceNext() returns (ghost v: seq<nat>)
      requires Valid() && size < HEAP_BATCH_SIZE && IsLimbs(scalars[size])
      modifies heap
      ensures Shows(size + 1, v) && HeapButUp(v, size)
    {
      ghost var keys := Keys(scalars[..]);
      AppendAtBottom(HeapKeys(), keys[size]);
      ViewOfAppend(heap[..], keys, size);
      v := HeapKeys() + [keys[size]];
      heap[size] := size;
      assert heap[..] == old(heap[..])[size := size];
    }

    /** One pass of the loop below: swap the hole with its larger child. */
    method PushDown(parent: nat, childl: nat, childr: nat, limbsize: nat, ghost before: seq<nat>)
      returns (node: nat, ghost v: seq<nat>)
      requires Shows(size, before) && Fits(size, limbsize) && childl == 2 * parent + 1 && childr == childl + 1 < size
      modifies heap
      ensures node == (if before[childl] < before[childr] then childr else childl)
      ensures v == Swap(before, parent, node) && Shows(size, v)
    {
      hide Fits;
      var right := LessAt(childl, childr, limbsize, size, before);
      node := if right then childr else childl;
      SwapAt(parent, node, size, before);
      v := Swap(before, parent, node);
    }

    /** First loop of heap_updated_root: sift the root to the bottom, always swapping it with
        its larger child. */
    method SiftToBottom(limbsize: nat, ghost before: seq<nat>) returns (node: nat, ghost v: seq<nat>)
      requires Shows(size, before) && size >= 2 && Fits(size, limbsize)
      requires HeapButAt(before, 0)
      modifies heap
      ensures Shows(size, v) && node < Sifted(size) && Sunk(before, v, Sifted(size), node, before[Sifted(size)..])
    {
      hide Sinking, Sunk, HeapButAt, Fits, Sifted, IsPermutation, Keys, IsLimbs, Swap;
      v := before;
      RightChildren(0, size);
      ghost var n, tail := Sifted(size), before[Sifted(size)..];
      SinkStart(v, n);
      var parent: nat := 0;
      node := 1;
      var childl: nat, childr: nat := 1, 2;
      while childr < size
        invariant childl == 2 * parent + 1 && childr == childl + 1
        invariant if childr > 2 then size > 2 && node == parent else node == 1 && v == before
        invariant Shows(size, v) && Sinking(before, v, n, parent, tail)
        decreases size - childr
      {
        ghost var w := v;
        RightChildren(parent, size);
        node, v := PushDown(parent, childl, childr, limbsize, v);
        SinkStep(before, w, n, parent, node, tail);
        parent := node;
        childl := parent * 2 + 1;
        childr := childl + 1;
      }
      RightChildren(parent, size);
      if size > 2 {
        SinkDone(before, v, n, node, tail);
      } else {
        SinkPair(v);
      }
    }

    /** One pass of the loop below: swap node with its parent. */
    method PushUp(parent: nat, node: nat, ghost before: seq<nat>) returns (ghost v: seq<nat>)
      requires Shows(size, before) && 0 < node < size && parent == HeapOrder.Parent(node)
      modifies heap
      ensures v == Swap(before, parent, node) && Shows(size, v)
    {
      SwapAt(parent, node, size, before);
      v := Swap(before, parent, node);
    }

    /** Second loop of heap_updated_root: sift it back up to its sorted spot. */
    method SiftBackUp(bottom: nat, limbsize: nat, ghost before: seq<nat>, ghost n: nat, ghost tail: seq<nat>)
      returns (ghost v: seq<nat>, ghost top: nat)
      requires Shows(size, before) && Fits(size, limbsize) && bottom < n <= size && (n % 2 == 1 || n == 2)
      requires Rising(before, before, n, bottom, bottom, tail)
      modifies heap
      ensures Shows(size, v) && Settled(before, v, n, bottom, top, tail)
    {
      hide Rising, Settled, Fits, IsPermutation, IsLimbs, Keys;
      v := before;
      var node: nat := bottom;
      var parent, up := Rise(node, limbsize, size, v);
      while up
        invariant node > 0 ==> parent == HeapOrder.Parent(node)
        invariant Shows(size, v) && node < n && Rising(before, v, n, bottom, node, tail)
        invariant up <==> node > 0 && v[HeapOrder.Parent(node)] <= v[node]
        decreases node
      {
        RisingStep(before, v, n, bottom, node, tail);
        v := PushUp(parent, node, v);
        node := parent;
        parent, up := Rise(node, limbsize, size, v);
      }
      RisingDone(before, v, n, bottom, node, tail);
      top := node;
    }

    /** heap_updated_root: whatever happened to the root's scalar, the entries that are sifted are a max-heap again. For
        an odd size these are all entries. For an even size from 4 on the last entry is never looked at, and whether the
        heap is restored can be told from the keys before the call. */
    method HeapUpdatedRoot(limbsize: nat)
      requires Holds() && size >= 2 && Fits(size, limbsize)
      requires HeapButAt(HeapKeys(), 0)
      modifies heap
      ensures Holds() && IsMaxHeap(HeapKeys()[..Sifted(size)])
      ensures HeapKeys()[Sifted(size)..] == old(HeapKeys())[Sifted(size)..]
      ensures Valid() <==> old(Restores(HeapKeys()))
      ensures size % 2 == 1 ==> Valid()
    {
      hide HeapButAt, IsMaxHeap, Fits, Sunk, Rising, Settled, Bottom;
      var node;
      ghost var v, top;
      ghost var before, n := HeapKeys(), Sifted(size);
      node, v := SiftToBottom(limbsize, before);
      ghost var w := v;
      RisingStart(before, w, n, node, before[n..]);
      v, top := SiftBackUp(node, limbsize, w, n, before[n..]);
      UpdatedRoot(before, w, v, n, node, top);
    }

    /** heap_build: the first count scalars become the heap. */
    method HeapBuild(count: nat)
      requires Shaped() && 3 <= count <= HEAP_BATCH_SIZE
      requires forall i :: 0 <= i < count ==> IsLimbs(scalars[i])
      modifies heap, `size
      ensures Valid() && size == count
    {
      heap[0] := 0;
      size := 0;
      while size < count
        invariant Valid() && size <= count
        invariant forall i :: 0 <= i < count ==> IsLimbs(scalars[i])
      {
        HeapInsertNext();
      }
    }

    /** heap_extend: the heap grows to the first newCount scalars. */
    method HeapExtend(newCount: nat)
      requires Valid() && size <= newCount <= HEAP_BATCH_SIZE
      requires forall i :: 0 <= i < newCount ==> IsLimbs(scalars[i])
      modifies heap, `size
      ensures Valid() && size == newCount
    {
      while size < newCount
        invariant Valid() && size <= newCount
        invariant forall i :: 0 <= i < newCount ==> IsLimbs(scalars[i])
      {
        HeapInsertNext();
      }
    }

    /** heap_get_top2: the two largest scalars, at distinct indices. */
    method HeapGetTop2(limbsize: nat) returns (max1: nat, max2: nat)
      requires Valid() && size >= 3 && Fits(size, limbsize)
      ensures max1 < size && max2 < size && max1 != max2 && max1 == heap[0]
      ensures forall i :: 0 <= i < size ==> Value(scalars[i]) <= Value(scalars[max1])
      ensures forall i :: 0 <= i < size && i != max1 ==> Value(scalars[i]) <= Value(scalars[max2])
    {
      var h0, h1, h2 := heap[0], heap[1], heap[2];
      ghost var v := HeapKeys();
      var second := LessAt(1, 2, limbsize, size, v);
      if second {
        h1 := h2;
      }
      max1, max2 := h0, h1;
      forall i | 0 <= i < size
        ensures Value(scalars[i]) <= Value(scalars[max1])
        ensures i != max1 ==> Value(scalars[i]) <= Value(scalars[max2])
      {
        var j := PermutationHitsAll(heap[..], size, i);
        RootIsMaximal(v, j);
        assert v[j] == Value(scalars[i]);
        if i != max1 {
          ChildIsSecond(v, j);
        }
      }
    }
  }

  method FourKeys() returns (scalars: array<Limbs>)
    ensures fresh(scalars) && scalars.Length == HEAP_BATCH_SIZE
    ensures forall i :: 0 <= i < 4 ==> IsLimbs(scalars[i]) && Num(scalars[i]) == [0, 5, 3, 4][i]
  {
    hide LowValue;
    scalars := new Limbs[HEAP_BATCH_SIZE](_ => [0, 0, 0, 0, 0]);
    scalars[1], scalars[2], scalars[3] := [5, 0, 0, 0, 0], [3, 0, 0, 0, 0], [4, 0, 0, 0, 0];
    forall i | 0 <= i < 4
      ensures IsLimbs(scalars[i]) && Num(scalars[i]) == [0, 5, 3, 4][i]
    {
      OneLimb(scalars[i]);
    }
  }

  /** The scalars 0, 5, 3, 4 in heap order. */
  method FourHeap() returns (batch: BatchHeap<int>)
    ensures fresh(batch) && fresh(batch.heap) && batch.Holds() && batch.size == 4 && batch.Fits(4, 4)
    ensures batch.HeapKeys() == [0, 5, 3, 4] && Keys(batch.scalars[..])[..4] == [0, 5, 3, 4]
  {
    hide Num, IsLimbs, IsPermutation, IsMaxHeap;
    var points := new int[HEAP_BATCH_SIZE](_ => 0);
    var scalars := FourKeys();
    batch := new BatchHeap(points, scalars);
    batch.heap[0], batch.heap[1], batch.heap[2], batch.heap[3] := 0, 1, 2, 3;
    batch.size := 4;
    batch.FitsAll(4);
    FourView(batch.heap[..], Keys(scalars[..]));
  }

  lemma FourView(h: seq<nat>, keys: seq<nat>)
    requires |h| >= 4 && h[0] == 0 && h[1] == 1 && h[2] == 2 && h[3] == 3
    requires |keys| >= 4 && forall i :: 0 <= i < 4 ==> keys[i] == [0, 5, 3, 4][i]
    ensures IsPermutation(h, 4) && View(h, keys, 4) == keys[..4] == [0, 5, 3, 4]
  {
  }

  /** A run with an even size: the scalars 0, 5, 3, 4 after the root has become 0. The last entry is missed, and the
      result is no max-heap. */
  method EvenSizeRun() returns (batch: BatchHeap<int>)
    ensures batch.Holds() && batch.size == 4 && !batch.Valid()
  {
    hide Num, IsLimbs, View;
    batch := FourHeap();
    HoleInFour();
    batch.HeapUpdatedRoot(4);
  }

  lemma HoleInFour()
    ensures HeapButAt([0, 5, 3, 4], 0) && !Restores([0, 5, 3, 4])
  {
    assert Bottom([0, 5, 3, 4], 3, 0) == Bottom([0, 5, 3, 4], 3, 1) == 1;
  }

  lemma OneLimb(a: Limbs)
    requires |a| == 5 && a[1] == 0 && a[2] == 0 && a[3] == 0 && a[4] == 0 && 0 <= a[0] < 8
    ensures IsLimbs(a) && Num(a) == a[0]
  {
  }
}
