/** The pure side of the index heap: which key sequences are max-heaps, what one swap of
    each sift loop does to a heap with one bad spot, and permutations of 0..n-1. */
module HeapOrder {

  function Parent(j: nat): nat
    requires j > 0
  {
    (j - 1) / 2
  }

  function Swap(h: seq<nat>, a: nat, b: nat): seq<nat>
    requires a < |h| && b < |h|
  {
    h[a := h[b]][b := h[a]]
  }

  // ---- heap order, on the keys in heap position order ----

  ghost predicate EdgeOk(v: seq<nat>, j: nat)
    requires 0 < j < |v|
  {
    v[Parent(j)] >= v[j]
  }

  ghost predicate IsMaxHeap(v: seq<nat>) {
    forall j :: 0 < j < |v| ==> EdgeOk(v, j)
  }

  /** A max-heap but for the entry at node, which may be too large for its place. */
  ghost predicate HeapButUp(v: seq<nat>, node: nat) {
    && node < |v|
    && (forall j :: 0 < j < |v| && j != node ==> EdgeOk(v, j))
    && (node > 0 ==> forall j :: 0 < j < |v| && Parent(j) == node ==> v[Parent(node)] >= v[j])
  }

  /** A max-heap but for the entry at hole, about which nothing is known. */
  ghost predicate HeapButAt(v: seq<nat>, hole: nat) {
    && hole < |v|
    && (forall j :: 0 < j < |v| && j != hole && Parent(j) != hole ==> EdgeOk(v, j))
    && (hole > 0 ==> forall j :: 0 < j < |v| && Parent(j) == hole ==> v[Parent(hole)] >= v[j])
  }

  lemma AppendAtBottom(v: seq<nat>, x: nat)
    requires IsMaxHeap(v)
    ensures HeapButUp(v + [x], |v|)
  {
    forall j | 0 < j < |v|
      ensures EdgeOk(v + [x], j)
    {
      assert EdgeOk(v, j);
    }
  }

  lemma SiftUpStep(v: seq<nat>, node: nat)
    requires HeapButUp(v, node) && node > 0
    requires v[Parent(node)] <= v[node]
    ensures HeapButUp(Swap(v, Parent(node), node), Parent(node))
  {
    var p := Parent(node);
    var s := Swap(v, p, node);
    forall j | 0 < j < |v| && j != p
      ensures EdgeOk(s, j)
    {
      assert j == node || EdgeOk(v, j);
    }
    if p > 0 {
      assert EdgeOk(v, p);
      forall j | 0 < j < |v| && Parent(j) == p
        ensures s[Parent(p)] >= s[j]
      {
        assert j == node || EdgeOk(v, j);
      }
    }
  }

  lemma SiftUpDone(v: seq<nat>, node: nat)
    requires HeapButUp(v, node)
    requires node == 0 || v[Parent(node)] >= v[node]
    ensures IsMaxHeap(v)
  {
  }

  /** Moving the larger child into the hole moves the hole down to that child. */
  lemma SiftDownStep(v: seq<nat>, hole: nat, child: nat)
    requires HeapButAt(v, hole) && 2 * hole + 2 < |v|
    requires child == 2 * hole + 1 || child == 2 * hole + 2
    requires v[child] >= v[2 * hole + 1] && v[child] >= v[2 * hole + 2]
    ensures HeapButAt(Swap(v, hole, child), child)
  {
    var s := Swap(v, hole, child);
    assert Parent(child) == hole;
    forall j | 0 < j < |v| && j != child && Parent(j) != child
      ensures EdgeOk(s, j)
    {
      assert j == hole || Parent(j) == hole || EdgeOk(v, j);
      if Parent(j) == hole {
        assert j == 2 * hole + 1 || j == 2 * hole + 2;
      }
    }
    forall j | 0 < j < |v| && Parent(j) == child
      ensures s[hole] >= s[j]
    {
      assert EdgeOk(v, j);
    }
  }

  /** With an odd number of entries a node without a right child is a leaf. */
  lemma HoleAtLeaf(v: seq<nat>, hole: nat)
    requires HeapButAt(v, hole) && |v| % 2 == 1 && 2 * hole + 2 >= |v|
    ensures HeapButUp(v, hole)
  {
    forall j | 0 < j < |v| && j != hole
      ensures EdgeOk(v, j)
    {
      assert Parent(j) != hole;
    }
  }

  /** How many entries heap_updated_root looks at: it misses a last entry that has no right sibling. */
  function Sifted(n: nat): nat {
    if n > 2 && n % 2 == 0 then n - 1 else n
  }

  /** The loop runs while there is a right child, and right children are always sifted. */
  lemma RightChildren(p: nat, n: nat)
    ensures 2 * p + 2 < n <==> 2 * p + 2 < Sifted(n)
    ensures n > 2 ==> Sifted(n) % 2 == 1 && 0 < Sifted(n) <= n
    ensures n == 2 ==> Sifted(n) == 2
  {
  }

  /** The first n entries are a max-heap but for the hole, and the others are tail. */
  ghost predicate HoleIn(v: seq<nat>, n: nat, hole: nat, tail: seq<nat>) {
    n <= |v| && HeapButAt(v[..n], hole) && v[n..] == tail
  }

  /** The first n entries are a max-heap but for node, which may be too large, and the others are tail. */
  ghost predicate RiserIn(v: seq<nat>, n: nat, node: nat, tail: seq<nat>) {
    n <= |v| && HeapButUp(v[..n], node) && v[n..] == tail
  }

  lemma HoleAtRoot(v: seq<nat>, n: nat)
    requires HeapButAt(v, 0) && 0 < n <= |v|
    ensures HoleIn(v, n, 0, v[n..])
  {
    forall j | 0 < j < n && Parent(j) != 0
      ensures EdgeOk(v[..n], j)
    {
      assert EdgeOk(v, j);
    }
  }

  lemma SwapPrefix(v: seq<nat>, n: nat, a: nat, b: nat)
    requires a < n <= |v| && b < n
    ensures Swap(v, a, b)[..n] == Swap(v[..n], a, b) && Swap(v, a, b)[n..] == v[n..]
  {
  }

  lemma SiftDownIn(v: seq<nat>, n: nat, hole: nat, child: nat, tail: seq<nat>)
    requires HoleIn(v, n, hole, tail) && 2 * hole + 2 < n
    requires child == 2 * hole + 1 || child == 2 * hole + 2
    requires v[child] >= v[2 * hole + 1] && v[child] >= v[2 * hole + 2]
    ensures HoleIn(Swap(v, hole, child), n, child, tail)
  {
    hide HeapButAt;
    SiftDownStep(v[..n], hole, child);
    SwapPrefix(v, n, hole, child);
  }

  lemma LeafIn(v: seq<nat>, n: nat, hole: nat, tail: seq<nat>)
    requires HoleIn(v, n, hole, tail) && n % 2 == 1 && 2 * hole + 2 >= n
    ensures RiserIn(v, n, hole, tail)
  {
    hide HeapButAt, HeapButUp;
    HoleAtLeaf(v[..n], hole);
  }

  lemma PairIn(v: seq<nat>)
    requires |v| == 2
    ensures RiserIn(v, 2, 1, v[2..])
  {
  }

  lemma SiftUpIn(v: seq<nat>, n: nat, node: nat, tail: seq<nat>)
    requires RiserIn(v, n, node, tail) && 0 < node < n && v[Parent(node)] <= v[node]
    ensures RiserIn(Swap(v, Parent(node), node), n, Parent(node), tail)
  {
    hide HeapButUp;
    SiftUpStep(v[..n], node);
    SwapPrefix(v, n, Parent(node), node);
  }

  lemma SiftUpDoneIn(v: seq<nat>, n: nat, node: nat, tail: seq<nat>)
    requires RiserIn(v, n, node, tail) && node < n && (node == 0 || v[Parent(node)] >= v[node])
    ensures IsMaxHeap(v[..n]) && v[n..] == tail
  {
    hide HeapButUp;
    SiftUpDone(v[..n], node);
  }

  lemma WholeHeap(v: seq<nat>, n: nat)
    requires 0 < n <= |v| <= n + 1 && IsMaxHeap(v[..n])
    ensures IsMaxHeap(v) <==> n == |v| || EdgeOk(v, |v| - 1)
  {
    if n == |v| {
      assert v[..n] == v;
    } else if EdgeOk(v, n) {
      forall j | 0 < j < |v|
        ensures EdgeOk(v, j)
      {
        assert j == n || EdgeOk(v[..n], j);
      }
    }
  }

  /** Where the path of larger children from node ends, over the first n entries; equal children count for the left. */
  ghost function Bottom(v: seq<nat>, n: nat, node: nat): nat
    requires n <= |v|
    decreases n - node
  {
    if 2 * node + 2 >= n then node
    else Bottom(v, n, if v[2 * node + 1] < v[2 * node + 2] then 2 * node + 2 else 2 * node + 1)
  }

  /** When heap_updated_root restores the heap: always for an odd size; for an even size from 4 on unless the path of
      larger children ends at the parent of the last entry, and that entry is above the new root. */
  ghost predicate Restores(v: seq<nat>) {
    |v| <= 2 || |v| % 2 == 1 || Bottom(v, |v| - 1, 0) != |v| / 2 - 1 || v[|v| - 1] <= v[0]
  }

  /** The hole has moved from the root down the path of larger children: it holds the key of the root, its parent holds
      what was there before, and the other leaves and all entries behind it are unchanged. */
  ghost predicate Descended(before: seq<nat>, v: seq<nat>, n: nat, hole: nat) {
    && hole < n <= |v| == |before| && Bottom(before, n, 0) == Bottom(before, n, hole) && v[hole] == before[0]
    && (hole > 0 ==> v[Parent(hole)] == before[hole])
    && (forall j :: hole < j < |v| ==> v[j] == before[j])
    && (forall j :: 0 <= j < |v| && 2 * j + 2 >= n && j != hole ==> v[j] == before[j])
  }

  lemma DescendStart(v: seq<nat>, n: nat)
    requires 0 < n <= |v|
    ensures Descended(v, v, n, 0)
  {
  }

  lemma DescendStep(before: seq<nat>, v: seq<nat>, n: nat, hole: nat, child: nat)
    requires Descended(before, v, n, hole) && 2 * hole + 2 < n
    requires child == if v[2 * hole + 1] < v[2 * hole + 2] then 2 * hole + 2 else 2 * hole + 1
    ensures Descended(before, Swap(v, hole, child), n, child)
  {
  }

  /** The key at bottom has risen to node: at bottom is what was above it, if it has moved, and the other leaves are
      unchanged. */
  ghost predicate Risen(before: seq<nat>, v: seq<nat>, n: nat, bottom: nat, node: nat) {
    && node < n <= |v| == |before| && bottom < n
    && (node == bottom ==> v == before)
    && (node != bottom ==> 2 * node + 2 < n || n == 2)
    && (node != bottom ==> bottom > 0 && v[bottom] == before[Parent(bottom)] <= before[bottom])
    && (n != 2 ==> forall j :: 0 <= j < |v| && 2 * j + 2 >= n && j != bottom ==> v[j] == before[j])
  }

  /** The key at node cannot rise further. */
  ghost predicate Stands(v: seq<nat>, node: nat) {
    node < |v| && (node == 0 || v[Parent(node)] > v[node])
  }

  lemma RiseStart(v: seq<nat>, n: nat, bottom: nat)
    requires bottom < n <= |v|
    ensures Risen(v, v, n, bottom, bottom)
  {
  }

  lemma RiseStep(before: seq<nat>, v: seq<nat>, n: nat, bottom: nat, node: nat)
    requires Risen(before, v, n, bottom, node) && (n == 2 || (n % 2 == 1 && 2 * bottom + 2 >= n))
    requires node > 0 && v[Parent(node)] <= v[node]
    ensures Risen(before, Swap(v, Parent(node), node), n, bottom, Parent(node))
  {
    assert n == 2 || 2 * Parent(node) + 2 < n;
  }

  /** For an even number of entries: whether the last one is below its parent at the end. */
  lemma LastEdge(before: seq<nat>, w: seq<nat>, v: seq<nat>, leaf: nat, node: nat)
    requires |before| >= 4 && |before| % 2 == 0 && HeapButAt(before, 0)
    requires Descended(before, w, |before| - 1, leaf) && 2 * leaf + 2 >= |before| - 1
    requires Risen(w, v, |before| - 1, leaf, node) && Stands(v, node)
    ensures EdgeOk(v, |v| - 1) <==> Restores(before)
  {
    var last, q := |before| - 1, |before| / 2 - 1;
    assert Parent(last) == q && EdgeOk(before, last);
    assert Bottom(before, last, leaf) == leaf;
    assert v[last] == before[last];
  }

  // ---- the two loops of heap_updated_root ----

  /** During the first loop, on n entries with tail behind them. */
  ghost predicate Sinking(before: seq<nat>, v: seq<nat>, n: nat, hole: nat, tail: seq<nat>) {
    HoleIn(v, n, hole, tail) && Descended(before, v, n, hole)
  }

  /** After it. */
  ghost predicate Sunk(before: seq<nat>, v: seq<nat>, n: nat, node: nat, tail: seq<nat>) {
    && RiserIn(v, n, node, tail)
    && (n != 2 ==> Descended(before, v, n, node) && 2 * node + 2 >= n)
  }

  lemma SinkStart(v: seq<nat>, n: nat)
    requires HeapButAt(v, 0) && 0 < n <= |v|
    ensures Sinking(v, v, n, 0, v[n..])
  {
    hide HeapButAt;
    HoleAtRoot(v, n);
    DescendStart(v, n);
  }

  lemma SinkStep(before: seq<nat>, v: seq<nat>, n: nat, hole: nat, child: nat, tail: seq<nat>)
    requires Sinking(before, v, n, hole, tail) && 2 * hole + 2 < n <= |v|
    requires child == if v[2 * hole + 1] < v[2 * hole + 2] then 2 * hole + 2 else 2 * hole + 1
    ensures Sinking(before, Swap(v, hole, child), n, child, tail)
  {
    hide HoleIn, Descended;
    SiftDownIn(v, n, hole, child, tail);
    DescendStep(before, v, n, hole, child);
  }

  lemma SinkDone(before: seq<nat>, v: seq<nat>, n: nat, hole: nat, tail: seq<nat>)
    requires Sinking(before, v, n, hole, tail) && n % 2 == 1 && 2 * hole + 2 >= n
    ensures Sunk(before, v, n, hole, tail) && hole < n
  {
    hide HoleIn, RiserIn;
    LeafIn(v, n, hole, tail);
  }

  lemma SinkPair(v: seq<nat>)
    requires |v| == 2
    ensures Sunk(v, v, 2, 1, v[2..])
  {
    hide RiserIn;
    PairIn(v);
  }

  /** During the second loop. */
  ghost predicate Rising(before: seq<nat>, v: seq<nat>, n: nat, bottom: nat, node: nat, tail: seq<nat>) {
    RiserIn(v, n, node, tail) && Risen(before, v, n, bottom, node) && (n % 2 == 1 ==> 2 * bottom + 2 >= n)
  }

  /** After it. */
  ghost predicate Settled(before: seq<nat>, v: seq<nat>, n: nat, bottom: nat, top: nat, tail: seq<nat>) {
    && n <= |v| && IsMaxHeap(v[..n]) && v[n..] == tail
    && Risen(before, v, n, bottom, top) && Stands(v, top)
  }

  lemma RisingStart(before: seq<nat>, v: seq<nat>, n: nat, node: nat, tail: seq<nat>)
    requires Sunk(before, v, n, node, tail) && node < n <= |v|
    ensures Rising(v, v, n, node, node, tail)
  {
    hide RiserIn, Descended;
    RiseStart(v, n, node);
  }

  lemma RisingStep(before: seq<nat>, v: seq<nat>, n: nat, bottom: nat, node: nat, tail: seq<nat>)
    requires Rising(before, v, n, bottom, node, tail) && 0 < node < n <= |v| && v[Parent(node)] <= v[node]
    requires n % 2 == 1 || n == 2
    ensures Rising(before, Swap(v, Parent(node), node), n, bottom, Parent(node), tail)
  {
    hide RiserIn;
    SiftUpIn(v, n, node, tail);
    RiseStep(before, v, n, bottom, node);
  }

  lemma RisingDone(before: seq<nat>, v: seq<nat>, n: nat, bottom: nat, node: nat, tail: seq<nat>)
    requires Rising(before, v, n, bottom, node, tail) && node < n <= |v| && Stands(v, node)
    ensures Settled(before, v, n, bottom, node, tail)
  {
    hide RiserIn, Risen, IsMaxHeap;
    SiftUpDoneIn(v, n, node, tail);
  }

  /** Both loops: the sifted entries are a max-heap, and all entries are exactly if Restores says so. */
  lemma UpdatedRoot(before: seq<nat>, w: seq<nat>, v: seq<nat>, n: nat, node: nat, top: nat)
    requires |before| == |w| == |v| >= 2 && n == Sifted(|v|) && HeapButAt(before, 0)
    requires Sunk(before, w, n, node, before[n..]) && Settled(w, v, n, node, top, before[n..])
    ensures IsMaxHeap(v[..n]) && v[n..] == before[n..]
    ensures IsMaxHeap(v) <==> Restores(before)
  {
    hide HeapButAt, RiserIn, IsMaxHeap, Descended, Risen, EdgeOk, Bottom;
    WholeHeap(v, n);
    if n < |v| {
      LastEdge(before, w, v, node, top);
    }
  }

  lemma {:induction false} RootIsMaximal(v: seq<nat>, j: nat)
    requires IsMaxHeap(v) && j < |v|
    ensures v[0] >= v[j]
  {
    if j > 0 {
      assert EdgeOk(v, j);
      RootIsMaximal(v, Parent(j));
    }
  }

  lemma {:induction false} ChildIsSecond(v: seq<nat>, j: nat)
    requires IsMaxHeap(v) && 0 < j < |v|
    ensures v[1] >= v[j] || (|v| > 2 && v[2] >= v[j])
  {
    if j > 2 {
      assert EdgeOk(v, j);
      ChildIsSecond(v, Parent(j));
    }
  }

  // ---- the indices in the heap ----

  /** The first n entries of h are the indices 0..n-1 in some order. */
  ghost predicate IsPermutation(h: seq<nat>, n: nat) {
    && n <= |h|
    && (forall i :: 0 <= i < n ==> h[i] < n)
    && (forall i, j :: 0 <= i < j < n ==> h[i] != h[j])
  }

  lemma SwapKeepsPermutation(h: seq<nat>, n: nat, a: nat, b: nat)
    requires IsPermutation(h, n) && a < n && b < n
    ensures IsPermutation(Swap(h, a, b), n)
  {
  }

  /** The keys of the first n heap entries, in heap position order. */
  ghost function View(h: seq<nat>, keys: seq<nat>, n: nat): (v: seq<nat>)
    requires IsPermutation(h, n) && n <= |keys|
    ensures |v| == n && forall i :: 0 <= i < n ==> v[i] == keys[h[i]]
  {
    seq(n, i requires 0 <= i < n => keys[h[i]])
  }

  lemma ViewOfSwap(h: seq<nat>, keys: seq<nat>, n: nat, a: nat, b: nat)
    requires IsPermutation(h, n) && n <= |keys| && a < n && b < n
    ensures IsPermutation(Swap(h, a, b), n)
    ensures View(Swap(h, a, b), keys, n) == Swap(View(h, keys, n), a, b)
  {
    SwapKeepsPermutation(h, n, a, b);
    var s := Swap(h, a, b);
    assert forall i :: 0 <= i < n ==> s[i] == if i == b then h[a] else if i == a then h[b] else h[i];
  }

  lemma ViewOfAppend(h: seq<nat>, keys: seq<nat>, n: nat)
    requires IsPermutation(h, n) && n < |h| && n < |keys|
    ensures IsPermutation(h[n := n], n + 1)
    ensures View(h[n := n], keys, n + 1) == View(h, keys, n) + [keys[n]]
  {
  }

  function Entries(h: seq<nat>, n: nat): set<nat>
    requires n <= |h|
  {
    if n == 0 then {} else Entries(h, n - 1) + {h[n - 1]}
  }

  function Below(n: nat): set<nat> {
    if n == 0 then {} else Below(n - 1) + {n - 1}
  }

  lemma {:induction false} EntriesAre(h: seq<nat>, n: nat, x: nat)
    requires n <= |h|
    ensures x in Entries(h, n) <==> exists j :: 0 <= j < n && h[j] == x
  {
    if n > 0 {
      EntriesAre(h, n - 1, x);
    }
  }

  lemma {:induction false} EntriesCount(h: seq<nat>, n: nat)
    requires n <= |h|
    requires forall i, j :: 0 <= i < j < n ==> h[i] != h[j]
    ensures |Entries(h, n)| == n
  {
    if n > 0 {
      EntriesCount(h, n - 1);
      EntriesAre(h, n - 1, h[n - 1]);
    }
  }

  lemma {:induction false} BelowAre(n: nat, x: nat)
    ensures |Below(n)| == n
    ensures x in Below(n) <==> x < n
  {
    if n > 0 {
      BelowAre(n - 1, x);
      BelowAre(n - 1, n - 1);
    }
  }

  lemma {:induction false} SubsetSize(a: set<nat>, b: set<nat>)
    requires a <= b
    ensures |a| <= |b|
  {
    if a != {} {
      var x :| x in a;
      SubsetSize(a - {x}, b - {x});
    }
  }

  /** Pigeonhole: n distinct indices below n are all of them. */
  lemma PermutationHitsAll(h: seq<nat>, n: nat, i: nat) returns (j: nat)
    requires IsPermutation(h, n) && i < n
    ensures j < n && h[j] == i
  {
    EntriesCount(h, n);
    EntriesAre(h, n, i);
    BelowAre(n, i);
    if i !in Entries(h, n) {
      forall x | x in Entries(h, n)
        ensures x in Below(n) - {i}
      {
        EntriesAre(h, n, x);
        BelowAre(n, x);
      }
      SubsetSize(Entries(h, n), Below(n) - {i});
      assert false;
    }
    j :| 0 <= j < n && h[j] == i;
  }
}
