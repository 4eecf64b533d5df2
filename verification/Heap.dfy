/**
 The heap of variables with their positions, ordered by keys kept elsewhere. (cryptoms/heap.h:33-220)
 */
module Heap {
  type Key = nat -> int

  function Left(i: nat): nat {
    i * 2 + 1
  }

  function Right(i: nat): nat {
    (i + 1) * 2
  }

  function Parent(i: nat): nat
    requires i > 0
  {
    (i - 1) / 2
  }

  // ----- order -----

  /** The element at `j` does not come before its parent. */
  predicate EdgeOk(h: seq<nat>, key: Key, j: nat)
    requires 0 < j < |h|
  {
    key(h[Parent(j)]) <= key(h[j])
  }

  /** Edges from parents at `lo` or later are in order. */
  ghost predicate OrderedFrom(h: seq<nat>, key: Key, lo: nat) {
    forall j: nat {:trigger EdgeOk(h, key, j)} :: 0 < j < |h| && Parent(j) >= lo ==> EdgeOk(h, key, j)
  }

  ghost predicate Ordered(h: seq<nat>, key: Key) {
    OrderedFrom(h, key, 0)
  }

  /**
   All edges from parents at `lo` or later are in order, but for those at `i`: below it, and above it unless `down`.
   */
  ghost predicate OrderedBut(h: seq<nat>, key: Key, lo: nat, i: nat, down: bool) {
    && (forall j: nat {:trigger EdgeOk(h, key, j)} ::
      0 < j < |h| && Parent(j) >= lo && Parent(j) != i && (down || j != i) ==> EdgeOk(h, key, j))
    && forall j: nat {:trigger h[j]} ::
      0 < j < |h| && Parent(j) == i && 0 < i && Parent(i) >= lo ==> key(h[Parent(i)]) <= key(h[j])
  }

  lemma {:induction false} RootIsLeast(h: seq<nat>, key: Key, j: nat)
    requires Ordered(h, key) && j < |h|
    ensures key(h[0]) <= key(h[j])
  {
    if j > 0 {
      assert EdgeOk(h, key, j);
      RootIsLeast(h, key, Parent(j));
    }
  }

  /** A key changed at one place: only the edges there can be out of order. */
  lemma KeyChanged(h: seq<nat>, key: Key, key': Key, i: nat)
    requires Ordered(h, key) && i < |h|
      && forall j {:trigger h[j]} :: 0 <= j < |h| && j != i ==> key'(h[j]) == key(h[j])
    ensures OrderedBut(h, key', 0, i, false)
    ensures key'(h[i]) >= key(h[i]) ==> OrderedBut(h, key', 0, i, true)
    ensures key'(h[i]) <= key(h[i]) ==>
      forall j: nat {:trigger EdgeOk(h, key', j)} :: 0 < j < |h| && j != i ==> EdgeOk(h, key', j)
  {
    forall j: nat | 0 < j < |h|
      ensures Parent(j) != i && j != i ==> EdgeOk(h, key', j)
      ensures Parent(j) != i && key'(h[i]) >= key(h[i]) ==> EdgeOk(h, key', j)
      ensures j != i && key'(h[i]) <= key(h[i]) ==> EdgeOk(h, key', j)
      ensures Parent(j) == i && 0 < i ==> key'(h[Parent(i)]) <= key'(h[j])
    {
      assert EdgeOk(h, key, j);
      if 0 < i {
        assert EdgeOk(h, key, i);
      }
    }
  }

  /** Moving an element up past its larger parent. */
  lemma StepUp(h: seq<nat>, key: Key, i: nat)
    requires OrderedBut(h, key, 0, i, false) && 0 < i < |h| && key(h[i]) < key(h[Parent(i)])
    ensures var h' := h[i := h[Parent(i)]][Parent(i) := h[i]];
      && OrderedBut(h', key, 0, Parent(i), false)
      && forall j: nat {:trigger EdgeOk(h', key, j)} :: 0 < j < |h'| && Parent(j) == Parent(i) ==> EdgeOk(h', key, j)
  {
    var p := Parent(i);
    var h' := h[i := h[p]][p := h[i]];
    forall j: nat | 0 < j < |h'| && j != p
      ensures EdgeOk(h', key, j)
    {
      if j != i && Parent(j) != i {
        assert EdgeOk(h, key, j);
      }
    }
    forall j: nat | 0 < j < |h'| && Parent(j) == p && 0 < p
      ensures key(h'[Parent(p)]) <= key(h'[j])
    {
      assert EdgeOk(h, key, p);
      if j != i {
        assert EdgeOk(h, key, j);
      }
    }
  }

  /** Moving an element down past its smaller child. */
  lemma StepDown(h: seq<nat>, key: Key, lo: nat, i: nat, child: nat)
    requires OrderedBut(h, key, lo, i, true) && lo <= i && 0 < child < |h| && Parent(child) == i
      && key(h[child]) < key(h[i])
    requires forall j: nat {:trigger h[j]} :: 0 < j < |h| && Parent(j) == i ==> key(h[child]) <= key(h[j])
    ensures var h' := h[i := h[child]][child := h[i]]; OrderedBut(h', key, lo, child, true)
  {
    var h' := h[i := h[child]][child := h[i]];
    forall j: nat | 0 < j < |h'| && Parent(j) >= lo && Parent(j) != child
      ensures EdgeOk(h', key, j)
    {
      if j != i && Parent(j) != i {
        assert EdgeOk(h, key, j);
      }
    }
    forall j: nat | 0 < j < |h'| && Parent(j) == child
      ensures key(h'[Parent(child)]) <= key(h'[j])
    {
      assert EdgeOk(h, key, j);
    }
  }

  /** The check the heap has for itself: from the top down, both children of every element. */
  predicate HeapProperty(h: seq<nat>, key: Key, i: nat)
    decreases |h| - i
  {
    i >= |h|
      || ((i == 0 || !(key(h[i]) < key(h[Parent(i)]))) && HeapProperty(h, key, Left(i))
      && HeapProperty(h, key, Right(i)))
  }

  lemma {:induction false} PropertyReaches(h: seq<nat>, key: Key, j: nat)
    requires HeapProperty(h, key, 0) && j < |h|
    ensures HeapProperty(h, key, j)
  {
    if j > 0 {
      PropertyReaches(h, key, Parent(j));
      assert j == Left(Parent(j)) || j == Right(Parent(j));
    }
  }

  lemma {:induction false} OrderedHasProperty(h: seq<nat>, key: Key, i: nat)
    requires Ordered(h, key)
    ensures HeapProperty(h, key, i)
    decreases |h| - i
  {
    if i < |h| {
      OrderedHasProperty(h, key, Left(i));
      OrderedHasProperty(h, key, Right(i));
      assert 0 < i ==> EdgeOk(h, key, i);
    }
  }

  /** The order kept here is exactly what that check accepts. */
  lemma CheckIsExact(h: seq<nat>, key: Key)
    ensures HeapProperty(h, key, 0) <==> Ordered(h, key)
  {
    if HeapProperty(h, key, 0) {
      forall j: nat | 0 < j < |h|
        ensures EdgeOk(h, key, j)
      {
        PropertyReaches(h, key, j);
      }
    }
    if Ordered(h, key) {
      OrderedHasProperty(h, key, 0);
    }
  }

  // ----- positions -----

  ghost predicate PositionsBut(h: seq<nat>, indices: seq<int>, x: nat) {
    && (forall i {:trigger h[i]} :: 0 <= i < |h| ==> h[i] < |indices| && (h[i] != x ==> indices[h[i]] == i))
    && (forall n {:trigger indices[n]} ::
      0 <= n < |indices| && n != x && indices[n] >= 0 ==> indices[n] < |h| && h[indices[n]] == n)
    && (forall i, j {:trigger h[i], h[j]} :: 0 <= i < j < |h| ==> h[i] != h[j])
  }

  /** `indices` says where each element is; what is not in the heap has no position. */
  ghost predicate Positions(h: seq<nat>, indices: seq<int>) {
    && (forall i {:trigger h[i]} :: 0 <= i < |h| ==> h[i] < |indices| && indices[h[i]] == i)
    && (forall n {:trigger indices[n]} ::
      0 <= n < |indices| && indices[n] >= 0 ==> indices[n] < |h| && h[indices[n]] == n)
  }

  function Elements(h: seq<nat>): set<nat> {
    set n | n in h
  }

  lemma Forgotten(h: seq<nat>, indices: seq<int>, x: nat)
    requires Positions(h, indices)
    ensures PositionsBut(h, indices, x)
  {
    forall i, j | 0 <= i < j < |h|
      ensures h[i] != h[j]
    {
      assert indices[h[i]] == i && indices[h[j]] == j;
    }
  }

  lemma Swapped(h: seq<nat>, i: nat, j: nat)
    requires i < |h| && j < |h|
    ensures Elements(h[i := h[j]][j := h[i]]) == Elements(h)
  {
    var h' := h[i := h[j]][j := h[i]];
    forall n | n in h
      ensures n in h'
    {
      var k :| 0 <= k < |h| && h[k] == n;
      assert h'[if k == i then j else if k == j then i else k] == n;
    }
  }

  lemma PositionsSwapped(h: seq<nat>, indices: seq<int>, i: nat, j: nat)
    requires i < |h| && j < |h| && i != j && PositionsBut(h, indices, h[i])
    ensures PositionsBut(h[i := h[j]][j := h[i]], indices[h[j] := i], h[i])
  {
  }

  lemma Placed(h: seq<nat>, indices: seq<int>, i: nat)
    requires i < |h| && PositionsBut(h, indices, h[i])
    ensures Positions(h, indices[h[i] := i])
  {
  }

  /** `v` is the heap with `x` in the hole at `i`; only the position of `x` is out of date. */
  ghost predicate Hole(v: seq<nat>, h: seq<nat>, indices: seq<int>, i: nat, x: nat) {
    i < |h| && v == h[i := x] && PositionsBut(v, indices, x)
  }

  lemma HoleMoves(v: seq<nat>, h: seq<nat>, indices: seq<int>, i: nat, j: nat, x: nat)
    requires Hole(v, h, indices, i, x) && j < |h| && j != i
    ensures h[j] < |indices| && Hole(v[i := v[j]][j := v[i]], h[i := h[j]], indices[h[j] := i], j, x)
    ensures Elements(v[i := v[j]][j := v[i]]) == Elements(v) && v[i] == x
    ensures forall k: nat {:trigger v[k]} :: k < |h| && k != i ==> v[k] == h[k]
  {
    assert v[i] == x && v[j] == h[j];
    Swapped(v, i, j);
    PositionsSwapped(v, indices, i, j);
    assert v[i := v[j]][j := v[i]] == h[i := h[j]][j := x];
  }

  lemma HoleFilled(v: seq<nat>, h: seq<nat>, indices: seq<int>, i: nat, x: nat)
    requires Hole(v, h, indices, i, x)
    ensures x < |indices| && Positions(v, indices[x := i]) && v[i] == x
    ensures forall k: nat {:trigger v[k]} :: k < |h| && k != i ==> v[k] == h[k]
  {
    assert v[i] == x;
    Placed(v, indices, i);
  }

  // ----- the heap -----

  class Heap {
    var heap: seq<nat>
    var indices: seq<int>
    /** What the comparison looks at; smaller keys come first. */
    var key: Key

    ghost predicate Placing()
      reads `heap, `indices
    {
      Positions(heap, indices)
    }

    /** Positions are right and the order is that of a heap. */
    ghost predicate Valid()
      reads this
    {
      Placing() && Ordered(heap, key)
    }

    predicate InHeap(n: nat)
      reads `indices
    {
      n < |indices| && indices[n] >= 0
    }

    ghost function Content(): set<nat>
      reads `heap
    {
      Elements(heap)
    }

    lemma InHeapIs(n: nat)
      requires Placing()
      ensures InHeap(n) <==> n in Content()
      ensures InHeap(n) ==> indices[n] < |heap| && heap[indices[n]] == n
    {
    }

    /**
     The loop keeps a hole where the element will go; what it works on is the heap with the element in the hole.
     If only the edge above was out of order, all are in order afterwards.
     */
    method PercolateUp(i0: nat)
      requires i0 < |heap| && Placing() && OrderedBut(heap, key, 0, i0, false)
      modifies `heap, `indices
      ensures Placing() && Content() == old(Content()) && |heap| == old(|heap|) && |indices| == old(|indices|)
      ensures InHeap(old(heap[i0])) && OrderedBut(heap, key, 0, indices[old(heap[i0])], true)
      ensures (forall j: nat {:trigger EdgeOk(old(heap), key, j)} ::
        0 < j < |heap| && j != i0 ==> EdgeOk(old(heap), key, j)) ==> Ordered(heap, key)
    {
      hide PositionsBut, Positions, OrderedBut;
      var i: nat := i0;
      var x := heap[i];
      ghost var v := heap;
      ghost var below :=
        forall j: nat {:trigger EdgeOk(heap, key, j)} :: 0 < j < |heap| && j != i0 ==> EdgeOk(heap, key, j);
      Forgotten(heap, indices, x);
      while i != 0 && key(x) < key(heap[Parent(i)])
        invariant Hole(v, heap, indices, i, x) && |indices| == old(|indices|) && |heap| == old(|heap|)
        invariant Elements(v) == old(Content()) && OrderedBut(v, key, 0, i, false)
        invariant below || i != i0 ==> ChildrenOk(v, key, i)
        decreases i
      {
        HoleMoves(v, heap, indices, i, Parent(i), x);
        StepUp(v, key, i);
        v := v[i := v[Parent(i)]][Parent(i) := v[i]];
        indices := indices[heap[Parent(i)] := i];
        heap := heap[i := heap[Parent(i)]];
        i := Parent(i);
      }
      HoleFilled(v, heap, indices, i, x);
      UpDone(v, key, i);
      heap := heap[i := x];
      indices := indices[x := i];
      InHeapAt(heap, indices, i);
    }

    /** The same downwards, for a heap in order from `lo` on. */
    method PercolateDown(i0: nat, ghost lo: nat)
      requires lo <= i0 < |heap| && Placing() && OrderedBut(heap, key, lo, i0, true)
      modifies `heap, `indices
      ensures Placing() && Content() == old(Content()) && |heap| == old(|heap|) && |indices| == old(|indices|)
        && OrderedFrom(heap, key, lo)
    {
      hide PositionsBut, Positions, OrderedBut;
      var i: nat := i0;
      var x := heap[i];
      ghost var v := heap;
      Forgotten(heap, indices, x);
      while Left(i) < |heap|
        invariant Hole(v, heap, indices, i, x) && |indices| == old(|indices|) && |heap| == old(|heap|)
        invariant lo <= i && Elements(v) == old(Content()) && OrderedBut(v, key, lo, i, true)
        decreases |heap| - i
      {
        var child := if Right(i) < |heap| && key(heap[Right(i)]) < key(heap[Left(i)]) then Right(i) else Left(i);
        HoleMoves(v, heap, indices, i, child, x);
        LessOfTwo(v, key, i, child);
        if !(key(heap[child]) < key(x)) {
          break;
        }
        StepDown(v, key, lo, i, child);
        v := v[i := v[child]][child := v[i]];
        heap := heap[i := heap[child]];
        indices := indices[heap[i] := i];
        i := child;
      }
      HoleFilled(v, heap, indices, i, x);
      BelowInOrder(v, key, lo, i);
      heap := heap[i := x];
      indices := indices[x := i];
    }

    /** A smaller key moves the element up. */
    method Decrease(n: nat, ghost before: Key)
      requires Placing() && InHeap(n) && Ordered(heap, before)
        && forall m {:trigger key(m)} :: m in heap && m != n ==> key(m) == before(m)
      requires key(n) <= before(n)
      modifies `heap, `indices
      ensures Valid() && Content() == old(Content())
    {
      InHeapIs(n);
      Forgotten(heap, indices, n);
      KeyChanged(heap, before, key, indices[n]);
      PercolateUp(indices[n]);
    }

    /** A larger key moves it down. */
    method Increase(n: nat, ghost before: Key)
      requires Placing() && InHeap(n) && Ordered(heap, before)
        && forall m {:trigger key(m)} :: m in heap && m != n ==> key(m) == before(m)
      requires key(n) >= before(n)
      modifies `heap, `indices
      ensures Valid() && Content() == old(Content())
    {
      InHeapIs(n);
      Forgotten(heap, indices, n);
      KeyChanged(heap, before, key, indices[n]);
      PercolateDown(indices[n], 0);
    }

    /** After any change to the key of `n` alone the order is restored; a new element is inserted. */
    method Update(n: nat, ghost before: Key)
      requires Placing() && Ordered(heap, before)
        && forall m {:trigger key(m)} :: m in heap && m != n ==> key(m) == before(m)
      modifies `heap, `indices
      ensures Valid() && Content() == old(Content()) + {n}
    {
      InHeapIs(n);
      if !InHeap(n) {
        SameKeys(heap, before, key);
        Insert(n);
      } else {
        Forgotten(heap, indices, n);
        KeyChanged(heap, before, key, indices[n]);
        PercolateUp(indices[n]);
        InHeapIs(n);
        PercolateDown(indices[n], 0);
      }
    }

    method Insert(n: nat)
      requires Valid() && !InHeap(n)
      modifies `heap, `indices
      ensures Valid() && Content() == old(Content()) + {n} && |heap| == old(|heap|) + 1
    {
      InHeapIs(n);
      while |indices| < n + 1
        invariant Placing() && (n < |indices| ==> indices[n] < 0)
        modifies `indices
      {
        indices := indices + [-1];
      }
      indices := indices[n := |heap|];
      heap := heap + [n];
      ghost var h := heap;
      forall j: nat | 0 < j < |heap| && j != |heap| - 1
        ensures EdgeOk(heap, key, j)
      {
        assert EdgeOk(old(heap), key, j);
      }
      PercolateUp(indices[n]);
    }

    /** Takes out an element with the least key. */
    method RemoveMin() returns (x: nat)
      requires Valid() && heap != []
      modifies `heap, `indices
      ensures Valid() && x in old(Content()) && Content() == old(Content()) - {x} && |heap| == old(|heap|) - 1
      ensures forall n {:trigger n in old(Content())} :: n in old(Content()) ==> key(x) <= key(n)
    {
      x := heap[0];
      forall n | n in heap
        ensures key(x) <= key(n)
      {
        var j :| 0 <= j < |heap| && heap[j] == n;
        RootIsLeast(heap, key, j);
      }
      ghost var h, at := heap, indices;
      var last := |heap| - 1;
      Forgotten(heap, indices, x);
      heap := heap[0 := heap[last]];
      indices := indices[heap[0] := 0];
      indices := indices[x := -1];
      heap := heap[..last];
      LastMoved(h, at, key);
      if |heap| > 1 {
        PercolateDown(0, 0);
      } else {
        assert forall j: nat {:trigger EdgeOk(heap, key, j)} :: !(0 < j < |heap|);
      }
    }

    /** Makes a heap of any duplicate-free list of known elements. */
    method Build(ns: seq<nat>)
      requires Placing() && (forall k {:trigger ns[k]} :: 0 <= k < |ns| ==> ns[k] < |indices|)
      requires forall i, j {:trigger ns[i], ns[j]} :: 0 <= i < j < |ns| ==> ns[i] != ns[j]
      modifies `heap, `indices
      ensures Valid() && Content() == Elements(ns) && |heap| == |ns|
    {
      Clear();
      for i := 0 to |ns|
        invariant heap == ns[..i] && |indices| == old(|indices|)
        invariant forall n {:trigger indices[n]} ::
          0 <= n < |indices| ==> (indices[n] >= 0 ==> indices[n] < i && ns[indices[n]] == n)
        invariant forall k {:trigger ns[k]} :: 0 <= k < i ==> indices[ns[k]] == k
      {
        indices := indices[ns[i] := i];
        heap := heap + [ns[i]];
      }
      var i: nat := |heap| / 2;
      assert forall j: nat :: 0 < j < |heap| ==> Parent(j) < i;
      while i > 0
        invariant Placing() && Content() == Elements(ns) && |heap| == |ns| && i <= |heap| / 2
          && OrderedFrom(heap, key, i)
      {
        i := i - 1;
        assert OrderedBut(heap, key, i, i, true);
        PercolateDown(i, i);
      }
    }

    method Clear()
      requires Placing()
      modifies `heap, `indices
      ensures heap == [] && |indices| == old(|indices|)
        && forall n {:trigger indices[n]} :: 0 <= n < |indices| ==> indices[n] < 0
    {
      for i := 0 to |heap|
        modifies `indices
        invariant |indices| == old(|indices|)
        invariant forall n {:trigger indices[n]} ::
          0 <= n < |indices| ==> indices[n] < 0 || (indices[n] >= i && indices[n] == old(indices)[n])
      {
        indices := indices[heap[i] := -1];
      }
      heap := [];
    }
  }

  ghost predicate ChildrenOk(h: seq<nat>, key: Key, i: nat) {
    forall j: nat {:trigger EdgeOk(h, key, j)} :: 0 < j < |h| && Parent(j) == i ==> EdgeOk(h, key, j)
  }

  lemma UpDone(h: seq<nat>, key: Key, i: nat)
    requires OrderedBut(h, key, 0, i, false) && i < |h| && (i == 0 || key(h[Parent(i)]) <= key(h[i]))
    ensures OrderedBut(h, key, 0, i, true) && (ChildrenOk(h, key, i) ==> Ordered(h, key))
  {
    assert 0 < i ==> EdgeOk(h, key, i);
  }

  lemma InHeapAt(h: seq<nat>, indices: seq<int>, i: nat)
    requires Positions(h, indices) && i < |h|
    ensures h[i] < |indices| && indices[h[i]] == i
  {
  }

  lemma LessOfTwo(h: seq<nat>, key: Key, i: nat, child: nat)
    requires Left(i) < |h| && child == if Right(i) < |h| && key(h[Right(i)]) < key(h[Left(i)]) then Right(i)
      else Left(i)
    ensures forall j: nat {:trigger h[j]} :: 0 < j < |h| && Parent(j) == i ==> key(h[child]) <= key(h[j])
  {
    forall j: nat | 0 < j < |h| && Parent(j) == i
      ensures key(h[child]) <= key(h[j])
    {
      assert j == Left(i) || j == Right(i);
    }
  }

  lemma SameKeys(h: seq<nat>, before: Key, key: Key)
    requires Ordered(h, before) && forall m {:trigger key(m)} :: m in h ==> key(m) == before(m)
    ensures Ordered(h, key)
  {
    forall j: nat | 0 < j < |h|
      ensures EdgeOk(h, key, j)
    {
      assert EdgeOk(h, before, j);
      assert h[j] in h && h[Parent(j)] in h;
    }
  }

  lemma BelowInOrder(h: seq<nat>, key: Key, lo: nat, i: nat)
    requires OrderedBut(h, key, lo, i, true) && i < |h|
    requires forall j: nat {:trigger h[j]} :: 0 < j < |h| && Parent(j) == i ==> key(h[i]) <= key(h[j])
    ensures OrderedFrom(h, key, lo)
  {
    assert forall j: nat {:trigger EdgeOk(h, key, j)} :: 0 < j < |h| && Parent(j) == i ==> EdgeOk(h, key, j);
  }

  /** The last element takes the place of the first. */
  lemma LastMoved(h: seq<nat>, at: seq<int>, key: Key)
    requires Positions(h, at) && Ordered(h, key) && h != []
    ensures var last := |h| - 1; var h' := h[0 := h[last]][..last];
      && Positions(h', at[h[last] := 0][h[0] := -1]) && Elements(h') == Elements(h) - {h[0]}
        && OrderedBut(h', key, 0, 0, true)
  {
    var last := |h| - 1;
    var h' := h[0 := h[last]][..last];
    Forgotten(h, at, h[0]);
    forall j: nat | 0 < j < |h'| && Parent(j) != 0
      ensures EdgeOk(h', key, j)
    {
      assert EdgeOk(h, key, j);
    }
    forall n | n in h && n != h[0]
      ensures n in h'
    {
      var k :| 0 <= k < |h| && h[k] == n;
      assert h'[if k == last then 0 else k] == n;
    }
    forall n | n in h'
      ensures n in h && n != h[0]
    {
      var k :| 0 <= k < |h'| && h'[k] == n;
      assert h[if k == 0 then last else k] == n;
    }
  }
}
