/** The heap of deps/bzip2/huffman.c: UPHEAP and DOWNHEAP, with entry 0 as sentinel. What the code builder
    needs is stated about the bag of nodes in the heap: the root is a lightest one, taking it away leaves
    the rest, and inserting adds one. */
module HuffmanHeap {
  import opened Permutations

  /** The weight of node `x`; total, so that orderings can be stated without side conditions. */
  function Wt(w: seq<int>, x: int): int {
    if 0 <= x < |w| then w[x] else 0
  }

  /** Entry `i` is no lighter than the entry above it. */
  ghost predicate Above(h: seq<int>, w: seq<int>, i: int)
    requires 0 <= i < |h|
  {
    Wt(w, h[i / 2]) <= Wt(w, h[i])
  }

  ghost predicate HeapOrdered(h: seq<int>, w: seq<int>, n: int) {
    && n < |h|
    && forall i :: 2 <= i <= n ==> Above(h, w, i)
  }

  ghost predicate Entries(h: seq<int>, m: int, n: int) {
    && 0 <= n < |h|
    && forall i :: 1 <= i <= n ==> 0 <= h[i] < m
  }

  lemma EntriesKept(g: seq<int>, h: seq<int>, m: int, n: int)
    requires Entries(g, m, n) && SegPerm(g, h, 1, n + 1)
    ensures Entries(h, m, n)
  {
    SegPermForall(g, h, 1, n + 1, x => 0 <= x < m);
  }

  lemma {:induction false} RootLightest(h: seq<int>, w: seq<int>, n: int, i: int)
    requires HeapOrdered(h, w, n) && 1 <= i <= n
    ensures Wt(w, h[1]) <= Wt(w, h[i])
    decreases i
  {
    if i > 1 {
      assert Above(h, w, i);
      RootLightest(h, w, n, i / 2);
    }
  }

  // ----- UPHEAP

  /** The entry `x`, last of `n`, is on its way up; it is lighter than what position `z` still shows. */
  ghost predicate Rising(h: seq<int>, w: seq<int>, n: int, z: int, x: int) {
    && 1 <= z <= n < |h|
    && (forall i :: 2 <= i < n ==> Above(h, w, i))
    && (z < n ==> n >= 2 && Above(h, w, n) && Wt(w, x) <= Wt(w, h[z]))
  }

  lemma RiseStep(h: seq<int>, w: seq<int>, n: int, z: int, x: int)
    requires Rising(h, w, n, z, x) && z / 2 >= 1 && Wt(w, x) < Wt(w, h[z / 2])
    ensures Rising(h[z := h[z / 2]], w, n, z / 2, x)
  {
    var g := h[z := h[z / 2]];
    forall i | 2 <= i <= n && (i < n || z < n || i == z) ensures Above(g, w, i) {
      if i == z {
      } else if i / 2 == z {
        assert Above(h, w, i);
        if z >= 2 { assert z < n ==> Above(h, w, z); }
      } else {
        assert Above(h, w, i);
      }
    }
  }

  lemma RiseDone(h: seq<int>, w: seq<int>, n: int, z: int, x: int)
    requires Rising(h, w, n, z, x) && (z == 1 || Wt(w, h[z / 2]) <= Wt(w, x))
    ensures HeapOrdered(h[z := x], w, n)
  {
    var g := h[z := x];
    forall i | 2 <= i <= n ensures Above(g, w, i) {
      if i != z && (i < n || z < n) { assert Above(h, w, i); }
    }
  }

  /** UPHEAP(n): the new last entry finds its place. */
  method UpHeap(heap: array<int>, weight: array<int>, n: int)
    requires heap != weight && 1 <= n < heap.Length && weight.Length > 0
    requires heap[0] == 0 && weight[0] == 0
    requires Entries(heap[..], weight.Length, n) && weight[heap[n]] >= 0
    requires HeapOrdered(heap[..], weight[..], n - 1)
    modifies heap
    ensures SegPerm(old(heap[..]), heap[..], 1, n + 1)
    ensures HeapOrdered(heap[..], weight[..], n) && heap[0] == 0
  {
    hide SegPerm, Rising;
    ghost var s, w := heap[..], weight[..];
    SegPermRefl(s, 1, n + 1);
    var zz := n;
    var tmp := heap[zz];
    assert s[zz := tmp] == s;
    RisingInit(s, w, n, tmp);
    while weight[tmp] < weight[heap[zz / 2]]
      invariant 1 <= zz <= n && heap[0] == 0 && 0 <= tmp < weight.Length && weight[tmp] >= 0
      invariant Entries(heap[..], weight.Length, n)
      invariant SegPerm(s, heap[..][zz := tmp], 1, n + 1)
      invariant Rising(heap[..], w, n, zz, tmp)
      decreases zz
    {
      assert zz / 2 >= 1;
      ghost var h := heap[..];
      SegPermHole(s, h, tmp, zz, zz / 2, 1, n + 1);
      RiseStep(h, w, n, zz, tmp);
      heap[zz] := heap[zz / 2];
      assert heap[..] == h[zz := h[zz / 2]];
      zz := zz / 2;
    }
    RiseDone(heap[..], w, n, zz, tmp);
    ghost var g := heap[..][zz := tmp];
    heap[zz] := tmp;
    assert heap[..] == g;
  }

  lemma RisingInit(h: seq<int>, w: seq<int>, n: int, x: int)
    requires 1 <= n < |h| && HeapOrdered(h, w, n - 1)
    ensures Rising(h, w, n, n, x)
  {
  }

  // ----- DOWNHEAP

  /** Everything is in order but the entry at `z`, whose children are no lighter than its parent. */
  ghost predicate Sinking(h: seq<int>, w: seq<int>, n: int, z: int) {
    && 1 <= z && n < |h| && (z <= n || n == 0)
    && (forall i :: 2 <= i <= n && i / 2 != z ==> Above(h, w, i))
    && (forall i :: 2 <= i <= n && i / 2 == z && z >= 2 ==> Wt(w, h[z / 2]) <= Wt(w, h[i]))
  }

  lemma SinkStep(h: seq<int>, w: seq<int>, n: int, z: int, y: int)
    requires Sinking(h, w, n, z) && 2 <= y <= n && y / 2 == z
    requires forall i :: 2 <= i <= n && i / 2 == z ==> Wt(w, h[y]) <= Wt(w, h[i])
    requires Wt(w, h[y]) <= Wt(w, h[z])
    ensures Sinking(h[z := h[y]][y := h[z]], w, n, y)
  {
    var g := h[z := h[y]][y := h[z]];
    forall i | 2 <= i <= n && i / 2 != y ensures Above(g, w, i) {
      if i / 2 != z { assert Above(h, w, i); }
    }
    forall i | 2 <= i <= n && i / 2 == y ensures Wt(w, g[y / 2]) <= Wt(w, g[i]) {
      assert Above(h, w, i);
    }
  }

  lemma SinkDone(h: seq<int>, w: seq<int>, n: int, z: int)
    requires Sinking(h, w, n, z)
    requires forall i :: 2 <= i <= n && i / 2 == z ==> Wt(w, h[z]) <= Wt(w, h[i])
    ensures HeapOrdered(h, w, n)
  {
    forall i | 2 <= i <= n ensures Above(h, w, i) {}
  }

  lemma SinkingInit(h: seq<int>, w: seq<int>, n: int)
    requires 0 <= n < |h| && forall i :: 4 <= i <= n ==> Above(h, w, i)
    ensures Sinking(h, w, n, 1)
  {
  }

  /** The swap that a step of DOWNHEAP amounts to, with the sinking entry `x` held aside. */
  lemma SinkHole(s: seq<int>, h: seq<int>, w: seq<int>, n: int, z: int, y: int, x: int)
    requires 1 <= z < |h| && n < |h| && SegPerm(s, h[z := x], 1, n + 1) && Sinking(h[z := x], w, n, z)
    requires 2 <= y <= n && y / 2 == z && Wt(w, h[y]) <= Wt(w, x)
    requires forall i :: 2 <= i <= n && i / 2 == z ==> Wt(w, h[y]) <= Wt(w, h[i])
    ensures SegPerm(s, h[z := h[y]][y := x], 1, n + 1)
    ensures Sinking(h[z := h[y]][y := x], w, n, y)
  {
    hide Sinking, SegPerm;
    var g := h[z := x];
    SinkStep(g, w, n, z, y);
    SegPermSwap(g, z, y, 1, n + 1);
    assert g[z := g[y]][y := g[z]] == h[z := h[y]][y := x];
    SegPermTrans(s, g, h[z := h[y]][y := x], 1, n + 1);
  }

  /** The lighter of the children of `z`. */
  method LighterChild(heap: array<int>, weight: array<int>, n: int, z: int) returns (y: int)
    requires 0 <= n < heap.Length && 1 <= z && 2 * z <= n && Entries(heap[..], weight.Length, n)
    ensures 2 * z <= y <= 2 * z + 1 && y <= n && y / 2 == z
    ensures forall i :: 2 <= i <= n && i / 2 == z ==> Wt(weight[..], heap[y]) <= Wt(weight[..], heap[i])
  {
    y := z * 2;
    if y < n && weight[heap[y + 1]] < weight[heap[y]] {
      y := y + 1;
    }
  }

  /** DOWNHEAP(1), with `n` entries left. */
  method DownHeap(heap: array<int>, weight: array<int>, n: int)
    requires heap != weight && 0 <= n && 1 < heap.Length && n < heap.Length
    requires Entries(heap[..], weight.Length, n) && (n == 0 ==> 0 <= heap[1] < weight.Length)
    requires forall i :: 4 <= i <= n ==> Above(heap[..], weight[..], i)
    modifies heap
    ensures SegPerm(old(heap[..]), heap[..], 1, n + 1)
    ensures HeapOrdered(heap[..], weight[..], n) && heap[0] == old(heap[0])
  {
    hide SegPerm, Sinking, HeapOrdered, Above;
    ghost var s, w := heap[..], weight[..];
    SegPermRefl(s, 1, n + 1);
    var zz := 1;
    var tmp := heap[zz];
    assert s[zz := tmp] == s;
    SinkingInit(s, w, n);
    while true
      invariant 1 <= zz && (zz <= n || (n == 0 && zz == 1)) && 0 <= tmp < weight.Length
      invariant Entries(heap[..], weight.Length, n) && heap[0] == s[0]
      invariant SegPerm(s, heap[..][zz := tmp], 1, n + 1)
      invariant Sinking(heap[..][zz := tmp], w, n, zz)
      decreases n - zz
    {
      ghost var h := heap[..];
      if zz * 2 > n {
        SinkDone(h[zz := tmp], w, n, zz);
        break;
      }
      var yy := LighterChild(heap, weight, n, zz);
      if weight[tmp] < weight[heap[yy]] {
        SinkDone(h[zz := tmp], w, n, zz);
        break;
      }
      SinkHole(s, h, w, n, zz, yy, tmp);
      heap[zz] := heap[yy];
      assert heap[..] == h[zz := h[yy]];
      zz := yy;
    }
    ghost var g := heap[..][zz := tmp];
    heap[zz] := tmp;
    assert heap[..] == g;
  }

  // ----- the heap as a bag of nodes

  /** The nodes in the heap. */
  ghost function Bag(h: seq<int>, n: int): multiset<int>
    requires 0 <= n < |h|
  {
    multiset(h[1..n + 1])
  }

  lemma BagDrop(h: seq<int>, g: seq<int>, n: int)
    requires 1 <= n < |h| && SegPerm(h[1 := h[n]], g, 1, n)
    ensures Bag(g, n - 1) == Bag(h, n) - multiset{h[1]}
  {
    var k := h[1 := h[n]];
    if n == 1 {
      assert h[1..2] == [h[1]] && g[1..1] == [];
    } else {
      assert h[1..n + 1] == [h[1]] + h[2..n] + [h[n]];
      assert k[1..n] == [h[n]] + h[2..n];
    }
  }

  lemma BagAdd(h: seq<int>, g: seq<int>, n: int, x: int)
    requires 0 <= n && n + 1 < |h| && SegPerm(h[n + 1 := x], g, 1, n + 2)
    ensures Bag(g, n + 1) == Bag(h, n) + multiset{x}
  {
    assert h[n + 1 := x][1..n + 2] == h[1..n + 1] + [x];
  }

  lemma BagLightest(h: seq<int>, w: seq<int>, n: int)
    requires 1 <= n && HeapOrdered(h, w, n)
    ensures h[1] in Bag(h, n)
    ensures forall x :: x in Bag(h, n) ==> Wt(w, h[1]) <= Wt(w, x)
  {
    assert h[1..n + 1][0] == h[1];
    forall x | x in Bag(h, n) ensures Wt(w, h[1]) <= Wt(w, x) {
      var i :| 0 <= i < n && h[1..n + 1][i] == x;
      RootLightest(h, w, n, i + 1);
    }
  }

  /** `heap[1]` is taken off, the last entry replaces it and sinks. */
  method TakeLightest(heap: array<int>, weight: array<int>, n: int) returns (x: int)
    requires heap != weight && 1 <= n < heap.Length
    requires Entries(heap[..], weight.Length, n) && HeapOrdered(heap[..], weight[..], n)
    modifies heap
    ensures Bag(heap[..], n - 1) == Bag(old(heap[..]), n) - multiset{x} && x in Bag(old(heap[..]), n)
    ensures forall y :: y in Bag(old(heap[..]), n) ==> Wt(weight[..], x) <= Wt(weight[..], y)
    ensures Entries(heap[..], weight.Length, n - 1) && HeapOrdered(heap[..], weight[..], n - 1)
    ensures heap[0] == old(heap[0])
  {
    hide SegPerm, Bag;
    ghost var h := heap[..];
    BagLightest(h, weight[..], n);
    x := heap[1];
    heap[1] := heap[n];
    assert heap[..] == h[1 := h[n]];
    SinkInit(h, heap[..], weight[..], n);
    DownHeap(heap, weight, n - 1);
    EntriesKept(h[1 := h[n]], heap[..], weight.Length, n - 1);
    BagDrop(h, heap[..], n);
  }

  lemma SinkInit(h: seq<int>, g: seq<int>, w: seq<int>, n: int)
    requires 1 <= n && HeapOrdered(h, w, n) && g == h[1 := h[n]]
    ensures forall i :: 4 <= i <= n - 1 ==> Above(g, w, i)
  {
    forall i | 4 <= i <= n - 1 ensures Above(g, w, i) {
      assert Above(h, w, i);
    }
  }

  /** A node is added at the end and rises. */
  method Insert(heap: array<int>, weight: array<int>, n: int, x: int)
    requires heap != weight && 0 <= n && n + 1 < heap.Length && 0 <= x < weight.Length
    requires heap[0] == 0 && weight[0] == 0
    requires Entries(heap[..], weight.Length, n) && weight[x] >= 0
    requires HeapOrdered(heap[..], weight[..], n)
    modifies heap
    ensures Bag(heap[..], n + 1) == Bag(old(heap[..]), n) + multiset{x}
    ensures Entries(heap[..], weight.Length, n + 1) && HeapOrdered(heap[..], weight[..], n + 1)
    ensures heap[0] == 0
  {
    hide SegPerm, Bag;
    ghost var h := heap[..];
    heap[n + 1] := x;
    assert heap[..] == h[n + 1 := x];
    assert HeapOrdered(heap[..], weight[..], n) by {
      forall i | 2 <= i <= n ensures Above(heap[..], weight[..], i) { assert Above(h, weight[..], i); }
    }
    UpHeap(heap, weight, n + 1);
    EntriesKept(h[n + 1 := x], heap[..], weight.Length, n + 1);
    BagAdd(h, heap[..], n, x);
  }
}
