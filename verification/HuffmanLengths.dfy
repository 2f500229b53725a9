/** BZ2_hbMakeCodeLengths of deps/bzip2/huffman.c. */
module HuffmanLengths {
  import opened Permutations
  import opened HuffmanHeap
  import opened Powers

  const MAX_ALPHA := 258

  function FreqOf(w: int): int { w / 256 }

  function DepthOf(w: int): int { w % 256 }

  // ----- the trees under construction

  type Kids = seq<(int, int)>

  /** Nodes `1..N` form a forest: `1..n` are leaves, and every later node has exactly the two
      children `kids` says. */
  ghost predicate Forest(par: seq<int>, kids: Kids, n: int, N: int) {
    && 1 <= n <= N < |par| && |kids| == |par|
    && (forall u :: 1 <= u <= N ==> par[u] == -1 || (u < par[u] <= N && n < par[u]))
    && (forall u :: 1 <= u <= N && par[u] != -1 ==> u == kids[par[u]].0 || u == kids[par[u]].1)
    && (forall v :: n < v <= N ==>
          && 1 <= kids[v].0 < v && 1 <= kids[v].1 < v && kids[v].0 != kids[v].1
          && par[kids[v].0] == v && par[kids[v].1] == v)
  }

  /** Weights are in range; an inner node adds the frequencies of its children, and is one deeper. */
  ghost predicate Weighed(w: seq<int>, par: seq<int>, kids: Kids, n: int, N: int) {
    && Forest(par, kids, n, N) && |w| == |par|
    && (forall u :: 1 <= u <= N ==> FreqOf(w[u]) >= 1)
    && (forall u :: 1 <= u <= n ==> DepthOf(w[u]) == 0)
    && (forall v :: n < v <= N ==>
          && FreqOf(w[v]) == FreqOf(w[kids[v].0]) + FreqOf(w[kids[v].1])
          && DepthOf(w[v]) == 1 + Max(DepthOf(w[kids[v].0]), DepthOf(w[kids[v].1])))
  }

  function Max(x: int, y: int): int { if x > y then x else y }

  /** What merging the two lightest trees guarantees: no tree is lighter than a merged one was. */
  ghost predicate Dominated(w: seq<int>, par: seq<int>, N: int) {
    && N < |par| == |w|
    && forall u, r :: 1 <= u <= N && 1 <= r <= N && par[u] != -1 && par[r] == -1 ==> w[u] <= w[r]
  }

  ghost function Fib(k: nat): nat {
    if k < 2 then k else Fib(k - 1) + Fib(k - 2)
  }

  /** A tree of depth d weighs at least Fibonacci(d + 2). */
  ghost predicate Heavy(w: seq<int>, N: int) {
    && N < |w|
    && forall u :: 1 <= u <= N ==> FreqOf(w[u]) >= Fib(DepthOf(w[u]) + 2)
  }

  /** Total frequency of the roots among the first `k` nodes. */
  ghost function RootSum(w: seq<int>, par: seq<int>, k: nat): int
    requires k < |w| == |par|
  {
    if k == 0 then 0 else RootSum(w, par, k - 1) + (if par[k] == -1 then FreqOf(w[k]) else 0)
  }

  lemma {:induction false} RootSumSame(w: seq<int>, par: seq<int>, w': seq<int>, par': seq<int>, k: nat)
    requires k < |w| == |par| == |w'| == |par'|
    requires forall u :: 1 <= u <= k ==> w[u] == w'[u] && par[u] == par'[u]
    ensures RootSum(w, par, k) == RootSum(w', par', k)
  {
    if k > 0 { RootSumSame(w, par, w', par', k - 1); }
  }

  /** A root that gets a parent leaves the sum. */
  lemma {:induction false} RootSumDrop(w: seq<int>, par: seq<int>, u: int, p: int, k: nat)
    requires k < |w| == |par| && 1 <= u <= k && par[u] == -1 && p >= 0
    ensures RootSum(w, par[u := p], k) == RootSum(w, par, k) - FreqOf(w[u])
  {
    if u == k {
      RootSumSame(w, par, w, par[u := p], k - 1);
    } else {
      RootSumDrop(w, par, u, p, k - 1);
    }
  }

  lemma {:induction false} RootSumAtLeast(w: seq<int>, par: seq<int>, k: nat, u: int, v: int)
    requires k < |w| == |par| && forall x :: 1 <= x <= k ==> FreqOf(w[x]) >= 0
    requires 1 <= u <= k && par[u] == -1
    requires u == v || (1 <= v <= k && par[v] == -1)
    ensures RootSum(w, par, k) >= FreqOf(w[u]) + if u == v then 0 else FreqOf(w[v])
  {
    if u == v {
      if u < k { RootSumAtLeast(w, par, k - 1, u, u); } else { RootSumNat(w, par, k - 1); }
    } else if u < k && v < k {
      RootSumAtLeast(w, par, k - 1, u, v);
    } else if u == k {
      RootSumAtLeast(w, par, k - 1, v, v);
    } else {
      RootSumAtLeast(w, par, k - 1, u, u);
    }
  }

  lemma {:induction false} RootSumNat(w: seq<int>, par: seq<int>, k: nat)
    requires k < |w| == |par| && forall x :: 1 <= x <= k ==> FreqOf(w[x]) >= 0
    ensures RootSum(w, par, k) >= 0
  {
    if k > 0 { RootSumNat(w, par, k - 1); }
  }

  lemma {:induction false} FibMono(j: nat, k: nat)
    requires j <= k
    ensures Fib(j) <= Fib(k)
    decreases k
  {
    if j < k { FibMono(j, k - 1); }
  }

  lemma FibValues()
    ensures Fib(15) == 610 && Fib(35) == 9227465
  {
    assert Fib(5) == 5 && Fib(6) == 8;
    assert Fib(10) == 55 && Fib(11) == 89;
    assert Fib(15) == 610 && Fib(16) == 987;
    assert Fib(20) == 6765 && Fib(21) == 10946;
    assert Fib(25) == 75025 && Fib(26) == 121393;
    assert Fib(30) == 832040 && Fib(31) == 1346269;
  }

  /** ADDWEIGHTS, for a sum of depth below 256. */
  function AddWeights(x: int, y: int): (z: int)
    requires x >= 0 && y >= 0 && DepthOf(x) < 255 && DepthOf(y) < 255
    ensures FreqOf(z) == FreqOf(x) + FreqOf(y) && DepthOf(z) == 1 + Max(DepthOf(x), DepthOf(y)) && z >= 0
  {
    (FreqOf(x) + FreqOf(y)) * 256 + (1 + Max(DepthOf(x), DepthOf(y)))
  }

  const TOTAL_LIMIT := 0x80_0000

  /** The state between merges: `total` is the weight of all leaves, safe for 32 bits. */
  ghost predicate Building(w: seq<int>, par: seq<int>, kids: Kids, n: int, N: int, total: int) {
    && Weighed(w, par, kids, n, N) && Dominated(w, par, N) && Heavy(w, N)
    && RootSum(w, par, N) == total < TOTAL_LIMIT
  }

  /** Depths stay far below 256, so depth and frequency never mix. */
  lemma DepthSmall(w: seq<int>, par: seq<int>, kids: Kids, n: int, N: int, total: int, u: int)
    requires Building(w, par, kids, n, N, total) && 1 <= u <= N && par[u] == -1
    ensures DepthOf(w[u]) <= 32 && w[u] >= 0
  {
    hide Fib, RootSum, Dominated;
    RootSumAtLeast(w, par, N, u, u);
    if DepthOf(w[u]) > 32 {
      FibValues();
      FibMono(35, DepthOf(w[u]) + 2);
    }
  }

  lemma MergeForest(par: seq<int>, kids: Kids, n: int, N: int, n1: int, n2: int)
    requires Forest(par, kids, n, N) && N + 1 < |par|
    requires 1 <= n1 <= N && 1 <= n2 <= N && n1 != n2 && par[n1] == -1 && par[n2] == -1
    ensures Forest(par[n1 := N + 1][n2 := N + 1][N + 1 := -1], kids[N + 1 := (n1, n2)], n, N + 1)
  {
    var par', kids' := par[n1 := N + 1][n2 := N + 1][N + 1 := -1], kids[N + 1 := (n1, n2)];
    forall v | n < v <= N + 1
      ensures 1 <= kids'[v].0 < v && 1 <= kids'[v].1 < v && kids'[v].0 != kids'[v].1
      ensures par'[kids'[v].0] == v && par'[kids'[v].1] == v
    {
      if v <= N { assert par[kids[v].0] == v && par[kids[v].1] == v; }
    }
  }

  lemma MergeWeighed(w: seq<int>, par: seq<int>, kids: Kids, n: int, N: int, n1: int, n2: int, x: int)
    requires Weighed(w, par, kids, n, N) && N + 1 < |par|
    requires 1 <= n1 <= N && 1 <= n2 <= N && n1 != n2 && par[n1] == -1 && par[n2] == -1
    requires FreqOf(x) == FreqOf(w[n1]) + FreqOf(w[n2]) && DepthOf(x) == 1 + Max(DepthOf(w[n1]), DepthOf(w[n2]))
    ensures Weighed(w[N + 1 := x], par[n1 := N + 1][n2 := N + 1][N + 1 := -1], kids[N + 1 := (n1, n2)], n, N + 1)
  {
    MergeForest(par, kids, n, N, n1, n2);
  }

  lemma MergeDominated(w: seq<int>, par: seq<int>, N: int, n1: int, n2: int, x: int)
    requires Dominated(w, par, N) && N + 1 < |par|
    requires 1 <= n1 <= N && 1 <= n2 <= N && n1 != n2 && par[n1] == -1 && par[n2] == -1
    requires forall r :: 1 <= r <= N && par[r] == -1 ==> w[n1] <= w[r] && (r != n1 ==> w[n2] <= w[r])
    requires x >= w[n1] && x >= w[n2]
    ensures Dominated(w[N + 1 := x], par[n1 := N + 1][n2 := N + 1][N + 1 := -1], N + 1)
  {
  }

  /** Fibonacci growth: the partner of a deep tree weighs at least as much as the deep tree's child. */
  lemma MergeHeavy(w: seq<int>, par: seq<int>, kids: Kids, n: int, N: int, a: int, b: int)
    requires Weighed(w, par, kids, n, N) && Dominated(w, par, N) && Heavy(w, N)
    requires 1 <= a <= N && 1 <= b <= N && par[a] == -1 && par[b] == -1
    requires DepthOf(w[a]) >= DepthOf(w[b])
    ensures FreqOf(w[a]) + FreqOf(w[b]) >= Fib(DepthOf(w[a]) + 3)
  {
    var d := DepthOf(w[a]);
    assert Fib(d + 3) == Fib(d + 2) + Fib(d + 1);
    if d > 0 {
      assert a > n;
      var c := if DepthOf(w[kids[a].0]) == d - 1 then kids[a].0 else kids[a].1;
      assert DepthOf(w[c]) == d - 1 && par[c] == a;
      assert w[c] <= w[b];
      assert FreqOf(w[c]) <= FreqOf(w[b]);
      assert FreqOf(w[c]) >= Fib(d - 1 + 2);
    } else {
      assert Fib(1) == 1;
    }
  }

  lemma MergeSum(w: seq<int>, par: seq<int>, N: int, n1: int, n2: int, x: int)
    requires N + 1 < |par| == |w| && 0 <= N
    requires 1 <= n1 <= N && 1 <= n2 <= N && n1 != n2 && par[n1] == -1 && par[n2] == -1
    requires FreqOf(x) == FreqOf(w[n1]) + FreqOf(w[n2])
    ensures RootSum(w[N + 1 := x], par[n1 := N + 1][n2 := N + 1][N + 1 := -1], N + 1) == RootSum(w, par, N)
  {
    var p1 := par[n1 := N + 1];
    var p2 := p1[n2 := N + 1];
    RootSumDrop(w, par, n1, N + 1, N);
    RootSumDrop(w, p1, n2, N + 1, N);
    RootSumSame(w, p2, w[N + 1 := x], p2[N + 1 := -1], N);
  }

  /** Merging the two lightest roots keeps everything. */
  lemma Merge(w: seq<int>, par: seq<int>, kids: Kids, n: int, N: int, total: int, n1: int, n2: int)
    requires Building(w, par, kids, n, N, total) && N + 1 < |par|
    requires 1 <= n1 <= N && 1 <= n2 <= N && n1 != n2 && par[n1] == -1 && par[n2] == -1
    requires forall r :: 1 <= r <= N && par[r] == -1 ==> w[n1] <= w[r] && (r != n1 ==> w[n2] <= w[r])
    ensures w[n1] >= 0 && w[n2] >= 0 && DepthOf(w[n1]) < 255 && DepthOf(w[n2]) < 255
    ensures Building(w[N + 1 := AddWeights(w[n1], w[n2])],
                     par[n1 := N + 1][n2 := N + 1][N + 1 := -1], kids[N + 1 := (n1, n2)], n, N + 1, total)
  {
    hide Fib, RootSum, Dominated, Heavy, AddWeights, FreqOf, DepthOf;
    DepthSmall(w, par, kids, n, N, total, n1);
    DepthSmall(w, par, kids, n, N, total, n2);
    var x := AddWeights(w[n1], w[n2]);
    AddGrows(w[n1], w[n2]);
    MergeWeighed(w, par, kids, n, N, n1, n2, x);
    MergeDominated(w, par, N, n1, n2, x);
    MergeSum(w, par, N, n1, n2, x);
    if DepthOf(w[n1]) >= DepthOf(w[n2]) {
      MergeHeavy(w, par, kids, n, N, n1, n2);
    } else {
      MergeHeavy(w, par, kids, n, N, n2, n1);
    }
    HeavyMore(w, N, x);
  }

  lemma AddGrows(x: int, y: int)
    requires x >= 0 && y >= 0 && DepthOf(x) < 255 && DepthOf(y) < 255
    ensures AddWeights(x, y) >= x && AddWeights(x, y) >= y
  {
  }

  lemma HeavyMore(w: seq<int>, N: int, x: int)
    requires Heavy(w, N) && 0 <= N && N + 1 < |w| && FreqOf(x) >= Fib(DepthOf(x) + 2)
    ensures Heavy(w[N + 1 := x], N + 1)
  {
    hide Fib, FreqOf, DepthOf;
  }

  // ----- building one tree

  /** Total frequency of the first `k` leaves. */
  ghost function LeafSum(w: seq<int>, k: nat): int
    requires k < |w|
  {
    if k == 0 then 0 else LeafSum(w, k - 1) + FreqOf(w[k])
  }

  lemma {:induction false} LeafRoots(w: seq<int>, par: seq<int>, k: nat)
    requires k < |w| == |par| && forall u :: 1 <= u <= k ==> par[u] == -1
    ensures RootSum(w, par, k) == LeafSum(w, k)
  {
    if k > 0 { LeafRoots(w, par, k - 1); }
  }

  ghost function Roots(par: seq<int>, N: int): set<int>
    requires 0 <= N < |par|
  {
    set u | 1 <= u <= N && par[u] == -1
  }

  lemma RootsMerge(par: seq<int>, N: int, n1: int, n2: int)
    requires 0 <= N && N + 1 < |par| && 1 <= n1 <= N && 1 <= n2 <= N && n1 != n2
    requires par[n1] == -1 && par[n2] == -1
    ensures multiset(Roots(par[n1 := N + 1][n2 := N + 1][N + 1 := -1], N + 1))
         == multiset(Roots(par, N)) - multiset{n1} - multiset{n2} + multiset{N + 1}
  {
    var par' := par[n1 := N + 1][n2 := N + 1][N + 1 := -1];
    assert Roots(par', N + 1) == Roots(par, N) - {n1} - {n2} + {N + 1};
  }

  lemma RootsLeaf(par: seq<int>, i: int)
    requires 0 <= i && i + 1 < |par|
    ensures multiset(Roots(par[i + 1 := -1], i + 1)) == multiset(Roots(par, i)) + multiset{i + 1}
  {
    assert Roots(par[i + 1 := -1], i + 1) == Roots(par, i) + {i + 1};
  }

  /** The heap holds exactly the roots. */
  ghost predicate HeapOfRoots(h: seq<int>, w: seq<int>, par: seq<int>, nHeap: int, N: int) {
    && 1 <= nHeap < |h| && 0 <= N < |par| == |w|
    && Entries(h, |w|, nHeap) && HeapOrdered(h, w, nHeap) && h[0] == 0 && w[0] == 0
    && Bag(h, nHeap) == multiset(Roots(par, N))
  }

  /** Every leaf packs a frequency of at least one and depth zero. */
  ghost predicate Leaves(w: seq<int>, n: int) {
    && 1 <= n < |w|
    && forall u :: 1 <= u <= n ==> FreqOf(w[u]) >= 1 && DepthOf(w[u]) == 0
  }

  /** The first loop: all leaves go on the heap, as roots. */
  method PlantLeaves(heap: array<int>, weight: array<int>, parent: array<int>, n: int)
      returns (ghost kids: Kids)
    requires heap != weight && heap != parent && weight != parent && weight.Length == parent.Length
    requires n < heap.Length && Leaves(weight[..], n) && LeafSum(weight[..], n) < TOTAL_LIMIT
    modifies heap, weight, parent
    ensures weight[..] == old(weight[..])[0 := 0]
    ensures Building(weight[..], parent[..], kids, n, n, LeafSum(old(weight[..]), n))
    ensures HeapOfRoots(heap[..], weight[..], parent[..], n, n)
  {
    hide LeafSum, RootSum, Bag;
    heap[0] := 0;
    weight[0] := 0;
    parent[0] := -2;
    ghost var w := weight[..];
    assert Bag(heap[..], 0) == multiset(Roots(parent[..], 0)) by { BagEmpty(heap[..], parent[..]); }
    var i := 1;
    while i <= n
      invariant 1 <= i <= n + 1 && weight[..] == w
      invariant heap[0] == 0 && forall u :: 1 <= u < i ==> parent[u] == -1
      invariant Entries(heap[..], weight.Length, i - 1) && HeapOrdered(heap[..], w, i - 1)
      invariant Bag(heap[..], i - 1) == multiset(Roots(parent[..], i - 1))
    {
      RootsLeaf(parent[..], i - 1);
      ghost var par := parent[..];
      parent[i] := -1;
      assert parent[..] == par[i := -1];
      Insert(heap, weight, i - 1, i);
      i := i + 1;
    }
    kids := seq(parent.Length, k => (0, 0));
    LeafSumKept(old(weight[..]), w, n);
    LeafRoots(w, parent[..], n);
    PlantedIsBuilding(w, parent[..], kids, n);
  }

  lemma BagEmpty(h: seq<int>, par: seq<int>)
    requires |h| > 0 && |par| > 0
    ensures Bag(h, 0) == multiset(Roots(par, 0))
  {
    assert h[1..1] == [];
    assert Roots(par, 0) == {};
  }

  lemma {:induction false} LeafSumKept(w: seq<int>, w': seq<int>, k: nat)
    requires k < |w| == |w'| && forall u :: 1 <= u <= k ==> w'[u] == w[u]
    ensures LeafSum(w', k) == LeafSum(w, k)
  {
    if k > 0 { LeafSumKept(w, w', k - 1); }
  }

  lemma PlantedIsBuilding(w: seq<int>, par: seq<int>, kids: Kids, n: int)
    requires Leaves(w, n) && |par| == |w| == |kids| && forall u :: 1 <= u <= n ==> par[u] == -1
    requires RootSum(w, par, n) < TOTAL_LIMIT
    ensures Building(w, par, kids, n, n, RootSum(w, par, n))
  {
    assert Fib(2) == 1;
  }

  lemma BuildingShape(w: seq<int>, par: seq<int>, kids: Kids, n: int, N: int, total: int)
    requires Building(w, par, kids, n, N, total)
    ensures |w| == |par| == |kids| && 1 <= n <= N < |w|
  {
  }

  lemma BuildingForest(w: seq<int>, par: seq<int>, kids: Kids, n: int, N: int, total: int)
    requires Building(w, par, kids, n, N, total)
    ensures Forest(par, kids, n, N)
  {
  }

  /** The first two nodes off the heap are two different roots, and no root is lighter. */
  lemma TwoLightest(w: seq<int>, par: seq<int>, N: int, bag: multiset<int>, n1: int, n2: int)
    requires 0 <= N < |par| == |w| && bag == multiset(Roots(par, N))
    requires n1 in bag && forall y :: y in bag ==> Wt(w, n1) <= Wt(w, y)
    requires n2 in bag - multiset{n1} && forall y :: y in bag - multiset{n1} ==> Wt(w, n2) <= Wt(w, y)
    ensures 1 <= n1 <= N && 1 <= n2 <= N && n1 != n2 && par[n1] == -1 && par[n2] == -1
    ensures forall r :: 1 <= r <= N && par[r] == -1 ==> w[n1] <= w[r] && (r != n1 ==> w[n2] <= w[r])
  {
    assert n1 in Roots(par, N) && n2 in Roots(par, N);
    forall r | 1 <= r <= N && par[r] == -1 ensures w[n1] <= w[r] && (r != n1 ==> w[n2] <= w[r]) {
      assert r in Roots(par, N);
      assert r in bag;
      if r != n1 { assert r in bag - multiset{n1}; }
    }
  }

  /** Weighing a node that is not in the heap leaves the heap in order. */
  lemma HeapReweighed(h: seq<int>, w: seq<int>, w': seq<int>, par: seq<int>, k: int, N: int)
    requires HeapOrdered(h, w, k) && 0 <= k && 0 <= N < |par| == |w| == |w'|
    requires Bag(h, k) <= multiset(Roots(par, N)) && forall u :: 0 <= u <= N ==> w'[u] == w[u]
    ensures HeapOrdered(h, w', k)
  {
    forall i | 1 <= i <= k ensures Wt(w', h[i]) == Wt(w, h[i]) {
      assert h[1..k + 1][i - 1] == h[i];
      assert h[i] in Bag(h, k);
      assert h[i] in multiset(Roots(par, N));
    }
    forall i | 2 <= i <= k ensures Above(h, w', i) {
      assert Above(h, w, i);
    }
  }

  /** One merge of the two lightest trees. */
  method MergeOnce(heap: array<int>, weight: array<int>, parent: array<int>, n: int, nHeap: int, nNodes: int,
                   ghost kids: Kids, ghost total: int) returns (ghost kids': Kids)
    requires heap != weight && heap != parent && weight != parent
    requires nHeap >= 2 && nNodes + 1 < parent.Length
    requires Building(weight[..], parent[..], kids, n, nNodes, total)
    requires HeapOfRoots(heap[..], weight[..], parent[..], nHeap, nNodes)
    modifies heap, weight, parent
    ensures Building(weight[..], parent[..], kids', n, nNodes + 1, total)
    ensures HeapOfRoots(heap[..], weight[..], parent[..], nHeap - 1, nNodes + 1)
    ensures forall u :: 0 <= u <= nNodes ==> weight[u] == old(weight[u])
  {
    hide Building, Bag, HeapOrdered, AddWeights, Roots;
    ghost var w, par := weight[..], parent[..];
    var N := nNodes;
    BuildingShape(w, par, kids, n, N, total);
    ghost var bag := Bag(heap[..], nHeap);
    var n1 := TakeLightest(heap, weight, nHeap);
    var n2 := TakeLightest(heap, weight, nHeap - 1);
    TwoLightest(w, par, N, bag, n1, n2);
    Merge(w, par, kids, n, N, total, n1, n2);
    RootsMerge(par, N, n1, n2);
    parent[n1] := N + 1;
    parent[n2] := N + 1;
    weight[N + 1] := AddWeights(weight[n1], weight[n2]);
    parent[N + 1] := -1;
    assert parent[..] == par[n1 := N + 1][n2 := N + 1][N + 1 := -1];
    assert weight[..] == w[N + 1 := AddWeights(w[n1], w[n2])];
    HeapReweighed(heap[..], w, weight[..], par, nHeap - 2, N);
    Insert(heap, weight, nHeap - 2, N + 1);
    kids' := kids[N + 1 := (n1, n2)];
  }

  /** The finished tree: its one root is the last node, and carries all the weight. */
  ghost predicate Tree(w: seq<int>, par: seq<int>, kids: Kids, n: int, total: int) {
    && Building(w, par, kids, n, 2 * n - 1, total)
    && forall u :: 1 <= u < 2 * n - 1 ==> par[u] >= 0
  }

  lemma OneRootLeft(h: seq<int>, w: seq<int>, par: seq<int>, kids: Kids, n: int, N: int, total: int)
    requires Building(w, par, kids, n, N, total) && HeapOfRoots(h, w, par, 1, N) && N == 2 * n - 1
    ensures Tree(w, par, kids, n, total)
  {
    hide RootSum, Weighed, Heavy, Dominated;
    assert h[1..2] == [h[1]];
    assert Bag(h, 1) == multiset{h[1]};
    BuildingForest(w, par, kids, n, N, total);
    assert par[N] == -1;
    assert N in Roots(par, N);
    assert N in multiset(Roots(par, N));
    assert h[1] == N;
    forall u | 1 <= u < N ensures par[u] >= 0 {
      assert u !in multiset(Roots(par, N));
      assert u !in Roots(par, N);
    }
  }

  /** The loops that build one tree from the leaf weights. */
  method BuildTree(heap: array<int>, weight: array<int>, parent: array<int>, n: int)
      returns (ghost kids: Kids)
    requires heap != weight && heap != parent && weight != parent && weight.Length == parent.Length
    requires n < heap.Length && 2 * n - 1 < parent.Length
    requires Leaves(weight[..], n) && LeafSum(weight[..], n) < TOTAL_LIMIT
    modifies heap, weight, parent
    ensures Tree(weight[..], parent[..], kids, n, LeafSum(old(weight[..]), n))
    ensures forall u :: 1 <= u <= n ==> weight[u] == old(weight[u])
  {
    hide Building, HeapOfRoots, LeafSum;
    ghost var total := LeafSum(weight[..], n);
    kids := PlantLeaves(heap, weight, parent, n);
    var nNodes := n;
    var nHeap := n;
    while nHeap > 1
      invariant 1 <= nHeap <= n && nNodes == 2 * n - nHeap
      invariant Building(weight[..], parent[..], kids, n, nNodes, total)
      invariant HeapOfRoots(heap[..], weight[..], parent[..], nHeap, nNodes)
      invariant forall u :: 1 <= u <= n ==> weight[u] == old(weight[u])
    {
      kids := MergeOnce(heap, weight, parent, n, nHeap, nNodes, kids, total);
      nHeap := nHeap - 1;
      nNodes := nNodes + 1;
    }
    OneRootLeft(heap[..], weight[..], parent[..], kids, n, nNodes, total);
  }

  // ----- depths

  /** How many parents lie above node `k`. */
  function Depth(par: seq<int>, k: int): nat
    decreases |par| - k
  {
    if 0 <= k < |par| && k < par[k] then 1 + Depth(par, par[k]) else 0
  }

  /** No node lies deeper than the depth packed in the root's weight. */
  lemma {:induction false} DepthFits(w: seq<int>, par: seq<int>, kids: Kids, n: int, total: int, u: int)
    requires Tree(w, par, kids, n, total) && 1 <= u <= 2 * n - 1
    ensures Depth(par, u) + DepthOf(w[u]) <= DepthOf(w[2 * n - 1])
    ensures u < 2 * n - 1 ==> Depth(par, u) >= 1
    decreases 2 * n - u
  {
    hide Fib, RootSum, Dominated, DepthOf, FreqOf;
    if u < 2 * n - 1 {
      var v := par[u];
      assert u == kids[v].0 || u == kids[v].1;
      DepthFits(w, par, kids, n, total, v);
    } else {
      assert par[u] == -1;
    }
  }

  /** A tree with a leaf deeper than `maxLen` weighs at least Fibonacci(maxLen + 3). */
  lemma DeepIsHeavy(w: seq<int>, par: seq<int>, kids: Kids, n: int, total: int, u: int, maxLen: nat)
    requires Tree(w, par, kids, n, total) && 1 <= u <= 2 * n - 1 && Depth(par, u) > maxLen
    ensures total >= Fib(maxLen + 3)
  {
    hide Fib, RootSum, Dominated, Forest, Depth;
    var N := 2 * n - 1;
    DepthFits(w, par, kids, n, total, u);
    FibMono(maxLen + 3, DepthOf(w[N]) + 2);
    RootIsLast(w, par, kids, n, total);
    RootSumAtLeast(w, par, N, N, N);
  }

  lemma RootIsLast(w: seq<int>, par: seq<int>, kids: Kids, n: int, total: int)
    requires Tree(w, par, kids, n, total)
    ensures par[2 * n - 1] == -1 && n >= 1 && 2 * n - 1 < |par| == |w|
  {
  }

  // ----- Kraft's equation

  /** The Kraft sum of the first `k` lengths, in units of 2^-m. */
  ghost function Kraft(len: seq<int>, k: nat, m: nat): nat
    requires k <= |len| && forall i :: 0 <= i < k ==> 0 <= len[i] <= m
  {
    if k == 0 then 0 else Kraft(len, k - 1, m) + Pow2(m - len[k - 1])
  }

  lemma Distribute(x: int, y: int, z: int)
    ensures (x + y) * z == x * z + y * z
  {
  }

  /** Counting in a smaller unit only scales the sum. */
  lemma {:induction false} KraftScale(len: seq<int>, k: nat, m: nat, d: nat)
    requires k <= |len| && forall i :: 0 <= i < k ==> 0 <= len[i] <= m
    ensures Kraft(len, k, m + d) == Kraft(len, k, m) * Pow2(d)
  {
    hide Pow2;
    if k > 0 {
      KraftScale(len, k - 1, m, d);
      var l := m - len[k - 1];
      Pow2Add(l, d);
      Distribute(Kraft(len, k - 1, m), Pow2(l), Pow2(d));
      assert m + d - len[k - 1] == l + d;
    }
  }

  /** The same sum over the nodes among the first `k` that are cut off from nodes above `j`. */
  ghost function Frontier(par: seq<int>, k: nat, j: int, m: nat): nat
    requires k < |par| && forall u :: 1 <= u <= k ==> Depth(par, u) <= m
  {
    if k == 0 then 0
    else Frontier(par, k - 1, j, m) + (if par[k] < 0 || par[k] > j then Pow2(m - Depth(par, k)) else 0)
  }

  /** Replacing a node by its two children leaves the sum alone. */
  lemma {:induction false} FrontierChildren(par: seq<int>, k: nat, j: int, m: nat, a: int, b: int, t: int)
    requires k < |par| && forall u :: 1 <= u <= k ==> Depth(par, u) <= m
    requires forall u :: 1 <= u <= k ==> (par[u] == j <==> u == a || u == b)
    requires forall u :: 1 <= u <= k && par[u] == j ==> Pow2(m - Depth(par, u)) == t
    requires a != b && 1 <= a && 1 <= b && j >= 1
    ensures Frontier(par, k, j - 1, m)
         == Frontier(par, k, j, m) + (if a <= k then t else 0) + (if b <= k then t else 0)
    decreases k
  {
    hide Depth, Pow2;
    if k > 0 {
      FrontierChildren(par, k - 1, j, m, a, b, t);
    }
  }

  lemma {:induction false} DepthStep(par: seq<int>, k: int)
    requires 0 <= k < |par| && k < par[k]
    ensures Depth(par, k) == 1 + Depth(par, par[k])
  {
  }

  lemma {:induction false} HalfUnit(k: nat)
    requires k >= 1
    ensures Pow2(k) == Pow2(k - 1) + Pow2(k - 1)
  {
  }

  lemma {:induction false} FrontierTop(par: seq<int>, j: int, m: nat)
    requires 1 <= j < |par| && forall u :: 1 <= u <= j ==> Depth(par, u) <= m
    requires par[j] < 0 || par[j] > j
    ensures Frontier(par, j, j, m) == Frontier(par, j - 1, j, m) + Pow2(m - Depth(par, j))
  {
  }

  lemma {:induction false} FrontierStep(w: seq<int>, par: seq<int>, kids: Kids, n: int, total: int, j: int, m: nat)
    requires Tree(w, par, kids, n, total) && n < j <= 2 * n - 1
    requires forall u :: 1 <= u <= 2 * n - 1 ==> Depth(par, u) <= m
    ensures Frontier(par, j, j, m) == Frontier(par, j - 1, j - 1, m)
  {
    hide Fib, RootSum, Dominated, Weighed, Heavy, Frontier, Depth, Pow2;
    BuildingForest(w, par, kids, n, 2 * n - 1, total);
    var a, b := kids[j].0, kids[j].1;
    assert par[a] == j && par[b] == j;
    DepthStep(par, a);
    DepthStep(par, b);
    var t := Pow2(m - Depth(par, a));
    HalfUnit(m - Depth(par, j));
    FrontierChildren(par, j - 1, j, m, a, b, t);
    FrontierTop(par, j, m);
  }

  lemma {:induction false} FrontierNone(par: seq<int>, k: nat, j: int, m: nat)
    requires k < |par| && forall u :: 1 <= u <= k ==> Depth(par, u) <= m && 0 <= par[u] <= j
    ensures Frontier(par, k, j, m) == 0
  {
    if k > 0 { FrontierNone(par, k - 1, j, m); }
  }

  lemma {:induction false} FrontierTotal(w: seq<int>, par: seq<int>, kids: Kids, n: int, total: int, j: int, m: nat)
    requires Tree(w, par, kids, n, total) && n <= j <= 2 * n - 1
    requires forall u :: 1 <= u <= 2 * n - 1 ==> Depth(par, u) <= m
    ensures Frontier(par, j, j, m) == Pow2(m)
    decreases 2 * n - j
  {
    hide Fib, RootSum, Dominated, Weighed, Heavy, Frontier, Depth, Pow2;
    BuildingForest(w, par, kids, n, 2 * n - 1, total);
    if j < 2 * n - 1 {
      FrontierTotal(w, par, kids, n, total, j + 1, m);
      FrontierStep(w, par, kids, n, total, j + 1, m);
    } else {
      RootIsLast(w, par, kids, n, total);
      FrontierNone(par, j - 1, j, m);
      FrontierTop(par, j, m);
      DepthRoot(par, j);
    }
  }

  lemma {:induction false} DepthRoot(par: seq<int>, k: int)
    requires 0 <= k < |par| && par[k] == -1
    ensures Depth(par, k) == 0
  {
  }

  lemma {:induction false} LeafKraft(par: seq<int>, len: seq<int>, k: nat, n: int, m: nat)
    requires k < |par| && k <= |len| && forall u :: 1 <= u <= k ==> Depth(par, u) <= m && par[u] > n
    requires forall i :: 0 <= i < k ==> 0 <= len[i] == Depth(par, i + 1) <= m
    ensures Kraft(len, k, m) == Frontier(par, k, n, m)
  {
    hide Depth, Pow2;
    if k > 0 { LeafKraft(par, len, k - 1, n, m); }
  }

  /** Kraft's equation holds, whatever unit it is counted in. */
  lemma TreeKraft(w: seq<int>, par: seq<int>, kids: Kids, n: int, total: int, len: seq<int>, m: nat)
    requires Tree(w, par, kids, n, total) && n >= 2 && |len| >= n
    requires forall i :: 0 <= i < n ==> 0 <= len[i] == Depth(par, i + 1) <= m
    ensures Kraft(len, n, m) == Pow2(m)
  {
    hide Building, Depth, Pow2, Kraft, Frontier;
    BuildingForest(w, par, kids, n, 2 * n - 1, total);
    forall u | 1 <= u <= 2 * n - 1 ensures Depth(par, u) <= m + 256 {
      DepthFits(w, par, kids, n, total, u);
    }
    FrontierTotal(w, par, kids, n, total, n, m + 256);
    LeafKraft(par, len, n, n, m + 256);
    KraftScale(len, n, m, 256);
    Pow2Add(m, 256);
    Cancel(Kraft(len, n, m), Pow2(m), Pow2(256));
  }

  lemma Cancel(x: int, y: int, z: int)
    requires x * z == y * z && z >= 1
    ensures x == y
  {
    Distribute(x, -y, z);
    Distribute(y, -x, z);
    if x > y {
      Positive(x - y, z);
    } else if x < y {
      Positive(y - x, z);
    }
  }

  lemma Positive(x: int, y: int)
    requires x >= 1 && y >= 1
    ensures x * y >= 1
  {
  }

  // ----- too long?

  /** One leaf's walk to the root. */
  method CodeLength(parent: array<int>, i: int, ghost N: int) returns (j: nat)
    requires 0 <= i <= N < parent.Length
    requires forall u :: 0 < u <= N ==> parent[u] == -1 || u < parent[u] <= N
    requires i > 0
    ensures j == Depth(parent[..], i)
  {
    j := 0;
    var k := i;
    while parent[k] >= 0
      invariant 0 < k <= N
      invariant j + Depth(parent[..], k) == Depth(parent[..], i)
      decreases N - k
    {
      k := parent[k];
      j := j + 1;
    }
  }

  /** The lengths are the depths of the leaves. */
  ghost predicate Depths(len: seq<int>, par: seq<int>, n: nat) {
    n <= |len| && forall i :: 0 <= i < n ==> len[i] == Depth(par, i + 1)
  }

  method Measure(len: array<int>, parent: array<int>, n: int, maxLen: nat, ghost N: int) returns (tooLong: bool)
    requires len != parent && 1 <= n <= N < parent.Length && n <= len.Length
    requires forall u :: 0 < u <= N ==> parent[u] == -1 || u < parent[u] <= N
    modifies len
    ensures Depths(len[..], parent[..], n)
    ensures tooLong <==> exists i :: 0 <= i < n && len[i] > maxLen
    ensures len[n..] == old(len[n..])
  {
    tooLong := false;
    ghost var bad := 0;
    var i := 1;
    while i <= n
      invariant 1 <= i <= n + 1
      invariant forall k :: 0 <= k < i - 1 ==> len[k] == Depth(parent[..], k + 1)
      invariant tooLong ==> 0 <= bad < i - 1 && len[bad] > maxLen
      invariant !tooLong ==> forall k :: 0 <= k < i - 1 ==> len[k] <= maxLen
      invariant len[n..] == old(len[n..])
    {
      var j := CodeLength(parent, i, N);
      ghost var l := len[..];
      len[i - 1] := j;
      assert len[..] == l[i - 1 := j];
      if j > maxLen { tooLong := true; bad := i - 1; }
      i := i + 1;
    }
  }

  // ----- rescaling

  lemma {:induction false} LeafSumHalved(w: seq<int>, w': seq<int>, k: nat)
    requires k < |w| == |w'|
    requires forall u :: 1 <= u <= k ==> FreqOf(w[u]) >= 1 && FreqOf(w'[u]) == 1 + FreqOf(w[u]) / 2
    ensures LeafSum(w', k) <= LeafSum(w, k)
    ensures LeafSum(w', k) == LeafSum(w, k) ==> LeafSum(w, k) <= 2 * k
  {
    hide FreqOf;
    if k > 0 { LeafSumHalved(w, w', k - 1); }
  }

  /** Halving the weights; the total drops unless every weight is at most two. */
  method Rescale(weight: array<int>, n: int)
    requires Leaves(weight[..], n)
    modifies weight
    ensures Leaves(weight[..], n)
    ensures LeafSum(weight[..], n) <= LeafSum(old(weight[..]), n)
    ensures LeafSum(old(weight[..]), n) > 2 * n ==> LeafSum(weight[..], n) < LeafSum(old(weight[..]), n)
    ensures forall u :: 1 <= u <= n ==> FreqOf(weight[u]) == 1 + FreqOf(old(weight[u])) / 2
  {
    hide LeafSum;
    ghost var w := weight[..];
    var i := 1;
    while i <= n
      invariant 1 <= i <= n + 1
      invariant forall u :: i <= u <= n ==> weight[u] == w[u]
      invariant forall u :: 1 <= u < i ==> FreqOf(weight[u]) == 1 + FreqOf(w[u]) / 2 && DepthOf(weight[u]) == 0
    {
      var j := weight[i] / 256;
      j := 1 + j / 2;
      weight[i] := j * 256;
      i := i + 1;
    }
    LeafSumHalved(w, weight[..], n);
  }

  // ----- the whole algorithm

  /** The total weight the first loop sets up: a symbol that never occurs counts once. */
  function WeightSum(freq: seq<int>, k: nat): int
    requires k <= |freq|
  {
    if k == 0 then 0 else WeightSum(freq, k - 1) + (if freq[k - 1] == 0 then 1 else freq[k - 1])
  }

  lemma {:induction false} WeightSumLeaves(freq: seq<int>, w: seq<int>, k: nat)
    requires k <= |freq| && k < |w|
    requires forall u :: 1 <= u <= k ==> w[u] == 256 * if freq[u - 1] == 0 then 1 else freq[u - 1]
    ensures WeightSum(freq, k) == LeafSum(w, k)
  {
    if k > 0 { WeightSumLeaves(freq, w, k - 1); }
  }

  /** What a code needs from its lengths: all in range, and Kraft's sum exactly one. */
  ghost predicate Complete(len: seq<int>, n: nat, maxLen: nat) {
    && n <= |len|
    && (forall i :: 0 <= i < n ==> 1 <= len[i] <= maxLen)
    && Kraft(len, n, maxLen) == Pow2(maxLen)
  }

  lemma TreeComplete(w: seq<int>, par: seq<int>, kids: Kids, n: int, total: int, len: seq<int>, maxLen: nat)
    requires Tree(w, par, kids, n, total) && n >= 2 && Depths(len, par, n)
    requires forall i :: 0 <= i < n ==> len[i] <= maxLen
    ensures Complete(len, n, maxLen)
  {
    hide Building, Depth, Pow2, Kraft;
    forall i | 0 <= i < n ensures 0 <= len[i] == Depth(par, i + 1) <= maxLen {}
    TreeKraft(w, par, kids, n, total, len, maxLen);
    forall i | 0 <= i < n ensures len[i] >= 1 {
      DepthFits(w, par, kids, n, total, i + 1);
    }
  }

  lemma TooDeep(len: seq<int>, par: seq<int>, n: nat, i: nat)
    requires Depths(len, par, n) && i < n
    ensures i < |len| && len[i] == Depth(par, i + 1)
  {
  }

  lemma TreeWalkable(w: seq<int>, par: seq<int>, kids: Kids, n: int, total: int)
    requires Tree(w, par, kids, n, total)
    ensures 1 <= n && 2 * n - 1 < |par|
    ensures forall u :: 0 < u <= 2 * n - 1 ==> par[u] == -1 || u < par[u] <= 2 * n - 1
  {
    BuildingForest(w, par, kids, n, 2 * n - 1, total);
  }

  /** A leaf that is too deep needs more weight than `2 * n`, so rescaling makes progress. */
  lemma TooLongTooHeavy(w: seq<int>, par: seq<int>, kids: Kids, n: int, total: int, u: int, maxLen: nat)
    requires Tree(w, par, kids, n, total) && 1 <= u <= n <= MAX_ALPHA && Depth(par, u) > maxLen >= 12
    ensures total > 2 * n
  {
    hide Tree, Depth;
    TreeWalkable(w, par, kids, n, total);
    DeepIsHeavy(w, par, kids, n, total, u, maxLen);
    FibValues();
    FibMono(15, maxLen + 3);
  }

  /** A frequency after `rounds` rescalings; one that was 0 starts as 1. */
  function Halved(freq: int, rounds: nat): int {
    if rounds > 0 then 1 + Halved(freq, rounds - 1) / 2 else if freq == 0 then 1 else freq
  }

  ghost predicate HalvedLeaves(w: seq<int>, freq: seq<int>, n: nat, rounds: nat) {
    n < |w| && n <= |freq| && forall i :: 0 <= i < n ==> FreqOf(w[i + 1]) == Halved(freq[i], rounds)
  }

  lemma HalvedKept(w: seq<int>, w': seq<int>, freq: seq<int>, n: nat, rounds: nat)
    requires HalvedLeaves(w, freq, n, rounds) && |w'| == |w|
    ensures (forall u :: 1 <= u <= n ==> w'[u] == w[u]) ==> HalvedLeaves(w', freq, n, rounds)
    ensures (forall u :: 1 <= u <= n ==> FreqOf(w'[u]) == 1 + FreqOf(w[u]) / 2) ==> HalvedLeaves(w', freq, n, rounds + 1)
  {
    hide FreqOf;
  }

  /** The lengths are the depths of the leaves in a tree of repeatedly merged lightest nodes. */
  ghost predicate FromTree(len: seq<int>, w: seq<int>, par: seq<int>, kids: Kids, n: nat) {
    1 <= n < |w| && Tree(w, par, kids, n, LeafSum(w, n)) && Depths(len, par, n)
  }

  /** A tree that came out too deep: one of its leaves. */
  datatype Trial = Trial(w: seq<int>, par: seq<int>, kids: Kids, leaf: int)

  /** It was merged from the frequencies after `rounds` rescalings, and its leaf is too deep. */
  ghost predicate Failed(t: Trial, freq: seq<int>, n: nat, rounds: nat, maxLen: nat) {
    && 1 <= n < |t.w| && Tree(t.w, t.par, t.kids, n, LeafSum(t.w, n)) && HalvedLeaves(t.w, freq, n, rounds)
    && 1 <= t.leaf <= n && Depth(t.par, t.leaf) > maxLen
  }

  /** Every rescaling had its cause. */
  ghost predicate AllFailed(tried: seq<Trial>, freq: seq<int>, n: nat, maxLen: nat) {
    forall j :: 0 <= j < |tried| ==> Failed(tried[j], freq, n, j, maxLen)
  }

  lemma NoneFailed(freq: seq<int>, n: nat, maxLen: nat)
    ensures AllFailed([], freq, n, maxLen)
  {
  }

  lemma FailedMore(tried: seq<Trial>, t: Trial, freq: seq<int>, n: nat, maxLen: nat)
    requires AllFailed(tried, freq, n, maxLen) && Failed(t, freq, n, |tried|, maxLen)
    ensures AllFailed(tried + [t], freq, n, maxLen)
  {
    hide Failed;
  }

  lemma {:induction false} LeafSumUnhalved(w: seq<int>, freq: seq<int>, n: nat, k: nat)
    requires HalvedLeaves(w, freq, n, 0) && k <= n && forall i :: 0 <= i < n ==> freq[i] >= 0
    ensures LeafSum(w, k) == WeightSum(freq, k)
    decreases k
  {
    hide FreqOf;
    if k > 0 {
      LeafSumUnhalved(w, freq, n, k - 1);
      assert FreqOf(w[k]) == Halved(freq[k - 1], 0);
    }
  }

  /** Frequencies that together stay below a Fibonacci number are never rescaled. */
  lemma LightNeverFails(tried: seq<Trial>, freq: seq<int>, n: nat, maxLen: nat)
    requires AllFailed(tried, freq, n, maxLen) && n <= |freq| && forall i :: 0 <= i < n ==> freq[i] >= 0
    ensures WeightSum(freq, n) < Fib(maxLen + 3) ==> tried == []
  {
    hide Tree, Fib, Depth, LeafSum, WeightSum;
    if tried != [] {
      var t := tried[0];
      assert Failed(t, freq, n, 0, maxLen);
      LeafSumUnhalved(t.w, freq, n, n);
      DeepIsHeavy(t.w, t.par, t.kids, n, LeafSum(t.w, n), t.leaf, maxLen);
    }
  }

  /** The leaf weights: frequency shifted up by eight bits, with one for a symbol that never occurs. */
  method InitWeights(weight: array<int>, freq: array<int>, n: int)
    requires weight != freq && 1 <= n < weight.Length && n <= freq.Length
    requires forall i :: 0 <= i < n ==> freq[i] >= 0
    modifies weight
    ensures Leaves(weight[..], n) && LeafSum(weight[..], n) == WeightSum(freq[..], n)
    ensures HalvedLeaves(weight[..], freq[..], n, 0)
  {
    hide LeafSum, WeightSum;
    var i := 0;
    while i < n
      invariant 0 <= i <= n
      invariant forall u :: 1 <= u <= i ==> weight[u] == 256 * if freq[u - 1] == 0 then 1 else freq[u - 1]
    {
      weight[i + 1] := (if freq[i] == 0 then 1 else freq[i]) * 256;
      i := i + 1;
    }
    WeightSumLeaves(freq[..], weight[..], n);
  }

  lemma {:induction false} LeafSumNat(w: seq<int>, k: nat)
    requires k < |w| && forall u :: 1 <= u <= k ==> FreqOf(w[u]) >= 1
    ensures LeafSum(w, k) >= k
  {
    if k > 0 { LeafSumNat(w, k - 1); }
  }

  /** BZ2_hbMakeCodeLengths. It ends because a tree too deep is too heavy to consist of weights
      one and two only, so that rescaling makes the leaves lighter. */
  method MakeCodeLengths(len: array<int>, freq: array<int>, alphaSize: int, maxLen: nat)
    returns (ghost w: seq<int>, ghost par: seq<int>, ghost kids: Kids, ghost tried: seq<Trial>)
    requires len != freq && 2 <= alphaSize <= MAX_ALPHA && alphaSize <= len.Length && alphaSize <= freq.Length
    requires forall i :: 0 <= i < alphaSize ==> freq[i] >= 0
    requires WeightSum(freq[..], alphaSize) < TOTAL_LIMIT && maxLen >= 12
    modifies len
    ensures Complete(len[..], alphaSize, maxLen)
    ensures FromTree(len[..], w, par, kids, alphaSize) && HalvedLeaves(w, freq[..], alphaSize, |tried|)
    ensures AllFailed(tried, freq[..], alphaSize, maxLen)
    ensures WeightSum(freq[..], alphaSize) < Fib(maxLen + 3) ==> tried == []
    ensures len[alphaSize..] == old(len[alphaSize..])
  {
    hide Complete, LeafSum, Tree, Fib, Depth, Depths, WeightSum, HalvedLeaves, AllFailed;
    var heap := new int[MAX_ALPHA + 2];
    var weight := new int[MAX_ALPHA * 2];
    var parent := new int[MAX_ALPHA * 2];
    InitWeights(weight, freq, alphaSize);
    tried := [];
    assert AllFailed(tried, freq[..], alphaSize, maxLen) by { NoneFailed(freq[..], alphaSize, maxLen); }
    ghost var total := LeafSum(weight[..], alphaSize);
    while true
      invariant Leaves(weight[..], alphaSize) && LeafSum(weight[..], alphaSize) == total < TOTAL_LIMIT
      invariant HalvedLeaves(weight[..], freq[..], alphaSize, |tried|) && AllFailed(tried, freq[..], alphaSize, maxLen)
      invariant len[alphaSize..] == old(len[alphaSize..])
      decreases total
    {
      ghost var before := weight[..];
      kids := BuildTree(heap, weight, parent, alphaSize);
      w, par := weight[..], parent[..];
      HalvedKept(before, w, freq[..], alphaSize, |tried|);
      LeafSumKept(before, w, alphaSize);
      TreeWalkable(w, par, kids, alphaSize, total);
      var tooLong := Measure(len, parent, alphaSize, maxLen, 2 * alphaSize - 1);
      if !tooLong {
        ghost var l := len[..];
        forall i | 0 <= i < alphaSize ensures l[i] <= maxLen { assert len[i] <= maxLen; }
        TreeComplete(w, par, kids, alphaSize, total, l, maxLen);
        LightNeverFails(tried, freq[..], alphaSize, maxLen);
        break;
      }
      ghost var i :| 0 <= i < alphaSize && len[i] > maxLen;
      TooDeep(len[..], par, alphaSize, i);
      TooLongTooHeavy(w, par, kids, alphaSize, total, i + 1, maxLen);
      LeafSumNat(w, alphaSize);
      Rescale(weight, alphaSize);
      HalvedKept(w, weight[..], freq[..], alphaSize, |tried|);
      FailedMore(tried, Trial(w, par, kids, i + 1), freq[..], alphaSize, maxLen);
      tried := tried + [Trial(w, par, kids, i + 1)];
      total := LeafSum(weight[..], alphaSize);
    }
  }
}
