/** The binary heap of BZ2_hbMakeCodeLengths: positions from 1, entry 0 a sentinel lighter than everything. */
module HuffmanHeap {
  import opened Permutations

  /** Positions 1 to n hold node numbers. */
  ghost predicate Nodes(h: seq<int>, w: seq<int>, n: int) {
    && 0 <= n < |h| && |w| > 0 && h[0] == 0 && w[0] == 0
    && forall k | 1 <= k <= n :: 1 <= h[k] < |w| && w[h[k]] > 0
  }

  /** The weight at a position. */
  ghost function At(h: seq<int>, w: seq<int>, k: int): int
    requires 0 <= k < |h|
  {
    if 0 <= h[k] < |w| then w[h[k]] else 0
  }

  /** No position is lighter than the one above it. */
  ghost predicate Heap(h: seq<int>, w: seq<int>, n: int) {
    && Nodes(h, w, n)
    && forall k | 2 <= k <= n :: At(h, w, k / 2) <= At(h, w, k)
  }

  /** A heap but for position z, which may be too light for its place. */
  ghost predicate Rising(h: seq<int>, w: seq<int>, n: int, z: int) {
    && Nodes(h, w, n) && 1 <= z <= n
    && (forall k | 2 <= k <= n && k != z :: At(h, w, k / 2) <= At(h, w, k))
    && (forall k | 2 <= k <= n && k / 2 == z :: At(h, w, z / 2) <= At(h, w, k))
  }

  /** A heap but for position z, which may be too heavy for its place. */
  ghost predicate Sinking(h: seq<int>, w: seq<int>, n: int, z: int) {
    && Nodes(h, w, n) && 1 <= z
    && (forall k | 2 <= k <= n && k / 2 != z :: At(h, w, k / 2) <= At(h, w, k))
    && (forall k | 2 <= k <= n && k / 2 == z :: At(h, w, z / 2) <= At(h, w, k))
  }

  /** The lightest node is on top. */
  lemma {:induction false} TopLightest(h: seq<int>, w: seq<int>, n: int, k: int)
    requires Heap(h, w, n) && 1 <= k <= n
    ensures At(h, w, 1) <= At(h, w, k)
    decreases k
  {
    if k > 1 { TopLightest(h, w, n, k / 2); }
  }

  /** The nodes in the heap. */
  ghost function Content(h: seq<int>, n: int): multiset<int>
    requires 0 <= n < |h|
  {
    multiset(h[1..n + 1])
  }

  lemma ExchangeContent(h: seq<int>, n: int, i: int, j: int)
    requires 1 <= i <= n < |h| && 1 <= j <= n
    ensures Content(Exchange(h, i, j), n) == Content(h, n)
  {
    RearrangedSwap(h, i, j, 1, n + 1);
  }

  lemma RiseStep(h: seq<int>, w: seq<int>, n: int, z: int)
    requires Rising(h, w, n, z) && z > 1 && At(h, w, z) < At(h, w, z / 2)
    ensures Rising(Exchange(h, z, z / 2), w, n, z / 2)
  {
    hide At, Exchange;
    var h' := Exchange(h, z, z / 2);
    ExchangeAt(h, z, z / 2);
    forall k | 0 <= k <= n ensures At(h', w, k) == if k == z then At(h, w, z / 2) else if k == z / 2 then At(h, w, z)
      else At(h, w, k) {
      ExchangedWeight(h, w, z, z / 2, k);
    }
    RisingMid(h, w, n, z);
    forall k | 2 <= k <= n && k != z / 2 ensures At(h', w, k / 2) <= At(h', w, k) {
      if k != z && k / 2 != z && k / 2 != z / 2 { assert At(h, w, k / 2) <= At(h, w, k); }
    }
    forall k | 2 <= k <= n && k / 2 == z / 2 ensures At(h', w, z / 2 / 2) <= At(h', w, k) {
      if k != z { assert At(h, w, k / 2) <= At(h, w, k); }
    }
  }

  lemma ExchangedWeight(h: seq<int>, w: seq<int>, i: int, j: int, k: int)
    requires 0 <= i < |h| && 0 <= j < |h| && 0 <= k < |h|
    ensures |Exchange(h, i, j)| == |h|
    ensures At(Exchange(h, i, j), w, k) == if k == j then At(h, w, i) else if k == i then At(h, w, j) else At(h, w, k)
  {
  }

  /** What lies above position z / 2 is no heavier than what lies there. */
  lemma RisingMid(h: seq<int>, w: seq<int>, n: int, z: int)
    requires Rising(h, w, n, z) && z > 1
    ensures z / 2 > 1 ==> At(h, w, z / 2 / 2) <= At(h, w, z / 2)
    ensures At(h, w, 0) == 0 && forall k | 1 <= k <= n :: At(h, w, k) > 0
  {
  }

  /** UPHEAP. */
  method UpHeap(heap: array<int>, weight: array<int>, z: int, ghost nHeap: int)
    requires heap != weight && Rising(heap[..], weight[..], nHeap, z)
    modifies heap
    ensures Heap(heap[..], weight[..], nHeap) && Content(heap[..], nHeap) == old(Content(heap[..], nHeap))
    ensures forall k | nHeap < k < heap.Length :: heap[k] == old(heap[k])
  {
    hide Rising, Exchange, At, Content, Nodes;
    ghost var w := weight[..];
    RisingBounds(heap[..], w, nHeap, z);
    var zz, tmp := z, heap[z];
    ghost var h := heap[..];
    while weight[tmp] < weight[heap[zz / 2]]
      invariant Rising(h, w, nHeap, zz) && |h| == heap.Length && 1 <= zz <= nHeap < |h|
      invariant h[zz] == tmp && w == weight[..] && heap[..] == h[zz := heap[zz]]
      invariant h[0] == 0 && w[0] == 0 && 0 <= tmp < |w| && 0 <= heap[zz / 2] < |w|
      invariant Content(h, nHeap) == old(Content(heap[..], nHeap))
      invariant forall k | nHeap < k < heap.Length :: heap[k] == old(heap[k])
      decreases zz
    {
      RisingWeights(h, w, nHeap, zz);
      RiseStep(h, w, nHeap, zz);
      ExchangeContent(h, nHeap, zz, zz / 2);
      ExchangeAt(h, zz, zz / 2);
      heap[zz] := heap[zz / 2];
      h := Exchange(h, zz, zz / 2);
      zz := zz / 2;
      RisingBounds(h, w, nHeap, zz);
    }
    heap[zz] := tmp;
    assert heap[..] == h;
    RisingWeights(h, w, nHeap, zz);
    RisenHeap(h, w, nHeap, zz);
  }

  lemma RisingBounds(h: seq<int>, w: seq<int>, n: int, z: int)
    requires Rising(h, w, n, z)
    ensures 1 <= z <= n < |h| && |w| > 0 && h[0] == 0 && w[0] == 0
    ensures 0 <= h[z] < |w| && 0 <= h[z / 2] < |w|
  {
  }

  lemma RisingWeights(h: seq<int>, w: seq<int>, n: int, z: int)
    requires Rising(h, w, n, z)
    ensures 1 <= z <= n < |h| && 0 <= h[z] < |w| && 0 <= h[z / 2] < |w|
    ensures At(h, w, z) == w[h[z]] && At(h, w, z / 2) == w[h[z / 2]]
    ensures w[h[z]] < w[h[z / 2]] ==> z > 1
  {
  }

  lemma RisenHeap(h: seq<int>, w: seq<int>, n: int, z: int)
    requires Rising(h, w, n, z) && At(h, w, z / 2) <= At(h, w, z)
    ensures Heap(h, w, n)
  {
  }

  lemma SinkStep(h: seq<int>, w: seq<int>, n: int, z: int, y: int)
    requires Sinking(h, w, n, z) && 2 <= y <= n && y / 2 == z
    requires At(h, w, y) <= At(h, w, z)
    requires forall k | 2 <= k <= n && k / 2 == z :: At(h, w, y) <= At(h, w, k)
    ensures Sinking(Exchange(h, z, y), w, n, y)
  {
    hide At, Exchange;
    ExchangeAt(h, z, y);
    var h' := Exchange(h, z, y);
    forall k | 0 <= k <= n ensures At(h', w, k) == if k == y then At(h, w, z) else if k == z then At(h, w, y)
      else At(h, w, k) {
      ExchangedWeight(h, w, z, y, k);
    }
  }

  /** DOWNHEAP(1). */
  method DownHeap(heap: array<int>, weight: array<int>, nHeap: int)
    requires heap != weight && Sinking(heap[..], weight[..], nHeap, 1) && heap.Length > 1
    modifies heap
    ensures Heap(heap[..], weight[..], nHeap) && Content(heap[..], nHeap) == old(Content(heap[..], nHeap))
    ensures forall k | nHeap < k < heap.Length :: heap[k] == old(heap[k])
  {
    hide Exchange, Content, Sinking;
    ghost var w := weight[..];
    SinkingNodes(heap[..], w, nHeap, 1);
    var zz, tmp := 1, heap[1];
    ghost var h := heap[..];
    while true
      invariant Sinking(h, w, nHeap, zz) && |h| == heap.Length && 1 <= zz < |h| && h[zz] == tmp && w == weight[..]
      invariant Nodes(h, w, nHeap) && (zz == 1 || zz <= nHeap)
      invariant heap[..] == h[zz := heap[zz]]
      invariant Content(h, nHeap) == old(Content(heap[..], nHeap))
      invariant forall k | nHeap < k < heap.Length :: heap[k] == old(heap[k])
      decreases nHeap - zz
    {
      var yy := zz * 2;
      if yy > nHeap { break; }
      if yy < nHeap && weight[heap[yy + 1]] < weight[heap[yy]] { yy := yy + 1; }
      if weight[tmp] < weight[heap[yy]] { break; }
      assert forall k | 2 <= k <= nHeap && k / 2 == zz :: k == 2 * zz || k == 2 * zz + 1;
      SinkStep(h, w, nHeap, zz, yy);
      ExchangeContent(h, nHeap, zz, yy);
      ExchangeAt(h, zz, yy);
      heap[zz] := heap[yy];
      h := Exchange(h, zz, yy);
      zz := yy;
      SinkingNodes(h, w, nHeap, zz);
    }
    heap[zz] := tmp;
    assert heap[..] == h;
    SunkHeap(h, w, nHeap, zz);
  }

  lemma SinkingNodes(h: seq<int>, w: seq<int>, n: int, z: int)
    requires Sinking(h, w, n, z)
    ensures Nodes(h, w, n)
  {
  }

  lemma SunkHeap(h: seq<int>, w: seq<int>, n: int, z: int)
    requires Sinking(h, w, n, z)
    requires forall k | 2 <= k <= n && k / 2 == z :: At(h, w, z) <= At(h, w, k)
    ensures Heap(h, w, n)
  {
    hide At;
  }

  /** Takes the lightest node out: heap[1] = heap[nHeap]; nHeap--; DOWNHEAP(1). */
  method PopLightest(heap: array<int>, weight: array<int>, nHeap: int) returns (node: int)
    requires heap != weight && Heap(heap[..], weight[..], nHeap) && nHeap >= 1
    modifies heap
    ensures Heap(heap[..], weight[..], nHeap - 1)
    ensures 1 <= node < weight.Length && weight[node] > 0
    ensures old(Content(heap[..], nHeap)) == Content(heap[..], nHeap - 1) + multiset{node}
    ensures forall k | k in old(Content(heap[..], nHeap)) :: 0 <= k < weight.Length && weight[node] <= weight[k]
  {
    hide Content, Heap;
    ghost var h, w := heap[..], weight[..];
    HeapNodes(h, w, nHeap);
    node := heap[1];
    ContentLightest(h, w, nHeap);
    heap[1] := heap[nHeap];
    assert heap[..] == h[1 := h[nHeap]];
    PoppedContent(h, nHeap);
    PoppedSinking(h, w, nHeap);
    DownHeap(heap, weight, nHeap - 1);
  }

  lemma HeapNodes(h: seq<int>, w: seq<int>, n: int)
    requires Heap(h, w, n)
    ensures Nodes(h, w, n)
  {
  }

  lemma ContentLightest(h: seq<int>, w: seq<int>, n: int)
    requires Heap(h, w, n) && n >= 1
    ensures forall x | x in Content(h, n) :: 1 <= x < |w| && w[h[1]] <= w[x]
  {
    forall x | x in Content(h, n) ensures 1 <= x < |w| && w[h[1]] <= w[x] {
      assert x in h[1..n + 1];
      var k :| 0 <= k < n && h[1..n + 1][k] == x;
      TopLightest(h, w, n, k + 1);
    }
  }

  lemma PoppedContent(h: seq<int>, n: int)
    requires 1 <= n < |h|
    ensures Content(h, n) == Content(h[1 := h[n]], n - 1) + multiset{h[1]}
  {
    var h' := h[1 := h[n]];
    if n == 1 {
      assert h[1..2] == [h[1]];
      assert h'[1..1] == [];
    } else {
      assert h[1..n + 1] == [h[1]] + h[2..n] + [h[n]];
      assert h'[1..n] == [h[n]] + h[2..n];
    }
  }

  lemma PoppedSinking(h: seq<int>, w: seq<int>, n: int)
    requires Heap(h, w, n) && n >= 1
    ensures Sinking(h[1 := h[n]], w, n - 1, 1)
  {
    var h' := h[1 := h[n]];
    forall k | 2 <= k <= n - 1 && k / 2 != 1 ensures At(h', w, k / 2) <= At(h', w, k) {
      assert At(h, w, k / 2) <= At(h, w, k);
    }
  }

  /** Puts a node in: nHeap++; heap[nHeap] = node; UPHEAP(nHeap). */
  method PushNode(heap: array<int>, weight: array<int>, nHeap: int, node: int)
    requires heap != weight && Heap(heap[..], weight[..], nHeap) && nHeap + 1 < heap.Length
    requires 1 <= node < weight.Length && weight[node] > 0
    modifies heap
    ensures Heap(heap[..], weight[..], nHeap + 1)
    ensures Content(heap[..], nHeap + 1) == old(Content(heap[..], nHeap)) + multiset{node}
  {
    hide Content, Heap, Rising;
    ghost var h, w := heap[..], weight[..];
    HeapNodes(h, w, nHeap);
    heap[nHeap + 1] := node;
    assert heap[..] == h[nHeap + 1 := node];
    PushedContent(h, nHeap, node);
    PushedRising(h, w, nHeap, node);
    UpHeap(heap, weight, nHeap + 1, nHeap + 1);
  }

  lemma PushedContent(h: seq<int>, n: int, node: int)
    requires 0 <= n && n + 1 < |h|
    ensures Content(h[n + 1 := node], n + 1) == Content(h, n) + multiset{node}
  {
    assert h[n + 1 := node][1..n + 2] == h[1..n + 1] + [node];
  }

  lemma PushedRising(h: seq<int>, w: seq<int>, n: int, node: int)
    requires Heap(h, w, n) && n + 1 < |h| && 1 <= node < |w| && w[node] > 0
    ensures Rising(h[n + 1 := node], w, n + 1, n + 1)
  {
    var h' := h[n + 1 := node];
    forall k | 2 <= k <= n ensures At(h', w, k / 2) <= At(h', w, k) {
      assert At(h, w, k / 2) <= At(h, w, k);
    }
  }

  /** Weights of nodes outside the heap may change. */
  lemma HeapReweighed(h: seq<int>, w: seq<int>, w': seq<int>, n: int)
    requires Heap(h, w, n) && |w'| == |w|
    requires forall x | x in Content(h, n) :: 0 <= x < |w| && w'[x] == w[x]
    requires w'[0] == w[0]
    ensures Heap(h, w', n)
  {
    forall k | 1 <= k <= n ensures h[k] in Content(h, n) {
      assert h[1..n + 1][k - 1] == h[k];
    }
    forall k | 1 <= k <= n ensures At(h, w', k) == At(h, w, k) {
      assert h[k] in Content(h, n);
    }
    forall k | 2 <= k <= n ensures At(h, w', k / 2) <= At(h, w', k) {
      assert At(h, w, k / 2) <= At(h, w, k);
    }
  }
}
