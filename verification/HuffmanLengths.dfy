/** BZ2_hbMakeCodeLengths: grows a tree from the frequencies, and flattens the frequencies and starts again
    while any code is too long. */
module HuffmanLengths {
  import opened Bits
  import opened Huffman
  import opened HuffmanHeap
  import opened HuffmanTree
  import opened HuffmanDepths
  import opened HuffmanOptimal

  const HEAP_SIZE := BZ_MAX_ALPHA_SIZE + 2

  /** The heap holds exactly the roots. */
  ghost predicate HoldsRoots(c: multiset<int>, f: Forest)
    requires Sizes(f)
  {
    forall k {:trigger c[k]} :: c[k] == if Root(f, k) then 1 else 0
  }

  /** The state between two joins. */
  ghost predicate Growing(f: Forest, c: multiset<int>, nHeap: int, total: int) {
    && Shaped(f) && Graded(f) && Greedy(f) && HoldsRoots(c, f) && f.parent[f.m] < 0
    && RootWeight(f.w, f.parent, f.m) == total <= MAX_TOTAL
    && nHeap == 2 * f.n - f.m && |c| == nHeap
  }

  ghost function Planted(w: seq<int>, parent: seq<int>, n: int): Forest {
    Forest(w, parent, w, w, n, n)
  }

  lemma {:induction false} AllRoots(w: seq<int>, parent: seq<int>, k: int)
    requires 0 <= k < |w| == |parent| && forall j | 1 <= j <= k :: parent[j] < 0
    ensures RootWeight(w, parent, k) == LeafWeight(w, k)
  {
    hide W;
    if k > 0 { AllRoots(w, parent, k - 1); }
  }

  lemma GrowingStarts(w: seq<int>, parent: seq<int>, n: int, c: multiset<int>, total: int)
    requires |w| == |parent| == MAX_NODES && 2 <= n <= BZ_MAX_ALPHA_SIZE && Leaves(w, n)
    requires LeafWeight(w, n) == total <= MAX_TOTAL && |c| == n
    requires forall k {:trigger c[k]} :: c[k] == if 1 <= k <= n then 1 else 0
    requires forall k | 1 <= k <= n :: parent[k] < 0
    ensures Growing(Planted(w, parent, n), c, n, total)
  {
    var f := Planted(w, parent, n);
    AllRoots(w, parent, n);
    assert Fib(2) == 1;
    assert Shaped(f);
    assert Graded(f);
    assert Greedy(f);
  }

  /** Positive weights, read off the grading. */
  lemma GradedPositive(f: Forest)
    requires Sizes(f) && Graded(f)
    ensures Positive(f.w, f.m)
  {
    hide W, D, Root, Fib;
    forall k | 1 <= k <= f.m ensures W(f.w[k]) >= 1 {
      GradedAt(f, k);
      FibGrows(2, D(f.w[k]) + 2);
      FibStart();
      FibStep(0);
    }
  }

  /** Heights of roots are small, so the word arithmetic of ADDWEIGHTS is exact. */
  lemma RootHeight(f: Forest, r: int)
    requires Shaped(f) && Graded(f) && Root(f, r)
    requires RootWeight(f.w, f.parent, f.m) <= MAX_TOTAL
    ensures 0 <= D(f.w[r]) <= 33 && 1 <= W(f.w[r]) <= MAX_TOTAL
  {
    hide W, D, Shaped, Fib, Graded;
    ShapedSizes(f);
    GradedPositive(f);
    RootWeightAtLeast(f.w, f.parent, f.m, r);
    HeightAtLeastZero(f.w[r]);
    GradedAt(f, r);
    PositiveAt(f.w, f.m, r);
    HeightBounded(f.w[r]);
  }

  lemma PositiveAt(w: seq<int>, m: int, k: int)
    requires Positive(w, m) && 1 <= k <= m
    ensures W(w[k]) >= 1
  {
  }

  /** One join keeps the state. */
  lemma GrowingJoined(f: Forest, c: multiset<int>, nHeap: int, total: int, x: int, y: int)
    requires Growing(f, c, nHeap, total) && nHeap >= 2 && Sizes(f) && Lightest(f, x, y)
    ensures D(f.w[x]) < 255 && D(f.w[y]) < 255
    ensures Growing(Joined(f, x, y), c - multiset{x} - multiset{y} + multiset{f.m + 1}, nHeap - 1, total)
  {
    hide W, D, Shaped, Graded, Greedy, RootWeight, AddWeights, HoldsRoots, Lightest;
    LightestRoots(f, x, y);
    JoinedGreedy(f, x, y);
    RootHeight(f, x);
    RootHeight(f, y);
    JoinedShape(f, x, y);
    ShapedSizes(Joined(f, x, y));
    JoinedGrades(f, x, y);
    JoinedWeight(f, x, y);
    JoinedRoots(f, c, x, y);
  }

  lemma JoinedRoots(f: Forest, c: multiset<int>, x: int, y: int)
    requires Sizes(f) && HoldsRoots(c, f) && Root(f, x) && Root(f, y) && x != y && f.m + 1 < 2 * f.n
    ensures var c' := c - multiset{x} - multiset{y} + multiset{f.m + 1};
      |c'| == |c| - 1 && Sizes(Joined(f, x, y)) && HoldsRoots(c', Joined(f, x, y))
  {
    hide AddWeights, D;
    assert c[x] == 1 && c[y] == 1 && c[f.m + 1] == 0;
    assert multiset{x} + multiset{y} <= c;
    var g := Joined(f, x, y);
    var c' := c - multiset{x} - multiset{y} + multiset{f.m + 1};
    forall k ensures c'[k] == if Root(g, k) then 1 else 0 {
      assert c[k] == if Root(f, k) then 1 else 0;
    }
  }

  /** The first two nodes popped are the two lightest roots. */
  lemma PoppedLightest(f: Forest, c: multiset<int>, nHeap: int, total: int, c1: multiset<int>, x: int,
                       c2: multiset<int>, y: int)
    requires Growing(f, c, nHeap, total) && c == c1 + multiset{x} && c1 == c2 + multiset{y}
    requires forall k | k in c :: 0 <= k < |f.w| && 0 <= x < |f.w| && f.w[x] <= f.w[k]
    requires forall k | k in c1 :: 0 <= k < |f.w| && 0 <= y < |f.w| && f.w[y] <= f.w[k]
    ensures Sizes(f) && Lightest(f, x, y) && c2 == c - multiset{x} - multiset{y}
    ensures forall k | k in c2 :: k <= f.m
    ensures 1 <= x <= f.m && 1 <= y <= f.m
  {
    hide Shaped, Graded, Greedy, RootWeight;
    ShapedSizes(f);
    assert c[x] == if Root(f, x) then 1 else 0;
    assert c[y] == if Root(f, y) then 1 else 0;
    assert c[x] >= 1 && c[y] >= 1;
    assert x != y;
    assert y in c;
    forall r | Root(f, r) && r != x ensures f.w[y] <= f.w[r] {
      assert c[r] == 1;
      assert r in c1;
    }
    forall k | k in c2 ensures k <= f.m {
      assert c[k] >= 1;
    }
  }

  lemma OneTreeLeft(f: Forest, c: multiset<int>, total: int)
    requires Growing(f, c, 1, total)
    ensures Finished(f) && Graded(f) && Best(f) && RootWeight(f.w, f.parent, f.m) == total
  {
    hide Shaped, Graded, Greedy, RootWeight, W;
    ShapedSizes(f);
    GradedPositive(f);
    assert c[f.m] == 1;
    var others := c - multiset{f.m};
    assert |others| == 0;
    assert others == multiset{};
    forall k | 1 <= k < f.m ensures f.parent[k] >= 0 {
      assert others[k] == c[k] == if Root(f, k) then 1 else 0;
    }
  }

  /** The leaves go into the heap one by one. */
  method FillHeap(heap: array<int>, weight: array<int>, parent: array<int>, alphaSize: int)
    requires heap != weight && heap != parent && weight != parent
    requires heap.Length == HEAP_SIZE && weight.Length == parent.Length == MAX_NODES
             && 2 <= alphaSize <= BZ_MAX_ALPHA_SIZE
    requires Leaves(weight[..], alphaSize) && weight[0] == 0
    modifies heap, parent
    ensures Heap(heap[..], weight[..], alphaSize) && |Content(heap[..], alphaSize)| == alphaSize
    ensures forall k {:trigger Content(heap[..], alphaSize)[k]} ::
              Content(heap[..], alphaSize)[k] == if 1 <= k <= alphaSize then 1 else 0
    ensures forall k | 1 <= k <= alphaSize :: parent[k] < 0
  {
    hide Content, Heap, Leaves, W;
    ghost var w := weight[..];
    heap[0] := 0;
    parent[0] := -2;
    EmptyHeap(heap[..], w);
    for i := 1 to alphaSize + 1
      invariant Heap(heap[..], w, i - 1) && weight[..] == w && |Content(heap[..], i - 1)| == i - 1
      invariant forall k {:trigger Content(heap[..], i - 1)[k]} ::
                  Content(heap[..], i - 1)[k] == if 1 <= k <= i - 1 then 1 else 0
      invariant forall k | 1 <= k < i :: parent[k] < 0
    {
      parent[i] := -1;
      LeafPositive(w, alphaSize, i);
      PushNode(heap, weight, i - 1, i);
    }
  }

  lemma LeafPositive(w: seq<int>, n: int, i: int)
    requires Leaves(w, n) && 1 <= i <= n
    ensures w[i] > 0
  {
  }

  lemma EmptyHeap(h: seq<int>, w: seq<int>)
    requires |h| > 0 && |w| > 0 && h[0] == 0 && w[0] == 0
    ensures Heap(h, w, 0) && Content(h, 0) == multiset{}
  {
  }

  /** Joins the two lightest trees until one is left. */
  method BuildTree(heap: array<int>, weight: array<int>, parent: array<int>, alphaSize: int) returns (ghost f: Forest)
    requires heap != weight && heap != parent && weight != parent
    requires heap.Length == HEAP_SIZE && weight.Length == parent.Length == MAX_NODES
             && 2 <= alphaSize <= BZ_MAX_ALPHA_SIZE
    requires Leaves(weight[..], alphaSize) && weight[0] == 0 && LeafWeight(weight[..], alphaSize) <= MAX_TOTAL
    modifies heap, weight, parent
    ensures Finished(f) && Graded(f) && Best(f) && f.n == alphaSize && f.parent == parent[..]
    ensures RootWeight(f.w, f.parent, f.m) == LeafWeight(f.w, f.n)
    ensures f.w == weight[..] && forall k | 0 <= k <= alphaSize :: weight[k] == old(weight[k])
  {
    hide Content, Heap, Leaves, Growing, LeafWeight, AddWeights, RootWeight, Finished, Graded, Best;
    ghost var w0 := weight[..];
    ghost var total := LeafWeight(w0, alphaSize);
    FillHeap(heap, weight, parent, alphaSize);
    f := Planted(weight[..], parent[..], alphaSize);
    GrowingStarts(weight[..], parent[..], alphaSize, Content(heap[..], alphaSize), total);
    var nNodes, nHeap := alphaSize, alphaSize;
    while nHeap > 1
      invariant nNodes == f.m && f.n == alphaSize && f.w == weight[..] && f.parent == parent[..]
      invariant 1 <= nHeap <= alphaSize && Heap(heap[..], weight[..], nHeap)
      invariant Growing(f, Content(heap[..], nHeap), nHeap, total)
      invariant forall k | 0 <= k <= alphaSize :: weight[k] == w0[k]
      decreases nHeap
    {
      GrowingSizes(f, Content(heap[..], nHeap), nHeap, total);
      nNodes, f := JoinLightest(heap, weight, parent, nNodes, nHeap, f, total);
      nHeap := nHeap - 1;
    }
    OneTreeLeft(f, Content(heap[..], 1), total);
    SameLeaves(w0, weight[..], alphaSize);
  }

  lemma GrowingSizes(f: Forest, c: multiset<int>, nHeap: int, total: int)
    requires Growing(f, c, nHeap, total)
    ensures Sizes(f) && nHeap == 2 * f.n - f.m
  {
  }

  lemma {:induction false} SameLeaves(w: seq<int>, w': seq<int>, n: int)
    requires 0 <= n < |w| == |w'| && forall k | 1 <= k <= n :: w'[k] == w[k]
    ensures LeafWeight(w', n) == LeafWeight(w, n)
    decreases n
  {
    if n > 0 { SameLeaves(w, w', n - 1); }
  }

  /** Takes the two lightest roots out of the heap. */
  method PopTwo(heap: array<int>, weight: array<int>, nHeap: int, ghost f: Forest, ghost total: int)
    returns (n1: int, n2: int, ghost c2: multiset<int>)
    requires heap != weight && heap.Length == HEAP_SIZE && Sizes(f) && f.w == weight[..]
    requires 2 <= nHeap < HEAP_SIZE && Heap(heap[..], weight[..], nHeap)
    requires Growing(f, Content(heap[..], nHeap), nHeap, total)
    modifies heap
    ensures Lightest(f, n1, n2) && 1 <= n1 <= f.m && 1 <= n2 <= f.m
    ensures Heap(heap[..], weight[..], nHeap - 2)
    ensures c2 == Content(heap[..], nHeap - 2) == old(Content(heap[..], nHeap)) - multiset{n1} - multiset{n2}
    ensures forall k | k in c2 :: 1 <= k <= f.m
  {
    hide Content, Heap, Growing, Lightest;
    ghost var c := Content(heap[..], nHeap);
    n1 := PopLightest(heap, weight, nHeap);
    ghost var c1 := Content(heap[..], nHeap - 1);
    n2 := PopLightest(heap, weight, nHeap - 1);
    c2 := Content(heap[..], nHeap - 2);
    PoppedLightest(f, c, nHeap, total, c1, n1, c2, n2);
    HeapSentinel(heap[..], weight[..], nHeap - 2);
  }

  /** The new node above two roots. */
  method MakeNode(weight: array<int>, parent: array<int>, n1: int, n2: int, nNodes: int, ghost f: Forest)
    requires weight != parent && Sizes(f) && f.w == weight[..] && f.parent == parent[..]
             && nNodes == f.m + 1 < MAX_NODES
    requires 1 <= n1 <= f.m && 1 <= n2 <= f.m && n1 != n2
    modifies weight, parent
    ensures var g := Joined(f, n1, n2); g.w == weight[..] && g.parent == parent[..]
    ensures forall k | 0 <= k < weight.Length && k != nNodes :: weight[k] == old(weight[k])
  {
    hide AddWeights, D;
    parent[n1], parent[n2] := nNodes, nNodes;
    weight[nNodes] := AddWeights(weight[n1], weight[n2]);
    parent[nNodes] := -1;
  }

  /** One round of the loop: pop, pop, join, push. */
  method JoinLightest(heap: array<int>, weight: array<int>, parent: array<int>, nNodes0: int, nHeap0: int,
                      ghost f: Forest, ghost total: int) returns (nNodes: int, ghost g: Forest)
    requires heap != weight && heap != parent && weight != parent
    requires heap.Length == HEAP_SIZE && weight.Length == parent.Length == MAX_NODES
    requires Sizes(f) && nNodes0 == f.m && f.w == weight[..] && f.parent == parent[..]
    requires 2 <= nHeap0 < HEAP_SIZE && Heap(heap[..], weight[..], nHeap0)
    requires Growing(f, Content(heap[..], nHeap0), nHeap0, total)
    modifies heap, weight, parent
    ensures nNodes == g.m && g.n == f.n && g.w == weight[..] && g.parent == parent[..]
    ensures Heap(heap[..], weight[..], nHeap0 - 1)
    ensures Growing(g, Content(heap[..], nHeap0 - 1), nHeap0 - 1, total)
    ensures forall k | 0 <= k <= f.n :: weight[k] == old(weight[k])
  {
    hide Content, Heap, Growing, Lightest, Joined, Root;
    ghost var c, w := Content(heap[..], nHeap0), weight[..];
    GrowingSizes(f, c, nHeap0, total);
    var n1, n2, c2 := PopTwo(heap, weight, nHeap0, f, total);
    GrowingJoined(f, c, nHeap0, total, n1, n2);
    LightestRoots(f, n1, n2);
    ghost var h := heap[..];
    nNodes := nNodes0 + 1;
    g := Joined(f, n1, n2);
    JoinedSizes(f, n1, n2);
    MakeNode(weight, parent, n1, n2, nNodes, f);
    assert heap[..] == h;
    HeapReweighed(h, w, weight[..], nHeap0 - 2);
    ghost var c' := c2 + multiset{nNodes};
    NewNodePositive(g, c', nHeap0 - 1, total);
    PushNode(heap, weight, nHeap0 - 2, nNodes);
    assert Content(heap[..], nHeap0 - 1) == c';
  }

  lemma JoinedSizes(f: Forest, x: int, y: int)
    requires Sizes(f) && 1 <= x <= f.m && 1 <= y <= f.m && f.m + 1 < MAX_NODES
    ensures Joined(f, x, y).m == f.m + 1 && Joined(f, x, y).n == f.n
  {
  }

  lemma HeapSentinel(h: seq<int>, w: seq<int>, n: int)
    requires Heap(h, w, n)
    ensures forall x | x in Content(h, n) :: 1 <= x < |w|
  {
    forall x | x in Content(h, n) ensures 1 <= x < |w| {
      assert x in h[1..n + 1];
      var k :| 0 <= k < n && h[1..n + 1][k] == x;
      assert h[k + 1] == x;
    }
  }

  lemma NewNodePositive(g: Forest, c: multiset<int>, nHeap: int, total: int)
    requires Growing(g, c, nHeap, total)
    ensures Sizes(g) && g.w[g.m] > 0
  {
    hide RootWeight, Shaped, HoldsRoots, Graded, Greedy;
    ShapedSizes(g);
    GradedPositive(g);
    PositiveAt(g.w, g.m, g.m);
  }

  /** The depth of every leaf, by walking up from it. */
  method CountDepths(len: array<int>, parent: array<int>, alphaSize: int, maxLen: int, ghost f: Forest)
    returns (tooLong: bool)
    requires len != parent && Finished(f) && f.n == alphaSize <= len.Length && f.parent == parent[..]
    modifies len
    ensures forall i | 0 <= i < alphaSize :: len[i] == Depth(f, i + 1)
    ensures tooLong <==> exists i :: 0 <= i < alphaSize && len[i] > maxLen
  {
    hide Finished, Shaped, Depth;
    FinishedShape(f);
    tooLong := false;
    for i := 1 to alphaSize + 1
      invariant forall t | 0 <= t < i - 1 :: len[t] == Depth(f, t + 1)
      invariant tooLong <==> exists t :: 0 <= t < i - 1 && len[t] > maxLen
    {
      var j, k := 0, i;
      ghost var len0 := len[..];
      while parent[k] >= 0
        invariant len[..] == len0
        invariant 1 <= k <= f.m && j + Depth(f, k) == Depth(f, i)
        decreases f.m - k
      {
        ParentAbove(f, k);
        DepthUp(f, k);
        k := parent[k];
        j := j + 1;
      }
      DepthUp(f, k);
      len[i - 1] := j;
      if tooLong {
        ghost var t :| 0 <= t < i - 1 && len0[t] > maxLen;
        assert len[t] > maxLen;
      }
      if j > maxLen { tooLong := true; }
    }
  }

  lemma DepthUp(f: Forest, k: int)
    requires Shaped(f) && 1 <= k <= f.m
    ensures f.parent[k] < 0 ==> Depth(f, k) == 0
    ensures f.parent[k] >= 0 ==> k < f.parent[k] <= f.m && Depth(f, k) == 1 + Depth(f, f.parent[k])
  {
    if f.parent[k] >= 0 { ParentAbove(f, k); }
  }

  // ---- flattening ----

  ghost function Flattened(word: int): int {
    (1 + W(word) / 2) * 256
  }

  /** Flattening makes no leaf heavier, and lighter every one that weighs three or more. */
  lemma {:induction false} FlattenedWeight(w: seq<int>, w': seq<int>, n: int)
    requires 0 <= n < |w| == |w'| && Leaves(w, n) && forall k | 1 <= k <= n :: w'[k] == Flattened(w[k])
    ensures Leaves(w', n) && LeafWeight(w', n) <= LeafWeight(w, n)
    ensures LeafWeight(w', n) == LeafWeight(w, n) ==> LeafWeight(w, n) <= 2 * n
    decreases n
  {
    if n > 0 { FlattenedWeight(w, w', n - 1); }
  }

  /** The frequencies with zeros counted as ones. */
  ghost function Total(freq: seq<int>): int {
    if freq == [] then 0 else Total(freq[..|freq| - 1]) + if freq[|freq| - 1] == 0 then 1 else freq[|freq| - 1]
  }

  /** The initial weight word of a frequency. */
  ghost function Scaled(freq: int): int {
    (if freq == 0 then 1 else freq) * 256
  }

  lemma {:induction false} TotalIsLeafWeight(freq: seq<int>, w: seq<int>, n: int)
    requires 0 <= n <= |freq| && n < |w|
    requires forall k | 1 <= k <= n :: w[k] == Scaled(freq[k - 1])
    ensures LeafWeight(w, n) == Total(freq[..n])
    decreases n
  {
    if n > 0 {
      TotalIsLeafWeight(freq, w, n - 1);
      assert freq[..n][..n - 1] == freq[..n - 1];
    }
  }

  /** The frequencies, shifted to where the weights are. */
  method StartWeights(weight: array<int>, freq: array<int>, alphaSize: int)
    requires weight != freq && weight.Length == MAX_NODES && 2 <= alphaSize <= BZ_MAX_ALPHA_SIZE
    requires alphaSize <= freq.Length && forall i | 0 <= i < alphaSize :: freq[i] >= 0
    modifies weight
    ensures Leaves(weight[..], alphaSize) && weight[0] == 0
    ensures LeafWeight(weight[..], alphaSize) == Total(freq[..alphaSize])
    ensures Weighs(weight[..], Rescaled(freq[..alphaSize], 0))
  {
    hide Leaves, LeafWeight, W, Weighs, Rescaled;
    for i := 0 to alphaSize
      invariant forall k | 1 <= k <= i :: weight[k] == Scaled(freq[k - 1])
    {
      weight[i + 1] := (if freq[i] == 0 then 1 else freq[i]) * 256;
    }
    weight[0] := 0;
    TotalIsLeafWeight(freq[..], weight[..], alphaSize);
    assert freq[..][..alphaSize] == freq[..alphaSize];
    FrequenciesAreLeaves(freq[..], weight[..], alphaSize);
    StartingWeights(freq[..alphaSize], weight[..]);
  }

  /** Halves all weights. */
  method FlattenWeights(weight: array<int>, alphaSize: int, ghost freq: seq<int>, ghost rounds: nat)
    requires weight.Length == MAX_NODES && 0 <= alphaSize < MAX_NODES && weight[0] == 0 && |freq| == alphaSize
    requires Leaves(weight[..], alphaSize) && Weighs(weight[..], Rescaled(freq, rounds))
    modifies weight
    ensures Leaves(weight[..], alphaSize) && weight[0] == 0 && Weighs(weight[..], Rescaled(freq, rounds + 1))
    ensures LeafWeight(weight[..], alphaSize) <= old(LeafWeight(weight[..], alphaSize))
    ensures LeafWeight(weight[..], alphaSize) == old(LeafWeight(weight[..], alphaSize)) ==>
              old(LeafWeight(weight[..], alphaSize)) <= 2 * alphaSize
  {
    hide Leaves, LeafWeight, W, Weighs, Rescaled;
    ghost var w := weight[..];
    for i := 1 to alphaSize + 1
      invariant forall k | 1 <= k < i :: weight[k] == Flattened(w[k])
      invariant forall k | i <= k <= alphaSize :: weight[k] == w[k]
      invariant weight[0] == 0
    {
      var j := weight[i] / 256;
      j := 1 + j / 2;
      weight[i] := j * 256;
      FlattenedIs(w[i], j);
    }
    FlattenedWeight(w, weight[..], alphaSize);
    RescaledWeights(freq, rounds, w, weight[..]);
  }

  /** Terminates with lengths between 1 and maxLen that satisfy Kraft's inequality with equality, and that are the
      best ones for the frequencies, rescaled as often as it takes until the best ones fit. */
  method MakeCodeLengths(len: array<int>, freq: array<int>, alphaSize: int, maxLen: int) returns (ghost rounds: nat)
    requires len != freq && 2 <= alphaSize <= BZ_MAX_ALPHA_SIZE && alphaSize <= len.Length && alphaSize <= freq.Length
    requires maxLen >= 17
    requires forall i | 0 <= i < alphaSize :: freq[i] >= 0
    requires Total(freq[..alphaSize]) <= MAX_TOTAL
    modifies len
    ensures forall i | 0 <= i < alphaSize :: 1 <= len[i] <= maxLen
    ensures Kraft(len[..alphaSize], maxLen) == Pow2(maxLen)
    ensures BestFitting(freq[..alphaSize], len[..alphaSize], maxLen, rounds)
  {
    hide Leaves, LeafWeight, W, Finished, Graded, RootWeight, Depth, Pow2, Kraft, Best, Optimal, TooLong, Rescaled;
    ghost var freq0 := freq[..alphaSize];
    rounds := 0;
    var heap := new int[HEAP_SIZE];
    var weight := new int[MAX_NODES];
    var parent := new int[MAX_NODES];
    StartWeights(weight, freq, alphaSize);
    while true
      invariant Leaves(weight[..], alphaSize) && weight[0] == 0 && LeafWeight(weight[..], alphaSize) <= MAX_TOTAL
      invariant Weighs(weight[..], Rescaled(freq0, rounds))
      invariant forall k: nat | k < rounds :: TooLong(Rescaled(freq0, k), maxLen)
      decreases LeafWeight(weight[..], alphaSize)
    {
      ghost var w0 := weight[..];
      ghost var f := BuildTree(heap, weight, parent, alphaSize);
      SameLeaves(w0, weight[..], alphaSize);
      LeavesStay(w0, weight[..], alphaSize);
      FinishedShape(f);
      TreeIsOptimal(f, Rescaled(freq0, rounds));
      var tooLong := CountDepths(len, parent, alphaSize, maxLen, f);
      if !tooLong {
        LengthsDone(f, len[..alphaSize], maxLen);
        break;
      }
      ghost var deep :| 0 <= deep < alphaSize && len[deep] > maxLen;
      DeepIsHeavy(f, deep + 1);
      OptimalTooLong(Rescaled(freq0, rounds), Depths(f, f.n), maxLen, deep);
      FlattenWeights(weight, alphaSize, freq0, rounds);
      rounds := rounds + 1;
    }
  }

  /** The words of the leaves, and the weights they hold. */
  ghost predicate Weighs(words: seq<int>, w: seq<int>) {
    |words| > |w| && forall i | 0 <= i < |w| :: W(words[i + 1]) == w[i]
  }

  lemma StartingWeights(freq: seq<int>, words: seq<int>)
    requires |words| > |freq| && forall k | 1 <= k <= |freq| :: words[k] == Scaled(freq[k - 1])
    ensures Weighs(words, Rescaled(freq, 0))
  {
    forall i | 0 <= i < |freq| ensures W(words[i + 1]) == Rescaled(freq, 0)[i] {
      assert words[i + 1] == Scaled(freq[i + 1 - 1]);
    }
  }

  lemma RescaledWeights(freq: seq<int>, rounds: nat, words: seq<int>, words': seq<int>)
    requires Weighs(words, Rescaled(freq, rounds)) && |words'| == |words|
    requires forall k | 1 <= k <= |freq| :: words'[k] == Flattened(words[k])
    ensures Weighs(words', Rescaled(freq, rounds + 1))
  {
    var w' := Rescaled(freq, rounds + 1);
    forall i | 0 <= i < |w'| ensures W(words'[i + 1]) == w'[i] {
      assert words'[i + 1] == Flattened(words[i + 1]);
      assert w'[i] == 1 + Rescaled(freq, rounds)[i] / 2;
    }
  }

  lemma FlattenedIs(word: int, j: int)
    requires j == 1 + word / 256 / 2
    ensures j * 256 == Flattened(word)
  {
  }

  lemma FrequenciesAreLeaves(freq: seq<int>, w: seq<int>, n: int)
    requires 0 <= n < |w| && n <= |freq| && forall k | 0 <= k < n :: freq[k] >= 0
    requires forall k | 1 <= k <= n :: w[k] == Scaled(freq[k - 1])
    ensures Leaves(w, n)
  {
    forall k | 1 <= k <= n ensures D(w[k]) == 0 && W(w[k]) >= 1 { assert freq[k - 1] >= 0; }
  }

  lemma LeavesStay(w: seq<int>, w': seq<int>, n: int)
    requires Leaves(w, n) && |w'| == |w| && forall k | 0 <= k <= n :: w'[k] == w[k]
    ensures Leaves(w', n)
  {
  }

  lemma LengthsDone(f: Forest, lens: seq<int>, maxLen: int)
    requires Finished(f) && |lens| == f.n && maxLen >= 0
    requires forall i | 0 <= i < f.n :: lens[i] == Depth(f, i + 1) && lens[i] <= maxLen
    ensures forall i | 0 <= i < f.n :: lens[i] >= 1
    ensures Kraft(lens, maxLen) == Pow2(maxLen)
    ensures Shaped(f) && Depths(f, f.n) == lens
  {
    hide Depth, Shaped, Kraft, Pow2;
    FinishedShape(f);
    forall i | 1 <= i <= f.n ensures 1 <= Depth(f, i) <= maxLen {
      LeafBelowRoot(f, i);
      assert lens[i - 1] == Depth(f, i - 1 + 1);
    }
    KraftExact(f, maxLen);
    assert Depths(f, f.n) == lens;
  }
}
