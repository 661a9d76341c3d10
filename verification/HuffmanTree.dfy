/** The trees that BZ2_hbMakeCodeLengths grows: sub-trees are joined lightest first, which keeps every tree at
    least as heavy as a Fibonacci number of its height. */
module HuffmanTree {
  import opened Huffman

  const MAX_NODES := 2 * BZ_MAX_ALPHA_SIZE

  function Fib(n: nat): nat {
    if n < 2 then n else Fib(n - 1) + Fib(n - 2)
  }

  lemma {:induction false} FibGrows(m: nat, n: nat)
    requires m <= n
    ensures Fib(m) <= Fib(n)
    decreases n
  {
    if m < n {
      FibGrows(m, n - 1);
      if n == 1 { assert Fib(0) == 0; }
    }
  }

  /** A weight word: the weight proper above the height of the tree. */
  function W(word: int): int { word / 256 }

  function D(word: int): int { word % 256 }

  /** Sub-trees over n leaves with m nodes: parents, and for every inner node its two children, the taller
      one first. */
  datatype Forest = Forest(w: seq<int>, parent: seq<int>, tall: seq<int>, other: seq<int>, n: int, m: int)

  ghost predicate Sizes(f: Forest) {
    && |f.w| == |f.parent| == |f.tall| == |f.other| == MAX_NODES
    && 2 <= f.n <= BZ_MAX_ALPHA_SIZE && f.n <= f.m < 2 * f.n
  }

  ghost predicate Root(f: Forest, k: int)
    requires Sizes(f)
  {
    1 <= k <= f.m && f.parent[k] < 0
  }

  ghost predicate Inner(f: Forest, k: int)
    requires Sizes(f)
  {
    f.n < k <= f.m
  }

  /** Leaves have height 0 and positive weight. */
  ghost predicate Leaves(w: seq<int>, n: int) {
    0 <= n < |w| && forall k | 1 <= k <= n :: D(w[k]) == 0 && W(w[k]) >= 1
  }

  /** Node k joins its two children. */
  ghost predicate Joins(f: Forest, k: int)
    requires Sizes(f) && Inner(f, k)
  {
    var a, b := f.tall[k], f.other[k];
    && 1 <= a < k && 1 <= b < k && a != b
    && f.parent[a] == k && f.parent[b] == k
    && W(f.w[k]) == W(f.w[a]) + W(f.w[b])
    && D(f.w[k]) == D(f.w[a]) + 1
    && D(f.w[b]) <= D(f.w[a])
  }

  /** Every node is a root or one of the two children of a later inner node. */
  ghost predicate Child(f: Forest, k: int)
    requires Sizes(f) && 1 <= k <= f.m
  {
    f.parent[k] < 0 || (Inner(f, f.parent[k]) && (k == f.tall[f.parent[k]] || k == f.other[f.parent[k]]))
  }

  ghost predicate Shaped(f: Forest) {
    && Sizes(f) && Leaves(f.w, f.n)
    && (forall k | Inner(f, k) :: Joins(f, k))
    && (forall k | 1 <= k <= f.m :: Child(f, k))
  }

  /** Weights grow like Fibonacci numbers with the height, and what has been joined is no heavier than what has not. */
  ghost predicate Graded(f: Forest)
    requires Sizes(f)
  {
    && (forall k | 1 <= k <= f.m :: W(f.w[k]) >= Fib(D(f.w[k]) + 2))
    && (forall c, r | 1 <= c <= f.m && f.parent[c] >= 0 && Root(f, r) :: f.w[c] <= f.w[r])
  }

  /** The weight of the first m nodes that are roots. */
  ghost function RootWeight(w: seq<int>, parent: seq<int>, m: int): int
    requires 0 <= m < |w| && |parent| == |w|
    decreases m
  {
    if m == 0 then 0 else RootWeight(w, parent, m - 1) + if parent[m] < 0 then W(w[m]) else 0
  }

  ghost predicate Positive(w: seq<int>, m: int) {
    0 <= m < |w| && forall k | 1 <= k <= m :: W(w[k]) >= 1
  }

  lemma {:induction false} RootWeightAtLeast(w: seq<int>, parent: seq<int>, m: int, r: int)
    requires Positive(w, m) && |parent| == |w|
    ensures RootWeight(w, parent, m) >= 0
    ensures 1 <= r <= m && parent[r] < 0 ==> RootWeight(w, parent, m) >= W(w[r])
    decreases m
  {
    if m > 0 { RootWeightAtLeast(w, parent, m - 1, r); }
  }

  /** Two roots weigh no more than all of them. */
  lemma {:induction false} RootWeightPair(w: seq<int>, parent: seq<int>, m: int, r: int, s: int)
    requires Positive(w, m) && |parent| == |w| && 1 <= r <= m && 1 <= s <= m && r != s
    requires parent[r] < 0 && parent[s] < 0
    ensures RootWeight(w, parent, m) >= W(w[r]) + W(w[s])
    decreases m
  {
    RootWeightAtLeast(w, parent, m - 1, r);
    RootWeightAtLeast(w, parent, m - 1, s);
    if r < m && s < m { RootWeightPair(w, parent, m - 1, r, s); }
  }

  /** A root that gets a parent no longer counts. */
  lemma {:induction false} RootWeightJoined(w: seq<int>, parent: seq<int>, m: int, k: int, v: int)
    requires 0 <= m < |w| == |parent| && 1 <= k < |w| && parent[k] < 0 && v >= 0
    ensures RootWeight(w, parent[k := v], m) == RootWeight(w, parent, m) - if k <= m then W(w[k]) else 0
    decreases m
  {
    if m > 0 { RootWeightJoined(w, parent, m - 1, k, v); }
  }

  lemma {:induction false} RootWeightSame(w: seq<int>, parent: seq<int>, w': seq<int>, parent': seq<int>, m: int)
    requires 0 <= m < |w| == |parent| && |w'| == |parent'| == |w|
    requires forall k | 1 <= k <= m :: w'[k] == w[k] && parent'[k] == parent[k]
    ensures RootWeight(w', parent', m) == RootWeight(w, parent, m)
    decreases m
  {
    if m > 0 { RootWeightSame(w, parent, w', parent', m - 1); }
  }

  /** Weights stay far enough below 2^31 for the word arithmetic, and heights far below 256. */
  const MAX_TOTAL := 8388607

  lemma HeightBounded(word: int)
    requires 0 <= W(word) <= MAX_TOTAL && W(word) >= Fib(D(word) + 2)
    ensures D(word) <= 33
  {
    if D(word) >= 34 {
      FibGrows(36, D(word) + 2);
      FibValues();
    }
  }

  lemma FibValues()
    ensures Fib(20) == 6765 && Fib(36) == 14930352
  {
    FibPair(8);
    FibPair(16);
    FibPair(24);
    FibPair(32);
    assert Fib(8) == 21 && Fib(7) == 13;
    assert Fib(16) == 987 && Fib(15) == 610;
    assert Fib(24) == 46368 && Fib(23) == 28657;
    assert Fib(32) == 2178309 && Fib(31) == 1346269;
    assert Fib(20) == 5 * 987 + 3 * 610;
  }

  /** Eight, and four, steps of the recurrence at once. */
  lemma FibPair(n: nat)
    requires n >= 1
    ensures Fib(n + 8) == 34 * Fib(n) + 21 * Fib(n - 1) && Fib(n + 7) == 21 * Fib(n) + 13 * Fib(n - 1)
    ensures Fib(n + 4) == 5 * Fib(n) + 3 * Fib(n - 1)
  {
    assert Fib(n + 1) == Fib(n) + Fib(n - 1);
    assert Fib(n + 2) == 2 * Fib(n) + Fib(n - 1);
    assert Fib(n + 3) == 3 * Fib(n) + 2 * Fib(n - 1);
    assert Fib(n + 4) == 5 * Fib(n) + 3 * Fib(n - 1);
    assert Fib(n + 5) == 8 * Fib(n) + 5 * Fib(n - 1);
    assert Fib(n + 6) == 13 * Fib(n) + 8 * Fib(n - 1);
    assert Fib(n + 7) == 21 * Fib(n) + 13 * Fib(n - 1);
  }

  // ---- joining two trees ----

  /** ADDWEIGHTS. The low byte of the sum of the weights is zero and the height fits in it, so the bitwise or
      is a sum. */
  function AddWeights(x: int, y: int): int {
    (x - D(x)) + (y - D(y)) + (1 + if D(x) > D(y) then D(x) else D(y))
  }

  lemma AddWeightsMeans(x: int, y: int)
    requires D(x) < 255 && D(y) < 255
    ensures W(AddWeights(x, y)) == W(x) + W(y)
    ensures D(AddWeights(x, y)) == 1 + if D(x) > D(y) then D(x) else D(y)
  {
  }

  /** The forest with roots x and y joined under a new node. */
  ghost function Joined(f: Forest, x: int, y: int): Forest
    requires Sizes(f) && 1 <= x <= f.m && 1 <= y <= f.m && f.m + 1 < MAX_NODES
  {
    var k := f.m + 1;
    var a, b := if D(f.w[x]) >= D(f.w[y]) then x else y, if D(f.w[x]) >= D(f.w[y]) then y else x;
    Forest(f.w[k := AddWeights(f.w[x], f.w[y])], f.parent[x := k][y := k][k := -1], f.tall[k := a], f.other[k := b],
           f.n, k)
  }

  /** x and y are the two lightest roots. */
  ghost predicate Lightest(f: Forest, x: int, y: int)
    requires Sizes(f)
  {
    && Root(f, x) && Root(f, y) && x != y && f.w[x] <= f.w[y]
    && forall r | Root(f, r) && r != x :: f.w[y] <= f.w[r]
  }

  lemma JoinedShape(f: Forest, x: int, y: int)
    requires Shaped(f) && Root(f, x) && Root(f, y) && x != y && f.m + 1 < 2 * f.n
    requires D(f.w[x]) < 255 && D(f.w[y]) < 255
    ensures Shaped(Joined(f, x, y))
  {
    hide W, D, AddWeights;
    var g := Joined(f, x, y);
    AddWeightsMeans(f.w[x], f.w[y]);
    forall k | Inner(g, k) ensures Joins(g, k) {
      if k <= f.m { assert Inner(f, k) && Joins(f, k); }
    }
    forall k | 1 <= k <= g.m ensures Child(g, k) {
      if k <= f.m { assert Child(f, k); }
    }
  }

  /** The new tree is heavy enough for its height: the other tree was no lighter than the taller one's taller child. */
  lemma NewIsGraded(f: Forest, x: int, y: int)
    requires Shaped(f) && Graded(f) && Root(f, x) && Root(f, y) && x != y
    requires D(f.w[x]) < 255 && D(f.w[y]) < 255
    ensures var z := AddWeights(f.w[x], f.w[y]); W(z) >= Fib(D(z) + 2)
  {
    hide AddWeights, Shaped, W, D, Graded, Fib;
    ShapedSizes(f);
    AddWeightsMeans(f.w[x], f.w[y]);
    var a, b := if D(f.w[x]) > D(f.w[y]) then x else y, if D(f.w[x]) > D(f.w[y]) then y else x;
    HeightAtLeastZero(f.w[a]);
    HeightAtLeastZero(f.w[b]);
    GradedAt(f, a);
    GradedAt(f, b);
    FibStep(D(f.w[a]) + 1);
    if D(f.w[a]) == 0 {
      FibStep(0);
      FibStep(1);
      assert Fib(0) == 0 && Fib(1) == 1 by { FibStart(); }
    } else {
      TallChild(f, a);
      var c := f.tall[a];
      GradedAt(f, c);
      NotHeavier(f, c, b);
    }
  }

  lemma FibStart()
    ensures Fib(0) == 0 && Fib(1) == 1
  {
  }

  lemma FibStep(n: nat)
    ensures Fib(n + 2) == Fib(n + 1) + Fib(n)
  {
  }

  // ---- lightest first ----

  /** Node k was a root when there were q nodes. */
  ghost predicate Live(f: Forest, q: int, k: int)
    requires Sizes(f)
  {
    1 <= k <= q <= f.m && (f.parent[k] < 0 || f.parent[k] > q)
  }

  /** Every node joined two of the roots there were than which no other was lighter, or as light and lower. */
  ghost predicate Greedy(f: Forest)
    requires Sizes(f)
  {
    forall q, r | Inner(f, q) && Joins(f, q) && Live(f, q - 1, r) && r != f.tall[q] && r != f.other[q] ::
      f.w[f.tall[q]] <= f.w[r] && f.w[f.other[q]] <= f.w[r]
  }

  lemma JoinedGreedy(f: Forest, x: int, y: int)
    requires Shaped(f) && Greedy(f) && Lightest(f, x, y) && f.m + 1 < 2 * f.n
    ensures Sizes(Joined(f, x, y)) && Greedy(Joined(f, x, y))
  {
    hide AddWeights, D, W;
    var g := Joined(f, x, y);
    forall q, r | Inner(g, q) && Joins(g, q) && Live(g, q - 1, r) && r != g.tall[q] && r != g.other[q]
      ensures g.w[g.tall[q]] <= g.w[r] && g.w[g.other[q]] <= g.w[r]
    {
      if q <= f.m {
        assert Inner(f, q) && Joins(f, q);
        assert Live(f, q - 1, r);
      } else {
        assert Child(f, r);
        assert r != x && r != y;
      }
    }
  }

  lemma ShapedSizes(f: Forest)
    requires Shaped(f)
    ensures Sizes(f)
  {
  }

  lemma HeightAtLeastZero(word: int)
    ensures 0 <= D(word) < 256
  {
  }

  lemma GradedAt(f: Forest, k: int)
    requires Sizes(f) && Graded(f) && 1 <= k <= f.m
    ensures D(f.w[k]) >= 0 && W(f.w[k]) >= Fib(D(f.w[k]) + 2)
  {
    hide Fib, Root;
  }

  lemma NotHeavier(f: Forest, c: int, r: int)
    requires Sizes(f) && Graded(f) && 1 <= c <= f.m && f.parent[c] >= 0 && Root(f, r)
    ensures W(f.w[c]) <= W(f.w[r])
  {
    hide Fib;
    assert f.w[c] <= f.w[r];
  }

  lemma TallChild(f: Forest, a: int)
    requires Shaped(f) && 1 <= a <= f.m && D(f.w[a]) > 0
    ensures Inner(f, a) && 1 <= f.tall[a] < a && f.parent[f.tall[a]] == a && D(f.w[f.tall[a]]) + 1 == D(f.w[a])
  {
    assert !(1 <= a <= f.n);
    assert Joins(f, a);
  }

  lemma JoinedHeavier(f: Forest, x: int, y: int)
    requires Sizes(f) && Graded(f) && Root(f, x) && Root(f, y)
    requires D(f.w[x]) < 255 && D(f.w[y]) < 255
    ensures AddWeights(f.w[x], f.w[y]) > f.w[y]
  {
    hide AddWeights;
    AddWeightsMeans(f.w[x], f.w[y]);
    assert Fib(2) == 1;
    FibGrows(2, D(f.w[x]) + 2);
  }

  /** What has been joined stays no heavier than what has not. */
  lemma JoinedOrder(f: Forest, x: int, y: int, c: int, r: int)
    requires Sizes(f) && Graded(f) && Lightest(f, x, y) && f.m + 1 < 2 * f.n
    requires D(f.w[x]) < 255 && D(f.w[y]) < 255
    requires 1 <= c <= f.m + 1 && Joined(f, x, y).parent[c] >= 0 && Root(Joined(f, x, y), r)
    ensures Joined(f, x, y).w[c] <= Joined(f, x, y).w[r]
  {
    hide AddWeights, D, W;
    JoinedHeavier(f, x, y);
    if r == f.m + 1 {
      if c != x && c != y { assert f.parent[c] >= 0 && f.w[c] <= f.w[y]; }
    } else {
      assert Root(f, r) && r != x && r != y;
      if c != x && c != y { assert f.parent[c] >= 0 && f.w[c] <= f.w[r]; }
    }
  }

  lemma JoinedGrades(f: Forest, x: int, y: int)
    requires Sizes(f) && Shaped(f) && Graded(f) && Lightest(f, x, y) && f.m + 1 < 2 * f.n
    requires D(f.w[x]) < 255 && D(f.w[y]) < 255
    ensures Graded(Joined(f, x, y))
  {
    hide AddWeights, Shaped, Lightest, D, W;
    LightestRoots(f, x, y);
    NewIsGraded(f, x, y);
    var g := Joined(f, x, y);
    forall c, r | 1 <= c <= g.m && g.parent[c] >= 0 && Root(g, r) ensures g.w[c] <= g.w[r] {
      JoinedOrder(f, x, y, c, r);
    }
  }

  lemma LightestRoots(f: Forest, x: int, y: int)
    requires Sizes(f) && Lightest(f, x, y)
    ensures Root(f, x) && Root(f, y) && x != y
  {
  }

  lemma JoinedWeight(f: Forest, x: int, y: int)
    requires Sizes(f) && Root(f, x) && Root(f, y) && x != y && f.m + 1 < MAX_NODES
    requires D(f.w[x]) < 255 && D(f.w[y]) < 255
    ensures var g := Joined(f, x, y); RootWeight(g.w, g.parent, g.m) == RootWeight(f.w, f.parent, f.m)
  {
    hide AddWeights, W, D;
    var g, k := Joined(f, x, y), f.m + 1;
    AddWeightsMeans(f.w[x], f.w[y]);
    RootWeightJoined(f.w, f.parent, f.m, x, k);
    RootWeightJoined(f.w, f.parent[x := k], f.m, y, k);
    RootWeightSame(f.w, f.parent[x := k][y := k], g.w, g.parent, f.m);
  }
}
