/** The depths of the leaves of a finished tree: they fill Kraft's inequality exactly, and a deep leaf needs a
    heavy tree. */
module HuffmanDepths {
  import opened Bits
  import opened Huffman
  import opened HuffmanTree

  /** One tree is left, and its root is the last node. */
  ghost predicate Finished(f: Forest) {
    && Shaped(f) && f.m == 2 * f.n - 1
    && forall k | 1 <= k <= f.m :: f.parent[k] < 0 <==> k == f.m
  }

  lemma ParentAbove(f: Forest, k: int)
    requires Shaped(f) && 1 <= k <= f.m && f.parent[k] >= 0
    ensures k < f.parent[k] <= f.m && f.n < f.parent[k]
    ensures k == f.tall[f.parent[k]] || k == f.other[f.parent[k]]
    ensures D(f.w[k]) < D(f.w[f.parent[k]])
  {
    assert Child(f, k);
    assert Joins(f, f.parent[k]);
  }

  /** The number of steps from node k up to its root. */
  ghost function Depth(f: Forest, k: int): nat
    requires Shaped(f) && 1 <= k <= f.m
    decreases f.m - k
  {
    if f.parent[k] < 0 then 0 else (ParentAbove(f, k); 1 + Depth(f, f.parent[k]))
  }

  lemma {:induction false} DepthBelowHeight(f: Forest, k: int)
    requires Finished(f) && 1 <= k <= f.m
    ensures Depth(f, k) + D(f.w[k]) <= D(f.w[f.m])
    decreases f.m - k
  {
    hide D, Shaped, Joins;
    FinishedShape(f);
    if f.parent[k] >= 0 {
      ParentAbove(f, k);
      DepthBelowHeight(f, f.parent[k]);
    }
  }

  lemma FinishedShape(f: Forest)
    requires Finished(f)
    ensures Shaped(f) && Sizes(f)
  {
  }

  /** Following the taller children from node k leads to a leaf as deep as the height allows. */
  lemma {:induction false} DeepestLeaf(f: Forest, k: int) returns (i: int)
    requires Finished(f) && 1 <= k <= f.m
    ensures 1 <= i <= f.n && Depth(f, i) == Depth(f, k) + D(f.w[k])
    decreases k
  {
    hide D, Shaped;
    FinishedShape(f);
    if k <= f.n {
      LeafHeight(f, k);
      i := k;
    } else {
      JoinsAt(f, k);
      i := DeepestLeaf(f, f.tall[k]);
    }
  }

  lemma LeafHeight(f: Forest, k: int)
    requires Shaped(f) && 1 <= k <= f.n
    ensures D(f.w[k]) == 0
  {
  }

  lemma JoinsAt(f: Forest, k: int)
    requires Shaped(f) && f.n < k <= f.m
    ensures 1 <= f.tall[k] < k && 1 <= f.other[k] < k && f.tall[k] != f.other[k]
    ensures f.parent[f.tall[k]] == k == f.parent[f.other[k]]
    ensures Depth(f, f.tall[k]) == Depth(f, k) + 1 == Depth(f, f.other[k])
    ensures D(f.w[f.tall[k]]) + 1 == D(f.w[k])
  {
    assert Inner(f, k) && Joins(f, k);
  }

  /** The sequence of the leaves' depths. */
  ghost function Depths(f: Forest, i: int): (r: seq<int>)
    requires Shaped(f) && 0 <= i <= f.n
    ensures |r| == i && forall k | 0 <= k < i :: r[k] == Depth(f, k + 1)
    decreases i
  {
    if i == 0 then [] else Depths(f, i - 1) + [Depth(f, i) as int]
  }

  // ---- Kraft's sum ----

  /** Of the first k nodes, those whose parent is beyond node q: while the tree was grown they were the roots
      after q nodes had been made. */
  ghost function Frontier(f: Forest, top: nat, q: int, k: int): nat
    requires Shaped(f) && 0 <= k <= f.m
    decreases k
  {
    if k == 0 then 0
    else Frontier(f, top, q, k - 1) + if f.parent[k] < 0 || f.parent[k] > q then Share(Depth(f, k), top) else 0
  }

  /** Undoing the making of node q puts its two children in its place. */
  lemma {:induction false} FrontierBack(f: Forest, top: nat, q: int, k: int)
    requires Shaped(f) && f.n < q <= f.m && 0 <= k <= f.m && Depth(f, q) + 1 <= top
    ensures var x := Pow2(top - Depth(f, q) - 1);
      Frontier(f, top, q - 1, k) == Frontier(f, top, q, k) + (if f.tall[q] <= k then x else 0)
          + (if f.other[q] <= k then x else 0)
    decreases k
  {
    hide Shaped, Pow2, Depth;
    JoinsAt(f, q);
    ShapedSizes(f);
    if k > 0 {
      FrontierBack(f, top, q, k - 1);
      if f.parent[k] >= 0 { ParentAbove(f, k); }
    }
  }

  lemma {:induction false} FrontierSum(f: Forest, top: nat, q: int)
    requires Finished(f) && f.n <= q <= f.m
    requires forall k | 1 <= k <= f.m :: Depth(f, k) + (if k > f.n then 1 else 0) <= top
    ensures Frontier(f, top, q, q) == Pow2(top)
    decreases f.m - q
  {
    hide Shaped, Pow2, Depth, Finished;
    FinishedShape(f);
    if q == f.m {
      OnlyRoot(f, top, f.m);
    } else {
      FrontierSum(f, top, q + 1);
      FrontierBack(f, top, q + 1, q);
      JoinsAt(f, q + 1);
      Pow2Step(top - Depth(f, q + 1) - 1);
      NewestCounts(f, top, q + 1);
    }
  }

  lemma NewestCounts(f: Forest, top: nat, q: int)
    requires Shaped(f) && 1 <= q <= f.m && Depth(f, q) <= top
    ensures Frontier(f, top, q, q) == Frontier(f, top, q, q - 1) + Pow2(top - Depth(f, q))
  {
    hide Pow2, Depth, Shaped;
    ShapedSizes(f);
    if f.parent[q] >= 0 { ParentAbove(f, q); }
  }

  lemma {:induction false} OnlyRoot(f: Forest, top: nat, k: int)
    requires Finished(f) && 0 <= k <= f.m
    ensures Frontier(f, top, f.m, k) == if k == f.m then Pow2(top) else 0
    decreases k
  {
    hide Pow2, Shaped;
    FinishedShape(f);
    if k > 0 {
      OnlyRoot(f, top, k - 1);
      if f.parent[k] >= 0 { ParentAbove(f, k); }
    }
  }

  /** Counted over the leaves it is Kraft's sum of the depths. */
  lemma {:induction false} FrontierIsKraft(f: Forest, top: nat, i: int)
    requires Shaped(f) && 0 <= i <= f.n
    ensures Frontier(f, top, f.n, i) == Kraft(Depths(f, i), top)
    decreases i
  {
    hide Pow2, Shaped, Depth, Share;
    ShapedSizes(f);
    if i > 0 {
      FrontierIsKraft(f, top, i - 1);
      if f.parent[i] >= 0 { ParentAbove(f, i); }
      assert Depths(f, i)[..i - 1] == Depths(f, i - 1);
    }
  }

  /** The depths of the leaves fill Kraft's inequality exactly. */
  lemma KraftExact(f: Forest, top: nat)
    requires Finished(f)
    requires forall i | 1 <= i <= f.n :: Depth(f, i) <= top
    ensures Kraft(Depths(f, f.n), top) == Pow2(top)
  {
    hide Pow2, Shaped, Depth, D;
    FinishedShape(f);
    forall k | 1 <= k <= f.m ensures Depth(f, k) + (if k > f.n then 1 else 0) <= top {
      if k > f.n {
        JoinsAt(f, k);
        HeightAtLeastZero(f.w[f.tall[k]]);
        var i := DeepestLeaf(f, k);
      }
    }
    FrontierSum(f, top, f.n);
    FrontierIsKraft(f, top, f.n);
  }

  /** Every leaf of a tree with two leaves or more is below the root. */
  lemma LeafBelowRoot(f: Forest, i: int)
    requires Finished(f) && 1 <= i <= f.n
    ensures Depth(f, i) >= 1
  {
  }

  /** The total weight of the leaves. */
  ghost function LeafWeight(w: seq<int>, n: int): int
    requires 0 <= n < |w|
    decreases n
  {
    if n == 0 then 0 else LeafWeight(w, n - 1) + W(w[n])
  }

  /** A leaf deeper than 17 means a total weight of at least the 20th Fibonacci number. */
  lemma DeepIsHeavy(f: Forest, i: int)
    requires Finished(f) && Graded(f) && 1 <= i <= f.n && Depth(f, i) > 17
    requires RootWeight(f.w, f.parent, f.m) == LeafWeight(f.w, f.n)
    ensures LeafWeight(f.w, f.n) >= 6765
  {
    hide Shaped, D, Depth, Graded, W;
    FinishedShape(f);
    DepthBelowHeight(f, i);
    HeightAtLeastZero(f.w[i]);
    GradedAt(f, f.m);
    FibValues();
    FibGrows(20, D(f.w[f.m]) + 2);
    RootOnly(f, f.m);
  }

  lemma {:induction false} RootOnly(f: Forest, k: int)
    requires Finished(f) && 0 <= k <= f.m
    ensures RootWeight(f.w, f.parent, k) == if k == f.m then W(f.w[f.m]) else 0
    decreases k
  {
    hide W;
    if k > 0 { RootOnly(f, k - 1); }
  }
}
