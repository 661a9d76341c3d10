/** The tree that joins the two lightest sub-trees each time gives the best code there is: no other code takes fewer
    bits, and of those that take as many none has a shorter longest code. */
module HuffmanOptimal {
  import opened Bits
  import opened Sums
  import opened Huffman
  import opened HuffmanTree
  import opened HuffmanDepths

  // ---- codes for weights ----

  /** The bits that symbols of these weights take with codes of these lengths. */
  ghost function CodedSize(w: seq<int>, lens: seq<int>): int
    requires |w| == |lens|
  {
    Sum(seq(|w|, i requires 0 <= i < |w| => w[i] * lens[i]))
  }

  /** There is a prefix code with these lengths (Kraft's inequality). */
  ghost predicate IsCode(lens: seq<int>, top: nat) {
    (forall i | 0 <= i < |lens| :: 0 <= lens[i] <= top) && Kraft(lens, top) <= Pow2(top)
  }

  /** Some code of the one is at least as long as all codes of the other. */
  ghost predicate ReachesUp(l: seq<int>, lens: seq<int>) {
    forall i | 0 <= i < |lens| :: exists j :: 0 <= j < |l| && lens[i] <= l[j]
  }

  ghost predicate NoWorse(w: seq<int>, lens: seq<int>, l: seq<int>)
    requires |w| == |lens| == |l|
  {
    || CodedSize(w, lens) < CodedSize(w, l)
    || (CodedSize(w, lens) == CodedSize(w, l) && ReachesUp(l, lens))
  }

  /** Codes of these lengths take the fewest bits, and their longest is as short as that allows. */
  ghost predicate Optimal(w: seq<int>, lens: seq<int>) {
    && |lens| == |w| && (exists top: nat :: IsCode(lens, top))
    && forall l: seq<int>, top: nat | |l| == |w| && IsCode(l, top) :: NoWorse(w, lens, l)
  }

  // ---- codes for the roots there were when the tree had q nodes ----

  ghost function Shares(f: Forest, q: int, lens: seq<int>, top: nat): (r: seq<int>)
    requires Sizes(f) && 0 <= q <= f.m && |lens| == MAX_NODES
    ensures |r| == q
    ensures forall i | 0 <= i < q :: r[i] == if Live(f, q, i + 1) then Share(lens[i + 1], top) else 0
  {
    seq(q, i requires 0 <= i < q => if Live(f, q, i + 1) then Share(lens[i + 1], top) as int else 0)
  }

  ghost function Costs(f: Forest, q: int, lens: seq<int>): (r: seq<int>)
    requires Sizes(f) && 0 <= q <= f.m && |lens| == MAX_NODES
    ensures |r| == q
    ensures forall i | 0 <= i < q :: r[i] == if Live(f, q, i + 1) then W(f.w[i + 1]) * lens[i + 1] else 0
  {
    seq(q, i requires 0 <= i < q => if Live(f, q, i + 1) then W(f.w[i + 1]) * lens[i + 1] else 0)
  }

  ghost predicate RootCode(f: Forest, q: int, lens: seq<int>, top: nat) {
    && Sizes(f) && 0 <= q <= f.m && |lens| == MAX_NODES
    && (forall k | 1 <= k <= q && Live(f, q, k) :: 0 <= lens[k] <= top)
    && Sum(Shares(f, q, lens, top)) <= Pow2(top)
  }

  /** The weight of all nodes after the first q. */
  ghost function Merged(f: Forest, q: int): int
    requires Sizes(f) && 0 <= q <= f.m
    decreases f.m - q
  {
    if q == f.m then 0 else W(f.w[q + 1]) + Merged(f, q + 1)
  }

  /** Some root is as far down as the whole tree is high. */
  ghost predicate Tall(f: Forest, q: int, lens: seq<int>)
    requires Sizes(f) && |lens| == MAX_NODES
  {
    exists k :: Live(f, q, k) && lens[k] + D(f.w[k]) >= D(f.w[f.m])
  }

  ghost predicate Bounded(f: Forest, q: int, lens: seq<int>)
    requires Sizes(f) && 0 <= q <= f.m && |lens| == MAX_NODES
  {
    var c := Sum(Costs(f, q, lens));
    c > Merged(f, q) || (c == Merged(f, q) && Tall(f, q, lens))
  }

  /** A finished tree that joined the lightest first. */
  ghost predicate Best(f: Forest) {
    && Finished(f) && Greedy(f) && forall k | 1 <= k <= f.m :: W(f.w[k]) >= 1
  }

  lemma BestShape(f: Forest)
    requires Best(f)
    ensures Sizes(f) && Shaped(f) && Finished(f) && Greedy(f) && f.m == 2 * f.n - 1
    ensures forall k | 1 <= k <= f.m :: W(f.w[k]) >= 1
  {
    hide W, Greedy;
  }

  // ---- the step from q + 1 nodes back to q ----

  /** The children of node q + 1 were roots until it was made. */
  lemma Children(f: Forest, q: int) returns (a: int, b: int)
    requires Best(f) && f.n <= q < f.m
    ensures Sizes(f) && a == f.tall[q + 1] && b == f.other[q + 1] && a != b && Live(f, q, a) && Live(f, q, b)
    ensures Live(f, q + 1, q + 1)
    ensures forall k | 1 <= k <= q :: Live(f, q + 1, k) <==> Live(f, q, k) && k != a && k != b
    ensures W(f.w[q + 1]) == W(f.w[a]) + W(f.w[b]) && D(f.w[q + 1]) == D(f.w[a]) + 1 && D(f.w[b]) <= D(f.w[a])
    ensures forall r | Live(f, q, r) && r != a && r != b :: f.w[a] <= f.w[r] && f.w[b] <= f.w[r]
  {
    hide W, D;
    BestShape(f);
    a, b := f.tall[q + 1], f.other[q + 1];
    assert Inner(f, q + 1) && Joins(f, q + 1);
    if f.parent[q + 1] >= 0 { ParentAbove(f, q + 1); }
    forall k | 1 <= k <= q ensures Live(f, q + 1, k) <==> Live(f, q, k) && k != a && k != b {
      assert Child(f, k);
    }
  }

  ghost predicate TwoDeepest(f: Forest, q: int, lens: seq<int>, top: nat) {
    && Best(f) && f.n <= q < f.m && |lens| == MAX_NODES && top >= 1
    && Sizes(f) && 0 <= f.tall[q + 1] < MAX_NODES && 0 <= f.other[q + 1] < MAX_NODES
    && lens[f.tall[q + 1]] == lens[f.other[q + 1]] == top
  }

  lemma MergedShares(f: Forest, q: int, lens: seq<int>, top: nat)
    requires TwoDeepest(f, q, lens, top)
    ensures Sizes(f) && Sum(Shares(f, q + 1, lens[q + 1 := top - 1], top)) == Sum(Shares(f, q, lens, top))
  {
    hide W, D, Pow2, Best, Share, Live;
    var a, b := Children(f, q);
    LiveAt(f, q, a);
    LiveAt(f, q, b);
    var s := Shares(f, q, lens, top);
    assert Shares(f, q + 1, lens[q + 1 := top - 1], top) == s[a - 1 := 0][b - 1 := 0] + [Share(top - 1, top) as int];
    ShareEnds(top);
    TakeTwo(s, a - 1, b - 1, Share(top - 1, top));
  }

  lemma MergedCosts(f: Forest, q: int, lens: seq<int>, top: nat)
    requires TwoDeepest(f, q, lens, top)
    ensures Sizes(f) && Sum(Costs(f, q + 1, lens[q + 1 := top - 1])) == Sum(Costs(f, q, lens)) - W(f.w[q + 1])
  {
    hide W, D, Best, Live;
    var a, b := Children(f, q);
    LiveAt(f, q, a);
    LiveAt(f, q, b);
    var c, v := Costs(f, q, lens), W(f.w[q + 1]) * (top - 1);
    assert Costs(f, q + 1, lens[q + 1 := top - 1]) == c[a - 1 := 0][b - 1 := 0] + [v];
    TakeTwo(c, a - 1, b - 1, v);
    Spread(W(f.w[a]), W(f.w[b]), top);
  }

  lemma LiveAt(f: Forest, q: int, k: int)
    requires Sizes(f) && Live(f, q, k)
    ensures 1 <= k <= q <= f.m
  {
  }

  /** Merging two codes of the same length, the longest there is, into one that is shorter by one. */
  lemma MergeTwo(f: Forest, q: int, lens: seq<int>, top: nat)
    requires TwoDeepest(f, q, lens, top) && RootCode(f, q, lens, top)
    ensures RootCode(f, q + 1, lens[q + 1 := top - 1], top)
    ensures Bounded(f, q + 1, lens[q + 1 := top - 1]) ==> Bounded(f, q, lens)
  {
    hide W, D, Pow2, Best, Shares, Costs, Live, Tall;
    var a, b := Children(f, q);
    var lens' := lens[q + 1 := top - 1];
    MergedShares(f, q, lens, top);
    MergedCosts(f, q, lens, top);
    LiveAt(f, q + 1, q + 1);
    if Tall(f, q + 1, lens') { TallBack(f, q, lens, top); }
  }

  lemma TallBack(f: Forest, q: int, lens: seq<int>, top: nat)
    requires Best(f) && f.n <= q < f.m && |lens| == MAX_NODES && top >= 1
    requires Sizes(f) && 0 <= f.tall[q + 1] < MAX_NODES && lens[f.tall[q + 1]] == top
    requires Tall(f, q + 1, lens[q + 1 := top - 1])
    ensures Tall(f, q, lens)
  {
    hide W, D, Best;
    BestShape(f);
    var a, b := Children(f, q);
    var lens' := lens[q + 1 := top - 1];
    var k :| Live(f, q + 1, k) && lens'[k] + D(f.w[k]) >= D(f.w[f.m]);
    if k == q + 1 {
      assert Live(f, q, a) && lens[a] + D(f.w[a]) >= D(f.w[f.m]);
    } else {
      assert Live(f, q, k) && lens[k] + D(f.w[k]) >= D(f.w[f.m]);
    }
  }

  lemma ShareEnds(top: nat)
    requires top >= 1
    ensures Share(top, top) == 1 && Share(top - 1, top) == 2
  {
    Pow2Of1();
  }

  lemma TakeTwo(s: seq<int>, i: int, j: int, v: int)
    requires 0 <= i < |s| && 0 <= j < |s| && i != j
    ensures Sum(s[i := 0][j := 0] + [v]) == Sum(s) - s[i] - s[j] + v
  {
    SumUpdate(s, i, 0);
    SumUpdate(s[i := 0], j, 0);
    SumAppend(s[i := 0][j := 0], v);
  }

  lemma Spread(x: int, y: int, top: int)
    ensures (x + y) * (top - 1) == x * top + y * top - (x + y)
  {
  }

  // ---- exchanging two codes ----

  ghost predicate Swappable(f: Forest, q: int, lens: seq<int>, top: nat, x: int, u: int) {
    && RootCode(f, q, lens, top) && Live(f, q, x) && Live(f, q, u) && x != u
    && lens[u] == top && f.w[x] <= f.w[u]
  }

  lemma SwappedShares(f: Forest, q: int, lens: seq<int>, top: nat, x: int, u: int)
    requires Swappable(f, q, lens, top, x, u)
    ensures Sum(Shares(f, q, lens[x := top][u := lens[x]], top)) == Sum(Shares(f, q, lens, top))
  {
    hide Pow2, Share, Live;
    LiveAt(f, q, x);
    LiveAt(f, q, u);
    var s := Shares(f, q, lens, top);
    assert Shares(f, q, lens[x := top][u := lens[x]], top) == s[x - 1 := s[u - 1]][u - 1 := s[x - 1]];
    SumUpdate(s, x - 1, s[u - 1]);
    SumUpdate(s[x - 1 := s[u - 1]], u - 1, s[x - 1]);
  }

  lemma SwappedCosts(f: Forest, q: int, lens: seq<int>, top: nat, x: int, u: int)
    requires Swappable(f, q, lens, top, x, u)
    ensures var c, c' := Sum(Costs(f, q, lens)), Sum(Costs(f, q, lens[x := top][u := lens[x]]));
            c' <= c && (c' == c ==> W(f.w[x]) == W(f.w[u]) || lens[x] == top)
  {
    hide W, Live, Pow2;
    LiveAt(f, q, x);
    LiveAt(f, q, u);
    var c, cx, cu := Costs(f, q, lens), W(f.w[x]) * top, W(f.w[u]) * lens[x];
    assert Costs(f, q, lens[x := top][u := lens[x]]) == c[x - 1 := cx][u - 1 := cu];
    SumUpdate(c, x - 1, cx);
    SumUpdate(c[x - 1 := cx], u - 1, cu);
    WordOrder(f.w[x], f.w[u]);
    Exchanged(W(f.w[x]), W(f.w[u]), lens[x], top);
  }

  lemma TallSwapped(f: Forest, q: int, lens: seq<int>, top: nat, x: int, u: int)
    requires Swappable(f, q, lens, top, x, u) && Tall(f, q, lens[x := top][u := lens[x]])
    requires lens[x] == top || D(f.w[x]) <= D(f.w[u])
    ensures Tall(f, q, lens)
  {
    hide W, D, Pow2, Shares;
    var lens' := lens[x := top][u := lens[x]];
    if lens[x] == top {
      assert lens' == lens;
    } else {
      var k :| Live(f, q, k) && lens'[k] + D(f.w[k]) >= D(f.w[f.m]);
      var k' := if k == x then u else k;
      assert Live(f, q, k') && lens[k'] + D(f.w[k']) >= D(f.w[f.m]);
    }
  }

  /** Giving the longest code to a lighter root, and its code to the root that had the longest. */
  lemma SwapIn(f: Forest, q: int, lens: seq<int>, top: nat, x: int, u: int)
    requires Swappable(f, q, lens, top, x, u)
    ensures RootCode(f, q, lens[x := top][u := lens[x]], top)
    ensures Bounded(f, q, lens[x := top][u := lens[x]]) ==> Bounded(f, q, lens)
  {
    hide W, D, Pow2, Shares, Costs, Live, Tall;
    LiveAt(f, q, x);
    LiveAt(f, q, u);
    var lens' := lens[x := top][u := lens[x]];
    SwappedShares(f, q, lens, top, x, u);
    SwappedCosts(f, q, lens, top, x, u);
    WordOrder(f.w[x], f.w[u]);
    if Bounded(f, q, lens') && Sum(Costs(f, q, lens)) == Merged(f, q) { TallSwapped(f, q, lens, top, x, u); }
  }

  /** Of two words the lower has the lower weight, or the same weight and the lower height. */
  lemma WordOrder(x: int, y: int)
    requires x <= y
    ensures W(x) < W(y) || (W(x) == W(y) && D(x) <= D(y))
  {
  }

  lemma Exchanged(wx: int, wu: int, lx: int, top: int)
    requires wx <= wu && lx <= top
    ensures wx * top + wu * lx <= wx * lx + wu * top
    ensures wx * top + wu * lx == wx * lx + wu * top ==> wx == wu || lx == top
  {
    assert (wu - wx) * (top - lx) == wx * lx + wu * top - (wx * top + wu * lx);
    if wx < wu && lx < top { Positive2(wu - wx, top - lx); } else { assert (wu - wx) * (top - lx) == 0; }
  }

  lemma Positive2(x: int, y: int)
    requires x > 0 && y > 0
    ensures x * y > 0
  {
  }

  // ---- the lower bound ----

  /** With both deepest codes at the children of node q + 1. */
  lemma Raise(f: Forest, q: int, lens: seq<int>, top: nat, u: int, v: int) returns (lens': seq<int>)
    requires Best(f) && f.n <= q < f.m && RootCode(f, q, lens, top) && top >= 1
    requires Live(f, q, u) && Live(f, q, v) && u != v && lens[u] == lens[v] == top
    ensures RootCode(f, q, lens', top) && TwoDeepest(f, q, lens', top)
    ensures Bounded(f, q, lens') ==> Bounded(f, q, lens)
  {
    hide W, D, Pow2, Best, Shares, Costs, Live, Tall, Bounded;
    var a, b := Children(f, q);
    LiveAt(f, q, a);
    LiveAt(f, q, b);
    LiveAt(f, q, u);
    LiveAt(f, q, v);
    lens' := lens;
    if lens[a] != top {
      var s := if u == b then v else u;
      SwapIn(f, q, lens, top, a, s);
      lens' := lens[a := top][s := lens[a]];
    }
    if lens'[b] != top {
      var s := if u != a && lens'[u] == top then u else v;
      SwapIn(f, q, lens', top, b, s);
      lens' := lens'[b := top][s := lens'[b]];
    }
  }

  /** No root has the longest code: a smaller bound will do. */
  lemma NoneAtTop(f: Forest, q: int, lens: seq<int>, top: nat)
    requires RootCode(f, q, lens, top) && top >= 1 && forall k | 1 <= k <= q && Live(f, q, k) :: lens[k] != top
    ensures RootCode(f, q, lens, top - 1)
  {
    hide Live, Pow2;
    var s, t := Shares(f, q, lens, top - 1), Shares(f, q, lens, top);
    forall i | 0 <= i < q ensures t[i] == 2 * s[i] { ShareHalved(lens[i + 1], top); }
    SumDoubled(s, t);
    Pow2Step(top - 1);
  }

  lemma ShareHalved(len: int, top: nat)
    requires top >= 1
    ensures 0 <= len < top ==> Share(len, top) == 2 * Share(len, top - 1)
  {
    if 0 <= len < top { Pow2Step(top - 1 - len); }
  }

  /** One root alone has the longest code: there is room for it to be shorter. */
  lemma OneAtTop(f: Forest, q: int, lens: seq<int>, top: nat, u: int)
    requires RootCode(f, q, lens, top) && top >= 1 && Live(f, q, u) && lens[u] == top
    requires forall k | 1 <= k <= q && Live(f, q, k) && k != u :: lens[k] != top
    ensures RootCode(f, q, lens[u := top - 1], top - 1)
  {
    hide Live, Pow2;
    LiveAt(f, q, u);
    var s, t := Shares(f, q, lens[u := top - 1], top - 1), Shares(f, q, lens, top);
    forall i | 0 <= i < q && i != u - 1 ensures t[i] == 2 * s[i] { ShareHalved(lens[i + 1], top); }
    ShareEnds(top);
    assert Share(top - 1, top - 1) == 1 by { Pow2Of1(); }
    SumDoubled(s, t[u - 1 := 2]);
    SumUpdate(t, u - 1, 2);
    Pow2Step(top - 1);
  }

  lemma ShorterIsCheaper(f: Forest, q: int, lens: seq<int>, u: int)
    requires Best(f) && Sizes(f) && 0 <= q <= f.m && |lens| == MAX_NODES && Live(f, q, u)
    ensures Sum(Costs(f, q, lens[u := lens[u] - 1])) < Sum(Costs(f, q, lens))
  {
    hide W, D, Live, Best;
    BestShape(f);
    LiveAt(f, q, u);
    var c, v := Costs(f, q, lens), W(f.w[u]) * (lens[u] - 1);
    assert Costs(f, q, lens[u := lens[u] - 1]) == c[u - 1 := v];
    SumUpdate(c, u - 1, v);
  }

  /** With two roots, codes of length 0 take up too much. */
  lemma NotAllEmpty(f: Forest, q: int, lens: seq<int>)
    requires Best(f) && f.n <= q < f.m
    ensures !RootCode(f, q, lens, 0)
  {
    hide W, D, Best, Live;
    if RootCode(f, q, lens, 0) {
      var a, b := Children(f, q);
      LiveAt(f, q, a);
      LiveAt(f, q, b);
      assert Share(0, 0) == 1 by { Pow2Of1(); }
      SumPair(Shares(f, q, lens, 0), a - 1, b - 1);
      Pow2Of1();
    }
  }

  /** One root, whatever its code. */
  lemma OneRoot(f: Forest, lens: seq<int>, top: nat)
    requires Best(f) && Sizes(f) && RootCode(f, f.m, lens, top)
    ensures Bounded(f, f.m, lens)
  {
    hide W, D, Best, Pow2, Finished;
    BestShape(f);
    forall i | 0 <= i < f.m ensures Costs(f, f.m, lens)[i] >= 0 { LeafCost(f, lens, top, i); }
    SumNotNegative(Costs(f, f.m, lens));
    RootIsLast(f);
    assert Live(f, f.m, f.m) && lens[f.m] + D(f.w[f.m]) >= D(f.w[f.m]);
  }

  lemma RootIsLast(f: Forest)
    requires Finished(f)
    ensures Sizes(f) && f.parent[f.m] < 0
  {
  }

  lemma LeafCost(f: Forest, lens: seq<int>, top: nat, i: int)
    requires Best(f) && RootCode(f, f.m, lens, top) && 0 <= i < f.m
    ensures Costs(f, f.m, lens)[i] >= 0
  {
    hide D, Best, Pow2, W;
    BestShape(f);
    if Live(f, f.m, i + 1) { NotNegative(W(f.w[i + 1]), lens[i + 1]); }
  }

  lemma NotNegative(x: int, y: int)
    requires x >= 0 && y >= 0
    ensures x * y >= 0
  {
  }

  /** No code for the roots there were takes fewer bits than the tree that grew from them, and none that takes
      as many keeps all of them higher. */
  lemma {:induction false} LowerBound(f: Forest, q: int, lens: seq<int>, top: nat)
    requires Best(f) && f.n <= q && RootCode(f, q, lens, top)
    ensures Bounded(f, q, lens)
    decreases f.m - q, top
  {
    hide W, D, Pow2, Best, Shares, Costs, Live, Tall, Bounded;
    BestShape(f);
    if q == f.m {
      OneRoot(f, lens, top);
    } else if top == 0 {
      NotAllEmpty(f, q, lens);
    } else if u :| 1 <= u <= q && Live(f, q, u) && lens[u] == top {
      if v :| 1 <= v <= q && Live(f, q, v) && v != u && lens[v] == top {
        var lens' := Raise(f, q, lens, top, u, v);
        MergeTwo(f, q, lens', top);
        LowerBound(f, q + 1, lens'[q + 1 := top - 1], top);
      } else {
        OneAtTop(f, q, lens, top, u);
        LowerBound(f, q, lens[u := top - 1], top - 1);
        ShorterIsCheaper(f, q, lens, u);
        CheaperBounded(f, q, lens, lens[u := top - 1]);
      }
    } else {
      NoneAtTop(f, q, lens, top);
      LowerBound(f, q, lens, top - 1);
    }
  }

  lemma CheaperBounded(f: Forest, q: int, lens: seq<int>, lens': seq<int>)
    requires Sizes(f) && 0 <= q <= f.m && |lens| == |lens'| == MAX_NODES && Bounded(f, q, lens')
    requires Sum(Costs(f, q, lens')) < Sum(Costs(f, q, lens))
    ensures Bounded(f, q, lens)
  {
    hide Costs, Tall;
  }

  // ---- the leaves ----

  lemma {:induction false} KraftIsSum(lens: seq<int>, top: nat)
    ensures Kraft(lens, top) == Sum(seq(|lens|, i requires 0 <= i < |lens| => Share(lens[i], top) as int))
  {
    var shares := seq(|lens|, i requires 0 <= i < |lens| => Share(lens[i], top) as int);
    if lens != [] {
      var init := lens[..|lens| - 1];
      KraftIsSum(init, top);
      assert shares[..|shares| - 1] == seq(|init|, i requires 0 <= i < |init| => Share(init[i], top) as int);
    }
  }

  /** Lengths for the leaves, as lengths for nodes. */
  ghost function ForNodes(lens: seq<int>): (r: seq<int>)
    ensures |r| == MAX_NODES && forall k | 1 <= k <= |lens| && k < MAX_NODES :: r[k] == lens[k - 1]
  {
    seq(MAX_NODES, k => if 1 <= k <= |lens| then lens[k - 1] else 0)
  }

  lemma LeavesLive(f: Forest, k: int)
    requires Best(f) && Sizes(f) && 1 <= k <= f.n
    ensures Live(f, f.n, k) && D(f.w[k]) == 0
  {
    hide D, W;
    BestShape(f);
    LeafHeight(f, k);
    if f.parent[k] >= 0 { ParentAbove(f, k); }
  }

  ghost predicate LeafWeights(f: Forest, w: seq<int>) {
    Sizes(f) && |w| == f.n && forall i | 0 <= i < f.n :: w[i] == W(f.w[i + 1])
  }

  lemma LeafSums(f: Forest, w: seq<int>, l: seq<int>, top: nat)
    requires Best(f) && LeafWeights(f, w) && |l| == |w|
    ensures Sum(Costs(f, f.n, ForNodes(l))) == CodedSize(w, l)
    ensures Sum(Shares(f, f.n, ForNodes(l), top)) == Kraft(l, top)
  {
    hide W, D, Pow2, Best, Share, Live, Kraft;
    forall k | 1 <= k <= f.n ensures Live(f, f.n, k) { LeavesLive(f, k); }
    KraftIsSum(l, top);
    assert Shares(f, f.n, ForNodes(l), top) == seq(|l|, i requires 0 <= i < |l| => Share(l[i], top) as int);
    assert Costs(f, f.n, ForNodes(l)) == seq(|w|, i requires 0 <= i < |w| => w[i] * l[i]);
  }

  // ---- what the tree itself costs ----

  ghost function NodeDepths(f: Forest): (r: seq<int>)
    requires Shaped(f)
    ensures |r| == MAX_NODES && forall k | 1 <= k <= f.m :: r[k] == Depth(f, k)
  {
    seq(MAX_NODES, k => if 1 <= k <= f.m then Depth(f, k) as int else 0)
  }

  lemma {:induction false} TreeCost(f: Forest, q: int)
    requires Best(f) && Shaped(f) && f.n <= q <= f.m
    ensures Sum(Costs(f, q, NodeDepths(f))) == Merged(f, q)
    decreases f.m - q
  {
    hide W, D, Best, Shaped, Depth, Live;
    BestShape(f);
    if q == f.m {
      forall i | 0 <= i < q ensures Costs(f, q, NodeDepths(f))[i] == 0 { RootCosts(f, i); }
      SumZero(Costs(f, q, NodeDepths(f)));
    } else {
      TreeCost(f, q + 1);
      JoinCost(f, q);
    }
  }

  lemma JoinCost(f: Forest, q: int)
    requires Best(f) && Shaped(f) && f.n <= q < f.m
    ensures Sum(Costs(f, q, NodeDepths(f))) == Sum(Costs(f, q + 1, NodeDepths(f))) + W(f.w[q + 1])
  {
    hide W, D, Best, Shaped, Depth, Live, Costs;
    BestShape(f);
    var a, b := JoinedCosts(f, q);
    var c, d := Costs(f, q, NodeDepths(f)), Depth(f, q + 1);
    TakeTwo(c, a - 1, b - 1, W(f.w[q + 1]) * d);
    Spread(W(f.w[a]), W(f.w[b]), d + 1);
  }

  lemma JoinedCosts(f: Forest, q: int) returns (a: int, b: int)
    requires Best(f) && Shaped(f) && f.n <= q < f.m
    ensures 1 <= a <= q && 1 <= b <= q && a != b && W(f.w[q + 1]) == W(f.w[a]) + W(f.w[b])
    ensures var c, d := Costs(f, q, NodeDepths(f)), Depth(f, q + 1);
            && Costs(f, q + 1, NodeDepths(f)) == c[a - 1 := 0][b - 1 := 0] + [W(f.w[q + 1]) * d]
            && c[a - 1] == W(f.w[a]) * (d + 1) && c[b - 1] == W(f.w[b]) * (d + 1)
  {
    hide W, D, Best, Shaped, Depth, Live;
    BestShape(f);
    a, b := Children(f, q);
    LiveAt(f, q, a);
    LiveAt(f, q, b);
    JoinsAt(f, q + 1);
  }

  lemma RootCosts(f: Forest, i: int)
    requires Best(f) && Shaped(f) && 0 <= i < f.m
    ensures Costs(f, f.m, NodeDepths(f))[i] == 0
  {
    hide W, D;
    BestShape(f);
    if f.parent[i + 1] >= 0 { ParentAbove(f, i + 1); }
  }

  lemma TreeSize(f: Forest, w: seq<int>)
    requires Best(f) && Shaped(f) && LeafWeights(f, w)
    ensures CodedSize(w, Depths(f, f.n)) == Merged(f, f.n)
  {
    hide W, D, Best, Shaped, Depth, Live;
    BestShape(f);
    var lens := Depths(f, f.n);
    TreeCost(f, f.n);
    LeafSums(f, w, lens, 0);
    assert Costs(f, f.n, ForNodes(lens)) == Costs(f, f.n, NodeDepths(f));
  }

  lemma DepthsAreCode(f: Forest)
    requires Best(f) && Shaped(f)
    ensures D(f.w[f.m]) >= 0 && IsCode(Depths(f, f.n), D(f.w[f.m]))
  {
    hide W, D, Best, Shaped, Depth, Pow2, Kraft;
    BestShape(f);
    HeightAtLeastZero(f.w[f.m]);
    forall i | 1 <= i <= f.n ensures Depth(f, i) <= D(f.w[f.m]) {
      DepthBelowHeight(f, i);
      HeightAtLeastZero(f.w[i]);
    }
    KraftExact(f, D(f.w[f.m]));
  }

  lemma TallLeaf(f: Forest, l: seq<int>) returns (k: int)
    requires Best(f) && Sizes(f) && |l| == f.n && Tall(f, f.n, ForNodes(l))
    ensures 1 <= k <= f.n && l[k - 1] >= D(f.w[f.m])
  {
    hide W, D, Best;
    k :| Live(f, f.n, k) && ForNodes(l)[k] + D(f.w[k]) >= D(f.w[f.m]);
    LeavesLive(f, k);
  }

  lemma TreeNoWorse(f: Forest, w: seq<int>, l: seq<int>, top: nat)
    requires Best(f) && Shaped(f) && LeafWeights(f, w) && |l| == |w| && IsCode(l, top)
    ensures NoWorse(w, Depths(f, f.n), l)
  {
    hide W, D, Best, Shaped, Depth, Pow2, Kraft, CodedSize, Shares, Costs, Live;
    BestShape(f);
    LeafSums(f, w, l, top);
    LowerBound(f, f.n, ForNodes(l), top);
    TreeSize(f, w);
    if CodedSize(w, l) == Merged(f, f.n) {
      var k := TallLeaf(f, l);
      DepthsAreCode(f);
      forall i | 0 <= i < f.n ensures Depths(f, f.n)[i] <= l[k - 1] {}
    }
  }

  /** The depths of the leaves are the best lengths. */
  lemma TreeIsOptimal(f: Forest, w: seq<int>)
    requires Best(f) && Shaped(f) && LeafWeights(f, w)
    ensures Optimal(w, Depths(f, f.n))
  {
    hide W, D, Best, Shaped, Depth, IsCode, NoWorse;
    BestShape(f);
    DepthsAreCode(f);
    forall l: seq<int>, top: nat | |l| == |w| && IsCode(l, top) ensures NoWorse(w, Depths(f, f.n), l) {
      TreeNoWorse(f, w, l, top);
    }
  }

  // ---- codes that are too long ----

  /** Every best code has one that is longer than maxLen. */
  ghost predicate TooLong(w: seq<int>, maxLen: int) {
    forall l: seq<int> | Optimal(w, l) :: exists i :: 0 <= i < |l| && l[i] > maxLen
  }

  lemma OptimalTooLong(w: seq<int>, lens: seq<int>, maxLen: int, deep: int)
    requires Optimal(w, lens) && 0 <= deep < |lens| && lens[deep] > maxLen
    ensures TooLong(w, maxLen)
  {
    hide CodedSize, IsCode;
    var top: nat :| IsCode(lens, top);
    forall l: seq<int> | Optimal(w, l) ensures exists i :: 0 <= i < |l| && l[i] > maxLen {
      var top': nat :| IsCode(l, top');
      assert NoWorse(w, lens, l) && NoWorse(w, l, lens);
      var j :| 0 <= j < |l| && lens[deep] <= l[j];
    }
  }

  /** Frequencies, with ones for zeros, after they have been rescaled a number of times. */
  ghost function Rescaled(freq: seq<int>, rounds: nat): (w: seq<int>)
    ensures |w| == |freq|
  {
    if rounds == 0 then seq(|freq|, i requires 0 <= i < |freq| => if freq[i] == 0 then 1 else freq[i])
    else
      var before := Rescaled(freq, rounds - 1);
      seq(|freq|, i requires 0 <= i < |freq| => 1 + before[i] / 2)
  }

  /** The best lengths for the frequencies, rescaled as often as it takes until the best ones fit. */
  ghost predicate BestFitting(freq: seq<int>, lens: seq<int>, maxLen: int, rounds: nat) {
    && Optimal(Rescaled(freq, rounds), lens) && (forall i | 0 <= i < |lens| :: 1 <= lens[i] <= maxLen)
    && forall k: nat | k < rounds :: TooLong(Rescaled(freq, k), maxLen)
  }
}
