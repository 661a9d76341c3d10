/** mainGtU, mainSimpleSort and mainQSort3: the comparison sort of the main block sorter. */
module MainQuickSort {
  import opened Permutations
  import opened Rotations
  import opened PartitionStack

  const BZ_N_RADIX := 2
  const BZ_N_QSORT := 12
  const BZ_N_SHELL := 18
  const BZ_N_OVERSHOOT := BZ_N_RADIX + BZ_N_QSORT + BZ_N_SHELL + 2
  const MAIN_QSORT_SMALL_THRESH := 20
  const MAIN_QSORT_DEPTH_THRESH := BZ_N_RADIX + BZ_N_QSORT
  const MAIN_QSORT_STACK_SIZE := 100
  const INT32_MAX := 0x7fff_ffff

  /** block holds b followed by its first BZ_N_OVERSHOOT bytes again. */
  ghost predicate Overshot(b: seq<Byte>, block: seq<Byte>) {
    && |b| > BZ_N_OVERSHOOT
    && |block| == |b| + BZ_N_OVERSHOOT
    && block[..|b|] == b
    && forall i | 0 <= i < BZ_N_OVERSHOOT :: block[|b| + i] == b[i]
  }

  lemma OvershotAt(b: seq<Byte>, block: seq<Byte>, i: int)
    requires Overshot(b, block) && 0 <= i < |block|
    ensures block[i] == At(b, i)
  {
    if i < |b| {
      assert block[i] == block[..|b|][i];
    } else {
      assert block[|b| + (i - |b|)] == b[i - |b|];
    }
  }

  /** What the quadrant values promise: among positions with the same byte, a smaller value means
      that the rotation does not come later. */
  ghost predicate QuadrantsOrder(b: seq<Byte>, q: seq<int>)
    requires |b| > BZ_N_OVERSHOOT
  {
    && |q| == |b| + BZ_N_OVERSHOOT
    && (forall i | 0 <= i < BZ_N_OVERSHOOT :: q[|b| + i] == q[i])
    && forall i, j | 0 <= i < |b| && 0 <= j < |b| && b[i] == b[j] && q[i] < q[j] :: NotAfter(b, i, j)
  }

  lemma QuadrantDecides(b: seq<Byte>, q: seq<int>, i: int, j: int)
    requires |b| > BZ_N_OVERSHOOT && QuadrantsOrder(b, q)
    requires 0 <= i < |q| && 0 <= j < |q| && At(b, i) == At(b, j) && q[i] < q[j]
    ensures Cmp(b, i, j, |b|) <= 0 && Cmp(b, j, i, |b|) >= 0
  {
    var n := |b|;
    var i', j' := Wrap(i, n), Wrap(j, n);
    assert i >= n ==> q[n + i'] == q[i'];
    assert j >= n ==> q[n + j'] == q[j'];
    assert NotAfter(b, i', j');
    CmpWrap(b, i, j, n);
    CmpAntisymmetric(b, i, j, n);
  }

  // ---- mainGtU ----

  function Max0(x: int): nat { if x < 0 then 0 else x }

  /** After m equal bytes the comparison of s1 and s2 stands at i1 and i2. */
  ghost predicate Comparing(b: seq<Byte>, s1: nat, s2: nat, i1: nat, i2: nat, m: nat)
    requires |b| > 0
  {
    && Cmp(b, s1, s2, |b|) == Cmp(b, i1, i2, |b|)
    && Cmp(b, s1, s2, |b|) == Cmp(b, i1, i2, Max0(|b| - m))
  }

  lemma ComparingStep(b: seq<Byte>, s1: nat, s2: nat, i1: nat, i2: nat, m: nat)
    requires |b| > 0 && Comparing(b, s1, s2, i1, i2, m)
    requires At(b, i1) == At(b, i2)
    ensures Comparing(b, s1, s2, i1 + 1, i2 + 1, m + 1)
  {
    CmpPrepend(b, i1, i2);
  }

  lemma ComparingWrap(b: seq<Byte>, s1: nat, s2: nat, i1: nat, i2: nat, m: nat)
    requires |b| > 0 && Comparing(b, s1, s2, i1, i2, m) && i1 < 2 * |b| && i2 < 2 * |b|
    ensures Comparing(b, s1, s2, Wrap(i1, |b|), Wrap(i2, |b|), m)
  {
    CmpWrap(b, i1, i2, |b|);
    CmpWrap(b, i1, i2, Max0(|b| - m));
  }

  lemma ComparingDecided(b: seq<Byte>, s1: nat, s2: nat, i1: nat, i2: nat, m: nat)
    requires |b| > 0 && Comparing(b, s1, s2, i1, i2, m)
    ensures At(b, i1) < At(b, i2) ==> Cmp(b, s1, s2, |b|) < 0
    ensures At(b, i1) > At(b, i2) ==> Cmp(b, s1, s2, |b|) > 0
  {
  }

  /** mainGtU: is the rotation at i1 greater than the one at i2? The twelve and the eight unrolled
      comparisons are loops here. The indices never leave the overshoot area: the largest read is at
      nblock + BZ_N_OVERSHOOT - 1. Equal rotations may get either answer, because quadrant values
      tell them apart arbitrarily. */
  method MainGtU(s1: int, s2: int, ghost b: seq<Byte>, block: seq<Byte>, quadrant: seq<int>, nblock: int, budget: int)
    returns (greater: bool, left: int)
    requires nblock == |b| && Overshot(b, block) && QuadrantsOrder(b, quadrant)
    requires 0 <= s1 <= nblock - 1 + MAIN_QSORT_DEPTH_THRESH + 1
    requires 0 <= s2 <= nblock - 1 + MAIN_QSORT_DEPTH_THRESH + 1
    ensures greater ==> Cmp(b, s1, s2, nblock) >= 0
    ensures !greater ==> Cmp(b, s1, s2, nblock) <= 0
    ensures left <= budget
  {
    hide Overshot, QuadrantsOrder, Comparing, Cmp, At;
    SizesKnown(b, block, quadrant);
    var i1, i2 := s1, s2;
    left := budget;
    ghost var m := 0;
    ComparingStarts(b, s1, s2);
    var step := 0;
    while step < 12
      invariant 0 <= step <= 12
      invariant i1 == s1 + step && i2 == s2 + step && m == step
      invariant Comparing(b, s1, s2, i1, i2, m)
    {
      OvershotAt(b, block, i1);
      OvershotAt(b, block, i2);
      var c1, c2 := block[i1], block[i2];
      ComparingDecided(b, s1, s2, i1, i2, m);
      if c1 != c2 { return c1 > c2, left; }
      ComparingStep(b, s1, s2, i1, i2, m);
      i1, i2, m, step := i1 + 1, i2 + 1, m + 1, step + 1;
    }
    var k := nblock + 8;
    while k >= 0
      invariant 0 <= i1 <= nblock + 26 && 0 <= i2 <= nblock + 26
      invariant m == 12 + (nblock + 8 - k)
      invariant Comparing(b, s1, s2, i1, i2, m)
      invariant left <= budget
    {
      step := 0;
      while step < 8
        invariant 0 <= step <= 8
        invariant 0 <= i1 <= nblock + 26 + step && 0 <= i2 <= nblock + 26 + step
        invariant m == 12 + (nblock + 8 - k) + step
        invariant Comparing(b, s1, s2, i1, i2, m)
      {
        OvershotAt(b, block, i1);
        OvershotAt(b, block, i2);
        var c1, c2 := block[i1], block[i2];
        ComparingDecided(b, s1, s2, i1, i2, m);
        if c1 != c2 { return c1 > c2, left; }
        var q1, q2 := quadrant[i1], quadrant[i2];
        if q1 != q2 {
          QuadrantAnswer(b, quadrant, s1, s2, i1, i2, m);
          return q1 > q2, left;
        }
        ComparingStep(b, s1, s2, i1, i2, m);
        i1, i2, m, step := i1 + 1, i2 + 1, m + 1, step + 1;
      }
      ComparingWrap(b, s1, s2, i1, i2, m);
      if i1 >= nblock { i1 := i1 - nblock; }
      if i2 >= nblock { i2 := i2 - nblock; }
      k := k - 8;
      left := left - 1;
    }
    ComparingDone(b, s1, s2, i1, i2, m);
    return false, left;
  }

  lemma SizesKnown(b: seq<Byte>, block: seq<Byte>, q: seq<int>)
    requires Overshot(b, block) && QuadrantsOrder(b, q)
    ensures |b| > BZ_N_OVERSHOOT && |block| == |q| == |b| + BZ_N_OVERSHOOT
  {
  }

  lemma ComparingStarts(b: seq<Byte>, s1: nat, s2: nat)
    requires |b| > 0
    ensures Comparing(b, s1, s2, s1, s2, 0)
  {
  }

  lemma ComparingDone(b: seq<Byte>, s1: nat, s2: nat, i1: nat, i2: nat, m: nat)
    requires |b| > 0 && Comparing(b, s1, s2, i1, i2, m) && m >= |b|
    ensures Cmp(b, s1, s2, |b|) == 0
  {
  }

  lemma QuadrantAnswer(b: seq<Byte>, q: seq<int>, s1: nat, s2: nat, i1: nat, i2: nat, m: nat)
    requires |b| > BZ_N_OVERSHOOT && QuadrantsOrder(b, q) && Comparing(b, s1, s2, i1, i2, m)
    requires i1 < |q| && i2 < |q| && At(b, i1) == At(b, i2) && q[i1] != q[i2]
    ensures q[i1] > q[i2] ==> Cmp(b, s1, s2, |b|) >= 0
    ensures q[i1] < q[i2] ==> Cmp(b, s1, s2, |b|) <= 0
  {
    if q[i1] < q[i2] {
      QuadrantDecides(b, q, i1, i2);
    } else {
      QuadrantDecides(b, q, i2, i1);
    }
  }

  // ---- mainSimpleSort ----

  /** Rotations lo..hi-1 of f agree on their first d bytes. */
  ghost predicate Agree(b: seq<Byte>, f: seq<int>, lo: int, hi: int, d: nat)
    requires |b| > 0
  {
    && Indexes(f, lo, hi, 0, |b|)
    && forall i, j | lo <= i < hi && lo <= j < hi :: Cmp(b, f[i], f[j], d) == 0
  }

  lemma AgreeRearranged(b: seq<Byte>, f: seq<int>, g: seq<int>, lo: int, hi: int, d: nat)
    requires |b| > 0 && Agree(b, f, lo, hi, d) && Rearranged(f, g, lo, hi)
    ensures Agree(b, g, lo, hi, d)
  {
    hide Rearranged, Cmp;
    RearrangedIndexes(f, g, lo, hi, 0, |b|);
    forall i, j | lo <= i < hi && lo <= j < hi ensures Cmp(b, g[i], g[j], d) == 0 {
      var i' := RearrangedMember(f, g, lo, hi, i);
      var j' := RearrangedMember(f, g, lo, hi, j);
    }
  }

  /** Behind a common prefix the comparison is that of the whole rotations. */
  lemma CmpBehindPrefix(b: seq<Byte>, rk: seq<int>, x: int, y: int, d: nat)
    requires |b| > 0 && Ranks(b, |b|, rk)
    requires 0 <= x < |b| && 0 <= y < |b| && Cmp(b, x, y, d) == 0
    ensures Cmp(b, x + d, y + d, |b|) <= 0 <==> rk[x] <= rk[y]
    ensures Cmp(b, x + d, y + d, |b|) >= 0 <==> rk[y] <= rk[x]
  {
    CmpSplit(b, x, y, d, |b|);
    CmpStable(b, x, y, d + |b|);
    CmpAntisymmetric(b, x, y, |b|);
    RanksEqual(b, |b|, rk, x, y);
    RanksEqual(b, |b|, rk, y, x);
  }

  /** lo..i of v without the entry at hole are in order, and those behind the hole are not below it. */
  ghost predicate SortedButHole(v: seq<int>, rk: seq<int>, lo: int, i: int, hole: int) {
    && Indexes(v, lo, i + 1, 0, |rk|)
    && lo <= hole <= i
    && (forall a, c | lo <= a < c <= i && a != hole && c != hole :: rk[v[a]] <= rk[v[c]])
    && (forall a | hole < a <= i :: rk[v[hole]] <= rk[v[a]])
  }

  lemma HoleMoves(v: seq<int>, rk: seq<int>, lo: int, i: int, hole: int)
    requires SortedButHole(v, rk, lo, i, hole) && lo < hole
    requires rk[v[hole - 1]] >= rk[v[hole]]
    ensures SortedButHole(Exchange(v, hole, hole - 1), rk, lo, i, hole - 1)
  {
    hide Exchange;
    ExchangeAt(v, hole, hole - 1);
  }

  /** The insertion in progress: f with the moving entry put back at the hole is v. */
  ghost predicate Inserting(start: seq<int>, v: seq<int>, f: seq<int>, rk: seq<int>, lo: int, hi: int,
                            i: int, hole: int, tail: bool) {
    && |v| == |f|
    && Indexes(v, lo, hi + 1, 0, |rk|)
    && lo <= hole <= i <= hi
    && v == f[hole := v[hole]]
    && Rearranged(start, v, lo, hi + 1)
    && (tail ==> SortedButHole(v, rk, lo, i, hole))
  }

  lemma InsertStart(f: seq<int>, rk: seq<int>, lo: int, hi: int, i: int, tail: bool)
    requires Indexes(f, lo, hi + 1, 0, |rk|) && lo <= i <= hi
    requires tail ==> SortedBy(rk, f, lo, i)
    ensures Inserting(f, f, f, rk, lo, hi, i, i, tail)
  {
  }

  lemma InsertAt(start: seq<int>, v: seq<int>, f: seq<int>, rk: seq<int>, lo: int, hi: int,
                 i: int, hole: int, tail: bool)
    requires Inserting(start, v, f, rk, lo, hi, i, hole, tail)
    ensures 0 <= lo <= hole <= i <= hi < |f| == |v|
    ensures v == f[hole := v[hole]] && 0 <= v[hole] < |rk|
    ensures forall j | lo <= j < hole :: v[j] == f[j] && 0 <= f[j] < |rk|
    ensures Rearranged(start, v, lo, hi + 1)
  {
    forall j | lo <= j < hole ensures v[j] == f[j] && 0 <= f[j] < |rk| {
      assert v[j] == f[hole := v[hole]][j];
    }
  }

  lemma InsertStep(start: seq<int>, v: seq<int>, f: seq<int>, rk: seq<int>, lo: int, hi: int,
                   i: int, hole: int, tail: bool, j: int)
    requires Inserting(start, v, f, rk, lo, hi, i, hole, tail) && lo <= j < hole
    requires 0 <= f[j] < |rk| && rk[f[j]] >= rk[v[hole]]
    requires tail ==> j == hole - 1
    ensures Inserting(start, Exchange(v, hole, j), f[hole := f[j]], rk, lo, hi, i, j, tail)
  {
    hide Rearranged, Exchange, SortedButHole;
    ExchangeAt(v, hole, j);
    RearrangedExchange(start, v, hole, j, lo, hi + 1);
    if tail { HoleMoves(v, rk, lo, i, hole); }
  }

  lemma InsertDone(start: seq<int>, v: seq<int>, f: seq<int>, rk: seq<int>, lo: int, hi: int,
                   i: int, hole: int, tail: bool)
    requires Inserting(start, v, f, rk, lo, hi, i, hole, tail)
    requires tail && lo < hole ==> rk[v[hole - 1]] <= rk[v[hole]]
    ensures Rearranged(start, v, lo, hi + 1) && Indexes(v, lo, hi + 1, 0, |rk|)
    ensures tail ==> SortedBy(rk, v, lo, i + 1)
  {
    hide Rearranged;
  }

  /** One of the three insertion copies of mainSimpleSort: entry i moves left in strides of h. */
  method InsertLeft(ptr: array<int>, ghost b: seq<Byte>, ghost rk: seq<int>, block: seq<Byte>, quadrant: seq<int>,
                    nblock: int, lo: int, hi: int, d: nat, h: int, i: int, budget: int)
    returns (left: int)
    requires nblock == |b| && Overshot(b, block) && QuadrantsOrder(b, quadrant)
    requires Ranks(b, nblock, rk) && |rk| == nblock && Agree(b, ptr[..], lo, hi + 1, d)
    requires 0 <= d <= MAIN_QSORT_DEPTH_THRESH + 1
    requires 0 < h && lo + h <= i <= hi
    modifies ptr
    ensures Rearranged(old(ptr[..]), ptr[..], lo, hi + 1)
    ensures Agree(b, ptr[..], lo, hi + 1, d)
    ensures h == 1 && SortedBy(rk, old(ptr[..]), lo, i) ==> SortedBy(rk, ptr[..], lo, i + 1)
    ensures left <= budget
  {
    hide Overshot, QuadrantsOrder, Ranks, Rearranged, Exchange, SortedBy, Inserting, Cmp;
    ghost var start := ptr[..];
    ghost var tail := h == 1 && SortedBy(rk, start, lo, i);
    OvershotSize(b, block);
    RanksSize(b, nblock, rk);
    InsertStart(start, rk, lo, hi, i, tail);
    left := budget;
    var v := ptr[i];
    var j := i;
    ghost var w := start;
    while true
      invariant lo + h <= j <= i
      invariant |w| == ptr.Length && w[j] == v
      invariant Inserting(start, w, ptr[..], rk, lo, hi, i, j, tail)
      invariant left <= budget
      decreases j
    {
      InsertAt(start, w, ptr[..], rk, lo, hi, i, j, tail);
      AgreeRearranged(b, start, w, lo, hi + 1, d);
      assert Cmp(b, w[j - h], w[j], d) == 0;
      CmpBehindPrefix(b, rk, ptr[j - h], v, d);
      var greater;
      greater, left := MainGtU(ptr[j - h] + d, v + d, b, block, quadrant, nblock, left);
      if !greater { break; }
      InsertStep(start, w, ptr[..], rk, lo, hi, i, j, tail, j - h);
      ExchangeAt(w, j, j - h);
      ghost var f := ptr[..];
      w := Exchange(w, j, j - h);
      ptr[j] := ptr[j - h];
      assert ptr[..] == f[j := f[j - h]];
      j := j - h;
      if j <= lo + h - 1 { break; }
    }
    InsertAt(start, w, ptr[..], rk, lo, hi, i, j, tail);
    ghost var f := ptr[..];
    ptr[j] := v;
    assert ptr[..] == f[j := v];
    InsertDone(start, w, f, rk, lo, hi, i, j, tail);
    AgreeRearranged(b, start, w, lo, hi + 1, d);
  }

  lemma RanksSize(b: seq<Byte>, h: nat, rk: seq<int>)
    requires |b| > 0 && Ranks(b, h, rk)
    ensures |rk| == |b|
  {
  }

  const INCS: seq<int> := [1, 4, 13, 40, 121, 364, 1093, 3280, 9841, 29524, 88573, 265720, 797161, 2391484]

  /** mainSimpleSort: a shell sort of rotations that agree on d bytes. The three copies of the insertion
      step are one call here, with the budget looked at after every third. It gives up, leaving them merely
      rearranged, when the work budget runs out. */
  method MainSimpleSort(ptr: array<int>, ghost b: seq<Byte>, ghost rk: seq<int>, block: seq<Byte>, quadrant: seq<int>,
                        nblock: int, lo: int, hi: int, d: nat, budget: int)
    returns (left: int)
    requires nblock == |b| && Overshot(b, block) && QuadrantsOrder(b, quadrant)
    requires Ranks(b, nblock, rk) && |rk| == nblock && Agree(b, ptr[..], lo, hi + 1, d)
    requires 0 <= d <= MAIN_QSORT_DEPTH_THRESH + 1
    requires hi - lo + 1 <= INCS[13]
    modifies ptr
    ensures Rearranged(old(ptr[..]), ptr[..], lo, hi + 1)
    ensures Agree(b, ptr[..], lo, hi + 1, d)
    ensures left <= budget
    ensures left >= 0 ==> SortedBy(rk, ptr[..], lo, hi + 1)
  {
    hide Overshot, QuadrantsOrder, Ranks, Rearranged, Cmp;
    ghost var start := ptr[..];
    left := budget;
    RearrangedRefl(start, lo, hi + 1);
    var bigN := hi - lo + 1;
    if bigN < 2 { return; }
    var hp := 0;
    while INCS[hp] < bigN
      invariant 0 <= hp <= 13
    {
      hp := hp + 1;
    }
    hp := hp - 1;
    while hp >= 0
      invariant -1 <= hp <= 12
      invariant Rearranged(start, ptr[..], lo, hi + 1) && Agree(b, ptr[..], lo, hi + 1, d)
      invariant hp == -1 ==> SortedBy(rk, ptr[..], lo, hi + 1)
      invariant left <= budget
    {
      var h := INCS[hp];
      var i := lo + h;
      var copy := 0;
      while i <= hi
        invariant lo + h <= i && (h == 1 ==> i <= hi + 1)
        invariant Rearranged(start, ptr[..], lo, hi + 1) && Agree(b, ptr[..], lo, hi + 1, d)
        invariant h == 1 ==> SortedBy(rk, ptr[..], lo, i)
        invariant left <= budget
      {
        ghost var f := ptr[..];
        left := InsertLeft(ptr, b, rk, block, quadrant, nblock, lo, hi, d, h, i, left);
        RearrangedTrans(start, f, ptr[..], lo, hi + 1);
        i := i + 1;
        copy := copy + 1;
        if copy == 3 {
          if left < 0 { return; }
          copy := 0;
        }
      }
      hp := hp - 1;
    }
  }

  // ---- mainQSort3 ----

  /** mmed3: the median of three bytes. */
  function Mmed3(x: Byte, y: Byte, z: Byte): (r: Byte)
    ensures r == x || r == y || r == z
    ensures (x <= r && r <= y) || (y <= r && r <= x) || (x <= r && r <= z) || (z <= r && r <= x)
            || (y <= r && r <= z) || (z <= r && r <= y)
  {
    var lo, hi := if x > y then y else x, if x > y then x else y;
    if hi > z then (if lo > z then lo else z) else hi
  }

  /** The stack position k holds at most a 2/Weight(k)-th part of the whole; the weights grow by a
      factor of 3 every two positions. */
  ghost function Weight(k: nat): (r: nat)
    ensures r >= 2
  {
    if k == 0 then 2 else if k == 1 then 3 else 3 * Weight(k - 2)
  }

  lemma {:induction false} WeightGrows(k: nat)
    ensures Weight(k) <= Weight(k + 1) <= 2 * Weight(k)
    decreases k
  {
    if k > 1 { WeightGrows(k - 2); }
  }

  lemma {:induction false} WeightMonotonic(j: nat, k: nat)
    requires j <= k
    ensures Weight(j) <= Weight(k)
    decreases k
  {
    if j < k {
      WeightMonotonic(j, k - 1);
      WeightGrows(k - 1);
    }
  }

  ghost predicate Shrinking(st: seq<Interval>, total: int) {
    forall k | 0 <= k < |st| :: 0 <= st[k].Size() && st[k].Size() * Weight(k) <= 2 * total
  }

  lemma ShrinkingPop(rest: seq<Interval>, x: Interval, total: int)
    requires Shrinking(rest + [x], total)
    ensures Shrinking(rest, total)
  {
    forall k | 0 <= k < |rest| ensures 0 <= rest[k].Size() && rest[k].Size() * Weight(k) <= 2 * total {
      assert (rest + [x])[k] == rest[k];
    }
  }

  /** The second largest of three parts is at most half, the smallest at most a third. */
  lemma PartWeights(s: int, s0: int, s1: int, s2: int, w: nat, w1: nat, w2: nat)
    requires s0 >= s1 >= s2 >= 0 && s0 + s1 + s2 == s
    requires w1 <= 2 * w && w2 == 3 * w
    ensures s0 * w <= s * w && s1 * w1 <= s * w && s2 * w2 <= s * w
  {
    Scale(s0, s, w);
    Scale(w1, 2 * w, s1);
    Scale(2 * s1, s, w);
    Scale(3 * s2, s, w);
    assert s1 * w1 <= s1 * (2 * w) == (2 * s1) * w;
    assert s2 * w2 == s2 * (3 * w) == (3 * s2) * w;
  }

  lemma ShrinkingPush(rest: seq<Interval>, x: Interval, y0: Interval, y1: Interval, y2: Interval, total: int)
    requires Shrinking(rest + [x], total)
    requires y0.Size() >= y1.Size() >= y2.Size() >= 0
    requires y0.Size() + y1.Size() + y2.Size() == x.Size()
    ensures Shrinking(rest + [y0, y1, y2], total)
  {
    var k := |rest|;
    assert (rest + [x])[k] == x;
    WeightGrows(k);
    PartWeights(x.Size(), y0.Size(), y1.Size(), y2.Size(), Weight(k), Weight(k + 1), Weight(k + 2));
    var st := rest + [y0, y1, y2];
    forall l | 0 <= l < k + 3 ensures 0 <= st[l].Size() && st[l].Size() * Weight(l) <= 2 * total {
      if l < k { assert (rest + [x])[l] == st[l]; }
    }
  }

  lemma ShrinkingReplace(rest: seq<Interval>, x: Interval, y: Interval, total: int)
    requires Shrinking(rest + [x], total) && y.Size() == x.Size()
    ensures Shrinking(rest + [y], total)
  {
    forall l | 0 <= l < |rest| + 1
      ensures 0 <= (rest + [y])[l].Size() && (rest + [y])[l].Size() * Weight(l) <= 2 * total {
      if l < |rest| { assert (rest + [x])[l] == rest[l]; } else { assert (rest + [x])[l] == x; }
    }
  }

  /** An interval worth splitting sits low on the stack. */
  lemma ShrinkingDepth(rest: seq<Interval>, x: Interval, total: int)
    requires Shrinking(rest + [x], total)
    requires total <= INT32_MAX + 1 && x.Size() > MAIN_QSORT_SMALL_THRESH
    ensures |rest| < 34
  {
    var k := |rest|;
    assert (rest + [x])[k] == x;
    if k >= 34 {
      WeightMonotonic(34, k);
      assert Weight(6) == 2 * 27;
      assert Weight(12) == 2 * 27 * 27;
      assert Weight(18) == 2 * 27 * 27 * 27;
      assert Weight(24) == 2 * 27 * 27 * 27 * 27;
      assert Weight(30) == 2 * 27 * 27 * 27 * 27 * 27;
      assert Weight(34) == 2 * 27 * 27 * 27 * 27 * 27 * 9;
      Scale(21, x.Size(), Weight(k));
    }
  }

  /** What the loop still has to do: a split removes its middle part from one depth. */
  ghost function Cost(x: Interval): nat {
    1 + 3 * (Max0(x.Size()) * Max0(16 - x.d))
  }

  ghost function Work(st: seq<Interval>): nat {
    if st == [] then 0 else Work(st[..|st| - 1]) + Cost(st[|st| - 1])
  }

  lemma WorkPush(st: seq<Interval>, x: Interval)
    ensures Work(st + [x]) == Work(st) + Cost(x)
  {
    assert (st + [x])[..|st|] == st;
  }

  lemma CostSplits(x: Interval, left: Interval, mid: Interval, right: Interval)
    requires 0 <= left.Size() && 0 <= right.Size() && 0 < mid.Size()
    requires left.Size() + mid.Size() + right.Size() == x.Size()
    requires left.d == right.d == x.d <= 15 && mid.d == x.d + 1
    ensures Cost(left) + Cost(mid) + Cost(right) < Cost(x)
  {
    var p := 16 - x.d;
    assert x.Size() * p == left.Size() * p + mid.Size() * p + right.Size() * p;
    assert mid.Size() * (p - 1) == mid.Size() * p - mid.Size();
  }

  /** Every pending interval agrees on its own depth, which the main loop keeps at most 15. */
  ghost predicate AllAgree(b: seq<Byte>, f: seq<int>, st: seq<Interval>)
    requires |b| > 0
  {
    forall k | 0 <= k < |st| ::
        0 <= st[k].d <= MAIN_QSORT_DEPTH_THRESH + 1 && Agree(b, f, st[k].lo, st[k].hi + 1, st[k].d)
  }

  /** The state between two rounds. */
  ghost predicate Running(start: seq<int>, f: seq<int>, b: seq<Byte>, rk: seq<int>, st: seq<Interval>, lo: int, hi: int)
    requires |b| > 0
  {
    && |rk| == |b| && Ranks(b, |b|, rk)
    && Indexes(f, lo, hi + 1, 0, |rk|)
    && Rearranged(start, f, lo, hi + 1)
    && Disjoint(st) && Within(st, lo, hi + 1) && Shrinking(st, hi - lo + 1)
    && AllAgree(b, f, st)
    && SortedOutside(rk, f, st, lo, hi + 1)
  }

  lemma StartStack(b: seq<Byte>, rk: seq<int>, f: seq<int>, lo: int, hi: int, d: nat)
    requires |b| > 0 && |rk| == |b| && Ranks(b, |b|, rk)
    requires Agree(b, f, lo, hi + 1, d) && lo <= hi && d <= MAIN_QSORT_DEPTH_THRESH + 1
    ensures Running(f, f, b, rk, [Interval(lo, hi, d)], lo, hi)
  {
    hide Ranks, Cmp;
    var st := [Interval(lo, hi, d)];
    forall a, c | lo <= a < c < hi + 1 ensures Covered(st, a, c) {
      assert st[0].lo <= a && c <= st[0].hi;
    }
    assert Weight(0) == 2;
  }

  lemma NothingLeft(start: seq<int>, f: seq<int>, b: seq<Byte>, rk: seq<int>, lo: int, hi: int)
    requires |b| > 0 && Running(start, f, b, rk, [], lo, hi)
    ensures Rearranged(start, f, lo, hi + 1) && Indexes(f, lo, hi + 1, 0, |rk|)
    ensures SortedBy(rk, f, lo, hi + 1)
  {
    hide Ranks;
    NothingPending(rk, f, lo, hi + 1);
  }

  lemma TopSlot(start: seq<int>, f: seq<int>, b: seq<Byte>, rk: seq<int>, rest: seq<Interval>, x: Interval, loSt: int,
                hiSt: int)
    requires |b| > 0 && Running(start, f, b, rk, rest + [x], loSt, hiSt)
    ensures loSt <= x.lo <= x.hi + 1 <= hiSt + 1
    ensures |rk| == |b| && Ranks(b, |b|, rk)
    ensures 0 <= x.d <= MAIN_QSORT_DEPTH_THRESH + 1 && Agree(b, f, x.lo, x.hi + 1, x.d)
    ensures Rearranged(start, f, loSt, hiSt + 1) && Indexes(f, loSt, hiSt + 1, 0, |rk|)
  {
    hide Ranks, Cmp;
    assert (rest + [x])[|rest|] == x;
  }

  lemma AgreeApart(b: seq<Byte>, f: seq<int>, g: seq<int>, x: Interval, y: Interval)
    requires |b| > 0 && 0 <= y.d && Agree(b, f, y.lo, y.hi + 1, y.d)
    requires Rearranged(f, g, x.lo, x.hi + 1) && Apart(x, y)
    ensures Agree(b, g, y.lo, y.hi + 1, y.d)
  {
    hide Cmp, Rearranged;
    RearrangedSize(f, g, x.lo, x.hi + 1);
    forall i | y.lo <= i < y.hi + 1 ensures g[i] == f[i] {
      if x.Size() == 0 {
        RearrangedNothing(f, g, x.lo);
      } else {
        RearrangedOutside(f, g, x.lo, x.hi + 1, i);
      }
    }
  }

  lemma RearrangedSize(f: seq<int>, g: seq<int>, lo: int, hi: int)
    requires Rearranged(f, g, lo, hi)
    ensures 0 <= lo <= hi <= |f| == |g|
  {
  }

  lemma RearrangedNothing(f: seq<int>, g: seq<int>, lo: int)
    requires Rearranged(f, g, lo, lo)
    ensures f == g
  {
    assert f == f[..lo] + f[lo..] && g == g[..lo] + g[lo..];
  }

  lemma RestAgrees(b: seq<Byte>, f: seq<int>, g: seq<int>, rest: seq<Interval>, x: Interval)
    requires |b| > 0 && AllAgree(b, f, rest + [x]) && Disjoint(rest + [x])
    requires Rearranged(f, g, x.lo, x.hi + 1)
    ensures AllAgree(b, g, rest)
  {
    hide Agree, Rearranged;
    forall k | 0 <= k < |rest|
      ensures 0 <= rest[k].d <= MAIN_QSORT_DEPTH_THRESH + 1 && Agree(b, g, rest[k].lo, rest[k].hi + 1, rest[k].d)
    {
      assert (rest + [x])[k] == rest[k] && (rest + [x])[|rest|] == x;
      assert Apart((rest + [x])[k], (rest + [x])[|rest|]);
      AgreeApart(b, f, g, x, rest[k]);
    }
  }

  /** Replacing the top slot by js: the part of the argument common to all outcomes of a round. */
  lemma ReplaceTop(start: seq<int>, f: seq<int>, g: seq<int>, b: seq<Byte>, rk: seq<int>, rest: seq<Interval>,
                   x: Interval, js: seq<Interval>, loSt: int, hiSt: int)
    requires |b| > 0 && Running(start, f, b, rk, rest + [x], loSt, hiSt)
    requires loSt <= x.lo <= x.hi + 1 <= hiSt + 1
    requires Rearranged(f, g, x.lo, x.hi + 1) && Indexes(g, x.lo, x.hi + 1, 0, |rk|)
    requires Disjoint(js) && Within(js, x.lo, x.hi + 1) && AllAgree(b, g, js)
    requires SortedOutside(rk, g, js, x.lo, x.hi + 1)
    requires Shrinking(rest + js, hiSt - loSt + 1)
    ensures Running(start, g, b, rk, rest + js, loSt, hiSt)
  {
    hide Rearranged, Indexes, Disjoint, Within, SortedOutside, Shrinking, AllAgree, Ranks;
    IndexesAt(f, loSt, hiSt + 1, 0, |rk|);
    RearrangedWiden(f, g, x.lo, x.hi + 1, loSt, hiSt + 1);
    RearrangedTrans(start, f, g, loSt, hiSt + 1);
    RearrangedIndexes(f, g, loSt, hiSt + 1, 0, |rk|);
    RefineTop(rk, f, g, rest, x, js, loSt, hiSt + 1);
    RestAgrees(b, f, g, rest, x);
    AllAgreeAppend(b, g, rest, js);
  }

  lemma AllAgreeAppend(b: seq<Byte>, f: seq<int>, st: seq<Interval>, js: seq<Interval>)
    requires |b| > 0 && AllAgree(b, f, st) && AllAgree(b, f, js)
    ensures AllAgree(b, f, st + js)
  {
    hide Agree;
  }

  lemma SlotSorted(start: seq<int>, f: seq<int>, g: seq<int>, b: seq<Byte>, rk: seq<int>, rest: seq<Interval>,
                   x: Interval, loSt: int, hiSt: int)
    requires |b| > 0 && Running(start, f, b, rk, rest + [x], loSt, hiSt)
    requires loSt <= x.lo <= x.hi + 1 <= hiSt + 1
    requires Rearranged(f, g, x.lo, x.hi + 1) && Indexes(g, x.lo, x.hi + 1, 0, |rk|)
    requires SortedBy(rk, g, x.lo, x.hi + 1)
    ensures Running(start, g, b, rk, rest, loSt, hiSt)
    ensures Work(rest) < Work(rest + [x])
  {
    hide Rearranged, Covered, Work, Ranks, Agree;
    ShrinkingPop(rest, x, hiSt - loSt + 1);
    assert rest + [] == rest;
    ReplaceTop(start, f, g, b, rk, rest, x, [], loSt, hiSt);
    WorkPush(rest, x);
  }

  /** A byte decides between rotations that agree so far. */
  lemma ByteDecides(b: seq<Byte>, rk: seq<int>, x: int, y: int, d: nat)
    requires |b| > 0 && Ranks(b, |b|, rk) && d < |b|
    requires 0 <= x < |b| && 0 <= y < |b| && Cmp(b, x, y, d) == 0
    ensures At(b, x + d) < At(b, y + d) ==> rk[x] < rk[y]
    ensures At(b, x + d) == At(b, y + d) ==> Cmp(b, x, y, d + 1) == 0
  {
    hide At;
    CmpSplit(b, x, y, d, 1);
    assert Cmp(b, x + d, y + d, 1) == if At(b, x + d) < At(b, y + d) then -1 else if At(b, x + d) > At(b, y + d) then 1
           else 0;
    CmpShorter(b, x, y, d + 1, |b|);
  }

  /** When the whole slot has the pivot byte, it agrees one byte further. */
  lemma AllEqualDeepens(start: seq<int>, f: seq<int>, g: seq<int>, b: seq<Byte>, block: seq<Byte>, rk: seq<int>,
                        rest: seq<Interval>, x: Interval, med: int, loSt: int, hiSt: int)
    requires |b| > 0 && Running(start, f, b, rk, rest + [x], loSt, hiSt) && Overshot(b, block)
    requires loSt <= x.lo < x.hi + 1 <= hiSt + 1 && 0 <= x.d <= MAIN_QSORT_DEPTH_THRESH
    requires Agree(b, f, x.lo, x.hi + 1, x.d)
    requires Rearranged(f, g, x.lo, x.hi + 1) && Indexes(g, x.lo, x.hi + 1, x.d, |block|)
    requires forall i | x.lo <= i <= x.hi :: block[g[i] + x.d] == med
    ensures Running(start, g, b, rk, rest + [Interval(x.lo, x.hi, x.d + 1)], loSt, hiSt)
    ensures Work(rest + [Interval(x.lo, x.hi, x.d + 1)]) < Work(rest + [x])
  {
    hide Rearranged, Ranks, Overshot, Work, Shrinking, SortedOutside, AllAgree;
    var y := Interval(x.lo, x.hi, x.d + 1);
    TopSlot(start, f, b, rk, rest, x, loSt, hiSt);
    AgreeRearranged(b, f, g, x.lo, x.hi + 1, x.d);
    MiddleAgrees(b, block, g, rk, x.lo, x.hi, x.d, x.lo, x.hi, med);
    OneSlot(b, g, rk, y);
    ShrinkingReplace(rest, x, y, hiSt - loSt + 1);
    ReplaceTop(start, f, g, b, rk, rest, x, [y], loSt, hiSt);
    WorkPush(rest, x);
    WorkPush(rest, y);
    assert x.Size() * (16 - x.d) == x.Size() * (15 - x.d) + x.Size();
  }

  lemma OneSlot(b: seq<Byte>, g: seq<int>, rk: seq<int>, y: Interval)
    requires |b| > 0 && |rk| == |b| && 0 <= y.d <= MAIN_QSORT_DEPTH_THRESH + 1 && Agree(b, g, y.lo, y.hi + 1, y.d)
    ensures Indexes(g, y.lo, y.hi + 1, 0, |rk|)
    ensures Disjoint([y]) && Within([y], y.lo, y.hi + 1) && AllAgree(b, g, [y])
    ensures SortedOutside(rk, g, [y], y.lo, y.hi + 1)
  {
    hide Cmp;
    forall a, c | y.lo <= a < c < y.hi + 1 ensures Covered([y], a, c) {
      assert [y][0].lo <= a && c <= [y][0].hi;
    }
  }

  /** Entries with the same byte at depth d agree on d + 1 bytes. */
  lemma MiddleAgrees(b: seq<Byte>, block: seq<Byte>, g: seq<int>, rk: seq<int>, lo: int, hi: int, d: nat,
                     lo': int, hi': int, med: int)
    requires |b| > 0 && Ranks(b, |b|, rk) && Overshot(b, block) && d <= MAIN_QSORT_DEPTH_THRESH
    requires Agree(b, g, lo, hi + 1, d) && Indexes(g, lo, hi + 1, d, |block|)
    requires lo <= lo' <= hi' + 1 <= hi + 1
    requires forall i | lo' <= i <= hi' :: block[g[i] + d] == med
    ensures Agree(b, g, lo', hi' + 1, d + 1)
  {
    hide Ranks, Overshot, Cmp;
    OvershotSize(b, block);
    forall i, j | lo' <= i < hi' + 1 && lo' <= j < hi' + 1 ensures Cmp(b, g[i], g[j], d + 1) == 0 {
      OvershotAt(b, block, g[i] + d);
      OvershotAt(b, block, g[j] + d);
      ByteDecides(b, rk, g[i], g[j], d);
    }
  }

  lemma OvershotSize(b: seq<Byte>, block: seq<Byte>)
    requires Overshot(b, block)
    ensures |b| > BZ_N_OVERSHOOT && |block| == |b| + BZ_N_OVERSHOOT
  {
  }

  /** The three parts in some order. */
  ghost predicate SomeOrder(y0: Interval, y1: Interval, y2: Interval, left: Interval, mid: Interval, right: Interval) {
    || (y0 == left && y1 == right && y2 == mid)
    || (y0 == left && y1 == mid && y2 == right)
    || (y0 == right && y1 == left && y2 == mid)
    || (y0 == right && y1 == mid && y2 == left)
    || (y0 == mid && y1 == left && y2 == right)
    || (y0 == mid && y1 == right && y2 == left)
  }

  lemma SplitParts(f: seq<int>, g: seq<int>, b: seq<Byte>, block: seq<Byte>, rk: seq<int>, x: Interval,
                   med: int, n: int, m: int)
    requires |b| > 0 && |rk| == |b| && Ranks(b, |b|, rk) && Overshot(b, block)
    requires 0 <= x.d <= MAIN_QSORT_DEPTH_THRESH && Agree(b, g, x.lo, x.hi + 1, x.d)
    requires Split3(f, g, block, x.d, med, x.lo, n, m, x.hi)
    ensures Agree(b, g, x.lo, n + 1, x.d) && Agree(b, g, m, x.hi + 1, x.d) && Agree(b, g, n + 1, m, x.d + 1)
    ensures forall a, c | x.lo <= a <= n < c <= x.hi :: rk[g[a]] <= rk[g[c]]
    ensures forall a, c | x.lo <= a < m <= c <= x.hi :: rk[g[a]] <= rk[g[c]]
  {
    hide Ranks, Overshot, Cmp, Rearranged;
    OvershotSize(b, block);
    MiddleAgrees(b, block, g, rk, x.lo, x.hi, x.d, n + 1, m - 1, med);
    forall a, c | x.lo <= a < c <= x.hi && (a <= n < c || a < m <= c) ensures rk[g[a]] <= rk[g[c]] {
      OvershotAt(b, block, g[a] + x.d);
      OvershotAt(b, block, g[c] + x.d);
      ByteDecides(b, rk, g[a], g[c], x.d);
    }
  }

  lemma PartsOrdered(b: seq<Byte>, g: seq<int>, rk: seq<int>, x: Interval, n: int, m: int,
                     y0: Interval, y1: Interval, y2: Interval)
    requires |b| > 0 && |rk| == |b| && 0 <= x.d <= MAIN_QSORT_DEPTH_THRESH
    requires x.lo <= n + 1 < m <= x.hi + 1 && Agree(b, g, x.lo, x.hi + 1, x.d)
    requires Agree(b, g, x.lo, n + 1, x.d) && Agree(b, g, m, x.hi + 1, x.d) && Agree(b, g, n + 1, m, x.d + 1)
    requires Indexes(g, x.lo, x.hi + 1, 0, |rk|)
    requires forall a, c | x.lo <= a <= n < c <= x.hi :: rk[g[a]] <= rk[g[c]]
    requires forall a, c | x.lo <= a < m <= c <= x.hi :: rk[g[a]] <= rk[g[c]]
    requires SomeOrder(y0, y1, y2, Interval(x.lo, n, x.d), Interval(n + 1, m - 1, x.d + 1), Interval(m, x.hi, x.d))
    ensures Disjoint([y0, y1, y2]) && Within([y0, y1, y2], x.lo, x.hi + 1) && AllAgree(b, g, [y0, y1, y2])
    ensures SortedOutside(rk, g, [y0, y1, y2], x.lo, x.hi + 1)
  {
    hide Agree;
    var js := [y0, y1, y2];
    forall a, c | x.lo <= a < c < x.hi + 1 ensures Covered(js, a, c) || rk[g[a]] <= rk[g[c]] {
      if (js[0].lo <= a && c <= js[0].hi) || (js[1].lo <= a && c <= js[1].hi) || (js[2].lo <= a && c <= js[2].hi) {
        assert Covered(js, a, c);
      }
    }
  }

  lemma PushThree(start: seq<int>, f: seq<int>, g: seq<int>, b: seq<Byte>, block: seq<Byte>, rk: seq<int>,
                  rest: seq<Interval>, x: Interval, med: int, n: int, m: int,
                  y0: Interval, y1: Interval, y2: Interval, loSt: int, hiSt: int)
    requires |b| > 0 && Running(start, f, b, rk, rest + [x], loSt, hiSt) && Overshot(b, block)
    requires hiSt - loSt <= INT32_MAX && x.Size() > MAIN_QSORT_SMALL_THRESH
    requires loSt <= x.lo <= x.hi + 1 <= hiSt + 1 && 0 <= x.d <= MAIN_QSORT_DEPTH_THRESH
    requires Agree(b, f, x.lo, x.hi + 1, x.d)
    requires Split3(f, g, block, x.d, med, x.lo, n, m, x.hi) && n + 1 < m
    requires SomeOrder(y0, y1, y2, Interval(x.lo, n, x.d), Interval(n + 1, m - 1, x.d + 1), Interval(m, x.hi, x.d))
    requires y0.Size() >= y1.Size() >= y2.Size()
    ensures |rest| < 34
    ensures Running(start, g, b, rk, rest + [y0] + [y1] + [y2], loSt, hiSt)
    ensures Work(rest + [y0] + [y1] + [y2]) < Work(rest + [x])
  {
    hide Rearranged, Ranks, Overshot, Work, Shrinking, SortedOutside, AllAgree, Agree, Disjoint, Within, Indexes, Cost,
         Running;
    TopSlot(start, f, b, rk, rest, x, loSt, hiSt);
    RunningShrinks(start, f, b, rk, rest + [x], loSt, hiSt);
    AgreeRearranged(b, f, g, x.lo, x.hi + 1, x.d);
    SplitParts(f, g, b, block, rk, x, med, n, m);
    AgreeIndexes(b, g, x.lo, x.hi + 1, x.d);
    PartsOrdered(b, g, rk, x, n, m, y0, y1, y2);
    ShrinkingDepth(rest, x, hiSt - loSt + 1);
    ShrinkingPush(rest, x, y0, y1, y2, hiSt - loSt + 1);
    ReplaceTop(start, f, g, b, rk, rest, x, [y0, y1, y2], loSt, hiSt);
    CostSplits(x, Interval(x.lo, n, x.d), Interval(n + 1, m - 1, x.d + 1), Interval(m, x.hi, x.d));
    WorkPush(rest, x);
    WorkPush(rest, y0);
    WorkPush(rest + [y0], y1);
    WorkPush(rest + [y0] + [y1], y2);
    assert rest + [y0, y1, y2] == rest + [y0] + [y1] + [y2];
  }

  lemma RunningShrinks(start: seq<int>, f: seq<int>, b: seq<Byte>, rk: seq<int>, st: seq<Interval>, lo: int, hi: int)
    requires |b| > 0 && Running(start, f, b, rk, st, lo, hi)
    ensures Shrinking(st, hi - lo + 1)
  {
    hide Ranks, Shrinking;
  }

  lemma AgreeIndexes(b: seq<Byte>, f: seq<int>, lo: int, hi: int, d: nat)
    requires |b| > 0 && Agree(b, f, lo, hi, d)
    ensures Indexes(f, lo, hi, 0, |b|)
  {
  }

  /** The pivot byte occurs in the slot, so the middle part is not empty. */
  lemma MiddleNotEmpty(f: seq<int>, g: seq<int>, block: seq<Byte>, d: int, med: int, lo: int, n: int, m: int, hi: int,
                       i: int)
    requires Split3(f, g, block, d, med, lo, n, m, hi) && Indexes(f, lo, hi + 1, d, |block|)
    requires lo <= i <= hi && block[f[i] + d] == med
    ensures n + 1 < m && lo <= n + 1 && m <= hi + 1 && Rearranged(f, g, lo, hi + 1)
  {
    hide Rearranged;
    RearrangedBack(f, g, lo, hi + 1);
    var j := RearrangedMember(g, f, lo, hi + 1, i);
  }

  lemma OvershotIndexes(b: seq<Byte>, block: seq<Byte>, f: seq<int>, lo: int, hi: int, d: nat)
    requires Overshot(b, block) && Agree(b, f, lo, hi, d) && d <= MAIN_QSORT_DEPTH_THRESH + 1
    ensures Indexes(f, lo, hi, d, |block|)
  {
    hide Cmp;
  }

  /** The three stack arrays hold the intervals st, bottom first. */
  ghost predicate Holds(stackLo: array<int>, stackHi: array<int>, stackD: array<int>, st: seq<Interval>)
    reads stackLo, stackHi, stackD
  {
    && stackLo.Length == stackHi.Length == stackD.Length == MAIN_QSORT_STACK_SIZE && |st| <= MAIN_QSORT_STACK_SIZE
    && stackLo != stackHi && stackHi != stackD && stackD != stackLo
    && forall k | 0 <= k < |st| :: stackLo[k] == st[k].lo && stackHi[k] == st[k].hi && stackD[k] == st[k].d
  }

  lemma NothingHeld(stackLo: array<int>, stackHi: array<int>, stackD: array<int>)
    requires stackLo.Length == stackHi.Length == stackD.Length == MAIN_QSORT_STACK_SIZE
    requires stackLo != stackHi && stackHi != stackD && stackD != stackLo
    ensures Holds(stackLo, stackHi, stackD, [])
  {
  }

  /** mpush. */
  method Push(stackLo: array<int>, stackHi: array<int>, stackD: array<int>, sp: int, x: Interval,
              ghost st: seq<Interval>)
    returns (sp': int)
    requires Holds(stackLo, stackHi, stackD, st) && sp == |st| < MAIN_QSORT_STACK_SIZE
    modifies stackLo, stackHi, stackD
    ensures Holds(stackLo, stackHi, stackD, st + [x]) && sp' == sp + 1
  {
    stackLo[sp], stackHi[sp], stackD[sp] := x.lo, x.hi, x.d;
    return sp + 1;
  }

  /** mpop. */
  method Pop(stackLo: array<int>, stackHi: array<int>, stackD: array<int>, sp: int, ghost st: seq<Interval>)
    returns (sp': int, lo: int, hi: int, d: int, ghost rest: seq<Interval>)
    requires Holds(stackLo, stackHi, stackD, st) && sp == |st| > 0
    ensures Holds(stackLo, stackHi, stackD, rest) && sp' == sp - 1 == |rest| && st == rest + [Interval(lo, hi, d)]
  {
    sp' := sp - 1;
    rest := st[..sp'];
    lo, hi, d := stackLo[sp'], stackHi[sp'], stackD[sp'];
  }

  /** mainQSort3: sorts the rotations ptr[loSt..hiSt], which agree on their first dSt bytes, unless the
      budget runs out. Pushing the three parts largest first keeps the stack below its limit
      (assertion 1001) for every 32-bit slice. */
  method MainQSort3(ptr: array<int>, ghost b: seq<Byte>, ghost rk: seq<int>, block: seq<Byte>, quadrant: seq<int>,
                    nblock: int, loSt: int, hiSt: int, dSt: nat, budget: int)
    returns (left: int)
    requires nblock == |b| && Overshot(b, block) && QuadrantsOrder(b, quadrant)
    requires Ranks(b, nblock, rk) && |rk| == nblock && Agree(b, ptr[..], loSt, hiSt + 1, dSt)
    requires dSt <= MAIN_QSORT_DEPTH_THRESH + 1 && loSt <= hiSt && hiSt - loSt + 1 <= INCS[13]
    modifies ptr
    ensures Rearranged(old(ptr[..]), ptr[..], loSt, hiSt + 1)
    ensures Indexes(ptr[..], loSt, hiSt + 1, 0, |rk|)
    ensures left >= 0 ==> SortedBy(rk, ptr[..], loSt, hiSt + 1)
    ensures left <= budget
  {
    hide Overshot, QuadrantsOrder, Ranks, Running, Work, Split3, Indexes, SortedBy, Rearranged, Agree, Holds;
    ghost var start := ptr[..];
    OvershotSize(b, block);
    StartStack(b, rk, start, loSt, hiSt, dSt);
    var stackLo := new int[MAIN_QSORT_STACK_SIZE];
    var stackHi := new int[MAIN_QSORT_STACK_SIZE];
    var stackD := new int[MAIN_QSORT_STACK_SIZE];
    left := budget;
    NothingHeld(stackLo, stackHi, stackD);
    var sp := Push(stackLo, stackHi, stackD, 0, Interval(loSt, hiSt, dSt), []);
    ghost var st := [Interval(loSt, hiSt, dSt)];
    assert [] + st == st;

    while sp > 0
      invariant 0 <= sp == |st| <= 38 && left <= budget
      invariant Holds(stackLo, stackHi, stackD, st)
      invariant fresh(stackLo) && fresh(stackHi) && fresh(stackD)
      invariant Running(start, ptr[..], b, rk, st, loSt, hiSt)
      decreases Work(st)
    {
      assert sp < MAIN_QSORT_STACK_SIZE - 2;   // assertion 1001
      var lo, hi, d;
      ghost var rest;
      sp, lo, hi, d, rest := Pop(stackLo, stackHi, stackD, sp, st);
      ghost var x := Interval(lo, hi, d);
      st := rest;
      ghost var f := ptr[..];
      TopSlot(start, f, b, rk, rest, x, loSt, hiSt);
      if hi - lo < MAIN_QSORT_SMALL_THRESH || d > MAIN_QSORT_DEPTH_THRESH {
        left := MainSimpleSort(ptr, b, rk, block, quadrant, nblock, lo, hi, d, left);
        AgreeIndexes(b, ptr[..], lo, hi + 1, d);
        if left < 0 {
          GiveUp(start, f, ptr[..], b, rk, x, loSt, hiSt);
          return;
        }
        SlotSorted(start, f, ptr[..], b, rk, rest, x, loSt, hiSt);
        continue;
      }
      OvershotSize(b, block);
      OvershotIndexes(b, block, f, lo, hi + 1, d);
      IndexesAt(f, lo, hi + 1, d, |block|);
      var med := Mmed3(block[ptr[lo] + d], block[ptr[hi] + d], block[ptr[(lo + hi) / 2] + d]);
      ghost var at := if med == block[f[lo] + d] then lo else if med == block[f[hi] + d] then hi else (lo + hi) / 2;
      var allEqual, n, m := Partition3(ptr, block, d, lo, hi, med);
      if allEqual {
        AllEqualDeepens(start, f, ptr[..], b, block, rk, rest, x, med, loSt, hiSt);
        sp := Push(stackLo, stackHi, stackD, sp, Interval(lo, hi, d + 1), rest);
        st := rest + [Interval(lo, hi, d + 1)];
        continue;
      }
      MiddleNotEmpty(f, ptr[..], block, d, med, lo, n, m, hi, at);
      var y0, y1, y2 := Interval(lo, n, d), Interval(m, hi, d), Interval(n + 1, m - 1, d + 1);
      if y0.Size() < y1.Size() { y0, y1 := y1, y0; }
      if y1.Size() < y2.Size() { y1, y2 := y2, y1; }
      if y0.Size() < y1.Size() { y0, y1 := y1, y0; }
      PushThree(start, f, ptr[..], b, block, rk, rest, x, med, n, m, y0, y1, y2, loSt, hiSt);
      sp := Push(stackLo, stackHi, stackD, sp, y0, rest);
      sp := Push(stackLo, stackHi, stackD, sp, y1, rest + [y0]);
      sp := Push(stackLo, stackHi, stackD, sp, y2, rest + [y0] + [y1]);
      st := rest + [y0] + [y1] + [y2];
    }
    assert st == [];
    NothingLeft(start, ptr[..], b, rk, loSt, hiSt);
  }

  lemma GiveUp(start: seq<int>, f: seq<int>, g: seq<int>, b: seq<Byte>, rk: seq<int>, x: Interval, loSt: int, hiSt: int)
    requires Rearranged(start, f, loSt, hiSt + 1) && Indexes(f, loSt, hiSt + 1, 0, |rk|)
    requires loSt <= x.lo <= x.hi + 1 <= hiSt + 1
    requires Rearranged(f, g, x.lo, x.hi + 1)
    ensures Rearranged(start, g, loSt, hiSt + 1) && Indexes(g, loSt, hiSt + 1, 0, |rk|)
  {
    hide Rearranged;
    RearrangedWiden(f, g, x.lo, x.hi + 1, loSt, hiSt + 1);
    RearrangedTrans(start, f, g, loSt, hiSt + 1);
    RearrangedIndexes(f, g, loSt, hiSt + 1, 0, |rk|);
  }
}
