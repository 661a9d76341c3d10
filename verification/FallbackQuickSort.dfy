/** fallbackSimpleSort and fallbackQSort3: sorting a slice of fmap by equivalence class. */
module FallbackQuickSort {
  import opened Permutations
  import opened PartitionStack
  import opened Bits

  const FALLBACK_QSORT_SMALL_THRESH := 10
  const FALLBACK_QSORT_STACK_SIZE := 100
  const INT32_MAX := 0x7fff_ffff

  // ---- the insertion sort for small slices ----

  /** The entries i..hi of v, leaving out the one at hole, are in order, and those to the left of
      the hole are below bound. */
  ghost predicate SortedButHole(v: seq<int>, key: seq<int>, i: int, hi: int, hole: int, bound: int) {
    && Indexes(v, i, hi + 1, 0, |key|)
    && i <= hole <= hi
    && (forall a, c | i <= a < c <= hi && a != hole && c != hole :: key[v[a]] <= key[v[c]])
    && (forall a | i <= a < hole :: key[v[a]] < bound)
  }

  lemma HoleMoves(v: seq<int>, key: seq<int>, i: int, hi: int, hole: int, bound: int)
    requires SortedButHole(v, key, i, hi, hole, bound) && hole < hi
    requires key[v[hole + 1]] < bound
    ensures SortedButHole(Exchange(v, hole, hole + 1), key, i, hi, hole + 1, bound)
  {
    hide Exchange;
    ExchangeAt(v, hole, hole + 1);
  }

  /** The insertion in progress: f with the moving entry put back at the hole is v. */
  ghost predicate Inserting(start: seq<int>, v: seq<int>, f: seq<int>, key: seq<int>, lo: int, hi: int,
                            i: int, hole: int, tail: bool) {
    && |v| == |f|
    && Indexes(v, lo, hi + 1, 0, |key|)
    && lo <= i <= hole <= hi
    && v == f[hole := v[hole]]
    && Rearranged(start, v, lo, hi + 1)
    && (tail ==> SortedButHole(v, key, i, hi, hole, key[v[hole]]))
  }

  lemma InsertStart(f: seq<int>, key: seq<int>, lo: int, hi: int, i: int, tail: bool)
    requires Indexes(f, lo, hi + 1, 0, |key|) && lo <= i <= hi
    requires tail ==> SortedBy(key, f, i + 1, hi + 1)
    ensures Inserting(f, f, f, key, lo, hi, i, i, tail)
  {
  }

  lemma InsertAt(start: seq<int>, v: seq<int>, f: seq<int>, key: seq<int>, lo: int, hi: int,
                 i: int, hole: int, tail: bool, j: int)
    requires Inserting(start, v, f, key, lo, hi, i, hole, tail) && hole < j <= hi
    ensures 0 <= j < |f| && v[j] == f[j] && 0 <= f[j] < |key|
  {
  }

  lemma InsertStep(start: seq<int>, v: seq<int>, f: seq<int>, key: seq<int>, lo: int, hi: int,
                   i: int, hole: int, tail: bool, j: int)
    requires Inserting(start, v, f, key, lo, hi, i, hole, tail) && hole < j <= hi
    requires 0 <= f[j] < |key| && key[f[j]] < key[v[hole]]
    requires tail ==> j == hole + 1
    ensures Inserting(start, Exchange(v, hole, j), f[hole := f[j]], key, lo, hi, i, j, tail)
  {
    hide Rearranged, Exchange, SortedButHole;
    ExchangeAt(v, hole, j);
    RearrangedExchange(start, v, hole, j, lo, hi + 1);
    if tail { HoleMoves(v, key, i, hi, hole, key[v[hole]]); }
  }

  lemma InsertDone(start: seq<int>, v: seq<int>, f: seq<int>, key: seq<int>, lo: int, hi: int,
                   i: int, hole: int, tail: bool)
    requires Inserting(start, v, f, key, lo, hi, i, hole, tail)
    requires tail && hole < hi ==> key[v[hole]] <= key[v[hole + 1]]
    ensures Rearranged(start, v, lo, hi + 1) && Indexes(v, lo, hi + 1, 0, |key|)
    ensures tail ==> SortedBy(key, v, i, hi + 1)
  {
    hide Rearranged;
  }

  /** The insertion step of both loops of fallbackSimpleSort: entry i moves right in strides of g.
      With stride 1 it extends a sorted tail by one entry. */
  method Insert(fmap: array<int>, eclass: seq<int>, lo: int, hi: int, i: int, g: int)
    requires Indexes(fmap[..], lo, hi + 1, 0, |eclass|)
    requires lo <= i <= hi && g > 0
    modifies fmap
    ensures Rearranged(old(fmap[..]), fmap[..], lo, hi + 1)
    ensures Indexes(fmap[..], lo, hi + 1, 0, |eclass|)
    ensures g == 1 && SortedBy(eclass, old(fmap[..]), i + 1, hi + 1) ==> SortedBy(eclass, fmap[..], i, hi + 1)
  {
    hide Rearranged, Exchange, SortedBy, Inserting;
    ghost var start := fmap[..];
    ghost var tail := g == 1 && SortedBy(eclass, start, i + 1, hi + 1);
    InsertStart(start, eclass, lo, hi, i, tail);
    var tmp := fmap[i];
    var ecTmp := eclass[tmp];
    var j := i + g;
    ghost var v := start;
    ghost var hole := i;
    while j <= hi
      invariant j == hole + g && i <= hole <= hi
      invariant |v| == fmap.Length && v[hole] == tmp
      invariant Inserting(start, v, fmap[..], eclass, lo, hi, i, hole, tail)
    {
      InsertAt(start, v, fmap[..], eclass, lo, hi, i, hole, tail, j);
      if !(ecTmp > eclass[fmap[j]]) { break; }
      InsertStep(start, v, fmap[..], eclass, lo, hi, i, hole, tail, j);
      ExchangeAt(v, hole, j);
      ghost var f := fmap[..];
      v := Exchange(v, hole, j);
      fmap[j - g] := fmap[j];
      assert fmap[..] == f[hole := f[j]];
      hole := j;
      j := j + g;
    }
    InsertClose(start, v, fmap[..], eclass, lo, hi, i, hole, tail);
    ghost var f := fmap[..];
    fmap[j - g] := tmp;
    assert fmap[..] == f[hole := tmp];
    InsertDone(start, v, f, eclass, lo, hi, i, hole, tail);
  }

  lemma InsertClose(start: seq<int>, v: seq<int>, f: seq<int>, key: seq<int>, lo: int, hi: int,
                    i: int, hole: int, tail: bool)
    requires Inserting(start, v, f, key, lo, hi, i, hole, tail)
    ensures 0 <= hole < |v| == |f| && v == f[hole := v[hole]] && 0 <= v[hole] < |key|
    ensures hole < hi ==> v[hole + 1] == f[hole + 1] && 0 <= v[hole + 1] < |key|
  {
  }

  /** fallbackSimpleSort: a pass with stride 4, then an insertion sort from the right. */
  method FallbackSimpleSort(fmap: array<int>, eclass: seq<int>, lo: int, hi: int)
    requires Indexes(fmap[..], lo, hi + 1, 0, |eclass|)
    modifies fmap
    ensures Rearranged(old(fmap[..]), fmap[..], lo, hi + 1)
    ensures Indexes(fmap[..], lo, hi + 1, 0, |eclass|)
    ensures SortedBy(eclass, fmap[..], lo, hi + 1)
  {
    hide Rearranged;
    ghost var start := fmap[..];
    RearrangedRefl(start, lo, hi + 1);
    if lo == hi { return; }
    var i;
    if hi - lo > 3 {
      i := hi - 4;
      while i >= lo
        invariant i <= hi - 4
        invariant Rearranged(start, fmap[..], lo, hi + 1)
        invariant Indexes(fmap[..], lo, hi + 1, 0, |eclass|)
      {
        ghost var f := fmap[..];
        Insert(fmap, eclass, lo, hi, i, 4);
        RearrangedTrans(start, f, fmap[..], lo, hi + 1);
        i := i - 1;
      }
    }
    i := hi - 1;
    while i >= lo
      invariant lo - 1 <= i + 1 <= hi && (lo <= hi ==> lo <= i + 1)
      invariant Rearranged(start, fmap[..], lo, hi + 1)
      invariant Indexes(fmap[..], lo, hi + 1, 0, |eclass|)
      invariant lo <= i + 1 ==> SortedBy(eclass, fmap[..], i + 1, hi + 1)
    {
      ghost var f := fmap[..];
      Insert(fmap, eclass, lo, hi, i, 1);
      RearrangedTrans(start, f, fmap[..], lo, hi + 1);
      i := i - 1;
    }
  }

  // ---- the stack is geometrically bounded ----

  /** Entry k of the stack is at most a 2^k-th part of the whole. */
  ghost predicate Halving(st: seq<Interval>, total: int) {
    forall k | 0 <= k < |st| :: 0 <= st[k].Size() && st[k].Size() * Pow2(k) <= total
  }

  lemma HalvingPush(st: seq<Interval>, x: Interval, big: Interval, small: Interval, total: int)
    requires Halving(st + [x], total)
    requires 0 <= small.Size() <= big.Size() && big.Size() + small.Size() <= x.Size()
    ensures Halving(st + [big, small], total)
  {
    var k, p := |st|, Pow2(|st|);
    assert (st + [x])[k] == x;
    Scale(big.Size(), x.Size(), p);
    Scale(2 * small.Size(), x.Size(), p);
    assert small.Size() * Pow2(k + 1) == small.Size() * (2 * p) == 2 * small.Size() * p;
    forall l | 0 <= l < k + 2
      ensures 0 <= (st + [big, small])[l].Size() && (st + [big, small])[l].Size() * Pow2(l) <= total {
      if l < k { assert (st + [x])[l] == st[l]; }
    }
  }

  lemma Pow2Of28()
    ensures Pow2(28) == 268435456
  {
    assert Pow2(7) == 128;
    hide Pow2;
    Pow2Add(7, 7);
    Pow2Add(14, 14);
  }

  /** An interval worth splitting sits low on the stack. */
  lemma HalvingDepth(st: seq<Interval>, x: Interval, total: int)
    requires Halving(st + [x], total)
    requires total <= INT32_MAX + 1 && x.Size() > FALLBACK_QSORT_SMALL_THRESH
    ensures |st| < 28
  {
    hide Pow2;
    var k := |st|;
    assert (st + [x])[k] == x;
    if k >= 28 {
      Pow2Monotonic(28, k);
      Pow2Of28();
      Scale(11, x.Size(), Pow2(k));
    }
  }

  /** What the loop still has to do. */
  ghost function Work(st: seq<Interval>): nat
  {
    if st == [] then 0 else Work(st[..|st| - 1]) + 1 + 2 * Max0(st[|st| - 1].Size())
  }

  ghost function Max0(x: int): nat { if x < 0 then 0 else x }

  lemma WorkPush(st: seq<Interval>, x: Interval)
    ensures Work(st + [x]) == Work(st) + 1 + 2 * Max0(x.Size())
  {
    assert (st + [x])[..|st|] == st;
  }

  /** The state between two rounds: f rearranges start, and exactly the pairs inside one interval of
      the stack may still be out of order. */
  ghost predicate Running(start: seq<int>, f: seq<int>, key: seq<int>, st: seq<Interval>, lo: int, hi: int) {
    && Indexes(f, lo, hi + 1, 0, |key|)
    && Rearranged(start, f, lo, hi + 1)
    && Disjoint(st) && Within(st, lo, hi + 1) && Halving(st, hi - lo + 1)
    && SortedOutside(key, f, st, lo, hi + 1)
  }

  /** fallbackQSort3: sorts fmap[loSt..hiSt] by class. The pivot choice is a linear congruential
      sequence; the larger part is pushed first, which is what keeps the stack below its limit
      (assertion 1004) for every 32-bit slice. */
  method FallbackQSort3(fmap: array<int>, eclass: seq<int>, loSt: int, hiSt: int)
    requires Indexes(fmap[..], loSt, hiSt + 1, 0, |eclass|) && loSt <= hiSt
    requires hiSt - loSt <= INT32_MAX
    modifies fmap
    ensures Rearranged(old(fmap[..]), fmap[..], loSt, hiSt + 1)
    ensures Indexes(fmap[..], loSt, hiSt + 1, 0, |eclass|)
    ensures SortedBy(eclass, fmap[..], loSt, hiSt + 1)
  {
    hide Running, Work, Split3, Indexes, SortedBy, Rearranged;
    ghost var start := fmap[..];
    StartStack(start, eclass, loSt, hiSt);
    var stackLo := new int[FALLBACK_QSORT_STACK_SIZE];
    var stackHi := new int[FALLBACK_QSORT_STACK_SIZE];
    var r, sp := 0, 0;
    stackLo[sp], stackHi[sp] := loSt, hiSt;
    sp := sp + 1;
    ghost var st := [Interval(loSt, hiSt, 0)];

    while sp > 0
      invariant 0 <= r < 32768 && 0 <= sp == |st| <= 31
      invariant forall k | 0 <= k < sp :: stackLo[k] == st[k].lo && stackHi[k] == st[k].hi
      invariant Running(start, fmap[..], eclass, st, loSt, hiSt)
      decreases Work(st)
    {
      assert sp < FALLBACK_QSORT_STACK_SIZE - 1;   // assertion 1004
      sp := sp - 1;
      var lo, hi := stackLo[sp], stackHi[sp];
      ghost var rest, x := st[..sp], st[sp];
      assert st == rest + [x];
      st := rest;
      ghost var f := fmap[..];
      TopSlot(start, f, eclass, rest, x, loSt, hiSt);
      if hi - lo < FALLBACK_QSORT_SMALL_THRESH {
        FallbackSimpleSort(fmap, eclass, lo, hi);
        SlotSorted(start, f, fmap[..], eclass, rest, x, loSt, hiSt);
        continue;
      }
      r := (r * 7621 + 1) % 32768;
      var r3 := r % 3;
      PivotInside(f, eclass, lo, hi);
      var med := if r3 == 0 then eclass[fmap[lo]]
                 else if r3 == 1 then eclass[fmap[(lo + hi) / 2]]
                 else eclass[fmap[hi]];
      var allEqual, n, m := Partition3(fmap, eclass, 0, lo, hi, med);
      if allEqual {
        AllEqualSorted(fmap[..], eclass, lo, hi, med);
        SlotSorted(start, f, fmap[..], eclass, rest, x, loSt, hiSt);
        continue;
      }
      SplitSlot(start, f, fmap[..], eclass, med, rest, x, n, m, loSt, hiSt);
      if n - lo > hi - m {
        stackLo[sp], stackHi[sp] := lo, n;
        sp := sp + 1;
        stackLo[sp], stackHi[sp] := m, hi;
        sp := sp + 1;
        st := rest + [Interval(lo, n, 0), Interval(m, hi, 0)];
      } else {
        stackLo[sp], stackHi[sp] := m, hi;
        sp := sp + 1;
        stackLo[sp], stackHi[sp] := lo, n;
        sp := sp + 1;
        st := rest + [Interval(m, hi, 0), Interval(lo, n, 0)];
      }
    }
    assert st == [];
    NothingLeft(start, fmap[..], eclass, loSt, hiSt);
  }

  lemma StartStack(f: seq<int>, key: seq<int>, lo: int, hi: int)
    requires Indexes(f, lo, hi + 1, 0, |key|) && lo <= hi
    ensures Running(f, f, key, [Interval(lo, hi, 0)], lo, hi)
  {
    var st := [Interval(lo, hi, 0)];
    forall a, c | lo <= a < c < hi + 1 ensures Covered(st, a, c) {
      assert st[0].lo <= a && c <= st[0].hi;
    }
    assert Pow2(0) == 1;
  }

  lemma NothingLeft(start: seq<int>, f: seq<int>, key: seq<int>, lo: int, hi: int)
    requires Running(start, f, key, [], lo, hi)
    ensures Rearranged(start, f, lo, hi + 1) && Indexes(f, lo, hi + 1, 0, |key|)
    ensures SortedBy(key, f, lo, hi + 1)
  {
    NothingPending(key, f, lo, hi + 1);
  }

  lemma TopSlot(start: seq<int>, f: seq<int>, key: seq<int>, rest: seq<Interval>, x: Interval, loSt: int, hiSt: int)
    requires Running(start, f, key, rest + [x], loSt, hiSt)
    ensures loSt <= x.lo <= x.hi + 1 <= hiSt + 1
    ensures Indexes(f, x.lo, x.hi + 1, 0, |key|)
  {
    assert (rest + [x])[|rest|] == x;
  }

  lemma PivotInside(f: seq<int>, key: seq<int>, lo: int, hi: int)
    requires Indexes(f, lo, hi + 1, 0, |key|) && lo <= hi
    ensures forall i | lo <= i <= hi :: 0 <= i < |f| && 0 <= f[i] < |key|
  {
  }

  /** A sorted slot may be dropped from the stack. */
  lemma SlotSorted(start: seq<int>, f: seq<int>, g: seq<int>, key: seq<int>, rest: seq<Interval>, x: Interval,
                   loSt: int, hiSt: int)
    requires Running(start, f, key, rest + [x], loSt, hiSt)
    requires loSt <= x.lo <= x.hi + 1 <= hiSt + 1
    requires Rearranged(f, g, x.lo, x.hi + 1) && Indexes(g, x.lo, x.hi + 1, 0, |key|)
    requires SortedBy(key, g, x.lo, x.hi + 1)
    ensures Running(start, g, key, rest, loSt, hiSt)
    ensures Work(rest) < Work(rest + [x])
  {
    hide Rearranged, Covered, Work;
    RearrangedWiden(f, g, x.lo, x.hi + 1, loSt, hiSt + 1);
    RearrangedTrans(start, f, g, loSt, hiSt + 1);
    RearrangedIndexes(f, g, loSt, hiSt + 1, 0, |key|);
    RefineTop(key, f, g, rest, x, [], loSt, hiSt + 1);
    assert rest + [] == rest;
    WorkPush(rest, x);
    HalvingPop(rest, x, hiSt - loSt + 1);
  }

  lemma HalvingPop(rest: seq<Interval>, x: Interval, total: int)
    requires Halving(rest + [x], total)
    ensures Halving(rest, total)
  {
    forall k | 0 <= k < |rest| ensures 0 <= rest[k].Size() && rest[k].Size() * Pow2(k) <= total {
      assert (rest + [x])[k] == rest[k];
    }
  }

  lemma AllEqualSorted(g: seq<int>, key: seq<int>, lo: int, hi: int, med: int)
    requires Indexes(g, lo, hi + 1, 0, |key|)
    requires forall i | lo <= i <= hi :: key[g[i] + 0] == med
    ensures SortedBy(key, g, lo, hi + 1)
  {
  }

  /** The pivot itself is one of the entries, so the middle band is not empty. */
  lemma MiddleNotEmpty(f: seq<int>, g: seq<int>, key: seq<int>, med: int, lo: int, n: int, m: int, hi: int)
    requires Split3(f, g, key, 0, med, lo, n, m, hi) && Indexes(f, lo, hi + 1, 0, |key|)
    requires exists i | lo <= i <= hi :: key[f[i]] == med
    ensures lo <= n + 1 < m <= hi + 1 && Rearranged(f, g, lo, hi + 1)
  {
    var i :| lo <= i <= hi && key[f[i]] == med;
    RearrangedBack(f, g, lo, hi + 1);
    var j := RearrangedMember(g, f, lo, hi + 1, i);
  }

  /** Both parts of a split slot go on the stack, the larger one below the smaller. */
  lemma SplitSlot(start: seq<int>, f: seq<int>, g: seq<int>, key: seq<int>, med: int, rest: seq<Interval>, x: Interval,
                  n: int, m: int, loSt: int, hiSt: int)
    requires Running(start, f, key, rest + [x], loSt, hiSt) && hiSt - loSt <= INT32_MAX
    requires loSt <= x.lo <= x.hi + 1 <= hiSt + 1 && x.Size() > FALLBACK_QSORT_SMALL_THRESH
    requires Split3(f, g, key, 0, med, x.lo, n, m, x.hi)
    requires Indexes(f, x.lo, x.hi + 1, 0, |key|)
    requires exists i | x.lo <= i <= x.hi :: key[f[i]] == med
    ensures |rest| < 28
    ensures var left, right := Interval(x.lo, n, 0), Interval(m, x.hi, 0);
            var st := rest + (if n - x.lo > x.hi - m then [left, right] else [right, left]);
            Running(start, g, key, st, loSt, hiSt) && Work(st) < Work(rest + [x])
  {
    hide Running, Rearranged, Indexes, Split3, Disjoint, Within, SortedOutside, Work;
    var left, right := Interval(x.lo, n, 0), Interval(m, x.hi, 0);
    MiddleNotEmpty(f, g, key, med, x.lo, n, m, x.hi);
    SplitSorted(f, g, key, med, x, left, right, true);
    SplitSorted(f, g, key, med, x, left, right, false);
    if n - x.lo > x.hi - m {
      PushTwo(start, f, g, key, rest, x, left, right, loSt, hiSt);
    } else {
      PushTwo(start, f, g, key, rest, x, right, left, loSt, hiSt);
    }
  }

  lemma PushTwo(start: seq<int>, f: seq<int>, g: seq<int>, key: seq<int>, rest: seq<Interval>, x: Interval,
                big: Interval, small: Interval, loSt: int, hiSt: int)
    requires Running(start, f, key, rest + [x], loSt, hiSt) && hiSt - loSt <= INT32_MAX
    requires loSt <= x.lo <= x.hi + 1 <= hiSt + 1 && x.Size() > FALLBACK_QSORT_SMALL_THRESH
    requires 0 <= small.Size() <= big.Size() && big.Size() + small.Size() < x.Size()
    requires Rearranged(f, g, x.lo, x.hi + 1) && Indexes(g, x.lo, x.hi + 1, 0, |key|)
    requires Disjoint([big, small]) && Within([big, small], x.lo, x.hi + 1)
    requires SortedOutside(key, g, [big, small], x.lo, x.hi + 1)
    ensures |rest| < 28
    ensures Running(start, g, key, rest + [big, small], loSt, hiSt)
    ensures Work(rest + [big, small]) < Work(rest + [x])
  {
    hide Rearranged, Indexes, Halving, Work, Covered, Within, Disjoint, SortedOutside;
    IndexesAt(f, loSt, hiSt + 1, 0, |key|);
    RearrangedWiden(f, g, x.lo, x.hi + 1, loSt, hiSt + 1);
    RearrangedTrans(start, f, g, loSt, hiSt + 1);
    RearrangedIndexes(f, g, loSt, hiSt + 1, 0, |key|);
    RefineTop(key, f, g, rest, x, [big, small], loSt, hiSt + 1);
    HalvingDepth(rest, x, hiSt - loSt + 1);
    HalvingPush(rest, x, big, small, hiSt - loSt + 1);
    WorkPush(rest, x);
    WorkPush(rest, big);
    WorkPush(rest + [big], small);
    assert rest + [big, small] == rest + [big] + [small];
  }

  /** After the partition only pairs inside one part may be out of order. */
  lemma SplitSorted(f: seq<int>, g: seq<int>, key: seq<int>, med: int, x: Interval, left: Interval, right: Interval,
                    leftFirst: bool)
    requires Split3(f, g, key, 0, med, x.lo, left.hi, right.lo, x.hi)
    requires x.lo == left.lo <= left.hi + 1 < right.lo <= right.hi + 1 == x.hi + 1
    ensures Indexes(g, x.lo, x.hi + 1, 0, |key|)
    ensures var js := if leftFirst then [left, right] else [right, left];
            Disjoint(js) && Within(js, x.lo, x.hi + 1) && SortedOutside(key, g, js, x.lo, x.hi + 1)
  {
    var js := if leftFirst then [left, right] else [right, left];
    forall a, c | x.lo <= a < c < x.hi + 1 ensures Covered(js, a, c) || key[g[a]] <= key[g[c]] {
      assert g[a] + 0 == g[a] && g[c] + 0 == g[c];
      if (js[0].lo <= a && c <= js[0].hi) || (js[1].lo <= a && c <= js[1].hi) {
        assert Covered(js, a, c);
      }
    }
  }
}
